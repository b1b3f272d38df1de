/** Employee records, their comma-separated leave lists, and the padding of a
    record with empty day fields that both table variants do before rendering. */
module Employees {
  import opened Text

  /** An employee as the data source supplies it; `leaves` lists day keys. */
  datatype Employee = Employee(id: int, name: string, leaves: string)

  /** A record after padding: the employee's own fields plus day fields. */
  datatype Row = Row(id: int, name: string, leaves: string, days: map<string, string>)

  /** `leaves.split(",").map(day => day.trim())`. */
  function LeaveTokens(leaves: string): (r: seq<string>)
    ensures |r| == |Split(leaves, ',')| >= 1
  {
    TrimAll(Split(leaves, ','))
  }

  /** `parts.map(day => day.trim())`. */
  function TrimAll(parts: seq<string>): (r: seq<string>)
    ensures |r| == |parts|
  {
    seq(|parts|, i requires 0 <= i < |parts| => Trim(parts[i]))
  }

  /** `leaveDays.includes(key)`. */
  predicate IsLeaveDay(key: string, leaves: string) {
    key in LeaveTokens(leaves)
  }

  /** The leave tokens of `a + "," + b` are those of `a` followed by those of `b`. */
  lemma LeaveTokensAppend(a: string, b: string)
    ensures LeaveTokens(a + [','] + b) == LeaveTokens(a) + LeaveTokens(b)
  {
    SplitAppend(a, b, ',');
    TrimAllAppend(Split(a, ','), Split(b, ','));
  }

  lemma TrimAllAppend(pa: seq<string>, pb: seq<string>)
    ensures TrimAll(pa + pb) == TrimAll(pa) + TrimAll(pb)
  {
    var r, ra, rb := TrimAll(pa + pb), TrimAll(pa), TrimAll(pb);
    forall i | 0 <= i < |r| ensures r[i] == (ra + rb)[i] {
      if i >= |pa| {
        assert r[i] == rb[i - |pa|];
      }
    }
  }

  /** An empty leave list splits to one empty token, which matches no key. */
  lemma EmptyLeaves(key: string)
    requires key != ""
    ensures LeaveTokens("") == [""]
    ensures !IsLeaveDay(key, "")
  {
    var r := LeaveTokens("");
    assert |r| == 1 && r[0] == "";
  }

  /** Appending a token whose trimmed text is not `key` leaves `key`'s status as
      it was; appending one that trims to `key` marks it. */
  lemma AppendToken(key: string, leaves: string, tok: string)
    requires ',' !in tok
    ensures Trim(tok) != key ==> (IsLeaveDay(key, leaves + [','] + tok) <==> IsLeaveDay(key, leaves))
    ensures Trim(tok) == key ==> IsLeaveDay(key, leaves + [','] + tok)
  {
    LeaveTokensAppend(leaves, tok);
    assert LeaveTokens(tok) == [Trim(tok)] by {
      SplitNoSeparatorSingle(tok);
    }
  }

  lemma {:induction false} SplitNoSeparatorSingle(s: string)
    requires ',' !in s
    ensures Split(s, ',') == [s]
  {
    if s != [] {
      assert s[0] != ',';
      SplitNoSeparatorSingle(s[1..]);
      assert [s[0]] + s[1..] == s;
    }
  }

  lemma SingleToken(s: string)
    requires ',' !in s
    ensures LeaveTokens(s) == [Trim(s)]
  {
    SplitNoSeparatorSingle(s);
    var r := LeaveTokens(s);
    assert |r| == 1 && r[0] == Trim(s);
  }

  // The example's literals come in as parameters that a `requires` fixes, so
  // that the verifier does not unfold `Split`, `Trim` or the date arithmetic
  // on them eagerly; the example lemmas below all take their literals so.
  /** The list "05, 12" marks days 05 and 12 and no other. */
  lemma ExampleLeaves(leaves: string)
    requires leaves == "05, 12"
    ensures LeaveTokens(leaves) == ["05", "12"]
    ensures IsLeaveDay("05", leaves) && IsLeaveDay("12", leaves)
    ensures !IsLeaveDay("01", leaves)
  {
    ExampleTokens(leaves);
    assert "01"[1] != "05"[1] && "01"[0] != "12"[0];
  }

  lemma ExampleTokens(leaves: string)
    requires leaves == "05, 12"
    ensures LeaveTokens(leaves) == ["05", "12"]
  {
    var a, b := leaves[..2], leaves[3..];
    assert leaves == a + [','] + b;
    LeaveTokensAppend(a, b);
    PlainToken(a);
    ExampleSecondToken(b);
    assert a == "05" && b[1..] == "12";
  }

  /** A comma-free piece without white space at its ends is one token, itself. */
  lemma PlainToken(a: string)
    requires ',' !in a && a != [] && !IsSpace(a[0]) && !IsSpace(a[|a| - 1])
    ensures LeaveTokens(a) == [a]
  {
    SingleToken(a);
    TrimNoop(a);
  }

  lemma ExampleSecondToken(b: string)
    requires b == " 12"
    ensures LeaveTokens(b) == [b[1..]]
  {
    SingleToken(b);
    assert TrimStart(b) == b[1..];
    TrimNoop(b[1..]);
  }

  /** The keys of days `lo` to `hi`. */
  function DayKeys(lo: int, hi: int): set<string> {
    set d: nat | lo <= d <= hi :: DayKey(d)
  }

  /** Extending the range by its next day adds that day's key. */
  lemma DayKeysStep(lo: nat, hi: nat)
    requires lo <= hi
    ensures DayKeys(lo, hi) == DayKeys(lo, hi - 1) + {DayKey(hi)}
  {
    assert DayKey(hi) in DayKeys(lo, hi);
    forall x | x in DayKeys(lo, hi) ensures x in DayKeys(lo, hi - 1) + {DayKey(hi)} {
      var d: nat :| lo <= d <= hi && DayKey(d) == x;
      if d < hi {
        assert x in DayKeys(lo, hi - 1);
      }
    }
  }

  lemma DayKeysEmpty(lo: int, hi: int)
    requires hi < lo
    ensures DayKeys(lo, hi) == {}
  {
  }

  lemma {:induction false} DayKeysCount(lo: nat, hi: int)
    requires lo <= hi + 1 && hi < 100
    ensures |DayKeys(lo, hi)| == hi - lo + 1
    decreases hi - lo
  {
    if lo <= hi {
      DayKeysCount(lo, hi - 1);
      DayKeysStep(lo, hi);
      if DayKey(hi) in DayKeys(lo, hi - 1) {
        var d: nat :| lo <= d <= hi - 1 && DayKey(d) == DayKey(hi);
        DayKeyInjective(d, hi);
      }
    } else {
      DayKeysEmpty(lo, hi);
    }
  }

  /** The loop body of `formatTableData`: copy the employee and set the fields
      for days `lo` to `hi` to "". */
  method PadDays(e: Employee, lo: nat, hi: nat) returns (r: Row)
    ensures r.id == e.id && r.name == e.name && r.leaves == e.leaves
    ensures r.days.Keys == DayKeys(lo, hi)
    ensures forall k | k in r.days :: r.days[k] == ""
  {
    var days: map<string, string> := map[];
    var day := lo;
    while day <= hi
      invariant lo <= day <= if lo <= hi then hi + 1 else lo
      invariant days.Keys == DayKeys(lo, day - 1)
      invariant forall k | k in days :: days[k] == ""
    {
      PadStep(days, lo, day, days[DayKey(day) := ""]);
      days := days[DayKey(day) := ""];
      day := day + 1;
    }
    if lo > hi {
      DayKeysEmpty(lo, hi);
      DayKeysEmpty(lo, lo - 1);
    }
    r := Row(e.id, e.name, e.leaves, days);
  }

  lemma PadStep(days: map<string, string>, lo: nat, day: nat, next: map<string, string>)
    requires lo <= day && days.Keys == DayKeys(lo, day - 1)
    requires forall k | k in days :: days[k] == ""
    requires next == days[DayKey(day) := ""]
    ensures next.Keys == DayKeys(lo, day)
    ensures forall k | k in next :: next[k] == ""
  {
    DayKeysStep(lo, day);
  }

  /** `data.map(...)` over all employees: one padded row per employee, in order. */
  method FormatRows(data: seq<Employee>, lo: nat, hi: nat) returns (rows: seq<Row>)
    ensures |rows| == |data|
    ensures forall i | 0 <= i < |data| ::
      rows[i].id == data[i].id && rows[i].name == data[i].name && rows[i].leaves == data[i].leaves
    ensures forall i | 0 <= i < |data| :: rows[i].days.Keys == DayKeys(lo, hi)
    ensures forall i, k | 0 <= i < |data| && k in rows[i].days :: rows[i].days[k] == ""
  {
    rows := [];
    var i := 0;
    while i < |data|
      invariant 0 <= i <= |data| && |rows| == i
      invariant forall j | 0 <= j < i ::
        rows[j].id == data[j].id && rows[j].name == data[j].name && rows[j].leaves == data[j].leaves
      invariant forall j | 0 <= j < i :: rows[j].days.Keys == DayKeys(lo, hi)
      invariant forall j, k | 0 <= j < i && k in rows[j].days :: rows[j].days[k] == ""
    {
      var row := PadDays(data[i], lo, hi);
      rows := rows + [row];
      i := i + 1;
    }
  }
}
