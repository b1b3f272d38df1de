/** The range-based attendance grid: one column per distinct day key met while
    walking from a start date to an end date, whose cells read "A" on leave
    days and are empty otherwise. */
module RangeTable {
  import opened Calendar
  import opened Text
  import opened Employees

  /** A grid column; a day column keeps the day key its cell renderer captured. */
  datatype Column = IdColumn | NameColumn | DayColumn(key: string)

  /** The column id the table library derives from the accessor. */
  function ColumnId(c: Column): string {
    match c
    case IdColumn => "id"
    case NameColumn => "name"
    case DayColumn(key) => key
  }

  /** The cell renderer of a day column: "A" on a leave day, empty otherwise. */
  function CellText(c: Column, leaves: string): (r: string)
    requires c.DayColumn?
    ensures r == "A" <==> IsLeaveDay(c.key, leaves)
    ensures r == "" <==> !IsLeaveDay(c.key, leaves)
  {
    if IsLeaveDay(c.key, leaves) then "A" else ""
  }

  /** How many times the loop body runs: the days from `start` to `end`
      inclusive, none when `end` is earlier. */
  function RangeLength(start: Date, end: Date): (n: nat)
    requires Valid(start) && Valid(end)
    ensures n == 0 <==> DayNumber(end) < DayNumber(start)
    ensures n > 0 ==> DayNumber(start) + n - 1 == DayNumber(end)
  {
    if DayNumber(end) < DayNumber(start) then 0 else DayNumber(end) - DayNumber(start) + 1
  }

  /** `dates` are the successive days from `start`: entry `j` is a real date
      whose day number is `j` past that of `start`. */
  predicate IsWalk(start: Date, dates: seq<Date>) {
    && Valid(start)
    && forall j | 0 <= j < |dates| :: Valid(dates[j]) && DayNumber(dates[j]) == DayNumber(start) + j
  }

  /** The first `n` dates the loop visits: `startDate`, then one `setDate(getDate() + 1)`
      after another; the walk is the one sequence of dates with those day numbers. */
  ghost function Walk(start: Date, n: nat): (r: seq<Date>)
    requires Valid(start)
    ensures |r| == n && IsWalk(start, r)
  {
    WalkExists(start, n);
    var r :| |r| == n && IsWalk(start, r); r
  }

  /** The dates `Advance(start, 0)`, ..., `Advance(start, n - 1)` form a walk. */
  lemma WalkExists(start: Date, n: nat)
    requires Valid(start)
    ensures exists r :: |r| == n && IsWalk(start, r)
  {
    var r := seq(n, j requires 0 <= j < n => Advance(start, j));
    assert |r| == n && IsWalk(start, r);
  }

  /** A walk grows by the date one day past its end. */
  lemma WalkAppend(start: Date, dates: seq<Date>, d: Date)
    requires IsWalk(start, dates) && Valid(d) && DayNumber(d) == DayNumber(start) + |dates|
    ensures IsWalk(start, dates + [d])
  {
    assert forall j | 0 <= j < |dates| :: (dates + [d])[j] == dates[j];
  }

  /** A walk from `start` is determined by its length. */
  lemma WalkUnique(start: Date, dates: seq<Date>)
    requires Valid(start) && IsWalk(start, dates)
    ensures dates == Walk(start, |dates|)
  {
    var w := Walk(start, |dates|);
    forall j | 0 <= j < |dates| ensures dates[j] == w[j] {
      DayNumberInjective(dates[j], w[j]);
    }
  }

  /** `currentDate.getDate().toString().padStart(2, "0")` for each date. */
  function KeysOf(dates: seq<Date>): (r: seq<string>)
    requires forall j | 0 <= j < |dates| :: Valid(dates[j])
    ensures |r| == |dates|
  {
    seq(|dates|, j requires 0 <= j < |dates| && Valid(dates[j]) => DayKey(dates[j].day))
  }

  lemma KeysOfAppend(dates: seq<Date>, d: Date)
    requires forall j | 0 <= j < |dates| :: Valid(dates[j])
    requires Valid(d)
    ensures KeysOf(dates + [d]) == KeysOf(dates) + [DayKey(d.day)]
  {
    assert forall j | 0 <= j < |dates| :: (dates + [d])[j] == dates[j];
  }

  /** The keys of `s` with every repetition dropped, each at its first place. */
  function Dedup(s: seq<string>): seq<string> {
    if s == [] then []
    else
      var p := Dedup(s[..|s| - 1]);
      if s[|s| - 1] in p then p else p + [s[|s| - 1]]
  }

  /** One day column per key, in order. */
  function KeyColumns(keys: seq<string>): (r: seq<Column>)
    ensures |r| == |keys|
    ensures forall i | 0 <= i < |keys| :: r[i] == DayColumn(keys[i])
  {
    seq(|keys|, i requires 0 <= i < |keys| => DayColumn(keys[i]))
  }

  /** The grid for the dates of a walk. */
  function WalkColumns(dates: seq<Date>): seq<Column>
    requires forall j | 0 <= j < |dates| :: Valid(dates[j])
  {
    [IdColumn, NameColumn] + KeyColumns(Dedup(KeysOf(dates)))
  }

  /** What `generateDateColumns(startDate, endDate)` returns. */
  ghost function RangeColumns(start: Date, end: Date): seq<Column>
    requires Valid(start) && Valid(end)
  {
    WalkColumns(Walk(start, RangeLength(start, end)))
  }

  /** `generateDateColumns(startDate, endDate)`: walk from `startDate` while
      `currentDate <= endDate`, adding a column for each key not seen before. */
  method GenerateDateColumns(startDate: Date, endDate: Date) returns (columns: seq<Column>)
    requires Valid(startDate) && Valid(endDate)
    ensures columns == RangeColumns(startDate, endDate)
  {
    columns := [IdColumn, NameColumn];
    var existingColumnHeaders: set<string> := {};
    ghost var dates: seq<Date> := [];
    ghost var keys: seq<string> := [];
    ghost var n := RangeLength(startDate, endDate);
    var currentDate := startDate;
    while DayNumber(currentDate) <= DayNumber(endDate)
      invariant |dates| <= n && IsWalk(startDate, dates)
      invariant Valid(currentDate) && DayNumber(currentDate) == DayNumber(startDate) + |dates|
      invariant keys == Dedup(KeysOf(dates))
      invariant columns == [IdColumn, NameColumn] + KeyColumns(keys)
      invariant forall k :: k in existingColumnHeaders <==> k in KeysOf(dates)
      decreases DayNumber(endDate) - DayNumber(currentDate)
    {
      var dateKey := DayKey(currentDate.day);
      KeysOfAppend(dates, currentDate);
      DedupAppend(KeysOf(dates), dateKey);
      if dateKey !in existingColumnHeaders {
        KeyColumnsAppend(keys, dateKey);
        AppendAssoc([IdColumn, NameColumn], KeyColumns(keys), DayColumn(dateKey));
        columns := columns + [DayColumn(dateKey)];
        keys := keys + [dateKey];
        existingColumnHeaders := existingColumnHeaders + {dateKey};
      }
      WalkAppend(startDate, dates, currentDate);
      dates := dates + [currentDate];
      currentDate := SetDate(currentDate, currentDate.day + 1);
    }
    RangeOfWalk(startDate, endDate, dates);
  }

  /** The grid of any walk as long as the range is the grid of the range. */
  lemma RangeOfWalk(start: Date, end: Date, dates: seq<Date>)
    requires Valid(start) && Valid(end) && IsWalk(start, dates) && |dates| == RangeLength(start, end)
    ensures WalkColumns(dates) == RangeColumns(start, end)
  {
    WalkUnique(start, dates);
  }

  lemma KeyColumnsAppend(keys: seq<string>, k: string)
    ensures KeyColumns(keys + [k]) == KeyColumns(keys) + [DayColumn(k)]
  {
  }

  lemma AppendAssoc(front: seq<Column>, cols: seq<Column>, c: Column)
    ensures front + cols + [c] == front + (cols + [c])
  {
  }

  /** Dedup of a longer input: a new key is appended, a seen one is dropped. */
  lemma DedupAppend(s: seq<string>, x: string)
    ensures Dedup(s + [x]) == if x in s then Dedup(s) else Dedup(s) + [x]
  {
    assert (s + [x])[..|s|] == s;
    DedupElems(s, x);
  }

  /** Dedup keeps exactly the keys of its input. */
  lemma {:induction false} DedupElems(s: seq<string>, x: string)
    ensures x in Dedup(s) <==> x in s
    decreases |s|
  {
    if s != [] {
      var p := s[..|s| - 1];
      DedupElems(p, x);
      assert s == p + [s[|s| - 1]];
    }
  }

  /** No key is repeated in the output of Dedup. */
  predicate Distinct(s: seq<string>) {
    forall i, j | 0 <= i < j < |s| :: s[i] != s[j]
  }

  lemma {:induction false} DedupDistinct(s: seq<string>)
    ensures Distinct(Dedup(s))
    ensures |Dedup(s)| <= |s|
    decreases |s|
  {
    if s != [] {
      DedupDistinct(s[..|s| - 1]);
    }
  }

  /** An input without repetitions passes Dedup unchanged, and only such an input. */
  lemma {:induction false} DedupOfDistinct(s: seq<string>)
    ensures Dedup(s) == s <==> Distinct(s)
    decreases |s|
  {
    DedupDistinct(s);
    if s != [] && Distinct(s) {
      var p := s[..|s| - 1];
      assert Distinct(p);
      DedupOfDistinct(p);
    }
  }

  /** The place of the first occurrence of `x` in `s`. */
  function FirstIndex(s: seq<string>, x: string): (r: nat)
    requires x in s
    ensures r < |s| && s[r] == x && x !in s[..r]
  {
    if s[0] == x then 0 else 1 + FirstIndex(s[1..], x)
  }

  lemma {:induction false} FirstIndexPrefix(p: seq<string>, y: string, x: string)
    requires x in p
    ensures FirstIndex(p + [y], x) == FirstIndex(p, x)
    decreases |p|
  {
    if p[0] != x {
      assert (p + [y])[1..] == p[1..] + [y];
      FirstIndexPrefix(p[1..], y, x);
    }
  }

  /** Dedup lists the keys in the order in which they first occur. */
  lemma {:induction false} DedupOrder(s: seq<string>, i: nat, j: nat)
    requires i < j < |Dedup(s)|
    ensures Dedup(s)[i] in s && Dedup(s)[j] in s
    ensures FirstIndex(s, Dedup(s)[i]) < FirstIndex(s, Dedup(s)[j])
    decreases |s|
  {
    var r := Dedup(s);
    var p := s[..|s| - 1];
    var x := s[|s| - 1];
    assert s == p + [x];
    DedupElems(s, r[i]);
    DedupElems(s, r[j]);
    DedupElems(p, r[i]);
    DedupElems(p, x);
    if j < |Dedup(p)| {
      DedupElems(p, r[j]);
      DedupOrder(p, i, j);
      FirstIndexPrefix(p, x, r[i]);
      FirstIndexPrefix(p, x, r[j]);
    } else {
      FirstIndexPrefix(p, x, r[i]);
      assert r[j] == x && x !in p;
    }
  }

  /** Every walked date lies in some month, so its key is one of "01" to "31". */
  lemma KeysInRange(dates: seq<Date>)
    requires forall j | 0 <= j < |dates| :: Valid(dates[j])
    ensures forall x | x in KeysOf(dates) :: x in DayKeys(1, 31)
  {
    var keys := KeysOf(dates);
    forall j | 0 <= j < |dates| ensures keys[j] in DayKeys(1, 31) {
      DaysInMonthValues(dates[j].year, dates[j].month);
      var day: nat := dates[j].day;
      assert keys[j] == DayKey(day) && 1 <= day <= 31;
    }
  }

  /** A sequence of distinct keys drawn from a set is no longer than the set. */
  lemma {:induction false} DistinctBound(s: seq<string>, keys: set<string>)
    requires Distinct(s) && forall x | x in s :: x in keys
    ensures |s| <= |keys|
    decreases |s|
  {
    if s != [] {
      var x := s[|s| - 1];
      var p := s[..|s| - 1];
      assert forall y | y in p :: y in keys - {x} by {
        forall y | y in p ensures y in keys - {x} {
          var j :| 0 <= j < |p| && p[j] == y;
          assert s[j] == y;
        }
      }
      DistinctBound(p, keys - {x});
    }
  }

  /** There are never more day columns than days walked, nor more than 31. */
  lemma RangeColumnsBound(start: Date, end: Date)
    requires Valid(start) && Valid(end)
    ensures |RangeColumns(start, end)| - 2 <= RangeLength(start, end)
    ensures |RangeColumns(start, end)| - 2 <= 31
  {
    var keys := KeysOf(Walk(start, RangeLength(start, end)));
    DedupDistinct(keys);
    KeysInRange(Walk(start, RangeLength(start, end)));
    forall x | x in Dedup(keys) ensures x in DayKeys(1, 31) {
      DedupElems(keys, x);
    }
    DistinctBound(Dedup(keys), DayKeys(1, 31));
    DayKeysCount(1, 31);
  }

  /** A walk longer than 31 days meets some key twice, and the later date gets
      no column: the pass that visits it leaves the grid as it was, so the grid
      has fewer day columns than the range has days. */
  lemma LongRangeCollapses(start: Date, end: Date)
    requires Valid(start) && Valid(end) && RangeLength(start, end) > 31
    ensures |RangeColumns(start, end)| - 2 < RangeLength(start, end)
    ensures var keys := KeysOf(Walk(start, RangeLength(start, end)));
      exists i, j | 0 <= i < j < |keys| ::
        keys[i] == keys[j] && Dedup(keys[..j + 1]) == Dedup(keys[..j])
  {
    RangeColumnsBound(start, end);
    var keys := KeysOf(Walk(start, RangeLength(start, end)));
    if Distinct(keys) {
      DedupOfDistinct(keys);
      assert false;
    }
    var i, j :| 0 <= i < j < |keys| && keys[i] == keys[j];
    RepeatAddsNothing(keys, i, j);
  }

  /** A key met before adds nothing to the keys Dedup has kept so far. */
  lemma RepeatAddsNothing(keys: seq<string>, i: nat, j: nat)
    requires i < j < |keys| && keys[i] == keys[j]
    ensures Dedup(keys[..j + 1]) == Dedup(keys[..j])
  {
    assert keys[..j + 1] == keys[..j] + [keys[j]];
    assert keys[..j][i] == keys[j];
    DedupAppend(keys[..j], keys[j]);
  }

  /** With an empty leave list every day cell of the grid is empty. */
  lemma EmptyLeavesRow(start: Date, end: Date)
    requires Valid(start) && Valid(end)
    ensures var cols := RangeColumns(start, end);
      forall i | 2 <= i < |cols| :: cols[i].DayColumn? && CellText(cols[i], "") == ""
  {
    var cols := RangeColumns(start, end);
    ColumnKeysPadded(start, end);
    forall i | 2 <= i < |cols| ensures cols[i].DayColumn? && CellText(cols[i], "") == "" {
      var d: nat :| 0 <= d <= 31 && DayKey(d) == cols[i].key;
      DayKeyDigits(d);
      EmptyLeaves(cols[i].key);
    }
  }

  /** Appending a comma-free token to the leave list marks exactly the column
      whose key the token trims to, and leaves every other cell as it was. */
  lemma AppendedTokenCells(start: Date, end: Date, leaves: string, tok: string)
    requires Valid(start) && Valid(end) && ',' !in tok
    ensures var cols := RangeColumns(start, end);
      forall i | 2 <= i < |cols| :: cols[i].DayColumn? &&
        CellText(cols[i], leaves + [','] + tok)
        == if Trim(tok) == cols[i].key then "A" else CellText(cols[i], leaves)
  {
    var cols := RangeColumns(start, end);
    forall i | 2 <= i < |cols|
      ensures cols[i].DayColumn? &&
        CellText(cols[i], leaves + [','] + tok)
        == if Trim(tok) == cols[i].key then "A" else CellText(cols[i], leaves)
    {
      AppendToken(cols[i].key, leaves, tok);
    }
  }

  /** The `n` days of the month of `start` from `start` on. */
  function DaysFrom(start: Date, n: nat): (r: seq<Date>)
    ensures |r| == n
  {
    seq(n, j requires 0 <= j < n => Date(start.year, start.month, start.day + j))
  }

  /** Inside one month, the days from `start` on form a walk. */
  lemma InMonthWalk(start: Date, n: nat)
    requires Valid(start) && start.day + n - 1 <= DaysInMonth(start.year, start.month)
    ensures IsWalk(start, DaysFrom(start, n))
  {
  }

  /** The keys of `n` successive days of one month from day `first` on. */
  function DayKeysFrom(first: nat, n: nat): (r: seq<string>)
    ensures |r| == n
  {
    seq(n, j requires 0 <= j < n => DayKey(first + j))
  }

  /** Inside one month the keys of the walk are the successive day numbers
      zero-padded... */
  lemma InMonthKeys(start: Date, n: nat)
    requires Valid(start) && start.day + n - 1 <= DaysInMonth(start.year, start.month)
    ensures KeysOf(DaysFrom(start, n)) == DayKeysFrom(start.day, n)
  {
  }

  /** ...all different, so Dedup keeps them all. */
  lemma {:induction false} DayKeysFromDistinct(first: nat, n: nat)
    requires first + n <= 100
    ensures Dedup(DayKeysFrom(first, n)) == DayKeysFrom(first, n)
  {
    var keys := DayKeysFrom(first, n);
    assert Distinct(keys) by {
      forall i, j | 0 <= i < j < n ensures keys[i] != keys[j] {
        if keys[i] == keys[j] {
          DayKeyInjective(first + i, first + j);
        }
      }
    }
    DedupOfDistinct(keys);
  }

  /** Within one month every date has its own key: the grid has one column per
      day of the range, keyed by the day numbers in order. */
  lemma SingleMonthRange(start: Date, end: Date)
    requires Valid(start) && Valid(end)
    requires start.year == end.year && start.month == end.month && start.day <= end.day
    ensures var cols := RangeColumns(start, end);
      && RangeLength(start, end) == end.day - start.day + 1
      && |cols| == 2 + RangeLength(start, end)
      && forall j | 2 <= j < |cols| :: cols[j] == DayColumn(DayKey(start.day + j - 2))
  {
    var n := end.day - start.day + 1;
    assert RangeLength(start, end) == n;
    InMonthWalk(start, n);
    RangeOfWalk(start, end, DaysFrom(start, n));
    InMonthColumns(start, n, KeysOf(DaysFrom(start, n)), RangeColumns(start, end));
  }

  lemma InMonthColumns(start: Date, n: nat, keys: seq<string>, cols: seq<Column>)
    requires Valid(start) && start.day + n - 1 <= DaysInMonth(start.year, start.month)
    requires keys == KeysOf(DaysFrom(start, n))
    requires cols == [IdColumn, NameColumn] + KeyColumns(Dedup(keys))
    ensures |cols| == 2 + n
    ensures forall j | 2 <= j < |cols| :: cols[j] == DayColumn(DayKey(start.day + j - 2))
  {
    InMonthKeys(start, n);
    DistinctKeyColumns(start.day, n, keys, cols);
  }

  /** The grid of the keys of `n` successive days from `first` on. */
  lemma DistinctKeyColumns(first: nat, n: nat, keys: seq<string>, cols: seq<Column>)
    requires first + n <= 100 && keys == DayKeysFrom(first, n)
    requires cols == [IdColumn, NameColumn] + KeyColumns(Dedup(keys))
    ensures |cols| == 2 + n
    ensures forall j | 2 <= j < |cols| :: cols[j] == DayColumn(DayKey(first + j - 2))
  {
    DayKeysFromDistinct(first, n);
    ColumnsOfKeys(keys, cols, first);
  }

  /** The grid of the keys of consecutive days from `first` on. */
  lemma ColumnsOfKeys(keys: seq<string>, cols: seq<Column>, first: nat)
    requires cols == [IdColumn, NameColumn] + KeyColumns(keys)
    requires forall j | 0 <= j < |keys| :: keys[j] == DayKey(first + j)
    ensures |cols| == 2 + |keys|
    ensures forall j | 2 <= j < |cols| :: cols[j] == DayColumn(DayKey(first + j - 2))
  {
    forall j | 2 <= j < |cols| ensures cols[j] == DayColumn(DayKey(first + j - 2)) {
      assert cols[j] == KeyColumns(keys)[j - 2];
    }
  }

  /** A one-day range has exactly one day column, that day's key. */
  lemma SingleDayRange(d: Date)
    requires Valid(d)
    ensures RangeColumns(d, d) == [IdColumn, NameColumn, DayColumn(DayKey(d.day))]
  {
    SingleMonthRange(d, d);
  }

  /** An end date before the start gives only the ID and Name columns. */
  lemma EmptyRange(start: Date, end: Date)
    requires Valid(start) && Valid(end) && DayNumber(end) < DayNumber(start)
    ensures RangeColumns(start, end) == [IdColumn, NameColumn]
  {
  }

  /** Every day column's accessor names one of the fields "00" to "31" that
      `formatTableData` adds, and no column is keyed "00". */
  lemma ColumnKeysPadded(start: Date, end: Date)
    requires Valid(start) && Valid(end)
    ensures var cols := RangeColumns(start, end);
      forall i | 2 <= i < |cols| ::
        cols[i].DayColumn? && cols[i].key in DayKeys(0, 31) && cols[i].key != DayKey(0)
  {
    var cols := RangeColumns(start, end);
    var keys := KeysOf(Walk(start, RangeLength(start, end)));
    KeysInRange(Walk(start, RangeLength(start, end)));
    forall i | 2 <= i < |cols|
      ensures cols[i].DayColumn? && cols[i].key in DayKeys(0, 31) && cols[i].key != DayKey(0)
    {
      var x := Dedup(keys)[i - 2];
      DedupElems(keys, x);
      assert x in DayKeys(1, 31);
      var d: nat :| 1 <= d <= 31 && DayKey(d) == x;
      assert x in DayKeys(0, 31);
      if x == DayKey(0) {
        DayKeyInjective(0, d);
      }
    }
  }

  /** Walking from the 1st of a month to the 1st of the next visits one day
      more than the month has, but that last key is the month's own "01" again:
      the grid is that of the month alone. */
  lemma RollOverRange(start: Date, end: Date)
    requires Valid(start) && Valid(end) && start.day == 1 && end.day == 1
    requires DayNumber(end) == DayNumber(start) + DaysInMonth(start.year, start.month)
    ensures RangeLength(start, end) == DaysInMonth(start.year, start.month) + 1
    ensures RangeColumns(start, end)
         == RangeColumns(start, Date(start.year, start.month, DaysInMonth(start.year, start.month)))
  {
    var n := DaysInMonth(start.year, start.month);
    var last := Date(start.year, start.month, n);
    var days := DaysFrom(start, n);
    InMonthWalk(start, n);
    assert RangeLength(start, last) == n;
    RangeOfWalk(start, last, days);
    WalkAppend(start, days, end);
    RangeOfWalk(start, end, days + [end]);
    RepeatedFirstKey(start, n, end);
  }

  /** A date keyed like the 1st adds no column to a walk that began on the 1st. */
  lemma RepeatedFirstKey(start: Date, n: nat, end: Date)
    requires Valid(start) && start.day == 1 && 1 <= n <= DaysInMonth(start.year, start.month)
    requires Valid(end) && end.day == 1
    ensures WalkColumns(DaysFrom(start, n) + [end]) == WalkColumns(DaysFrom(start, n))
  {
    var days := DaysFrom(start, n);
    KeysOfAppend(days, end);
    InMonthKeys(start, n);
    var keys := KeysOf(days);
    assert keys[0] == DayKey(end.day);
    DedupAppend(keys, DayKey(end.day));
  }

  /** So that walk has one column per day of the month, keyed "01" onwards. */
  lemma RollOverColumns(start: Date, end: Date)
    requires Valid(start) && Valid(end) && start.day == 1 && end.day == 1
    requires DayNumber(end) == DayNumber(start) + DaysInMonth(start.year, start.month)
    ensures var cols := RangeColumns(start, end);
      && |cols| == 2 + DaysInMonth(start.year, start.month)
      && forall j | 2 <= j < |cols| :: cols[j] == DayColumn(DayKey(j - 1))
  {
    RollOverRange(start, end);
    SingleMonthRange(start, Date(start.year, start.month, DaysInMonth(start.year, start.month)));
  }

  // The example's literals come in as parameters that a `requires` fixes, so
  // that the verifier does not unfold `Split`, `Trim` or the date arithmetic
  // on them eagerly; the example lemmas below all take their literals so.
  /** The table's own range, `new Date(2024, 10, 1)` to `new Date(2024, 10, 31)`:
      November has 30 days, so the end rolls over to 1 December; the walk runs
      31 times, and the last key "01" is dropped as a repeat, leaving the 30
      columns "01" to "30". */
  lemma November2024(year: int, month: int, start: Date, end: Date)
    requires year == 2024 && month == 10
    requires start == NewDate(year, month, 1) && end == NewDate(year, month, 31)
    ensures start == Date(2024, 10, 1) && end == Date(2024, 11, 1)
    ensures RangeLength(start, end) == 31
    ensures var cols := RangeColumns(start, end);
      && |cols| == 32
      && forall j | 2 <= j < |cols| :: cols[j] == DayColumn(DayKey(j - 1))
  {
    November2024Dates(year, month, start, end);
    assert DaysInMonth(year, month) == 30;
    RollOverRange(start, end);
    RollOverColumns(start, end);
  }

  /** In that range, 1 November and 1 December share the one column "01": it is
      the first day column, no other column has that key, and it reads "A" when
      "01" is a leave day. */
  lemma November2024FirstCell(year: int, month: int, start: Date, end: Date, leaves: string)
    requires year == 2024 && month == 10
    requires start == NewDate(year, month, 1) && end == NewDate(year, month, 31)
    requires IsLeaveDay("01", leaves)
    ensures DayKey(start.day) == "01" && DayKey(end.day) == "01"
    ensures var cols := RangeColumns(start, end);
      && |cols| == 32
      && cols[2] == DayColumn("01") && CellText(cols[2], leaves) == "A"
      && forall j | 3 <= j < |cols| :: cols[j].DayColumn? && cols[j].key != "01"
  {
    November2024(year, month, start, end);
    DayKeyDigits(1);
    FirstKeyOnce(RangeColumns(start, end));
  }

  /** In a grid keyed "01" onwards, "01" keys the first day column only. */
  lemma FirstKeyOnce(cols: seq<Column>)
    requires 3 <= |cols| <= 101
    requires forall j | 2 <= j < |cols| :: cols[j] == DayColumn(DayKey(j - 1))
    ensures cols[2] == DayColumn("01")
    ensures forall j | 3 <= j < |cols| :: cols[j].DayColumn? && cols[j].key != "01"
  {
    DayKeyDigits(1);
    forall j | 3 <= j < |cols| ensures cols[j].DayColumn? && cols[j].key != "01" {
      if cols[j].key == "01" {
        DayKeyInjective(1, j - 1);
      }
    }
  }

  lemma November2024Dates(year: int, month: int, start: Date, end: Date)
    requires year == 2024 && month == 10
    requires start == NewDate(year, month, 1) && end == NewDate(year, month, 31)
    ensures start == Date(year, month, 1) && end == Date(year, month + 1, 1)
    ensures DayNumber(end) == DayNumber(start) + 30
  {
    November2024Start(year, month, start);
    November2024End(year, month, end);
  }

  lemma November2024Start(year: int, month: int, start: Date)
    requires year == 2024 && month == 10 && start == NewDate(year, month, 1)
    ensures start == Date(year, month, 1)
  {
    assert FullYear(year) == year && DaysInMonth(year, month) == 30;
    assert month / 12 == 0 && month % 12 == month;
    NewDateInMonth(year, month, 1);
  }

  lemma November2024End(year: int, month: int, end: Date)
    requires year == 2024 && month == 10 && end == NewDate(year, month, 31)
    ensures end == Date(year, month + 1, 1)
  {
    assert FullYear(year) == year && DaysInMonth(year, month) + 1 == 31;
    DayAfterLastOfMonth(year, month);
  }

  /** `formatTableData`: every employee, in order, with its own fields and the
      32 empty day fields "00" to "31". */
  method FormatTableData(data: seq<Employee>) returns (rows: seq<Row>)
    ensures |rows| == |data|
    ensures forall i | 0 <= i < |data| ::
      rows[i].id == data[i].id && rows[i].name == data[i].name && rows[i].leaves == data[i].leaves
    ensures forall i | 0 <= i < |data| ::
      rows[i].days.Keys == DayKeys(0, 31) && |rows[i].days| == 32
    ensures forall i, k | 0 <= i < |data| && k in rows[i].days :: rows[i].days[k] == ""
  {
    rows := FormatRows(data, 0, 31);
    DayKeysCount(0, 31);
  }
}
