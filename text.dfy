/** The JavaScript string operations the grid uses: `split(",")`, `trim()`,
    `Number.prototype.toString()` on day numbers, `padStart(2, "0")` and
    `parseInt(s, 10)`. Strings are sequences of characters. */
module Text {

  datatype Option<T> = None | Some(value: T)

  /** ECMAScript WhiteSpace and LineTerminator code points, which `trim()`
      and `parseInt` strip: tab to carriage return, space, and the wide ones below. */
  predicate IsSpace(c: char) {
    (c <= ' ' && (c == ' ' || '\t' <= c <= '\r')) || ('\U{A0}' <= c && c in WideSpaces)
  }

  /** No-break space, the Unicode space separators, the line and paragraph
      separators and the byte order mark. */
  const WideSpaces: set<char> := {'\U{A0}', '\U{1680}', '\U{2000}', '\U{2001}', '\U{2002}',
    '\U{2003}', '\U{2004}', '\U{2005}', '\U{2006}', '\U{2007}', '\U{2008}', '\U{2009}',
    '\U{200A}', '\U{2028}', '\U{2029}', '\U{202F}', '\U{205F}', '\U{3000}', '\U{FEFF}'}

  predicate AllSpace(s: string) {
    forall i | 0 <= i < |s| :: IsSpace(s[i])
  }

  /** Drops leading white space. */
  function TrimStart(s: string): (r: string)
    ensures |r| <= |s| && r == s[|s| - |r|..]
    ensures AllSpace(s[..|s| - |r|])
    ensures r == [] || !IsSpace(r[0])
  {
    if s != [] && IsSpace(s[0]) then
      var r := TrimStart(s[1..]);
      assert s[..|s| - |r|] == [s[0]] + s[1..][..|s| - 1 - |r|];
      r
    else
      s
  }

  /** Drops trailing white space. */
  function TrimEnd(s: string): (r: string)
    ensures |r| <= |s| && r == s[..|r|]
    ensures AllSpace(s[|r|..])
    ensures r == [] || !IsSpace(r[|r| - 1])
  {
    if s != [] && IsSpace(s[|s| - 1]) then
      var r := TrimEnd(s[..|s| - 1]);
      assert s[|r|..] == s[..|s| - 1][|r|..] + [s[|s| - 1]];
      r
    else
      s
  }

  /** `String.prototype.trim()`. */
  function Trim(s: string): string {
    TrimEnd(TrimStart(s))
  }

  /** Trim keeps a middle slice of its input whose removed ends are white space. */
  lemma TrimSlice(s: string) returns (i: nat)
    ensures i + |Trim(s)| <= |s| && Trim(s) == s[i..i + |Trim(s)|]
    ensures AllSpace(s[..i]) && AllSpace(s[i + |Trim(s)|..])
  {
    var t := TrimStart(s);
    i := |s| - |t|;
    SliceOfSuffix(s, i, t, TrimEnd(t));
  }

  /** The trimmed string neither starts nor ends with white space. */
  lemma TrimEnds(s: string)
    ensures Trim(s) == [] || (!IsSpace(Trim(s)[0]) && !IsSpace(Trim(s)[|Trim(s)| - 1]))
  {
    var t := TrimStart(s);
    var r := TrimEnd(t);
    if r != [] {
      assert r[0] == t[0];
    }
  }

  /** A prefix `r` of the suffix `t` of `s` from `i` is the slice of `s` from `i`,
      and what follows it in `t` is what follows it in `s`. */
  lemma SliceOfSuffix(s: string, i: nat, t: string, r: string)
    requires i <= |s| && t == s[i..] && |r| <= |t| && r == t[..|r|] && AllSpace(t[|r|..])
    ensures i + |r| <= |s| && r == s[i..i + |r|] && AllSpace(s[i + |r|..])
  {
    assert s[i + |r|..] == t[|r|..];
  }

  /** A string without white space at either end is its own trim. */
  lemma TrimNoop(s: string)
    requires s == [] || (!IsSpace(s[0]) && !IsSpace(s[|s| - 1]))
    ensures Trim(s) == s
  {
  }

  lemma TrimIdempotent(s: string)
    ensures Trim(Trim(s)) == Trim(s)
  {
    TrimEnds(s);
    TrimNoop(Trim(s));
  }

  /** `s.split(sep)` for a one-character separator: the pieces between
      separators, so "" gives [""] and "a,,b" gives ["a", "", "b"]. */
  function Split(s: string, sep: char): (r: seq<string>)
    ensures |r| >= 1
  {
    if s == [] then [""]
    else
      var rest := Split(s[1..], sep);
      if s[0] == sep then [""] + rest
      else [[s[0]] + rest[0]] + rest[1..]
  }

  /** `parts.join(sep)`, the inverse of Split. */
  function Join(parts: seq<string>, sep: char): string
    requires |parts| >= 1
  {
    if |parts| == 1 then parts[0] else parts[0] + [sep] + Join(parts[1..], sep)
  }

  lemma {:induction false} SplitNoSeparator(s: string, sep: char)
    ensures forall i | 0 <= i < |Split(s, sep)| :: sep !in Split(s, sep)[i]
  {
    if s != [] {
      SplitNoSeparator(s[1..], sep);
    }
  }

  lemma {:induction false} JoinSplit(s: string, sep: char)
    ensures Join(Split(s, sep), sep) == s
  {
    if s != [] {
      var rest := Split(s[1..], sep);
      JoinSplit(s[1..], sep);
      if s[0] == sep {
        assert Split(s, sep)[1..] == rest;
      } else {
        var r := Split(s, sep);
        assert r[1..] == rest[1..];
        if |rest| > 1 {
          assert Join(rest, sep) == rest[0] + [sep] + Join(rest[1..], sep);
        }
      }
    }
  }

  lemma {:induction false} SplitJoin(parts: seq<string>, sep: char)
    requires |parts| >= 1
    requires forall i | 0 <= i < |parts| :: sep !in parts[i]
    ensures Split(Join(parts, sep), sep) == parts
    decreases |parts|, |parts[0]|
  {
    if parts[0] != [] {
      var tail := [parts[0][1..]] + parts[1..];
      var j := Join(parts, sep);
      assert Join(tail, sep) == j[1..] by {
        if |parts| == 1 {
        } else {
          assert Join(tail, sep) == tail[0] + [sep] + Join(tail[1..], sep);
          assert tail[1..] == parts[1..];
        }
      }
      assert j[0] == parts[0][0];
      SplitJoin(tail, sep);
      assert [parts[0][0]] + parts[0][1..] == parts[0];
      assert parts == [parts[0]] + tail[1..];
    } else if |parts| > 1 {
      SplitJoin(parts[1..], sep);
      assert Join(parts, sep) == [sep] + Join(parts[1..], sep);
      assert Join(parts, sep)[1..] == Join(parts[1..], sep);
    }
  }

  lemma {:induction false} JoinConcat(a: seq<string>, b: seq<string>, sep: char)
    requires |a| >= 1 && |b| >= 1
    ensures Join(a + b, sep) == Join(a, sep) + [sep] + Join(b, sep)
    decreases |a|
  {
    if |a| > 1 {
      JoinConcat(a[1..], b, sep);
      assert (a + b)[1..] == a[1..] + b;
    } else {
      assert (a + b)[1..] == b;
    }
  }

  /** Splitting at one more separator appends the pieces of the new part. */
  lemma SplitAppend(a: string, b: string, sep: char)
    ensures Split(a + [sep] + b, sep) == Split(a, sep) + Split(b, sep)
  {
    var pa, pb := Split(a, sep), Split(b, sep);
    JoinSplit(a, sep);
    JoinSplit(b, sep);
    JoinConcat(pa, pb, sep);
    SplitNoSeparator(a, sep);
    SplitNoSeparator(b, sep);
    SplitJoin(pa + pb, sep);
  }

  predicate IsDigit(c: char) {
    '0' <= c <= '9'
  }

  function Digit(n: nat): (c: char)
    requires n < 10
    ensures IsDigit(c)
  {
    ('0' as int + n) as char
  }

  function DigitValue(c: char): nat
    requires IsDigit(c)
  {
    c as int - '0' as int
  }

  /** `n.toString()` for a non-negative integer: its decimal notation without
      leading zeros. */
  function DecimalString(n: nat): (r: string)
    ensures |r| >= 1 && forall i | 0 <= i < |r| :: IsDigit(r[i])
  {
    if n < 10 then [Digit(n)] else DecimalString(n / 10) + [Digit(n % 10)]
  }

  /** The value of a string of decimal digits. */
  function DigitsValue(ds: string): nat
    requires forall i | 0 <= i < |ds| :: IsDigit(ds[i])
  {
    if ds == [] then 0 else 10 * DigitsValue(ds[..|ds| - 1]) + DigitValue(ds[|ds| - 1])
  }

  /** The longest prefix of decimal digits. */
  function DigitPrefix(s: string): (r: string)
    ensures |r| <= |s| && r == s[..|r|]
    ensures forall i | 0 <= i < |r| :: IsDigit(r[i])
    ensures |r| < |s| ==> !IsDigit(s[|r|])
  {
    if s != [] && IsDigit(s[0]) then [s[0]] + DigitPrefix(s[1..]) else []
  }

  /** `parseInt(s, 10)`; None is NaN. Leading white space is skipped, one sign
      is allowed, then the longest run of digits is read. */
  function ParseInt(s: string): Option<int> {
    var t := TrimStart(s);
    var signed := t != [] && (t[0] == '-' || t[0] == '+');
    var u := if signed then t[1..] else t;
    var ds := DigitPrefix(u);
    var v: int := if ds == [] then 0 else DigitsValue(ds);
    if ds == [] then None
    else if signed && t[0] == '-' then Some(-v)
    else Some(v)
  }

  /** `s.padStart(width, fill)` with a one-character fill. */
  function PadStart(s: string, width: nat, fill: char): (r: string)
    ensures |r| == if |s| >= width then |s| else width
    ensures forall i | 0 <= i < |s| :: r[|r| - |s| + i] == s[i]
    ensures forall i | 0 <= i < |r| - |s| :: r[i] == fill
  {
    if |s| >= width then s else seq(width - |s|, _ => fill) + s
  }

  /** A day-of-month column key: `n.toString().padStart(2, "0")`. */
  function DayKey(n: nat): string {
    PadStart(DecimalString(n), 2, '0')
  }

  lemma DigitRoundTrip(n: nat)
    requires n < 10
    ensures DigitValue(Digit(n)) == n
  {
  }

  /** Reading back a decimal notation gives the number. */
  lemma {:induction false} DecimalRoundTrip(n: nat)
    ensures DigitsValue(DecimalString(n)) == n
  {
    if n >= 10 {
      DecimalRoundTrip(n / 10);
      var r := DecimalString(n);
      assert r[..|r| - 1] == DecimalString(n / 10);
    }
  }

  /** Below 100 a key is two digits: tens, then units. */
  lemma DayKeyDigits(n: nat)
    requires n < 100
    ensures DayKey(n) == [Digit(n / 10), Digit(n % 10)]
  {
    if n >= 10 {
      assert DecimalString(n) == [Digit(n / 10)] + [Digit(n % 10)];
    }
  }

  lemma DayKeyInjective(a: nat, b: nat)
    requires a < 100 && b < 100 && DayKey(a) == DayKey(b)
    ensures a == b
  {
    var qa, ra, qb, rb := a / 10, a % 10, b / 10, b % 10;
    assert a == 10 * qa + ra && b == 10 * qb + rb;
    DayKeyDigits(a);
    DayKeyDigits(b);
    assert Digit(qa) == DayKey(a)[0] == DayKey(b)[0] == Digit(qb);
    assert Digit(ra) == DayKey(a)[1] == DayKey(b)[1] == Digit(rb);
    DigitRoundTrip(qa);
    DigitRoundTrip(qb);
    DigitRoundTrip(ra);
    DigitRoundTrip(rb);
  }

  /** `parseInt` of a key gives the day number back. */
  lemma ParseDayKey(n: nat)
    requires n < 100
    ensures ParseInt(DayKey(n)) == Some(n)
  {
    var a, b := n / 10, n % 10;
    assert n == 10 * a + b;
    DayKeyDigits(n);
    ParseTwoDigits(a, b, DayKey(n));
  }

  lemma ParseTwoDigits(a: nat, b: nat, k: string)
    requires a < 10 && b < 10 && k == [Digit(a), Digit(b)]
    ensures ParseInt(k) == Some(10 * a + b)
  {
    TwoDigitsValue(a, b);
    assert DigitsValue(k) == 10 * a + b;
    ParseDigits(k);
  }

  /** Every decimal notation reads back as its number. */
  lemma ParseDecimal(n: nat)
    ensures ParseInt(DecimalString(n)) == Some(n)
  {
    ParseDigits(DecimalString(n));
    DecimalRoundTrip(n);
  }

  lemma TwoDigitsValue(a: nat, b: nat)
    requires a < 10 && b < 10
    ensures DigitsValue([Digit(a), Digit(b)]) == 10 * a + b
  {
    var k := [Digit(a), Digit(b)];
    var h := [Digit(a)];
    assert k[..1] == h;
    assert h[..0] == [];
    assert DigitsValue(h) == 10 * DigitsValue([]) + DigitValue(Digit(a));
    assert DigitsValue(h) == a;
    assert DigitsValue(k) == 10 * DigitsValue(h) + DigitValue(Digit(b));
  }

  lemma ParseDigits(s: string)
    requires s != [] && forall i | 0 <= i < |s| :: IsDigit(s[i])
    ensures ParseInt(s) == Some(DigitsValue(s))
  {
    assert !IsSpace(s[0]);
    assert TrimStart(s) == s;
    assert s[0] != '-' && s[0] != '+';
    DigitPrefixAll(s);
  }

  lemma {:induction false} DigitPrefixAll(s: string)
    requires forall i | 0 <= i < |s| :: IsDigit(s[i])
    ensures DigitPrefix(s) == s
  {
    if s != [] {
      DigitPrefixAll(s[1..]);
    }
  }

  /** A key is never white space at its ends, so trimming keeps it. */
  lemma TrimDayKey(n: nat)
    requires n < 100
    ensures Trim(DayKey(n)) == DayKey(n)
  {
    DayKeyDigits(n);
    TrimNoop(DayKey(n));
  }
}
