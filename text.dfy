/**
  * The few Python `str` operations the messaging core relies on, written out so that the
  * modules using them can reason about their results: `str.split(sep)`, `str.strip()`,
  * `str.startswith`, `int(text)` and `str(number)`.
  */
module Text {
  import opened Wrappers

  /** Does `sep` occur in `s` starting at index `j`? */
  predicate OccursAt(s: string, sep: string, j: int) {
    0 <= j && j + |sep| <= |s| && s[j..j + |sep|] == sep
  }

  /** `sep in s` */
  predicate Contains(s: string, sep: string) {
    exists j | 0 <= j <= |s| :: OccursAt(s, sep, j)
  }

  lemma OccursAtTail(s: string, sep: string, j: int)
    requires |s| > 0 && j >= 1
    ensures OccursAt(s, sep, j) <==> OccursAt(s[1..], sep, j - 1)
  {
    if j + |sep| <= |s| {
      assert s[j..j + |sep|] == s[1..][j - 1..j - 1 + |sep|];
    }
  }

  /** Index of the first occurrence of `sep` in `s`, or -1 (`s.find(sep)`). */
  function FindSub(s: string, sep: string): (r: int)
    requires |sep| > 0
    ensures r == -1 || OccursAt(s, sep, r)
    ensures forall j | 0 <= j && (r == -1 || j < r) :: !OccursAt(s, sep, j)
    decreases |s|
  {
    if |s| < |sep| then -1
    else if s[..|sep|] == sep then 0
    else
      var k := FindSub(s[1..], sep);
      assert forall j | j >= 1 :: OccursAt(s, sep, j) <==> OccursAt(s[1..], sep, j - 1) by {
        forall j | j >= 1 ensures OccursAt(s, sep, j) <==> OccursAt(s[1..], sep, j - 1) {
          OccursAtTail(s, sep, j);
        }
      }
      if k < 0 then -1 else k + 1
  }

  /** `sep.join(parts)` */
  function JoinWith(parts: seq<string>, sep: string): string {
    if |parts| <= 1 then (if parts == [] then "" else parts[0])
    else parts[0] + sep + JoinWith(parts[1..], sep)
  }

  /** `s.split(sep)`: the pieces between the non-overlapping occurrences of `sep`, left to right. */
  function Split(s: string, sep: string): (parts: seq<string>)
    requires |sep| > 0
    ensures |parts| >= 1
    ensures JoinWith(parts, sep) == s
    ensures forall i | 0 <= i < |parts| :: !Contains(parts[i], sep)
    decreases |s|
  {
    var i := FindSub(s, sep);
    if i < 0 then [s]
    else
      var rest := Split(s[i + |sep|..], sep);
      var head := s[..i];
      assert !Contains(head, sep) by {
        forall j | 0 <= j <= |head| && OccursAt(head, sep, j) ensures false {
          assert head[j..j + |sep|] == s[j..j + |sep|];
          assert OccursAt(s, sep, j);
        }
      }
      assert s == head + sep + s[i + |sep|..];
      [head] + rest
  }

  /** A one-character separator occurs in `s` exactly where the character does. */
  lemma ContainsChar(s: string, c: char)
    ensures Contains(s, [c]) <==> c in s
  {
    if c in s {
      var j :| 0 <= j < |s| && s[j] == c;
      assert s[j..j + 1] == [c];
      assert OccursAt(s, [c], j);
    }
    if Contains(s, [c]) {
      var j :| 0 <= j <= |s| && OccursAt(s, [c], j);
      assert s[j] == s[j..j + 1][0];
    }
  }

  /** Text without the separator does not split. */
  lemma SplitNone(s: string, sep: string)
    requires |sep| > 0 && !Contains(s, sep)
    ensures Split(s, sep) == [s]
  {
    assert FindSub(s, sep) == -1;
  }

  /** Two pieces free of a one-character separator, joined by it, split back into those two pieces. */
  lemma SplitAround(a: string, b: string, c: char)
    requires c !in a && c !in b
    ensures Split(a + [c] + b, [c]) == [a, b]
  {
    var s := a + [c] + b;
    assert OccursAt(s, [c], |a|) by {
      assert s[|a|..|a| + 1] == [c];
    }
    forall j | 0 <= j < |a| ensures !OccursAt(s, [c], j) {
      assert s[j..j + 1] == [a[j]];
    }
    assert FindSub(s, [c]) == |a|;
    assert s[|a| + 1..] == b;
    ContainsChar(b, c);
    SplitNone(b, [c]);
    assert s[..|a|] == a;
  }

  /** `s.startswith(prefix)` */
  predicate StartsWith(s: string, prefix: string) {
    |prefix| <= |s| && s[..|prefix|] == prefix
  }

  /** `c.isspace()`: the characters Python's `str.strip()` removes when given no argument. */
  predicate IsSpace(c: char) {
    var n := c as int;
    (9 <= n <= 13) || (28 <= n <= 32) || n == 0x85 || n == 0xA0 || n == 0x1680 ||
    (0x2000 <= n <= 0x200A) || n == 0x2028 || n == 0x2029 || n == 0x202F || n == 0x205F || n == 0x3000
  }

  /** `s.lstrip()` */
  function StripLeft(s: string): (r: string)
    ensures |r| <= |s| && r == s[|s| - |r|..]
    ensures r == [] || !IsSpace(r[0])
    ensures forall i | 0 <= i < |s| - |r| :: IsSpace(s[i])
  {
    if s != [] && IsSpace(s[0]) then StripLeft(s[1..]) else s
  }

  /** `s.rstrip()` */
  function StripRight(s: string): (r: string)
    ensures |r| <= |s| && r == s[..|r|]
    ensures r == [] || !IsSpace(r[|r| - 1])
    ensures forall i | |r| <= i < |s| :: IsSpace(s[i])
  {
    if s != [] && IsSpace(s[|s| - 1]) then StripRight(s[..|s| - 1]) else s
  }

  /** `s.strip()`: `s` without its leading and trailing white space. */
  function Strip(s: string): (r: string)
    ensures r == [] || (!IsSpace(r[0]) && !IsSpace(r[|r| - 1]))
  {
    StripRight(StripLeft(s))
  }

  /**
    * What `strip` removes is white space, from the two ends only: the result is the slice
    * of `s` starting at `k`, and everything before and after that slice is white space.
    */
  lemma StripOnlyEnds(s: string) returns (k: nat)
    ensures k + |Strip(s)| <= |s| && Strip(s) == s[k..k + |Strip(s)|]
    ensures forall i | 0 <= i < k :: IsSpace(s[i])
    ensures forall i | k + |Strip(s)| <= i < |s| :: IsSpace(s[i])
  {
    var l := StripLeft(s);
    k := |s| - |l|;
    var r := StripRight(l);
    assert l == s[k..];
    forall i | k + |r| <= i < |s|
      ensures IsSpace(s[i])
    {
      assert s[i] == l[i - k];
    }
  }

  lemma StripUnspaced(s: string)
    requires s == [] || (!IsSpace(s[0]) && !IsSpace(s[|s| - 1]))
    ensures Strip(s) == s
  {
  }

  predicate IsDigit(c: char) {
    '0' <= c <= '9'
  }

  /**
    * The digit part of a decimal literal as `int()` accepts it: digits, with single
    * underscores allowed between two digits.
    */
  predicate WellFormedDigits(s: string) {
    |s| > 0 && IsDigit(s[0]) && IsDigit(s[|s| - 1]) &&
    forall i | 0 <= i < |s| :: IsDigit(s[i]) || (s[i] == '_' && 0 < i < |s| - 1 && IsDigit(s[i + 1]))
  }

  /** The number written by the digits of `s`, underscores skipped. */
  function DigitsValue(s: string): nat {
    if s == [] then 0
    else
      var last := s[|s| - 1];
      if IsDigit(last) then DigitsValue(s[..|s| - 1]) * 10 + (last as int - '0' as int)
      else DigitsValue(s[..|s| - 1])
  }

  /**
    * `int(text)` in base 10 over the ASCII digits 0-9; None stands for the ValueError
    * raised on anything else. Python also accepts other Unicode decimal digits, which
    * this model rejects.
    */
  function ParseInt(text: string): Option<int> {
    ParseStripped(Strip(text))
  }

  /** `int(t)` for a `t` that has no surrounding white space. */
  function ParseStripped(t: string): Option<int> {
    if |t| > 0 && (t[0] == '-' || t[0] == '+') then
      if WellFormedDigits(t[1..]) then
        Some(if t[0] == '-' then -(DigitsValue(t[1..]) as int) else DigitsValue(t[1..]))
      else None
    else if WellFormedDigits(t) then Some(DigitsValue(t))
    else None
  }

  function DigitChar(d: nat): char
    requires d < 10
  {
    ('0' as int + d) as char
  }

  /** `str(n)` for a natural number: its decimal digits, most significant first. */
  function NatToString(n: nat): (r: string)
    ensures |r| > 0
    ensures forall i | 0 <= i < |r| :: IsDigit(r[i])
  {
    if n < 10 then [DigitChar(n)] else NatToString(n / 10) + [DigitChar(n % 10)]
  }

  /** `str(n)` */
  function IntToString(n: int): (r: string)
    ensures |r| > 0
    ensures forall i | 0 <= i < |r| :: r[i] == '-' || IsDigit(r[i])
  {
    if n < 0 then "-" + NatToString(-n) else NatToString(n)
  }

  lemma {:induction false} NatToStringValue(n: nat)
    ensures DigitsValue(NatToString(n)) == n
  {
    var s := NatToString(n);
    if n >= 10 {
      NatToStringValue(n / 10);
      assert s[..|s| - 1] == NatToString(n / 10);
    }
  }

  lemma AllDigitsWellFormed(s: string)
    requires |s| > 0 && forall i | 0 <= i < |s| :: IsDigit(s[i])
    ensures WellFormedDigits(s)
  {
  }

  lemma {:induction false} ParseDigits(s: string)
    requires |s| > 0 && forall i | 0 <= i < |s| :: IsDigit(s[i])
    ensures ParseInt(s) == Some(DigitsValue(s))
  {
    AllDigitsWellFormed(s);
    StripUnspaced(s);
  }

  /** `int(str(n)) == n`: printing a number and parsing it back gives the number. */
  lemma {:induction false} IntToStringRoundTrip(n: int)
    ensures ParseInt(IntToString(n)) == Some(n)
  {
    if n < 0 {
      NegativeRoundTrip(-n);
    } else {
      var digits := NatToString(n);
      NatToStringValue(n);
      ParseDigits(digits);
    }
  }

  lemma {:induction false} NegativeRoundTrip(m: nat)
    requires m > 0
    ensures ParseInt(IntToString(-(m as int))) == Some(-(m as int))
  {
    var s := NatToString(m);
    NatToStringValue(m);
    var t := IntToString(-(m as int));
    assert t == "-" + s;
    assert t[0] == '-' && t[1..] == s;
    AllDigitsWellFormed(s);
    assert WellFormedDigits(t[1..]);
    assert ParseStripped(t) == Some(-(m as int));
    assert t[|t| - 1] == s[|s| - 1];
    StripUnspaced(t);
  }
}
