/** The pieces of Python's `str` behaviour that the downloader relies on:
    prefix and suffix tests, `strip`, `rsplit('.', 1)`, `replace(old, '')`,
    repetition, `%d` formatting and `int()` of a digit string. */
module Strings {
  import opened Base

  predicate StartsWith(s: string, p: string) {
    |p| <= |s| && s[..|p|] == p
  }

  predicate EndsWith(s: string, p: string) {
    |p| <= |s| && s[|s| - |p|..] == p
  }

  predicate IsDigit(c: char) {
    '0' <= c <= '9'
  }

  /** The characters `\w` matches, restricted to ASCII. */
  predicate IsWordChar(c: char) {
    ('a' <= c <= 'z') || ('A' <= c <= 'Z') || IsDigit(c) || c == '_'
  }

  predicate AllDigits(s: string) {
    forall i | 0 <= i < |s| :: IsDigit(s[i])
  }

  /** Index of the last occurrence of `c` in `s`, as `str.rfind` finds it. */
  function LastIndexOf(s: string, c: char): (r: Option<nat>)
    ensures r.None? <==> c !in s
    ensures r.Some? ==> r.value < |s| && s[r.value] == c && c !in s[r.value + 1..]
  {
    if |s| == 0 then None
    else if s[|s| - 1] == c then
      assert s[|s| - 1 + 1..] == [];
      Some(|s| - 1)
    else
      assert s == s[..|s| - 1] + [s[|s| - 1]];
      var r := LastIndexOf(s[..|s| - 1], c);
      if r.Some? then
        assert s[r.value + 1..] == s[..|s| - 1][r.value + 1..] + [s[|s| - 1]];
        r
      else r
  }

  /** `s.rsplit('.', 1)`: the text before and after the last dot, or None when
      `s` holds no dot (the Python list then has one element only). */
  function RSplitDot(s: string): (r: Option<(string, string)>)
    ensures r.None? <==> '.' !in s
    ensures r.Some? ==> r.value.0 + "." + r.value.1 == s && '.' !in r.value.1
  {
    match LastIndexOf(s, '.')
    case None => None
    case Some(i) =>
      assert s == s[..i] + "." + s[i + 1..];
      Some((s[..i], s[i + 1..]))
  }

  /** Splitting at the last dot undoes joining with a dot. */
  lemma RSplitDotJoin(a: string, b: string)
    requires '.' !in b
    ensures RSplitDot(a + "." + b) == Some((a, b))
  {
    var s := a + "." + b;
    assert s[|a|] == '.';
    var k := LastIndexOf(s, '.').value;
    assert s[..k] == a;
    assert s[k + 1..] == b;
  }

  /** `s.replace(p, '')`: every non-overlapping occurrence of `p`, scanned from
      the left, is deleted; an empty `p` leaves `s` unchanged. */
  function DeleteAll(s: string, p: string): (r: string)
    ensures |r| <= |s|
    decreases |s|
  {
    if |p| == 0 || |s| < |p| then s
    else if s[..|p|] == p then DeleteAll(s[|p|..], p)
    else [s[0]] + DeleteAll(s[1..], p)
  }

  /** Deleting a non-empty pattern removes the copy that opens the string. */
  lemma DeleteAllLeading(p: string, t: string)
    requires |p| > 0
    ensures DeleteAll(p + t, p) == DeleteAll(t, p)
  {
    assert (p + t)[..|p|] == p;
    assert (p + t)[|p|..] == t;
  }

  /** A first character that is not a one-character pattern is kept. */
  lemma DeleteAllKeep(c: char, t: string, p: string)
    requires |p| == 1 && p[0] != c
    ensures DeleteAll([c] + t, p) == [c] + DeleteAll(t, p)
  {
    var s := [c] + t;
    assert s[..1][0] == c;
    assert s[1..] == t;
  }

  /** A pattern that holds a character outside the class `allowed` never
      occurs in a string made only of allowed characters, so deleting it
      changes nothing. */
  lemma {:induction false} DeleteAllAbsent(t: string, p: string, allowed: char -> bool, j: nat)
    requires j < |p| && !allowed(p[j])
    requires forall i | 0 <= i < |t| :: allowed(t[i])
    ensures DeleteAll(t, p) == t
    decreases |t|
  {
    if |t| >= |p| {
      assert t[..|p|][j] == t[j];
      assert t[..|p|] != p;
      DeleteAllAbsent(t[1..], p, allowed, j);
      assert [t[0]] + t[1..] == t;
    }
  }

  /** `s.lstrip(cs)`. */
  function TrimStart(s: string, cs: set<char>): (r: string)
    ensures |r| <= |s| && r == s[|s| - |r|..]
    ensures |r| > 0 ==> r[0] !in cs
    ensures forall i | 0 <= i < |s| - |r| :: s[i] in cs
  {
    if |s| > 0 && s[0] in cs then TrimStart(s[1..], cs) else s
  }

  /** `s.rstrip(cs)`. */
  function TrimEnd(s: string, cs: set<char>): (r: string)
    ensures |r| <= |s| && r == s[..|r|]
    ensures |r| > 0 ==> r[|r| - 1] !in cs
    ensures forall i | |r| <= i < |s| :: s[i] in cs
  {
    if |s| > 0 && s[|s| - 1] in cs then TrimEnd(s[..|s| - 1], cs) else s
  }

  /** `s.strip(cs)`. */
  function Strip(s: string, cs: set<char>): (r: string)
    ensures |r| <= |s|
    ensures |r| > 0 ==> r[0] !in cs && r[|r| - 1] !in cs
    ensures |s| > 0 && s[0] !in cs && s[|s| - 1] !in cs ==> r == s
  {
    TrimEnd(TrimStart(s, cs), cs)
  }

  /** Stripping leaves nothing exactly when every character is stripped. */
  lemma StripEmpty(s: string, cs: set<char>)
    ensures |Strip(s, cs)| == 0 <==> forall i | 0 <= i < |s| :: s[i] in cs
  {
    var t := TrimStart(s, cs);
    if |Strip(s, cs)| != 0 && |t| > 0 {
      assert t[0] == s[|s| - |t|];
    }
  }

  /** `c * n`: `n` copies of `c`, none when `n` is not positive. */
  function Repeat(c: char, n: int): (r: string)
    ensures |r| == if n <= 0 then 0 else n
    ensures forall i | 0 <= i < |r| :: r[i] == c
  {
    if n <= 0 then [] else Repeat(c, n - 1) + [c]
  }

  function DigitChar(d: nat): (c: char)
    requires d < 10
    ensures IsDigit(c)
  {
    ('0' as int + d) as char
  }

  function DigitValue(c: char): (d: nat)
    requires IsDigit(c)
    ensures d < 10 && DigitChar(d) == c
  {
    c as int - '0' as int
  }

  /** `int(s)` for a string drawn from `'0123456789'`; `int('')` raises and is
      kept out by the precondition. */
  function ParseDecimal(s: string): (n: nat)
    requires |s| > 0 && AllDigits(s)
    ensures |s| > 1 && s[0] != '0' ==> n >= 10
    ensures |s| == 1 ==> n < 10
  {
    if |s| == 1 then DigitValue(s[0])
    else ParseDecimal(s[..|s| - 1]) * 10 + DigitValue(s[|s| - 1])
  }

  /** `'%d' % n`: decimal digits without leading zeros. */
  function NatToDecimal(n: nat): (s: string)
    ensures |s| > 0 && AllDigits(s)
    ensures s[0] == '0' ==> n == 0
    ensures ParseDecimal(s) == n
  {
    if n < 10 then [DigitChar(n)]
    else
      var s := NatToDecimal(n / 10) + [DigitChar(n % 10)];
      assert s[..|s| - 1] == NatToDecimal(n / 10);
      s
  }

  /** `int` and `%d` are inverse on digit strings without a leading zero. */
  lemma {:induction false} DecimalRoundTrip(s: string)
    requires |s| > 0 && AllDigits(s)
    requires s[0] != '0' || |s| == 1
    ensures NatToDecimal(ParseDecimal(s)) == s
    decreases |s|
  {
    if |s| > 1 {
      var p := s[..|s| - 1];
      var n := ParseDecimal(s);
      assert p[0] == s[0];
      DecimalRoundTrip(p);
      assert n / 10 == ParseDecimal(p) && n % 10 == DigitValue(s[|s| - 1]);
      assert s == p + [s[|s| - 1]];
    }
  }
}
