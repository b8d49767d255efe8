/** Character classes and small string operations of the JavaScript runtime the scripts run on. */
module Text {

  /** The characters matched by `\s` in a JavaScript regular expression, which are also the
      characters `String.prototype.trim` removes (white space plus line terminators). */
  predicate IsSpace(c: char) {
    || c == '\t' || c == '\n' || c == '\U{000B}' || c == '\U{000C}' || c == '\r' || c == ' '
    || c == '\U{00A0}' || c == '\U{1680}' || ('\U{2000}' <= c <= '\U{200A}')
    || c == '\U{2028}' || c == '\U{2029}' || c == '\U{202F}' || c == '\U{205F}'
    || c == '\U{3000}' || c == '\U{FEFF}'
  }

  /** The characters after which `^` matches in a multiline JavaScript regular expression. */
  predicate IsLineTerminator(c: char) {
    c == '\n' || c == '\r' || c == '\U{2028}' || c == '\U{2029}'
  }

  predicate AllSpace(s: string) {
    forall i :: 0 <= i < |s| ==> IsSpace(s[i])
  }

  predicate StartsWith(s: string, prefix: string) {
    |prefix| <= |s| && s[..|prefix|] == prefix
  }

  predicate EndsWith(s: string, suffix: string) {
    |suffix| <= |s| && s[|s| - |suffix|..] == suffix
  }

  /** Number of leading characters of `s[from..]` that are white space. */
  function SpaceRun(s: string, from: nat): (n: nat)
    requires from <= |s|
    ensures from + n <= |s|
    ensures AllSpace(s[from..from + n])
    ensures from + n == |s| || !IsSpace(s[from + n])
    decreases |s| - from
  {
    if from == |s| || !IsSpace(s[from]) then 0
    else
      var rest := SpaceRun(s, from + 1);
      assert s[from..from + 1 + rest] == [s[from]] + s[from + 1..from + 1 + rest];
      1 + rest
  }

  lemma SpaceRunStep(s: string, from: nat)
    requires from < |s| && IsSpace(s[from])
    ensures SpaceRun(s, from) == 1 + SpaceRun(s, from + 1)
  {
  }

  /** The white space run does not depend on what precedes its start. */
  lemma {:induction false} SpaceRunShift(x: string, y: string, k: nat)
    requires k <= |y|
    ensures SpaceRun(x + y, |x| + k) == SpaceRun(y, k)
    decreases |y| - k
  {
    if k < |y| {
      assert (x + y)[|x| + k] == y[k];
      if IsSpace(y[k]) {
        SpaceRunShift(x, y, k + 1);
      }
    }
  }

  /** Starting the white space run later inside it shortens it by the offset. */
  lemma {:induction false} SpaceRunFrom(s: string, a: nat, b: nat)
    requires a <= |s| && a <= b <= a + SpaceRun(s, a)
    ensures SpaceRun(s, b) == SpaceRun(s, a) - (b - a)
    decreases b - a
  {
    if a < b {
      SpaceRunFrom(s, a + 1, b);
    }
  }

  /** Every prefix of a white space run is white space. */
  lemma SpaceRunPrefix(s: string, from: nat, e: nat)
    requires from <= |s| && from <= e <= from + SpaceRun(s, from)
    ensures AllSpace(s[from..e])
  {
    var run := s[from..from + SpaceRun(s, from)];
    assert AllSpace(run);
    forall k | 0 <= k < e - from ensures IsSpace(s[from..e][k]) {
      assert s[from..e][k] == s[from + k] == run[k];
    }
  }

  /** Every character of s in [lo, hi) is white space. */
  predicate SpaceIn(s: string, lo: nat, hi: nat)
    requires lo <= hi <= |s|
  {
    forall k :: lo <= k < hi ==> IsSpace(s[k])
  }

  /** `trimStart`: the text after its leading white space run. */
  function TrimStart(s: string): (r: string)
    ensures |r| <= |s| && r == s[|s| - |r|..]
    ensures SpaceIn(s, 0, |s| - |r|)
    ensures r == [] || !IsSpace(r[0])
  {
    var n := SpaceRun(s, 0);
    assert forall k :: 0 <= k < n ==> s[k] == s[0..n][k];
    s[n..]
  }

  /** Where the text before `hi` ends once its trailing white space is dropped. */
  function TrailingStart(s: string, hi: nat): (n: nat)
    requires hi <= |s|
    ensures n <= hi && SpaceIn(s, n, hi)
    ensures n == 0 || !IsSpace(s[n - 1])
  {
    if hi == 0 || !IsSpace(s[hi - 1]) then hi else TrailingStart(s, hi - 1)
  }

  /** `trimEnd`: the text before its trailing white space run. */
  function TrimEnd(s: string): (r: string)
    ensures |r| <= |s| && r == s[..|r|]
    ensures SpaceIn(s, |r|, |s|)
    ensures r == [] || !IsSpace(r[|r| - 1])
  {
    s[..TrailingStart(s, |s|)]
  }

  /** `String.prototype.trim`: white space removed at both ends. */
  function Trim(s: string): (r: string)
    ensures |r| <= |s|
    ensures r == [] || (!IsSpace(r[0]) && !IsSpace(r[|r| - 1]))
  {
    TrimEnd(TrimStart(s))
  }

  /** What `Trim` removes is white space, and what it keeps is the slice of the input between
      the leading white space run and the trailing one. */
  lemma TrimSlice(s: string)
    ensures var r := Trim(s); var a := SpaceRun(s, 0);
      && a + |r| <= |s| && r == s[a..a + |r|]
      && SpaceIn(s, 0, a) && SpaceIn(s, a + |r|, |s|)
  {
    var a := SpaceRun(s, 0);
    var t := s[a..];
    var m := TrailingStart(t, |t|);
    assert Trim(s) == t[..m];
    assert t[..m] == s[a..a + m];
    SpaceInSuffix(s, t, a, m, |t|);
    assert forall k :: 0 <= k < a ==> s[k] == s[0..a][k];
  }

  /** White space in a suffix of `s` is white space in `s`, shifted by where the suffix starts. */
  lemma SpaceInSuffix(s: string, t: string, a: nat, lo: nat, hi: nat)
    requires a <= |s| && t == s[a..] && lo <= hi <= |t| && SpaceIn(t, lo, hi)
    ensures SpaceIn(s, a + lo, a + hi)
  {
    forall k | a + lo <= k < a + hi ensures IsSpace(s[k]) {
      assert s[k] == t[k - a];
    }
  }

  /** `Array.prototype.join`. */
  function Join(parts: seq<string>, sep: string): (r: string)
    ensures |parts| == 1 ==> r == parts[0]
  {
    if |parts| == 0 then ""
    else if |parts| == 1 then parts[0]
    else parts[0] + sep + Join(parts[1..], sep)
  }

  function DigitChar(d: nat): char
    requires d < 10
  {
    "0123456789"[d]
  }

  /** Decimal rendering of a natural number without leading zeros. */
  function NatToDecimal(n: nat): (r: string)
    ensures |r| > 0
    ensures forall i :: 0 <= i < |r| ==> '0' <= r[i] <= '9'
    ensures |r| > 1 ==> r[0] != '0'
  {
    if n < 10 then [DigitChar(n)] else NatToDecimal(n / 10) + [DigitChar(n % 10)]
  }

  /** The number a string of decimal digits denotes. */
  function DecimalValue(s: string): nat
    requires forall i :: 0 <= i < |s| ==> '0' <= s[i] <= '9'
  {
    if s == [] then 0
    else DecimalValue(s[..|s| - 1]) * 10 + (s[|s| - 1] as int - '0' as int)
  }

  /** Reading the rendering back gives the number. */
  lemma {:induction false} NatToDecimalValue(n: nat)
    ensures DecimalValue(NatToDecimal(n)) == n
  {
    if n >= 10 {
      var x := NatToDecimal(n / 10);
      var r := x + [DigitChar(n % 10)];
      assert r[..|r| - 1] == x;
      NatToDecimalValue(n / 10);
    }
  }

  /** `String(n)` for an integral number. */
  function IntToDecimal(n: int): (r: string)
    ensures |r| > 0
    ensures n < 0 <==> r[0] == '-'
    ensures var digits := if n < 0 then r[1..] else r;
      && (forall i :: 0 <= i < |digits| ==> '0' <= digits[i] <= '9')
      && DecimalValue(digits) == if n < 0 then -n else n
  {
    if n < 0 then
      var d := NatToDecimal(-n);
      NatToDecimalValue(-n);
      assert ("-" + d)[1..] == d;
      "-" + d
    else
      NatToDecimalValue(n);
      NatToDecimal(n)
  }
}
