/** The few JavaScript string operations the extension relies on, over `seq<char>`. */
module Strings {

  /** JavaScript's WhiteSpace and LineTerminator characters: the set matched by `\s`
      and removed by `trim` and `trimStart`. */
  predicate IsWhitespace(c: char) {
    || c == ' ' || c == '\t' || c == '\n' || c == '\r' || c == '\U{0B}' || c == '\U{0C}'
    || c == '\U{A0}' || c == '\U{1680}' || ('\U{2000}' <= c <= '\U{200A}')
    || c == '\U{2028}' || c == '\U{2029}' || c == '\U{202F}' || c == '\U{205F}'
    || c == '\U{3000}' || c == '\U{FEFF}'
  }

  predicate AllWhitespace(s: string) {
    forall i :: 0 <= i < |s| ==> IsWhitespace(s[i])
  }

  /** `s.startsWith(p)` */
  predicate StartsWith(s: string, p: string) {
    |p| <= |s| && s[..|p|] == p
  }

  /** `pat` occurs in `s` at index `i`. */
  predicate OccursAt(s: string, pat: string, i: nat) {
    i + |pat| <= |s| && s[i..i + |pat|] == pat
  }

  /** `s.includes(sub)` */
  predicate Contains(s: string, sub: string) {
    exists i :: 0 <= i <= |s| && OccursAt(s, sub, i)
  }

  /** A string includes every string that occurs in it at some position. */
  lemma ContainsInfix(p: string, sub: string, q: string)
    ensures Contains(p + sub + q, sub)
  {
    var s := p + sub + q;
    assert s[|p|..|p| + |sub|] == sub;
    assert OccursAt(s, sub, |p|);
  }

  /** `s.indexOf(pat, k)`: the first occurrence at or after `k`, or -1. */
  function IndexOfFrom(s: string, pat: string, k: nat): (r: int)
    requires k <= |s|
    ensures r == -1 || (k <= r <= |s| && OccursAt(s, pat, r))
    ensures r == -1 ==> forall i :: k <= i <= |s| ==> !OccursAt(s, pat, i)
    ensures r != -1 ==> forall i :: k <= i < r ==> !OccursAt(s, pat, i)
    decreases |s| - k
  {
    if OccursAt(s, pat, k) then k
    else if k == |s| then -1
    else IndexOfFrom(s, pat, k + 1)
  }

  /** `s.indexOf(pat)` */
  function IndexOf(s: string, pat: string): (r: int)
    ensures r == -1 <==> !Contains(s, pat)
    ensures r != -1 ==> 0 <= r && OccursAt(s, pat, r) && forall i :: 0 <= i < r ==> !OccursAt(s, pat, i)
  {
    IndexOfFrom(s, pat, 0)
  }

  /** `s.search(/\S/)` started at `k`: the first non-white-space index at or after `k`, or -1. */
  function NonWhitespaceFrom(s: string, k: nat): (r: int)
    requires k <= |s|
    ensures r == -1 ==> forall i :: k <= i < |s| ==> IsWhitespace(s[i])
    ensures r != -1 ==> k <= r < |s| && !IsWhitespace(s[r]) && forall i :: k <= i < r ==> IsWhitespace(s[i])
    decreases |s| - k
  {
    if k == |s| then -1
    else if !IsWhitespace(s[k]) then k
    else NonWhitespaceFrom(s, k + 1)
  }

  /** `s.search(/\S/)` */
  function FirstNonWhitespace(s: string): (r: int)
    ensures r == -1 <==> AllWhitespace(s)
    ensures r != -1 ==> 0 <= r < |s| && !IsWhitespace(s[r]) && AllWhitespace(s[..r])
  {
    NonWhitespaceFrom(s, 0)
  }

  /** `s.trimStart()` */
  function TrimStart(s: string): (r: string)
    ensures |r| <= |s| && r == s[|s| - |r|..] && AllWhitespace(s[..|s| - |r|])
    ensures r == [] || !IsWhitespace(r[0])
  {
    var k := FirstNonWhitespace(s);
    if k == -1 then (assert s[|s|..] == []; []) else s[k..]
  }

  /** `s.trimEnd()` */
  function TrimEnd(s: string): (r: string)
    ensures |r| <= |s| && r == s[..|r|] && AllWhitespace(s[|r|..])
    ensures r == [] || !IsWhitespace(r[|r| - 1])
  {
    if s != [] && IsWhitespace(s[|s| - 1]) then
      var r := TrimEnd(s[..|s| - 1]);
      TrimEndStep(s, s[..|s| - 1], r);
      r
    else s
  }

  /** Dropping one more trailing white-space character keeps the trimmed prefix. */
  lemma TrimEndStep(s: string, p: string, r: string)
    requires s != [] && p == s[..|s| - 1] && IsWhitespace(s[|s| - 1])
    requires |r| <= |p| && r == p[..|r|] && AllWhitespace(p[|r|..])
    ensures |r| <= |s| && r == s[..|r|] && AllWhitespace(s[|r|..])
  {
    assert s[|r|..] == p[|r|..] + [s[|s| - 1]];
  }

  /** `s.trim()` */
  function Trim(s: string): (r: string)
    ensures r == [] || (!IsWhitespace(r[0]) && !IsWhitespace(r[|r| - 1]))
    ensures OccursAt(s, r, |s| - |TrimStart(s)|)
    ensures AllWhitespace(s[..|s| - |TrimStart(s)|])
    ensures AllWhitespace(s[|s| - |TrimStart(s)| + |r|..])
  {
    TrimEnd(TrimStart(s))
  }

  function Min(a: int, b: int): int {
    if a <= b then a else b
  }

  /** `s.substring(0, n)` */
  function Prefix(s: string, n: nat): (r: string)
    ensures |r| == Min(n, |s|) && r == s[..|r|]
  {
    s[..Min(n, |s|)]
  }

  function DigitChar(d: nat): char
    requires d < 10
  {
    ['0', '1', '2', '3', '4', '5', '6', '7', '8', '9'][d]
  }

  function DigitValue(c: char): nat {
    if '0' <= c <= '9' then (c as int - '0' as int) as nat else 0
  }

  lemma DigitRoundTrip(d: nat)
    requires d < 10
    ensures DigitValue(DigitChar(d)) == d
  {
  }

  /** A number rendered by a template literal (`${n}`): decimal, no leading zero. */
  function DecimalString(n: nat): (r: string)
    ensures |r| >= 1 && (n >= 10 ==> r[0] != '0')
    ensures forall i :: 0 <= i < |r| ==> '0' <= r[i] <= '9'
  {
    if n < 10 then [DigitChar(n)] else DecimalString(n / 10) + [DigitChar(n % 10)]
  }

  /** The inverse of DecimalString: reads a string of decimal digits. */
  function DecimalValue(s: string): nat {
    if s == [] then 0 else DecimalValue(s[..|s| - 1]) * 10 + DigitValue(s[|s| - 1])
  }

  lemma {:induction false} DecimalRoundTrip(n: nat)
    ensures DecimalValue(DecimalString(n)) == n
  {
    if n >= 10 {
      var s := DecimalString(n);
      assert s[..|s| - 1] == DecimalString(n / 10);
      DecimalRoundTrip(n / 10);
      DigitRoundTrip(n % 10);
      assert DecimalValue(s) == (n / 10) * 10 + n % 10;
    } else {
      DigitRoundTrip(n);
    }
  }
}
