/** The string operations the site's labels use: the first-occurrence search inside `replace("-", " ")`,
    the replacement itself, and the decimal rendering of a count in a template. */
module JsText {
  import JsArray

  /** Position of the first occurrence of `c` in `s`, or -1: the search `replace` performs. */
  function IndexOf(s: string, c: char): (r: int)
    ensures -1 <= r < |s|
    ensures r == -1 <==> c !in s
    ensures 0 <= r ==> s[r] == c && forall j :: 0 <= j < r ==> s[j] != c
  {
    JsArray.FindIndex(s, (x: char) => x == c)
  }

  /** `s.replace(from, to)` for one-character strings: only the first occurrence is replaced. */
  function ReplaceFirst(s: string, from: char, to: char): (r: string)
    ensures |r| == |s|
    ensures IndexOf(s, from) == -1 ==> r == s
    ensures 0 <= IndexOf(s, from) ==> r == s[..IndexOf(s, from)] + [to] + s[IndexOf(s, from) + 1..]
  {
    if |s| == 0 then s
    else if s[0] == from then [to] + s[1..]
    else [s[0]] + ReplaceFirst(s[1..], from, to)
  }

  /** Replacing in `a + [from] + b` rewrites exactly the separator when `a` does not contain it. */
  lemma ReplaceFirstAfterPrefix(a: string, b: string, from: char, to: char)
    requires from !in a
    ensures ReplaceFirst(a + [from] + b, from, to) == a + [to] + b
  {
    var s := a + [from] + b;
    assert s[|a|] == from;
    assert forall j :: 0 <= j < |a| ==> s[j] == a[j];
    assert IndexOf(s, from) == |a|;
    assert s[..|a|] == a && s[|a| + 1..] == b;
  }

  predicate IsDigit(c: char) {
    '0' <= c <= '9'
  }

  function DigitChar(d: nat): (c: char)
    requires d < 10
    ensures IsDigit(c)
  {
    ('0' as int + d) as char
  }

  function DigitValue(c: char): nat
    requires IsDigit(c)
  {
    c as int - '0' as int
  }

  /** The decimal text JavaScript produces for a count such as an array length: digits only, no leading zero.
      (From 10^21 upward JavaScript switches to exponent notation; no count reaches that.) */
  function NumberToString(n: nat): (r: string)
    ensures |r| >= 1
    ensures forall i :: 0 <= i < |r| ==> IsDigit(r[i])
    ensures r[0] == '0' <==> n == 0
    decreases n
  {
    if n < 10 then [DigitChar(n)] else NumberToString(n / 10) + [DigitChar(n % 10)]
  }

  /** Reads a string of decimal digits back as a number. */
  function ParseDigits(s: string): nat
    requires forall i :: 0 <= i < |s| ==> IsDigit(s[i])
  {
    if |s| == 0 then 0 else ParseDigits(s[..|s| - 1]) * 10 + DigitValue(s[|s| - 1])
  }

  /** Rendering a count and reading it back gives the count. */
  lemma {:induction false} ParseNumberToString(n: nat)
    ensures ParseDigits(NumberToString(n)) == n
    decreases n
  {
    var r := NumberToString(n);
    if n >= 10 {
      var prefix := NumberToString(n / 10);
      assert r[..|r| - 1] == prefix;
      ParseNumberToString(n / 10);
    }
  }
}
