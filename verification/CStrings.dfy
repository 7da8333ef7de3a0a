/** Character classes and case-insensitive comparison as the C library gives them
    in the C locale. Strings are the characters before the terminating NUL. */
module CStrings {

  const NUL: char := '\0'

  /** isspace() */
  predicate IsSpace(c: char) {
    c == ' ' || '\t' <= c <= '\r'
  }

  /** The characters that parseconf stores; 0x7f is included, as in the code. */
  predicate Printable(c: char) {
    ' ' <= c <= '\U{7f}'
  }

  ghost predicate AllPrintable(s: string) {
    forall i :: 0 <= i < |s| ==> Printable(s[i])
  }

  /** The printable characters of a string, in order. */
  function Filter(s: string): (r: string)
    ensures AllPrintable(r)
    ensures |r| <= |s|
    ensures r == s <==> AllPrintable(s)
  {
    if s == "" then ""
    else if Printable(s[0]) then
      assert s == [s[0]] + s[1..];
      [s[0]] + Filter(s[1..])
    else Filter(s[1..])
  }

  function ToLower(c: char): char {
    if 'A' <= c <= 'Z' then (c as int + 32) as char else c
  }

  /** A string with its ASCII letters in lower case. */
  function Fold(s: string): (r: string)
    ensures |r| == |s|
    ensures forall i :: 0 <= i < |s| ==> r[i] == ToLower(s[i])
  {
    if s == "" then "" else [ToLower(s[0])] + Fold(s[1..])
  }

  /** strcmp() as a sign: the end of the shorter string sorts before any character. */
  function Compare(a: string, b: string): (r: int)
    ensures r == 0 <==> a == b
  {
    if a == "" then (if b == "" then 0 else -1)
    else if b == "" then 1
    else if a[0] < b[0] then -1
    else if a[0] > b[0] then 1
    else
      assert a == [a[0]] + a[1..] && b == [b[0]] + b[1..];
      Compare(a[1..], b[1..])
  }

  /** The strict order behind strcasecmp(), on strings already folded. */
  predicate Less(a: string, b: string) {
    Compare(a, b) < 0
  }

  /** strcasecmp() */
  function CaseCompare(a: string, b: string): int {
    Compare(Fold(a), Fold(b))
  }

  lemma {:induction false} CompareAntisymmetric(a: string, b: string)
    ensures Compare(a, b) < 0 <==> Compare(b, a) > 0
  {
    if a != "" && b != "" && a[0] == b[0] {
      CompareAntisymmetric(a[1..], b[1..]);
    }
  }

  lemma {:induction false} LessTransitive(a: string, b: string, c: string)
    requires Less(a, b) && Less(b, c)
    ensures Less(a, c)
  {
    if a != "" && b != "" && c != "" && a[0] == b[0] == c[0] {
      LessTransitive(a[1..], b[1..], c[1..]);
    }
  }

  /** What snprintf() leaves of s in a buffer of the given size. */
  function Cut(s: string, bufsize: nat): (r: string)
    requires bufsize >= 1
    ensures r <= s && |r| < bufsize
    ensures r == s <==> |s| < bufsize
  {
    if |s| < bufsize then s else s[..bufsize - 1]
  }
}
