/**
 * The two pieces of string handling the data service relies on from the
 * .NET base library: `string.IsNullOrWhiteSpace` and the comparison
 * `string.Equals(a, b, StringComparison.OrdinalIgnoreCase)`.
 */
module Text {
  import opened Wrappers

  /** `char.IsWhiteSpace`: the Unicode separators (categories Zs, Zl, Zp)
      and the control characters U+0009 to U+000D and U+0085. */
  predicate IsWhiteSpace(c: char) {
    || ('\t' <= c <= '\r')
    || c == ' '
    || c == '\U{0085}'
    || c == '\U{00A0}'
    || c == '\U{1680}'
    || ('\U{2000}' <= c <= '\U{200A}')
    || c == '\U{2028}'
    || c == '\U{2029}'
    || c == '\U{202F}'
    || c == '\U{205F}'
    || c == '\U{3000}'
  }

  /** `string.IsNullOrWhiteSpace`: null, empty, or white space only. */
  predicate IsNullOrWhiteSpace(s: Option<string>)
    ensures IsNullOrWhiteSpace(s) && s.Some? ==> forall i :: 0 <= i < |s.value| ==> !('0' <= s.value[i] <= '9')
  {
    s.None? || forall i :: 0 <= i < |s.value| ==> IsWhiteSpace(s.value[i])
  }

  /** Upper-case folding of one character, restricted to ASCII letters. */
  function FoldCase(c: char): (u: char)
    ensures 'a' <= c <= 'z' ==> 'A' <= u <= 'Z' && u as int + 32 == c as int
    ensures !('a' <= c <= 'z') ==> u == c
  {
    if 'a' <= c <= 'z' then (c as int - 32) as char else c
  }

  /** The whole string folded to upper case, character by character. */
  function Upper(s: string): (u: string)
    ensures |u| == |s|
    ensures forall i :: 0 <= i < |s| ==> u[i] == FoldCase(s[i])
  {
    seq(|s|, i requires 0 <= i < |s| => FoldCase(s[i]))
  }

  /** `string.Equals(a, b, StringComparison.OrdinalIgnoreCase)`, compared
      one character at a time from the front. */
  predicate EqualsIgnoreCase(a: string, b: string)
    ensures a == b ==> EqualsIgnoreCase(a, b)
    ensures EqualsIgnoreCase(a, b) ==> |a| == |b|
  {
    if a == [] || b == [] then a == b
    else FoldCase(a[0]) == FoldCase(b[0]) && EqualsIgnoreCase(a[1..], b[1..])
  }

  /** Two strings are equal ignoring case exactly when their upper-case
      foldings are equal. */
  lemma {:induction false} EqualsIgnoreCaseIffSameUpper(a: string, b: string)
    ensures EqualsIgnoreCase(a, b) <==> Upper(a) == Upper(b)
  {
    if a != [] && b != [] {
      EqualsIgnoreCaseIffSameUpper(a[1..], b[1..]);
      if Upper(a) == Upper(b) {
        assert Upper(a[1..]) == Upper(a)[1..];
        assert Upper(b[1..]) == Upper(b)[1..];
      }
      if FoldCase(a[0]) == FoldCase(b[0]) && Upper(a[1..]) == Upper(b[1..]) {
        assert Upper(a) == [FoldCase(a[0])] + Upper(a[1..]);
        assert Upper(b) == [FoldCase(b[0])] + Upper(b[1..]);
      }
    }
  }

  /** The comparison is an equivalence relation, and exact equality implies it. */
  lemma EqualsIgnoreCaseIsEquivalence(a: string, b: string, c: string)
    ensures EqualsIgnoreCase(a, a)
    ensures EqualsIgnoreCase(a, b) ==> EqualsIgnoreCase(b, a)
    ensures EqualsIgnoreCase(a, b) && EqualsIgnoreCase(b, c) ==> EqualsIgnoreCase(a, c)
  {
    EqualsIgnoreCaseIffSameUpper(a, a);
    EqualsIgnoreCaseIffSameUpper(a, b);
    EqualsIgnoreCaseIffSameUpper(b, a);
    EqualsIgnoreCaseIffSameUpper(b, c);
    EqualsIgnoreCaseIffSameUpper(a, c);
  }

  /** Strings of different lengths never compare equal. */
  lemma {:induction false} EqualsIgnoreCaseSameLength(a: string, b: string)
    ensures EqualsIgnoreCase(a, b) ==> |a| == |b|
  {
    EqualsIgnoreCaseIffSameUpper(a, b);
  }

  /** A string compares equal to its own upper-case folding. */
  lemma EqualsIgnoreCaseUpper(s: string)
    ensures EqualsIgnoreCase(s, Upper(s))
  {
    EqualsIgnoreCaseIffSameUpper(s, Upper(s));
    assert Upper(Upper(s)) == Upper(s);
  }
}
