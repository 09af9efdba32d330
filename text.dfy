/**
 String helpers of the quote application: Python's `str.strip`, literal
 substring containment (what `LIKE '%term%'` at least accepts) and the
 list-view helper `truncate`.
 */
module Text {

  /** The characters `str.isspace` accepts, which `str.strip()` removes: the ASCII
      controls 9-13 and 28-31, the space, and the Unicode space and separator
      characters. */
  predicate IsSpace(c: char) {
    || '\t' <= c <= '\r'
    || '\U{001C}' <= c <= ' '
    || c == '\U{0085}' || c == '\U{00A0}' || c == '\U{1680}'
    || '\U{2000}' <= c <= '\U{200A}'
    || c == '\U{2028}' || c == '\U{2029}' || c == '\U{202F}' || c == '\U{205F}' || c == '\U{3000}'
  }

  predicate AllSpace(s: string) {
    forall k :: 0 <= k < |s| ==> IsSpace(s[k])
  }

  /** Index of the first character that is not whitespace (|s| if none). */
  function SpanStart(s: string): (i: nat)
    ensures i <= |s|
    ensures AllSpace(s[..i])
    ensures i < |s| ==> !IsSpace(s[i])
  {
    if s == [] || !IsSpace(s[0]) then 0
    else
      var i := 1 + SpanStart(s[1..]);
      assert s[..i] == [s[0]] + s[1..][..i - 1];
      i
  }

  /** One past the index of the last character that is not whitespace (0 if none). */
  function SpanEnd(s: string): (j: nat)
    ensures j <= |s|
    ensures AllSpace(s[j..])
    ensures j > 0 ==> !IsSpace(s[j - 1])
  {
    if s == [] || !IsSpace(s[|s| - 1]) then |s|
    else
      var j := SpanEnd(s[..|s| - 1]);
      assert s[j..] == s[..|s| - 1][j..] + [s[|s| - 1]];
      j
  }

  /** `s.strip()`: `s` without its leading and trailing whitespace. */
  function Strip(s: string): (r: string)
    ensures |r| <= |s|
    ensures r == [] <==> AllSpace(s)
    ensures r != [] ==> !IsSpace(r[0]) && !IsSpace(r[|r| - 1])
  {
    var i := SpanStart(s);
    if i == |s| then
      assert s[..i] == s;
      assert s[i..i] == [];
      []
    else
      var j := SpanEnd(s);
      assert !AllSpace(s) by { assert !IsSpace(s[i]); }
      s[i..j]
  }

  /** What `strip` removes is whitespace on either side of what it keeps. */
  lemma StripKeepsInfix(s: string)
    ensures exists i :: 0 <= i <= |s| - |Strip(s)| && s[i..i + |Strip(s)|] == Strip(s) && AllSpace(s[..i]) && AllSpace(s[i + |Strip(s)|..])
  {
    var i := SpanStart(s);
    if i == |s| {
      assert s[..i] == s && s[i..i] == [] && s[i..] == [];
    } else {
      assert s[i..i + |Strip(s)|] == Strip(s);
    }
  }

  /** Stripping twice is stripping once. */
  lemma StripIdempotent(s: string)
    ensures Strip(Strip(s)) == Strip(s)
  {
    var r := Strip(s);
    if r != [] {
      assert SpanStart(r) == 0;
      assert SpanEnd(r) == |r|;
      assert r[0..|r|] == r;
    }
  }

  /** `term` occurs in `s` starting at index `i`. */
  predicate OccursAt(term: string, s: string, i: int) {
    0 <= i <= |s| - |term| && s[i..i + |term|] == term
  }

  /** `term` occurs in `s` as a contiguous block of characters. */
  predicate IsSubstring(term: string, s: string) {
    exists i | 0 <= i <= |s| - |term| :: OccursAt(term, s, i)
  }

  function Min(a: int, b: int): int { if a <= b then a else b }

  function Max(a: int, b: int): int { if a >= b then a else b }

  /** Python's slice `s[:stop]`; a negative `stop` counts from the end. */
  function PyPrefix(s: string, stop: int): (r: string)
    ensures r <= s
    ensures stop >= 0 ==> |r| == Min(stop, |s|)
    ensures stop < 0 ==> |r| == Max(0, |s| + stop)
  {
    if stop >= 0 then s[..Min(stop, |s|)] else s[..Max(0, |s| + stop)]
  }

  /** `truncate(s, n)`: `s` if it fits in `n` characters, else `s[:n-3] + '...'`. */
  function Truncate(s: string, n: int): (r: string)
    ensures |s| <= n ==> r == s
    ensures |s| > n ==> exists p :: p <= s && r == p + "..."
    ensures |s| > n && n >= 3 ==> r == s[..n - 3] + "..." && |r| == n
    ensures |s| > n && n < 3 ==> |r| == Max(0, |s| + n - 3) + 3
  {
    if |s| > n then PyPrefix(s, n - 3) + "..." else s
  }

  /** The list view truncates texts to 60 characters: a longer text shows as its
      first 57 characters and an ellipsis, a shorter one unchanged. */
  lemma ListTruncation(s: string)
    ensures |Truncate(s, 60)| <= 60
    ensures |s| > 60 ==> Truncate(s, 60)[..57] == s[..57]
  {
  }
}
