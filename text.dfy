/**
  Python's `str.strip()` with no argument: remove the leading and trailing
  characters for which `str.isspace()` holds.
 */
module Text {

  /** The characters Python's `str.isspace()` accepts. */
  predicate IsSpace(c: char)
  {
    || c == ' ' || c == '\t' || c == '\n' || c == '\r'
    || c == '\U{000B}' || c == '\U{000C}'
    || ('\U{001C}' <= c <= '\U{001F}')
    || c == '\U{0085}' || c == '\U{00A0}' || c == '\U{1680}'
    || ('\U{2000}' <= c <= '\U{200A}')
    || c == '\U{2028}' || c == '\U{2029}' || c == '\U{202F}'
    || c == '\U{205F}' || c == '\U{3000}'
  }

  /** Every character of `s` is white space (the empty string included). */
  predicate IsBlank(s: string)
  {
    forall k :: 0 <= k < |s| ==> IsSpace(s[k])
  }

  /** The first position at or after `i` that does not hold white space, or `|s|`. */
  function SkipSpaces(s: string, i: nat): (lo: nat)
    requires i <= |s|
    ensures i <= lo <= |s|
    ensures forall k :: i <= k < lo ==> IsSpace(s[k])
    ensures lo < |s| ==> !IsSpace(s[lo])
    decreases |s| - i
  {
    if i < |s| && IsSpace(s[i]) then SkipSpaces(s, i + 1) else i
  }

  /**
    The end of `s[lo..hi]` once its trailing white space is dropped: the
    smallest `e` with only white space in `s[e..hi]`.
   */
  function SkipSpacesBack(s: string, lo: nat, hi: nat): (e: nat)
    requires lo <= hi <= |s|
    ensures lo <= e <= hi
    ensures forall k :: e <= k < hi ==> IsSpace(s[k])
    ensures lo < e ==> !IsSpace(s[e - 1])
    decreases hi - lo
  {
    if lo < hi && IsSpace(s[hi - 1]) then SkipSpacesBack(s, lo, hi - 1) else hi
  }

  /** Where the stripped text starts in `s`. */
  function StripStart(s: string): nat
  {
    SkipSpaces(s, 0)
  }

  /**
    `s` without its leading and trailing white space: it is empty exactly
    when `s` is blank, and otherwise neither starts nor ends with white
    space (StripIsInnerSlice says which part of `s` it is).
   */
  function Strip(s: string): (r: string)
    ensures |r| <= |s|
    ensures r == [] <==> IsBlank(s)
    ensures r != [] ==> !IsSpace(r[0]) && !IsSpace(r[|r| - 1])
  {
    var lo := StripStart(s);
    s[lo..SkipSpacesBack(s, lo, |s|)]
  }

  /**
    The stripped text is the slice of `s` that starts after its longest
    blank prefix and is followed only by white space.
   */
  lemma StripIsInnerSlice(s: string)
    ensures var lo, r := StripStart(s), Strip(s);
      && lo + |r| <= |s|
      && r == s[lo..lo + |r|]
      && (forall k :: 0 <= k < lo ==> IsSpace(s[k]))
      && (lo < |s| ==> !IsSpace(s[lo]))
      && (forall k :: lo + |r| <= k < |s| ==> IsSpace(s[k]))
  {
  }

  /** Stripping twice is stripping once. */
  lemma StripIdempotent(s: string)
    ensures Strip(Strip(s)) == Strip(s)
  {
  }
}
