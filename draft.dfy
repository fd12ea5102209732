/** The draft text of the input box and the test that guards the add
    handler: a draft is refused when nothing is left of it once white space
    is trimmed from both ends. */
module Draft {

  /** The characters trimmed from both ends: the ASCII white space, the
      no-break space, the line and paragraph separators and the byte-order
      mark. */
  predicate IsWhitespace(c: char)
  {
    c == ' ' || c == '\t' || c == '\n' || c == '\r' || c == '\U{000B}' || c == '\U{000C}'
    || c == '\U{00A0}' || c == '\U{2028}' || c == '\U{2029}' || c == '\U{FEFF}'
  }

  /** The first position at or after `i` that does not hold white space,
      or `|s|` when there is none: where the trimmed draft starts. */
  function FirstNonWhite(s: string, i: nat): (lo: nat)
    requires i <= |s|
    ensures i <= lo <= |s|
    ensures forall k :: i <= k < lo ==> IsWhitespace(s[k])
    ensures lo == |s| || !IsWhitespace(s[lo])
    decreases |s| - i
  {
    if i < |s| && IsWhitespace(s[i]) then FirstNonWhite(s, i + 1) else i
  }

  /** The position just after the last non-white character at or after
      `lo` and before `j`, or `lo` when there is none: where the trimmed
      draft ends. */
  function EndNonWhite(s: string, lo: nat, j: nat): (hi: nat)
    requires lo <= j <= |s|
    ensures lo <= hi <= j
    ensures forall k :: hi <= k < j ==> IsWhitespace(s[k])
    ensures hi == lo || !IsWhitespace(s[hi - 1])
    decreases j
  {
    if lo < j && IsWhitespace(s[j - 1]) then EndNonWhite(s, lo, j - 1) else j
  }

  /** `r` is the slice of `s` that starts at `lo`, and everything of `s`
      outside that slice is white space. */
  predicate PaddedAt(s: string, lo: int, r: string)
  {
    && 0 <= lo <= |s| - |r| && r == s[lo..lo + |r|]
    && (forall i :: 0 <= i < lo ==> IsWhitespace(s[i]))
    && (forall i :: lo + |r| <= i < |s| ==> IsWhitespace(s[i]))
  }

  /** The draft with white space trimmed from both ends: the slice of it
      between its first and its last non-white character. */
  function Trim(s: string): (r: string)
    ensures r == [] || (!IsWhitespace(r[0]) && !IsWhitespace(r[|r| - 1]))
    ensures exists lo :: PaddedAt(s, lo, r)
  {
    var lo := FirstNonWhite(s, 0);
    var hi := EndNonWhite(s, lo, |s|);
    assert PaddedAt(s, lo, s[lo..hi]);
    s[lo..hi]
  }

  /** Nothing is left once trimmed exactly when every character is white
      space. */
  lemma TrimEmptyIffAllWhitespace(s: string)
    ensures Trim(s) == [] <==> forall i :: 0 <= i < |s| ==> IsWhitespace(s[i])
  {
    var lo := FirstNonWhite(s, 0);
    var hi := EndNonWhite(s, lo, |s|);
    if lo < |s| {
      assert hi != lo;
      assert s[lo..hi][0] == s[lo];
    }
  }

  /** A draft the add handler refuses: empty once trimmed, which is exactly
      a draft made of white space only, the empty draft included. */
  predicate IsBlank(s: string): (b: bool)
    ensures b <==> forall i :: 0 <= i < |s| ==> IsWhitespace(s[i])
  {
    TrimEmptyIffAllWhitespace(s);
    Trim(s) == []
  }
}
