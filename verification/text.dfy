/**
 * Whitespace handling of the request validators: Python's `str.strip()` with
 * no arguments, and the "blank title" test built on it.
 */
module Text {

  /**
   * The characters `str.isspace()` accepts in the ASCII and Latin-1 range:
   * space, tab, line feed, carriage return, vertical tab, form feed, the four
   * information separators, NEL and no-break space.
   */
  predicate IsSpace(c: char) {
    || c == ' ' || c == '\t' || c == '\n' || c == '\r'
    || c == '\U{0B}' || c == '\U{0C}'
    || ('\U{1C}' <= c <= '\U{1F}')
    || c == '\U{85}' || c == '\U{A0}'
  }

  /** Every character is whitespace (the empty string included). */
  predicate IsBlank(s: string) {
    forall i :: 0 <= i < |s| ==> IsSpace(s[i])
  }

  /** Drops the leading whitespace of `s` (Python's `lstrip()`). */
  function TrimStart(s: string): (r: string)
    ensures |r| <= |s| && r == s[|s| - |r|..]
    ensures forall i :: 0 <= i < |s| - |r| ==> IsSpace(s[i])
    ensures r == [] || !IsSpace(r[0])
  {
    if s != [] && IsSpace(s[0]) then
      var r := TrimStart(s[1..]);
      assert s[1..][|s| - 1 - |r|..] == s[|s| - |r|..];
      assert forall i :: 1 <= i < |s| - |r| ==> s[i] == s[1..][i - 1];
      r
    else
      s
  }

  /** Drops the trailing whitespace of `s` (Python's `rstrip()`). */
  function TrimEnd(s: string): (r: string)
    ensures |r| <= |s| && r == s[..|r|]
    ensures forall i :: |r| <= i < |s| ==> IsSpace(s[i])
    ensures r == [] || !IsSpace(r[|r| - 1])
  {
    if s != [] && IsSpace(s[|s| - 1]) then
      var r := TrimEnd(s[..|s| - 1]);
      assert s[..|s| - 1][..|r|] == s[..|r|];
      assert forall i :: |r| <= i < |s| - 1 ==> s[i] == s[..|s| - 1][i];
      r
    else
      s
  }

  /**
   * Python's `s.strip()`: `s` without its leading and trailing whitespace.
   * The result neither starts nor ends with whitespace, and is empty
   * exactly when `s` is blank; `StripIsSlice` shows it is what lies between
   * the cut-off whitespace.
   */
  function Strip(s: string): (r: string)
    ensures r != [] ==> !IsSpace(r[0]) && !IsSpace(r[|r| - 1])
    ensures r == [] <==> IsBlank(s)
  {
    var u := TrimStart(s);
    var r := TrimEnd(u);
    StripEmpty(s, u, r);
    r
  }

  /** The stripped string is the slice `s[i..j]`, and everything cut off on either side is whitespace. */
  lemma StripIsSlice(s: string) returns (i: nat, j: nat)
    ensures i <= j <= |s| && Strip(s) == s[i..j]
    ensures IsBlank(s[..i]) && IsBlank(s[j..])
  {
    var u := TrimStart(s);
    var r := TrimEnd(u);
    i, j := |s| - |u|, |s| - |u| + |r|;
    SliceFacts(s, u, r);
  }

  /**
   * When `u` is a suffix of `s` after whitespace, and `r` a prefix of `u`
   * before whitespace, `r` is a slice of `s` between two blank pieces.
   */
  lemma SliceFacts(s: string, u: string, r: string)
    requires |u| <= |s| && u == s[|s| - |u|..]
    requires forall k :: 0 <= k < |s| - |u| ==> IsSpace(s[k])
    requires |r| <= |u| && r == u[..|r|]
    requires forall k :: |r| <= k < |u| ==> IsSpace(u[k])
    ensures r == s[|s| - |u|..|s| - |u| + |r|]
    ensures IsBlank(s[..|s| - |u|]) && IsBlank(s[|s| - |u| + |r|..])
  {
    var i := |s| - |u|;
    assert forall k :: 0 <= k < |r| ==> r[k] == s[i + k];
    var tail := s[i + |r|..];
    assert forall k :: 0 <= k < |tail| ==> tail[k] == u[|r| + k];
  }

  /** Both trims leave nothing exactly when the input is blank. */
  lemma StripEmpty(s: string, u: string, r: string)
    requires u == TrimStart(s) && r == TrimEnd(u)
    ensures r == [] <==> IsBlank(s)
  {
    if u != [] && r != [] {
      assert s[|s| - |u|] == r[0];
    }
  }

  /** Stripping twice is stripping once. */
  lemma StripIdempotent(s: string)
    ensures Strip(Strip(s)) == Strip(s)
  {
    var r := Strip(s);
    if r != [] {
      assert TrimStart(r) == r;
      assert TrimEnd(r) == r;
    }
  }
}
