/**
 * The part of java.lang.String the member service relies on: trim() and the
 * "null or blank after trim" test built on it. Java's trim removes, from both
 * ends, every character whose code point is at most U+0020.
 */
module JavaString {

  import opened Wrappers

  /** A character that String.trim removes from the ends of a string. */
  predicate IsSpace(c: char)
  {
    c <= ' '
  }

  /** Reference meaning of "not blank": some character survives trimming. */
  ghost predicate HasNonSpace(s: string)
  {
    exists i :: 0 <= i < |s| && !IsSpace(s[i])
  }

  /** Drops the leading run of space characters. */
  function TrimLeading(s: string): (r: string)
    ensures |r| <= |s| && r == s[|s| - |r|..]
    ensures r != [] ==> !IsSpace(r[0])
    ensures forall i :: 0 <= i < |s| - |r| ==> IsSpace(s[i])
  {
    if s != [] && IsSpace(s[0]) then TrimLeading(s[1..]) else s
  }

  /** Drops the trailing run of space characters. */
  function TrimTrailing(s: string): (r: string)
    ensures |r| <= |s| && r == s[..|r|]
    ensures r != [] ==> !IsSpace(r[|r| - 1])
    ensures forall i :: |r| <= i < |s| ==> IsSpace(s[i])
  {
    if s != [] && IsSpace(s[|s| - 1]) then TrimTrailing(s[..|s| - 1]) else s
  }

  /** r is the slice of s that starts at lo, and everything of s outside it is space. */
  ghost predicate SpaceBoundedSlice(s: string, r: string, lo: nat)
  {
    && lo + |r| <= |s|
    && r == s[lo..lo + |r|]
    && (forall i :: 0 <= i < lo ==> IsSpace(s[i]))
    && (forall i :: lo + |r| <= i < |s| ==> IsSpace(s[i]))
  }

  /**
   * String.trim: the result is s with only space characters removed from its
   * two ends, it neither starts nor ends with space, and it is empty exactly
   * when s consists of space characters only.
   */
  function Trim(s: string): (r: string)
    ensures exists lo: nat :: SpaceBoundedSlice(s, r, lo)
    ensures r != [] ==> !IsSpace(r[0]) && !IsSpace(r[|r| - 1])
    ensures r == [] <==> !HasNonSpace(s)
  {
    var t := TrimLeading(s);
    var r := TrimTrailing(t);
    assert SpaceBoundedSlice(s, r, |s| - |t|);
    r
  }

  /** Trimming twice is trimming once. */
  lemma TrimIdempotent(s: string)
    ensures Trim(Trim(s)) == Trim(s)
  {
    var r := Trim(s);
    if r != [] {
      assert TrimLeading(r) == r;
      assert TrimTrailing(r) == r;
    }
  }

  /**
   * The predicate `str -> str != null && !str.trim().equals("")`: a present
   * string with at least one character that is not space.
   */
  predicate NotNullOrEmpty(s: Option<string>)
    ensures NotNullOrEmpty(s) <==> s.Some? && HasNonSpace(s.value)
  {
    s.Some? && Trim(s.value) != ""
  }
}
