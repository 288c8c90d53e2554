/** Substring search, as std::string::find and rfind define it. */
module StrFind {

  datatype Option<+T> = None | Some(value: T)

  /** `pat` occurs in `s` at index `i`. */
  predicate At(s: string, i: nat, pat: string) {
    i + |pat| <= |s| && s[i..i + |pat|] == pat
  }

  /** The first occurrence at or after `pos`; a `pos` past the end finds nothing. */
  function Find(s: string, pat: string, pos: nat): (r: Option<nat>)
    ensures r.Some? ==> pos <= r.value <= r.value + |pat| <= |s| && At(s, r.value, pat)
    ensures r.Some? ==> forall j :: pos <= j < r.value ==> !At(s, j, pat)
    ensures r.None? ==> forall j :: pos <= j ==> !At(s, j, pat)
    decreases |s| - pos
  {
    if pos + |pat| > |s| then None
    else if At(s, pos, pat) then Some(pos)
    else Find(s, pat, pos + 1)
  }

  /** The last occurrence that starts at or before `pos`. */
  function RFind(s: string, pat: string, pos: nat): (r: Option<nat>)
    ensures r.Some? ==> r.value <= pos && At(s, r.value, pat)
    ensures r.Some? ==> forall j :: r.value < j <= pos ==> !At(s, j, pat)
    ensures r.None? ==> forall j :: 0 <= j <= pos ==> !At(s, j, pat)
  {
    if At(s, pos, pat) then Some(pos)
    else if pos == 0 then None
    else RFind(s, pat, pos - 1)
  }

  /** `Find` with std::string::npos replaced by the length of the string. */
  function FindOrEnd(s: string, pat: string, pos: nat): (r: nat)
    requires pos <= |s|
    ensures pos <= r <= |s|
    ensures forall j :: pos <= j < r ==> !At(s, j, pat)
    ensures r < |s| && pat != [] ==> r + |pat| <= |s| && At(s, r, pat)
  {
    match Find(s, pat, pos)
    case Some(i) => i
    case None => |s|
  }

  /** An occurrence inside a piece is one in the text, and the other way round. */
  lemma AtInPiece(s: string, lo: nat, hi: nat, i: nat, pat: string)
    requires lo <= hi <= |s|
    ensures At(s[lo..hi], i, pat) <==> lo + i + |pat| <= hi && At(s, lo + i, pat)
  {
    if lo + i + |pat| <= hi {
      var a, b := s[lo..hi][i..i + |pat|], s[lo + i..lo + i + |pat|];
      forall j | 0 <= j < |pat| ensures a[j] == b[j] {
        assert a[j] == s[lo..hi][i + j];
      }
      assert a == b;
    }
  }
}
