/** Leftmost-match search, the behaviour of Python's `re.search`: the pattern
    is tried anchored at each position of the text in turn, from the left,
    and the first position where it matches gives the result. The anchored
    matcher is a parameter, so the search is stated once for any pattern. */
module LeftmostSearch {
  import opened Wrappers

  /** A match and the position where it starts. */
  datatype At<+T> = At(pos: nat, value: T)

  /** No position of `s`, the end included, holds a match. */
  predicate NoMatchIn<T(==)>(matchAt: string -> Option<T>, s: string)
  {
    forall k {:trigger matchAt(s[k..])} :: 0 <= k <= |s| ==> matchAt(s[k..]).None?
  }

  /** `v` is matched at position `p` of `s`, and no earlier position holds a
      match. */
  predicate IsFirst<T(==)>(matchAt: string -> Option<T>, s: string, p: nat, v: T)
  {
    p <= |s| && matchAt(s[p..]) == Some(v)
    && forall k {:trigger matchAt(s[k..])} :: 0 <= k < p ==> matchAt(s[k..]).None?
  }

  /** The first position at or after `i` where `matchAt` succeeds on the rest
      of `s`; the end of the text is tried as well, as the regex engine does. */
  function SearchFrom<T(==)>(matchAt: string -> Option<T>, s: string, i: nat): (r: Option<At<T>>)
    requires i <= |s|
    ensures r.Some? ==> i <= r.value.pos <= |s| && matchAt(s[r.value.pos..]) == Some(r.value.value)
    ensures r.Some? ==> forall k {:trigger matchAt(s[k..])} :: i <= k < r.value.pos ==> matchAt(s[k..]).None?
    ensures r.None? <==> forall k {:trigger matchAt(s[k..])} :: i <= k <= |s| ==> matchAt(s[k..]).None?
    decreases |s| - i
  {
    match matchAt(s[i..])
    case Some(v) => Some(At(i, v))
    case None => if i == |s| then None else SearchFrom(matchAt, s, i + 1)
  }

  /** The search from the start of the text: the leftmost match, or none. */
  function Search<T(==)>(matchAt: string -> Option<T>, s: string): (r: Option<At<T>>)
    ensures r.None? <==> NoMatchIn(matchAt, s)
    ensures r.Some? ==> IsFirst(matchAt, s, r.value.pos, r.value.value)
  {
    SearchFrom(matchAt, s, 0)
  }

  /** The leftmost match is the only answer the search can give. */
  lemma SearchLeftmost<T>(matchAt: string -> Option<T>, s: string, p: nat, v: T)
    requires IsFirst(matchAt, s, p, v)
    ensures Search(matchAt, s) == Some(At(p, v))
  {
  }

  /** Text in front that holds no match start shifts the result and changes
      nothing else. */
  lemma SearchPrepend<T>(matchAt: string -> Option<T>, pre: string, s: string)
    requires forall k {:trigger matchAt((pre + s)[k..])} :: 0 <= k < |pre| ==> matchAt((pre + s)[k..]).None?
    ensures Search(matchAt, pre + s)
         == match Search(matchAt, s)
            case None => None
            case Some(a) => Some(At(|pre| + a.pos, a.value))
  {
    var n := |pre|;
    match Search(matchAt, s)
    case None =>
      forall k {:trigger matchAt((pre + s)[k..])} | 0 <= k <= |pre + s| ensures matchAt((pre + s)[k..]).None? {
        if k >= n { assert (pre + s)[k..] == s[k - n..]; }
      }
    case Some(a) =>
      forall k {:trigger matchAt((pre + s)[k..])} | 0 <= k < n + a.pos ensures matchAt((pre + s)[k..]).None? {
        if k >= n { assert (pre + s)[k..] == s[k - n..]; }
      }
      assert (pre + s)[n + a.pos..] == s[a.pos..];
      SearchLeftmost(matchAt, pre + s, n + a.pos, a.value);
  }
}
