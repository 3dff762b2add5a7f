/**
 * Exact, lowest-offset substring search over bytes: the contract of the
 * `TwoWaySearcher::search_in` call the patcher makes, and a naive search
 * over the prefix of a byte array that meets it.
 */
module Search {
  import opened Wrappers
  import opened Bytes

  /** `pat` occurs in `hay` at offset `i`, lying wholly inside `hay`. */
  predicate MatchesAt(hay: seq<byte>, pat: seq<byte>, i: nat) {
    i + |pat| <= |hay| && hay[i..i + |pat|] == pat
  }

  ghost predicate Occurs(hay: seq<byte>, pat: seq<byte>) {
    exists i: nat :: MatchesAt(hay, pat, i)
  }

  /** The lowest offset at or after `k` where `pat` occurs in `hay`, if any. */
  function FindFrom(hay: seq<byte>, pat: seq<byte>, k: nat): (r: Option<nat>)
    decreases |hay| - k
    ensures r.Some? ==> k <= r.value && MatchesAt(hay, pat, r.value)
    ensures r.Some? ==> forall j: nat :: k <= j < r.value ==> !MatchesAt(hay, pat, j)
    ensures r.None? ==> forall j: nat :: k <= j ==> !MatchesAt(hay, pat, j)
  {
    if k + |pat| > |hay| then None
    else if MatchesAt(hay, pat, k) then Some(k)
    else FindFrom(hay, pat, k + 1)
  }

  /** What `search_in` returns: the lowest offset of an exact match of `pat` in `hay`. */
  function FirstMatch(hay: seq<byte>, pat: seq<byte>): (r: Option<nat>)
    ensures r.Some? ==> MatchesAt(hay, pat, r.value)
    ensures r.Some? ==> forall j: nat :: j < r.value ==> !MatchesAt(hay, pat, j)
    ensures r.None? <==> !Occurs(hay, pat)
  {
    FindFrom(hay, pat, 0)
  }

  /**
   * Searches `a[..limit]` (the slice the caller hands to `search_in`) for `pat`,
   * trying the start offsets in increasing order.
   */
  method SearchIn(a: array<byte>, limit: nat, pat: seq<byte>) returns (r: Option<nat>)
    requires limit <= a.Length
    ensures r == FirstMatch(a[..limit], pat)
  {
    ghost var hay := a[..limit];
    var i := 0;
    while i + |pat| <= limit
      invariant FindFrom(hay, pat, i) == FirstMatch(hay, pat)
      decreases limit - i
    {
      assert hay[i..i + |pat|] == a[i..i + |pat|];
      if a[i..i + |pat|] == pat {
        return Some(i);
      }
      i := i + 1;
    }
    return None;
  }
}
