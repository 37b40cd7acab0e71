/** Counting the elements of a drawn frame that satisfy a predicate
    (highlighted bars, coloured cells, bright bars). */
module Counting {

  /** The number of elements of `s` that satisfy `p`. */
  function Count<T>(s: seq<T>, p: T -> bool): (r: nat)
    ensures r <= |s|
  {
    if |s| == 0 then 0 else (if p(s[0]) then 1 else 0) + Count(s[1..], p)
  }

  /** The number of elements satisfying `p` in the rows of a two-dimensional frame. */
  function CountRows<T>(g: seq<seq<T>>, p: T -> bool): (r: nat)
  {
    if |g| == 0 then 0 else Count(g[0], p) + CountRows(g[1..], p)
  }

  /** When exactly the positions `lo..hi-1` satisfy `p`, the count is the width of
      that interval. An empty interval (`lo == hi`) covers "none", `lo == 0` a
      prefix, `hi == lo + 1` a single position and `0, |s|` every position. */
  lemma {:induction false} CountInterval<T>(s: seq<T>, p: T -> bool, lo: int, hi: int)
    requires 0 <= lo <= hi <= |s|
    requires forall i :: 0 <= i < |s| ==> (p(s[i]) <==> lo <= i < hi)
    ensures Count(s, p) == hi - lo
  {
    if |s| != 0 {
      var lo', hi' := if lo > 0 then lo - 1 else 0, if hi > 0 then hi - 1 else 0;
      forall i | 0 <= i < |s[1..]|
        ensures p(s[1..][i]) <==> lo' <= i < hi'
      {
        assert s[1..][i] == s[i + 1];
      }
      CountInterval(s[1..], p, lo', hi');
    }
  }
}
