/** The O(n) visualisation: a row of `n` bars swept left to right, one
    highlighted bar per step, with the step count shown beside it. */
module Linear {
  import opened Counting

  /** The two colours a bar of the sweep can take: the slate colour of an
      inactive bar, or the theme's accent colour. */
  datatype Tone = Slate | Accent

  predicate IsAccent(t: Tone) { t == Accent }

  /** The bars `drawLinear(n, activeIndex)` paints, left to right. The default
      `activeIndex` of -1 is the one the slider handler and the initial draw use. */
  function LinearFrame(n: nat, activeIndex: int := -1): (f: seq<Tone>)
    ensures |f| == n
    ensures forall i :: 0 <= i < n ==> (f[i] == Accent <==> i == activeIndex)
  {
    seq(n, i => if i == activeIndex then Accent else Slate)
  }

  /** At most one bar is highlighted: exactly one when `activeIndex` names a bar,
      none otherwise (in particular for the default -1). */
  lemma LinearHighlight(n: nat, activeIndex: int)
    ensures Count(LinearFrame(n, activeIndex), IsAccent) == if 0 <= activeIndex < n then 1 else 0
  {
    var f := LinearFrame(n, activeIndex);
    if 0 <= activeIndex < n {
      CountInterval(f, IsAccent, activeIndex, activeIndex + 1);
    } else {
      CountInterval(f, IsAccent, 0, 0);
    }
  }

  /** `runLinear`: for each `i` in `0..n-1` draw the frame highlighting bar `i` and
      write `i + 1` to the stats text; then draw once more with no highlight.
      `stats` lists the values written to the stats text, in order, and `frames`
      the frames drawn, in order. */
  method RunLinear(n: nat) returns (stats: seq<int>, frames: seq<seq<Tone>>)
    ensures |stats| == n && forall k :: 0 <= k < n ==> stats[k] == k + 1
    ensures n > 0 ==> stats[n - 1] == n
    ensures |frames| == n + 1
    ensures forall k :: 0 <= k < n ==>
      frames[k] == LinearFrame(n, k) && frames[k][k] == Accent && Count(frames[k], IsAccent) == 1
    ensures frames[n] == LinearFrame(n, -1) && Count(frames[n], IsAccent) == 0
  {
    stats, frames := [], [];
    for i := 0 to n
      invariant |stats| == i && |frames| == i
      invariant forall k :: 0 <= k < i ==> stats[k] == k + 1
      invariant forall k :: 0 <= k < i ==>
        frames[k] == LinearFrame(n, k) && frames[k][k] == Accent && Count(frames[k], IsAccent) == 1
    {
      LinearHighlight(n, i);
      frames := frames + [LinearFrame(n, i)];
      stats := stats + [i + 1];
    }
    LinearHighlight(n, -1);
    frames := frames + [LinearFrame(n, -1)];
  }
}
