/** The O(log n) visualisation: a binary search for a target among `n` bars,
    drawing the remaining range bright and everything else dimmed, with the
    number of probes shown beside it. */
module Logarithmic {
  import opened Counting

  /** The colour class `drawLog` gives a bar: the dimmed slate of a bar outside
      the range, the teal of a bar inside it, the accent of the probed middle, or
      the green of the found bar. */
  datatype Shade = Dimmed | InRange | Mid | Found

  /** A bar as drawn: its colour class and its opacity. */
  datatype Bar = Bar(shade: Shade, alpha: real)

  predicate Lit(b: Bar) { b.alpha == 1.0 }

  predicate IsFound(b: Bar) { b.shade == Found }

  /** The decision `drawLog` makes for bar `i`: the range sets opacity 1 and the
      teal class, then `mid` overrides the class, then `found` overrides it. */
  function LogBar(i: int, low: int, high: int, mid: int, found: int): (b: Bar)
    ensures b.shade == Found <==> i == found
    ensures b.shade == Mid <==> i == mid && i != found
    ensures b.shade == InRange <==> low <= i <= high && i != mid && i != found
    ensures b.alpha == (if b.shade == Dimmed then 0.2 else 1.0)
  {
    var dimmed := Bar(Dimmed, 0.2);
    var ranged := if i >= low && i <= high then Bar(InRange, 1.0) else dimmed;
    var probed := if i == mid then Bar(Mid, 1.0) else ranged;
    if i == found then Bar(Found, 1.0) else probed
  }

  /** The bars `drawLog(n, low, high, mid, found)` paints, left to right, with
      the same defaults of -1 for `mid` and `found`. */
  function LogFrame(n: nat, low: int, high: int, mid: int := -1, found: int := -1): (f: seq<Bar>)
    ensures |f| == n
    ensures forall i :: 0 <= i < n ==>
      (Lit(f[i]) <==> (low <= i <= high || i == mid || i == found)) &&
      (IsFound(f[i]) <==> i == found)
  {
    seq(n, i => LogBar(i, low, high, mid, found))
  }

  /** The frame the slider handler and the initial draw show, `drawLog(n, 0, n - 1)`:
      every bar is in range and bright. */
  lemma SliderFrame(n: nat)
    ensures var f := LogFrame(n, 0, n - 1);
      Count(f, Lit) == n && forall i :: 0 <= i < n ==> f[i].shade == InRange
  {
    CountInterval(LogFrame(n, 0, n - 1), Lit, 0, n);
  }

  /** A probe frame of the search lights exactly the bars of the range
      `low..high`, shows the middle one in the accent class and nothing as found. */
  lemma ProbeFrame(n: nat, low: int, high: int, mid: int)
    requires 0 <= low <= mid <= high < n
    ensures Count(LogFrame(n, low, high, mid), Lit) == high - low + 1
    ensures LogFrame(n, low, high, mid)[mid].shade == Mid
    ensures Count(LogFrame(n, low, high, mid), IsFound) == 0
  {
    var f := LogFrame(n, low, high, mid);
    CountInterval(f, Lit, low, high + 1);
    CountInterval(f, IsFound, 0, 0);
  }

  /** The frame drawn when the middle bar is the target: it lights the same range
      and shows exactly one bar, the target, as found. */
  lemma FoundFrame(n: nat, low: int, high: int, target: int)
    requires 0 <= low <= target <= high < n
    ensures Count(LogFrame(n, low, high, target, target), Lit) == high - low + 1
    ensures Count(LogFrame(n, low, high, target, target), IsFound) == 1
    ensures LogFrame(n, low, high, target, target)[target].shade == Found
  {
    var f := LogFrame(n, low, high, target, target);
    CountInterval(f, Lit, low, high + 1);
    CountInterval(f, IsFound, target, target + 1);
  }

  function Pow2(k: nat): (p: nat)
    ensures p >= 1
  {
    if k == 0 then 1 else 2 * Pow2(k - 1)
  }

  /** The floor of the base-2 logarithm. */
  function Log2(n: nat): (r: nat)
    requires n >= 1
    ensures Pow2(r) <= n < Pow2(r + 1)
  {
    if n == 1 then 0 else 1 + Log2(n / 2)
  }

  /** `n` halved `k` times, rounding down each time. */
  function Halve(n: nat, k: nat): nat
  {
    if k == 0 then n else Halve(n / 2, k - 1)
  }

  lemma {:induction false} HalveStep(n: nat, k: nat)
    ensures Halve(n, k + 1) == Halve(n, k) / 2
    decreases k
  {
    if k > 0 {
      HalveStep(n / 2, k - 1);
    }
  }

  /** While something is left after halving `n` `k` times, `k` is at most the
      floor of `log2 n`. */
  lemma {:induction false} HalveBelowLog(n: nat, k: nat)
    requires Halve(n, k) >= 1
    ensures n >= 1 && k <= Log2(n)
    decreases k
  {
    if k > 0 {
      HalveBelowLog(n / 2, k - 1);
    }
  }

  /** One iteration of `runLog`'s loop: the range `low..high` it searched and the
      middle index it probed. */
  datatype Probe = Probe(low: int, high: int, mid: int)

  function Width(p: Probe): int { p.high - p.low + 1 }

  /** A probe of the search for `target` among `n` bars: its range lies inside
      `0..n-1` and holds the target, and `mid` is the rounded-down middle of it. */
  predicate Sound(p: Probe, n: nat, target: int)
  {
    0 <= p.low <= p.mid <= p.high < n && p.low <= target <= p.high && p.mid == (p.low + p.high) / 2
  }

  /** `q` searches the half of `p`'s range on the target's side of `p.mid`. */
  predicate Narrows(p: Probe, q: Probe, target: int)
  {
    if p.mid < target then q.low == p.mid + 1 && q.high == p.high
    else q.low == p.low && q.high == p.mid - 1
  }

  /** One step of the search: `p` missed the target and `q` is the half of `p`'s
      range on the target's side, at most half as wide. */
  predicate Step(p: Probe, q: Probe, target: int)
  {
    p.mid != target && Narrows(p, q, target) && Width(q) * 2 <= Width(p)
  }

  /** Moving to the target's half keeps the target in range and at least halves
      the range, so the range strictly shrinks. */
  lemma NarrowHalves(p: Probe, q: Probe, target: int)
    requires p.low <= target <= p.high && p.mid == (p.low + p.high) / 2 && p.mid != target
    requires Narrows(p, q, target)
    ensures q.low <= target <= q.high
    ensures Step(p, q, target) && Width(q) < Width(p)
  {
  }

  /** Every probe is sound and, after `k` earlier probes, its range holds at most
      `n` halved `k` times bars. */
  predicate AllSound(n: nat, target: int, probes: seq<Probe>)
  {
    forall k :: 0 <= k < |probes| ==> Sound(probes[k], n, target) && Width(probes[k]) <= Halve(n, k)
  }

  /** Each probe after the first is one step on from its predecessor. */
  predicate Chained(target: int, probes: seq<Probe>)
  {
    forall k :: 0 <= k < |probes| - 1 ==> Step(probes[k], probes[k + 1], target)
  }

  /** Frame `k` is the picture of probe `k`. */
  predicate Pictured(n: nat, probes: seq<Probe>, frames: seq<seq<Bar>>)
  {
    |probes| <= |frames| &&
    forall k :: 0 <= k < |probes| ==> frames[k] == LogFrame(n, probes[k].low, probes[k].high, probes[k].mid)
  }

  /** The probes and frames of a search for `target` among `n` bars so far: the
      first probe covers every bar, every probe is sound and within the halving
      budget, each one is a step on from the one before, and each frame drawn
      so far pictures its probe. */
  predicate Searched(n: nat, target: int, probes: seq<Probe>, frames: seq<seq<Bar>>)
  {
    && 1 <= |probes|
    && probes[0].low == 0 && probes[0].high == n - 1
    && AllSound(n, target, probes)
    && Chained(target, probes)
    && Pictured(n, probes, frames)
  }

  /** Every probe frame of a search lights exactly the bars of the probe's range,
      shows the probed middle in the accent class and keeps the target's bar
      lit, and the lit region at least halves from one frame to the next. */
  lemma SearchedFrames(n: nat, target: int, probes: seq<Probe>, frames: seq<seq<Bar>>)
    requires Searched(n, target, probes, frames)
    ensures forall k :: 0 <= k < |probes| ==>
      Count(frames[k], Lit) == Width(probes[k]) && Lit(frames[k][target]) &&
      frames[k][probes[k].mid].shade == Mid
    ensures forall k :: 0 <= k < |probes| - 1 ==> Count(frames[k + 1], Lit) * 2 <= Count(frames[k], Lit)
  {
    forall k | 0 <= k < |probes|
      ensures Count(frames[k], Lit) == Width(probes[k]) && Lit(frames[k][target]) &&
        frames[k][probes[k].mid].shade == Mid
    {
      ProbeFrame(n, probes[k].low, probes[k].high, probes[k].mid);
    }
  }

  lemma AllSoundExtend(n: nat, target: int, probes: seq<Probe>, p: Probe)
    requires AllSound(n, target, probes) && Sound(p, n, target) && Width(p) <= Halve(n, |probes|)
    ensures AllSound(n, target, probes + [p])
  {
    forall k | 0 <= k < |probes| + 1
      ensures Sound((probes + [p])[k], n, target) && Width((probes + [p])[k]) <= Halve(n, k)
    {
      if k < |probes| {
        assert (probes + [p])[k] == probes[k];
      }
    }
  }

  lemma ChainedExtend(target: int, probes: seq<Probe>, p: Probe)
    requires Chained(target, probes)
    requires |probes| > 0 ==> Step(probes[|probes| - 1], p, target)
    ensures Chained(target, probes + [p])
  {
    var probes' := probes + [p];
    forall k | 0 <= k < |probes'| - 1
      ensures Step(probes'[k], probes'[k + 1], target)
    {
      if k < |probes| - 1 {
        assert probes'[k] == probes[k] && probes'[k + 1] == probes[k + 1];
      } else {
        assert probes'[k] == probes[|probes| - 1] && probes'[k + 1] == p;
      }
    }
  }

  lemma PicturedExtend(n: nat, probes: seq<Probe>, frames: seq<seq<Bar>>, p: Probe)
    requires Pictured(n, probes, frames) && |probes| == |frames|
    ensures Pictured(n, probes + [p], frames + [LogFrame(n, p.low, p.high, p.mid)])
  {
    var probes', frames' := probes + [p], frames + [LogFrame(n, p.low, p.high, p.mid)];
    forall k | 0 <= k < |probes'|
      ensures frames'[k] == LogFrame(n, probes'[k].low, probes'[k].high, probes'[k].mid)
    {
      if k < |probes| {
        assert probes'[k] == probes[k] && frames'[k] == frames[k];
      }
    }
  }

  /** Probing the current range `low..high` extends a search: either the first
      probe, over all bars, or one step on from the last probe. */
  lemma SearchedExtend(n: nat, target: int, probes: seq<Probe>, frames: seq<seq<Bar>>, low: int, high: int)
    requires 0 <= low <= target <= high < n && high - low + 1 <= Halve(n, |probes|)
    requires |probes| == |frames|
    requires |probes| == 0 ==> low == 0 && high == n - 1
    requires |probes| > 0 ==>
      Searched(n, target, probes, frames) &&
      Step(probes[|probes| - 1], Probe(low, high, (low + high) / 2), target)
    ensures var mid := (low + high) / 2;
      Searched(n, target, probes + [Probe(low, high, mid)], frames + [LogFrame(n, low, high, mid)])
  {
    var p := Probe(low, high, (low + high) / 2);
    AllSoundExtend(n, target, probes, p);
    ChainedExtend(target, probes, p);
    PicturedExtend(n, probes, frames, p);
    assert (probes + [p])[0] == if |probes| == 0 then p else probes[0];
  }

  /** Drawing one more frame leaves a search's probe frames as they were. */
  lemma SearchedAppendFrame(n: nat, target: int, probes: seq<Probe>, frames: seq<seq<Bar>>, frame: seq<Bar>)
    requires Searched(n, target, probes, frames)
    ensures Searched(n, target, probes, frames + [frame])
  {
    assert forall k :: 0 <= k < |probes| ==> (frames + [frame])[k] == frames[k];
  }

  /** Among the first `m` frames, each lights at most half as many bars as the one before. */
  predicate LitHalves(frames: seq<seq<Bar>>, m: int)
    requires m <= |frames|
  {
    forall k :: 0 <= k < m - 1 ==> Count(frames[k + 1], Lit) * 2 <= Count(frames[k], Lit)
  }

  /** The state at the top of `runLog`'s loop: the range `low..high` is inside
      `0..n-1`, holds the target and is within the halving budget; it is the
      whole row before the first probe, and afterwards the probes so far form a
      search whose last probe steps to this range. */
  predicate Searching(n: nat, target: int, probes: seq<Probe>, frames: seq<seq<Bar>>, low: int, high: int)
  {
    && 0 <= low <= target <= high < n
    && |probes| == |frames|
    && high - low + 1 <= Halve(n, |probes|)
    && (|probes| == 0 ==> low == 0 && high == n - 1)
    && (|probes| > 0 ==> Searched(n, target, probes, frames) && Step(probes[|probes| - 1], Probe(low, high, (low + high) / 2), target))
  }

  /** A finished search: the last probe hit the target, its found frame follows
      its probe frame and marks exactly the target, at most `floor(log2 n) + 1`
      probes were made, and the lit region at least halved from frame to frame. */
  predicate Finished(n: nat, target: int, probes: seq<Probe>, frames: seq<seq<Bar>>)
  {
    && 1 <= n && 1 <= |probes| <= Log2(n) + 1
    && |frames| == |probes| + 1
    && Searched(n, target, probes, frames)
    && probes[|probes| - 1].mid == target
    && frames[|probes|] == LogFrame(n, probes[|probes| - 1].low, probes[|probes| - 1].high, target, target)
    && Count(frames[|probes|], IsFound) == 1 && frames[|probes|][target].shade == Found
    && LitHalves(frames, |probes|)
  }

  /** A missed probe leaves the search searching the target's half. */
  lemma SearchMiss(n: nat, target: int, probes: seq<Probe>, frames: seq<seq<Bar>>, low: int, high: int, low': int, high': int)
    requires Searching(n, target, probes, frames, low, high)
    requires var p := Probe(low, high, (low + high) / 2);
      p.mid != target && Narrows(p, Probe(low', high', (low' + high') / 2), target)
    ensures var mid := (low + high) / 2;
      Searching(n, target, probes + [Probe(low, high, mid)], frames + [LogFrame(n, low, high, mid)], low', high')
  {
    var p := Probe(low, high, (low + high) / 2);
    SearchedExtend(n, target, probes, frames, low, high);
    NarrowHalves(p, Probe(low', high', (low' + high') / 2), target);
    HalveStep(n, |probes|);
  }

  /** A probe that hits the target, followed by its found frame, finishes the search. */
  lemma SearchHit(n: nat, target: int, probes: seq<Probe>, frames: seq<seq<Bar>>, low: int, high: int)
    requires Searching(n, target, probes, frames, low, high) && (low + high) / 2 == target
    ensures Finished(n, target, probes + [Probe(low, high, target)],
      frames + [LogFrame(n, low, high, target), LogFrame(n, low, high, target, target)])
  {
    var probes' := probes + [Probe(low, high, target)];
    var frames' := frames + [LogFrame(n, low, high, target)];
    var done := frames' + [LogFrame(n, low, high, target, target)];
    assert frames + [LogFrame(n, low, high, target), LogFrame(n, low, high, target, target)] == done;
    SearchedExtend(n, target, probes, frames, low, high);
    FoundFrame(n, low, high, target);
    SearchedAppendFrame(n, target, probes', frames', LogFrame(n, low, high, target, target));
    HalveBelowLog(n, |probes|);
    SearchedFrames(n, target, probes', done);
  }

  /** One iteration of `runLog`'s loop from a searching state: a hit finishes
      the search, a miss moves on to the target's half. */
  lemma SearchStep(n: nat, target: int, probes: seq<Probe>, frames: seq<seq<Bar>>, low: int, high: int)
    requires Searching(n, target, probes, frames, low, high)
    ensures var mid := (low + high) / 2;
      var probes', frames' := probes + [Probe(low, high, mid)], frames + [LogFrame(n, low, high, mid)];
      && (mid == target ==> Finished(n, target, probes', frames' + [LogFrame(n, low, high, mid, mid)]))
      && (mid < target ==> Searching(n, target, probes', frames', mid + 1, high))
      && (mid > target ==> Searching(n, target, probes', frames', low, mid - 1))
  {
    var mid := (low + high) / 2;
    if mid == target {
      SearchHit(n, target, probes, frames, low, high);
      assert frames + [LogFrame(n, low, high, mid)] + [LogFrame(n, low, high, mid, mid)] ==
        frames + [LogFrame(n, low, high, mid), LogFrame(n, low, high, mid, mid)];
    } else if mid < target {
      SearchMiss(n, target, probes, frames, low, high, mid + 1, high);
    } else {
      SearchMiss(n, target, probes, frames, low, high, low, mid - 1);
    }
  }

  /** `runLog`: binary search for `target` in `0..n-1`. Each iteration
      increments `ops` and writes it to the stats text (so the text reads `k + 1`
      while probe `k` is shown, and `ops` at the end), draws the range with its
      middle probed, and either draws the found frame and stops, or moves to
      the target's half. `probes` lists the iterations and `frames` the frames
      drawn, in order. */
  method RunLog(n: nat, target: int) returns (ops: nat, probes: seq<Probe>, frames: seq<seq<Bar>>)
    requires 0 <= target < n
    ensures 1 <= ops <= Log2(n) + 1
    ensures |probes| == ops && |frames| == ops + 1
    ensures Searched(n, target, probes, frames)
    ensures probes[ops - 1].mid == target
    ensures frames[ops] == LogFrame(n, probes[ops - 1].low, probes[ops - 1].high, target, target)
    ensures Count(frames[ops], IsFound) == 1 && frames[ops][target].shade == Found
    ensures LitHalves(frames, ops)
  {
    var low, high := 0, n - 1;
    ops := 0;
    probes, frames := [], [];
    while low <= high
      invariant ops == |probes| && Searching(n, target, probes, frames, low, high)
      decreases high - low
    {
      var mid := (low + high) / 2;
      SearchStep(n, target, probes, frames, low, high);
      ops := ops + 1;
      probes := probes + [Probe(low, high, mid)];
      frames := frames + [LogFrame(n, low, high, mid)];
      if mid == target {
        frames := frames + [LogFrame(n, low, high, mid, mid)];
        break;
      } else if mid < target {
        low := mid + 1;
      } else {
        high := mid - 1;
      }
    }
  }
}
