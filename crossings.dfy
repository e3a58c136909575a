/** The per-pixel part of DvsSimulator.update: which reference levels a pixel
    crosses between two frames, the events they produce and the new
    reference level. Everything here is a pure specification that the
    imperative simulator is proved against. */
module Crossings {
  import opened Events

  /** Intensity changes of at most this magnitude are ignored (1e-6, held exactly). */
  const Tolerance: real := 0.000001

  function Abs(x: real): real {
    if x < 0.0 then -x else x
  }

  /** A pixel is scanned only when its log-intensity moved by more than the tolerance. */
  predicate Changed(i0: real, i1: real) {
    Abs(i0 - i1) > Tolerance
  }

  /** Polarity of a step: true (+1) when the log-intensity did not decrease. */
  function Polarity(i0: real, i1: real): bool {
    i1 >= i0
  }

  /** One contrast threshold in the direction of the polarity. */
  function Step(pol: bool, c: real): real {
    if pol then c else -c
  }

  /** The test a candidate level must pass to be a crossing: strictly beyond
      the old intensity and at or before the new one (far end inclusive). */
  predicate InBand(level: real, i0: real, i1: real, pol: bool) {
    if pol then i0 < level <= i1 else i1 <= level < i0
  }

  /** How far the new intensity still lies beyond `level`, in the direction of travel. */
  function Gap(level: real, i1: real, pol: bool): real {
    if pol then i1 - level else level - i1
  }

  /** Whole thresholds that fit into the remaining gap: the termination measure of the scan. */
  function Budget(level: real, i1: real, c: real, pol: bool): int
    requires c > 0.0
  {
    (Gap(level, i1, pol) / c).Floor
  }

  /** Removing m thresholds from a gap removes m from its quotient by the threshold. */
  lemma DivShift(g: real, c: real, m: real)
    requires c > 0.0
    ensures (g - m * c) / c == g / c - m
  {
  }

  /** Scaling a numerator scales the quotient. */
  lemma DivScale(a: real, b: real, d: real)
    requires b != 0.0
    ensures a * d / b == (a / b) * d
  {
  }

  /** Dividing by a positive threshold keeps the sign. */
  lemma QuotientSign(x: real, c: real)
    requires c > 0.0
    ensures x >= 0.0 ==> x / c >= 0.0
    ensures x < 0.0 ==> x / c < 0.0
  {
  }

  /** Each further crossing uses up one whole threshold of the gap: the scan terminates. */
  lemma BudgetShrinks(level: real, i0: real, i1: real, c: real, pol: bool)
    requires c > 0.0
    requires InBand(level + Step(pol, c), i0, i1, pol)
    ensures 0 <= Budget(level + Step(pol, c), i1, c, pol) < Budget(level, i1, c, pol)
  {
    var g := Gap(level, i1, pol);
    assert Gap(level + Step(pol, c), i1, pol) == g - 1.0 * c;
    DivShift(g, c, 1.0);
    assert (g - 1.0 * c) / c * c == g - 1.0 * c;
  }

  /** The scan of the source's crossing loop: starting from the reference
      level, step by one threshold while the candidate passes InBand; the
      crossings are the candidates that passed, in order. */
  function Scan(level: real, i0: real, i1: real, c: real, pol: bool): seq<real>
    requires c > 0.0
    decreases Budget(level, i1, c, pol)
  {
    var next := level + Step(pol, c);
    if InBand(next, i0, i1, pol) then
      BudgetShrinks(level, i0, i1, c, pol);
      [next] + Scan(next, i0, i1, c, pol)
    else
      []
  }

  /** The level k thresholds away from `level` in the direction of the polarity. */
  function Offset(level: real, k: nat, pol: bool, c: real): real {
    if k == 0 then level else Offset(level, k - 1, pol, c) + Step(pol, c)
  }

  /** The lattice of candidate levels written out: ref + k * pol * C. */
  lemma {:induction false} OffsetValue(level: real, k: nat, pol: bool, c: real)
    ensures Offset(level, k, pol, c) == level + (k as real) * Step(pol, c)
  {
    if k > 0 {
      OffsetValue(level, k - 1, pol, c);
      assert ((k - 1) as real) * Step(pol, c) + Step(pol, c) == (k as real) * Step(pol, c);
    }
  }

  /** Starting one threshold further along is the same as taking one more threshold. */
  lemma {:induction false} OffsetShift(level: real, k: nat, pol: bool, c: real)
    ensures Offset(level + Step(pol, c), k, pol, c) == Offset(level, k + 1, pol, c)
  {
    if k > 0 {
      OffsetShift(level, k - 1, pol, c);
    }
  }

  /** Each further threshold moves the level strictly in the direction of the polarity. */
  lemma {:induction false} OffsetMonotone(level: real, i: nat, j: nat, pol: bool, c: real)
    requires c > 0.0 && i < j
    ensures if pol then Offset(level, i, pol, c) < Offset(level, j, pol, c)
            else Offset(level, j, pol, c) < Offset(level, i, pol, c)
  {
    if i < j - 1 {
      OffsetMonotone(level, i, j - 1, pol, c);
    }
  }

  /** k thresholds along, the gap to the new intensity has shrunk by k thresholds. */
  lemma {:induction false} OffsetGap(level: real, i1: real, k: nat, pol: bool, c: real)
    ensures Gap(Offset(level, k, pol, c), i1, pol) == Gap(level, i1, pol) - (k as real) * c
  {
    if k > 0 {
      OffsetGap(level, i1, k - 1, pol, c);
      assert ((k - 1) as real) * c + c == (k as real) * c;
    }
  }

  /** Closed form of the scan: its k-th crossing (from 0) is the reference
      plus k+1 thresholds, every crossing passes the band test, and the
      first candidate after the last crossing fails it. */
  lemma {:induction false} ScanClosedForm(level: real, i0: real, i1: real, c: real, pol: bool)
    requires c > 0.0
    ensures forall k :: 0 <= k < |Scan(level, i0, i1, c, pol)| ==>
      Scan(level, i0, i1, c, pol)[k] == Offset(level, k + 1, pol, c) &&
      InBand(Scan(level, i0, i1, c, pol)[k], i0, i1, pol)
    ensures !InBand(Offset(level, |Scan(level, i0, i1, c, pol)| + 1, pol, c), i0, i1, pol)
    decreases |Scan(level, i0, i1, c, pol)|
  {
    var next := level + Step(pol, c);
    var cs := Scan(level, i0, i1, c, pol);
    if InBand(next, i0, i1, pol) {
      var rest := Scan(next, i0, i1, c, pol);
      assert cs == [next] + rest;
      ScanClosedForm(next, i0, i1, c, pol);
      forall k | 0 <= k < |cs|
        ensures cs[k] == Offset(level, k + 1, pol, c) && InBand(cs[k], i0, i1, pol)
      {
        if k > 0 {
          assert cs[k] == rest[k - 1];
          OffsetShift(level, k, pol, c);
        }
      }
      OffsetShift(level, |rest| + 1, pol, c);
    }
  }

  /** The scan is exactly the run of candidates 1..n: n is the number of whole
      thresholds between the reference and the new intensity when the first
      candidate passes, and zero when it fails. When the first candidate fails
      because it does not lie beyond the old intensity, lattice levels between
      the two intensities can still go unreported. */
  lemma ScanCount(level: real, i0: real, i1: real, c: real, pol: bool)
    requires c > 0.0
    ensures |Scan(level, i0, i1, c, pol)| ==
      if InBand(level + Step(pol, c), i0, i1, pol) then Budget(level, i1, c, pol) else 0
  {
    var cs := Scan(level, i0, i1, c, pol);
    var n := |cs|;
    if InBand(level + Step(pol, c), i0, i1, pol) {
      ScanClosedForm(level, i0, i1, c, pol);
      var last := Offset(level, n, pol, c);
      // the last crossing is still within the gap ...
      assert InBand(last, i0, i1, pol) by { assert cs[n - 1] == last; }
      // ... and the next candidate, still beyond the old intensity, overshoots the new one
      OffsetGap(level, i1, n, pol, c);
      OffsetGap(level, i1, n + 1, pol, c);
      WholeThresholds(Gap(level, i1, pol), c, n);
    }
  }

  /** With the reference within one threshold of the old intensity, the first
      candidate always lies beyond the old intensity, so every whole threshold
      between the reference and the new intensity is a crossing. */
  lemma ScanCountNearReference(level: real, i0: real, i1: real, c: real, pol: bool)
    requires c > 0.0 && Abs(i0 - level) < c
    ensures |Scan(level, i0, i1, c, pol)| ==
      if Budget(level, i1, c, pol) > 0 then Budget(level, i1, c, pol) else 0
  {
    ScanCount(level, i0, i1, c, pol);
    var g := Gap(level, i1, pol);
    DivShift(g, c, 1.0);
    QuotientSign(g - 1.0 * c, c);
    if InBand(level + Step(pol, c), i0, i1, pol) {
      assert g >= c;
      assert Budget(level, i1, c, pol) >= 1;
    } else {
      assert g < c;
      assert Budget(level, i1, c, pol) <= 0;
    }
  }

  /** A gap holding n but not n+1 thresholds has quotient floor n. */
  lemma WholeThresholds(g: real, c: real, n: nat)
    requires c > 0.0
    requires g - (n as real) * c >= 0.0 && g - (n as real + 1.0) * c < 0.0
    ensures (g / c).Floor == n
  {
    var q := g / c;
    DivShift(g, c, n as real);
    QuotientSign(g - (n as real) * c, c);
    assert n as real <= q;
    DivShift(g, c, n as real + 1.0);
    QuotientSign(g - (n as real + 1.0) * c, c);
    assert q < n as real + 1.0;
  }

  /** Crossings of one pixel for one frame step: none when the pixel is unchanged. */
  function PixelCrossings(ref: real, i0: real, i1: real, c: real): seq<real>
    requires c > 0.0
  {
    if Changed(i0, i1) then Scan(ref, i0, i1, c, Polarity(i0, i1)) else []
  }

  /** The reference level after the step: the last crossing, or the old level when there was none. */
  function NextReference(ref: real, i0: real, i1: real, c: real): real
    requires c > 0.0
  {
    var cs := PixelCrossings(ref, i0, i1, c);
    if |cs| == 0 then ref else cs[|cs| - 1]
  }

  /** Event time of a crossing at `level`, linear in intensity over the frame interval. */
  function Interpolate(level: real, i0: real, i1: real, t0: real, t1: real): real
    requires i0 != i1
  {
    t0 + (level - i0) * (t1 - t0) / (i1 - i0)
  }

  /** One event per crossing, in the order of the crossings. */
  function EventsOf(x: nat, y: nat, cs: seq<real>, i0: real, i1: real, t0: real, t1: real, pol: bool): seq<Event>
    requires i0 != i1
  {
    seq(|cs|, k requires 0 <= k < |cs| => Event(x, y, Interpolate(cs[k], i0, i1, t0, t1), pol))
  }

  /** The events pixel (x, y) emits for the step (t0, i0) -> (t1, i1) from reference `ref`. */
  function PixelEvents(x: nat, y: nat, ref: real, i0: real, i1: real, t0: real, t1: real, c: real): seq<Event>
    requires c > 0.0
  {
    if Changed(i0, i1) then
      EventsOf(x, y, PixelCrossings(ref, i0, i1, c), i0, i1, t0, t1, Polarity(i0, i1))
    else
      []
  }

  /** A pixel whose intensity moved by at most the tolerance emits nothing and keeps its reference. */
  lemma QuietPixel(x: nat, y: nat, ref: real, i0: real, i1: real, t0: real, t1: real, c: real)
    requires c > 0.0
    requires !Changed(i0, i1)
    ensures PixelEvents(x, y, ref, i0, i1, t0, t1, c) == []
    ensures NextReference(ref, i0, i1, c) == ref
  {
  }

  /** A crossing strictly beyond i0 and at or before i1 gets a time in (t0, t1]. */
  lemma InterpolateInInterval(level: real, i0: real, i1: real, t0: real, t1: real)
    requires t0 < t1
    requires InBand(level, i0, i1, Polarity(i0, i1)) && i0 != i1
    ensures t0 < Interpolate(level, i0, i1, t0, t1) <= t1
  {
    var d, num, den := t1 - t0, level - i0, i1 - i0;
    var f := num / den;
    assert f * den == num;
    assert (1.0 - f) * den == den - num;
    assert 0.0 < f <= 1.0;
    DivScale(num, den, d);
    assert d - f * d == (1.0 - f) * d;
  }

  /** Interpolated times grow as the level moves further in the direction of travel. */
  lemma InterpolateMonotone(a: real, b: real, i0: real, i1: real, t0: real, t1: real)
    requires t0 < t1 && i0 != i1
    requires if Polarity(i0, i1) then a < b else b < a
    ensures Interpolate(a, i0, i1, t0, t1) < Interpolate(b, i0, i1, t0, t1)
  {
  }

  /** Every event of a changed pixel carries the pixel's coordinates, the
      polarity of the step, and the interpolated time of its own crossing,
      which lies in (t0, t1]; there is one event per crossing. */
  lemma PixelEventsShape(x: nat, y: nat, ref: real, i0: real, i1: real, t0: real, t1: real, c: real)
    requires c > 0.0 && t0 < t1
    requires Changed(i0, i1)
    ensures |PixelEvents(x, y, ref, i0, i1, t0, t1, c)| == |PixelCrossings(ref, i0, i1, c)|
    ensures forall k :: 0 <= k < |PixelEvents(x, y, ref, i0, i1, t0, t1, c)| ==>
      var e := PixelEvents(x, y, ref, i0, i1, t0, t1, c)[k];
      e.x == x && e.y == y && e.polarity == (i1 >= i0) &&
      e.ts == Interpolate(PixelCrossings(ref, i0, i1, c)[k], i0, i1, t0, t1) &&
      t0 < e.ts <= t1
  {
    var pol := Polarity(i0, i1);
    var cs := PixelCrossings(ref, i0, i1, c);
    ScanClosedForm(ref, i0, i1, c, pol);
    forall k | 0 <= k < |cs|
      ensures t0 < Interpolate(cs[k], i0, i1, t0, t1) <= t1
    {
      InterpolateInInterval(cs[k], i0, i1, t0, t1);
    }
  }

  /** Crossings come in the order of travel: increasing for a positive step, decreasing for a negative one. */
  lemma ScanOrdered(level: real, i0: real, i1: real, c: real, pol: bool)
    requires c > 0.0
    ensures forall i, j :: 0 <= i < j < |Scan(level, i0, i1, c, pol)| ==>
      if pol then Scan(level, i0, i1, c, pol)[i] < Scan(level, i0, i1, c, pol)[j]
      else Scan(level, i0, i1, c, pol)[j] < Scan(level, i0, i1, c, pol)[i]
  {
    ScanClosedForm(level, i0, i1, c, pol);
    forall i, j | 0 <= i < j < |Scan(level, i0, i1, c, pol)|
      ensures if pol then Scan(level, i0, i1, c, pol)[i] < Scan(level, i0, i1, c, pol)[j]
              else Scan(level, i0, i1, c, pol)[j] < Scan(level, i0, i1, c, pol)[i]
    {
      OffsetMonotone(level, i + 1, j + 1, pol, c);
    }
  }

  /** A pixel's events within one step have strictly increasing times. */
  lemma PixelEventsIncreasing(x: nat, y: nat, ref: real, i0: real, i1: real, t0: real, t1: real, c: real)
    requires c > 0.0 && t0 < t1
    ensures forall i, j :: 0 <= i < j < |PixelEvents(x, y, ref, i0, i1, t0, t1, c)| ==>
      PixelEvents(x, y, ref, i0, i1, t0, t1, c)[i].ts < PixelEvents(x, y, ref, i0, i1, t0, t1, c)[j].ts
  {
    if Changed(i0, i1) {
      var pol := Polarity(i0, i1);
      var cs := Scan(ref, i0, i1, c, pol);
      var es := PixelEvents(x, y, ref, i0, i1, t0, t1, c);
      assert es == EventsOf(x, y, cs, i0, i1, t0, t1, pol);
      ScanOrdered(ref, i0, i1, c, pol);
      forall i, j | 0 <= i < j < |es|
        ensures es[i].ts < es[j].ts
      {
        InterpolateMonotone(cs[i], cs[j], i0, i1, t0, t1);
      }
    }
  }

  /** The new reference is the old one moved by a whole number of thresholds,
      one per crossing, and it is the last crossing when there was one. */
  lemma NextReferenceOnLattice(ref: real, i0: real, i1: real, c: real)
    requires c > 0.0
    ensures NextReference(ref, i0, i1, c) ==
      Offset(ref, |PixelCrossings(ref, i0, i1, c)|, Polarity(i0, i1), c)
    ensures |PixelCrossings(ref, i0, i1, c)| > 0 ==>
      NextReference(ref, i0, i1, c) == PixelCrossings(ref, i0, i1, c)[|PixelCrossings(ref, i0, i1, c)| - 1]
  {
    if Changed(i0, i1) {
      ScanClosedForm(ref, i0, i1, c, Polarity(i0, i1));
    }
  }

  /** No crossing is left pending: if the reference was within one threshold
      of the old intensity, then after a scanned step the new reference is
      within one threshold of the new intensity. */
  lemma NoPendingCrossing(ref: real, i0: real, i1: real, c: real)
    requires c > 0.0
    requires Changed(i0, i1)
    requires Abs(i0 - ref) < c
    ensures Abs(i1 - NextReference(ref, i0, i1, c)) < c
  {
    var pol := Polarity(i0, i1);
    var cs := PixelCrossings(ref, i0, i1, c);
    ScanClosedForm(ref, i0, i1, c, pol);
    var last := NextReference(ref, i0, i1, c);
    NextReferenceOnLattice(ref, i0, i1, c);
    var n := |cs|;
    if n > 0 {
      assert InBand(cs[n - 1], i0, i1, pol);
    }
    Settled(ref, last, i0, i1, c, pol);
  }

  /** Where a scan stops, the stopping level is within one threshold of the new intensity. */
  lemma Settled(ref: real, last: real, i0: real, i1: real, c: real, pol: bool)
    requires c > 0.0 && pol == Polarity(i0, i1) && i0 != i1
    requires InBand(last, i0, i1, pol) || (last == ref && Abs(i0 - ref) < c)
    requires !InBand(last + Step(pol, c), i0, i1, pol)
    ensures Abs(i1 - last) < c
  {
  }
}
