/** DvsSimulator: the stateful per-pixel crossing detector. It keeps one
    reference level per pixel, the last frame's log-intensities and the last
    timestamp, and turns each new frame into threshold-crossing events. */
module Simulator {
  import opened Events
  import opened Crossings
  import opened Frames

  /** The contents of a 2-D array, as a grid. */
  ghost function Snapshot(a: array2<real>): (g: Grid)
    reads a
    ensures IsGrid(g, a.Length0, a.Length1)
    ensures forall v, u :: 0 <= v < a.Length0 && 0 <= u < a.Length1 ==> g[v][u] == a[v, u]
  {
    seq(a.Length0, v requires 0 <= v < a.Length0 reads a =>
      seq(a.Length1, u requires 0 <= u < a.Length1 reads a => a[v, u]))
  }

  /** A fresh array holding the same values (the source's copy()). */
  method CopyGrid(a: array2<real>) returns (b: array2<real>)
    ensures fresh(b) && b.Length0 == a.Length0 && b.Length1 == a.Length1
    ensures Snapshot(b) == Snapshot(a)
  {
    b := new real[a.Length0, a.Length1];
    for v := 0 to a.Length0
      invariant forall v', u :: 0 <= v' < v && 0 <= u < a.Length1 ==> b[v', u] == a[v', u]
    {
      for u := 0 to a.Length1
        invariant forall v', u' :: 0 <= v' < v && 0 <= u' < a.Length1 ==> b[v', u'] == a[v', u']
        invariant forall u' :: 0 <= u' < u ==> b[v, u'] == a[v, u']
      {
        b[v, u] := a[v, u];
      }
    }
    GridsEqual(Snapshot(b), Snapshot(a), a.Length0, a.Length1);
  }

  /** The crossing loop of one pixel: step the candidate by one threshold
      until it leaves the band between the old and the new intensity,
      collecting every candidate that stayed inside. */
  method FindCrossings(previousCrossing: real, it: real, itDt: real, c: real, polarity: bool)
    returns (crossings: seq<real>)
    requires c > 0.0
    ensures crossings == Scan(previousCrossing, it, itDt, c, polarity)
  {
    crossings := [];
    var allCrossingsFound := false;
    var curCrossing := previousCrossing;
    while !allCrossingsFound
      invariant crossings + (if allCrossingsFound then [] else Scan(curCrossing, it, itDt, c, polarity))
        == Scan(previousCrossing, it, itDt, c, polarity)
      decreases !allCrossingsFound, |Scan(curCrossing, it, itDt, c, polarity)|
    {
      ghost var previous := curCrossing;
      curCrossing := curCrossing + Step(polarity, c);
      assert Scan(previous, it, itDt, c, polarity) ==
        if InBand(curCrossing, it, itDt, polarity) then [curCrossing] + Scan(curCrossing, it, itDt, c, polarity) else [];
      AppendAssociative(crossings, [curCrossing], Scan(curCrossing, it, itDt, c, polarity));
      assert crossings + [] == crossings;
      if polarity {
        if curCrossing > it && curCrossing <= itDt {
          crossings := crossings + [curCrossing];
        } else {
          allCrossingsFound := true;
        }
      } else {
        if curCrossing < it && curCrossing >= itDt {
          crossings := crossings + [curCrossing];
        } else {
          allCrossingsFound := true;
        }
      }
    }
  }

  /** One event per crossing, timed by linear interpolation over the frame interval. */
  method CrossingEvents(u: nat, v: nat, crossings: seq<real>, it: real, itDt: real, t: real, deltaT: real,
                        polarity: bool)
    returns (eventsForPx: seq<Event>)
    requires it != itDt
    ensures eventsForPx == EventsOf(u, v, crossings, it, itDt, t, t + deltaT, polarity)
  {
    eventsForPx := [];
    for k := 0 to |crossings|
      invariant eventsForPx == EventsOf(u, v, crossings[..k], it, itDt, t, t + deltaT, polarity)
    {
      var te := t + (crossings[k] - it) * deltaT / (itDt - it);
      eventsForPx := eventsForPx + [Event(u, v, te, polarity)];
    }
    assert crossings[..|crossings|] == crossings;
  }

  /** An array that holds a grid's values at every pixel has that grid as its snapshot. */
  lemma SnapshotIs(a: array2<real>, g: Grid)
    requires IsGrid(g, a.Length0, a.Length1)
    requires forall v, u :: 0 <= v < a.Length0 && 0 <= u < a.Length1 ==> a[v, u] == g[v][u]
    ensures Snapshot(a) == g
  {
    GridsEqual(Snapshot(a), g, a.Length0, a.Length1);
  }

  lemma AppendAssociative<T>(a: seq<T>, b: seq<T>, c: seq<T>)
    ensures (a + b) + c == a + (b + c)
  {
  }

  class DvsSimulator {
    const C: real
    const height: nat
    const width: nat
    /** One reference level per pixel, indexed [v, u]. */
    var referenceValues: array2<real>
    /** The log-intensities of the last frame, indexed [v, u]. */
    var intensities: array2<real>
    /** The timestamp of the last frame. */
    var t: real

    ghost predicate Valid()
      reads this
    {
      C > 0.0 && height > 0 && width > 0 &&
      referenceValues.Length0 == height && referenceValues.Length1 == width &&
      intensities.Length0 == height && intensities.Length1 == width &&
      referenceValues != intensities
    }

    /** What an update to (tNext, next) reads from the current state. */
    ghost function StepTo(tNext: real, next: array2<real>): FrameStep
      reads this, referenceValues, intensities, next
    {
      FrameStep(height, width, Snapshot(referenceValues), Snapshot(intensities), Snapshot(next), t, tNext, C)
    }

    /** Both grids start as copies of the initial frame and the clock at the initial time. */
    constructor (initialTime: real, initialValues: array2<real>, C: real)
      requires C > 0.0
      requires initialValues.Length0 > 0 && initialValues.Length1 > 0
      ensures Valid()
      ensures this.C == C && height == initialValues.Length0 && width == initialValues.Length1
      ensures fresh(referenceValues) && fresh(intensities)
      ensures Snapshot(referenceValues) == Snapshot(initialValues)
      ensures Snapshot(intensities) == Snapshot(initialValues)
      ensures t == initialTime
    {
      this.C := C;
      height := initialValues.Length0;
      width := initialValues.Length1;
      var refs := CopyGrid(initialValues);
      var snapshot := CopyGrid(initialValues);
      referenceValues := refs;
      intensities := snapshot;
      t := initialTime;
    }

    /** The body of the pixel loop: skip a pixel whose intensity barely
        changed; otherwise fix the polarity, find the crossings, turn them
        into events and move the pixel's reference to the last crossing. */
    method UpdatePixel(u: nat, v: nat, it: real, itDt: real, deltaT: real, ghost s: FrameStep)
      returns (eventsForPx: seq<Event>)
      requires Valid() && v < height && u < width
      requires s.Valid() && s.height == height && s.width == width && s.c == C && s.t0 == t && s.t1 == t + deltaT
      requires s.refs[v][u] == referenceValues[v, u] && s.before[v][u] == it && s.after[v][u] == itDt
      modifies referenceValues
      ensures eventsForPx == PixelEventsAt(s, v, u)
      ensures referenceValues[v, u] == NextReferenceAt(s, v, u)
      ensures forall v', u' :: 0 <= v' < height && 0 <= u' < width && (v' != v || u' != u) ==>
        referenceValues[v', u'] == old(referenceValues[v', u'])
    {
      var previousCrossing := referenceValues[v, u];
      eventsForPx := [];
      if Abs(it - itDt) > Tolerance {
        var polarity := itDt >= it;
        var crossings := FindCrossings(previousCrossing, it, itDt, C, polarity);
        eventsForPx := CrossingEvents(u, v, crossings, it, itDt, t, deltaT, polarity);
        if |crossings| > 0 {
          referenceValues[v, u] := crossings[|crossings| - 1];
        }
      }
    }

    /** The inner loop of update: visit the rows of column u in order,
        appending each pixel's events to `events` and updating its reference. */
    method UpdateColumn(u: nat, itDtArray: array2<real>, deltaT: real, ghost s: FrameStep, events: seq<Event>)
      returns (events': seq<Event>)
      requires Valid() && u < width
      requires s.Valid() && s.height == height && s.width == width && s.c == C && s.t0 == t && s.t1 == t + deltaT
      requires itDtArray.Length0 == height && itDtArray.Length1 == width && itDtArray != referenceValues
      requires s.before == Snapshot(intensities) && s.after == Snapshot(itDtArray)
      requires forall v :: 0 <= v < height ==> s.refs[v][u] == referenceValues[v, u]
      modifies referenceValues
      ensures events' == events + ColumnEvents(s, u, height)
      ensures forall v' :: 0 <= v' < height ==> referenceValues[v', u] == NextReferenceAt(s, v', u)
      ensures forall v', u' :: 0 <= v' < height && 0 <= u' < width && u' != u ==>
        referenceValues[v', u'] == old(referenceValues[v', u'])
    {
      events' := events;
      for v := 0 to height
        invariant events' == events + ColumnEvents(s, u, v)
        invariant forall v' :: 0 <= v' < height ==> s.before[v'][u] == intensities[v', u] && s.after[v'][u] == itDtArray[v', u]
        invariant forall v' :: 0 <= v' < v ==> referenceValues[v', u] == NextReferenceAt(s, v', u)
        invariant forall v' :: v <= v' < height ==> referenceValues[v', u] == s.refs[v'][u]
        invariant forall v', u' :: 0 <= v' < height && 0 <= u' < width && u' != u ==>
          referenceValues[v', u'] == old(referenceValues[v', u'])
      {
        var it := intensities[v, u];
        var itDt := itDtArray[v, u];
        var eventsForPx := UpdatePixel(u, v, it, itDt, deltaT, s);
        ghost var column := ColumnEvents(s, u, v);
        assert ColumnEvents(s, u, v + 1) == column + eventsForPx;
        AppendAssociative(events, column, eventsForPx);
        events' := events' + eventsForPx;
      }
    }

    /** The outer loop of update: visit the columns in order, collecting
        the events of each and updating every reference level. */
    method UpdateGrid(itDtArray: array2<real>, deltaT: real, ghost s: FrameStep) returns (events: seq<Event>)
      requires Valid()
      requires s.Valid() && s.height == height && s.width == width && s.c == C && s.t0 == t && s.t1 == t + deltaT
      requires itDtArray.Length0 == height && itDtArray.Length1 == width && itDtArray != referenceValues
      requires s.refs == Snapshot(referenceValues) && s.before == Snapshot(intensities) && s.after == Snapshot(itDtArray)
      modifies referenceValues
      ensures events == FrameEvents(s, width)
      ensures Snapshot(referenceValues) == NextReferences(s)
    {
      events := [];
      for u := 0 to width
        invariant events == FrameEvents(s, u)
        invariant forall v', u' :: 0 <= v' < height && 0 <= u' < width ==>
          referenceValues[v', u'] == if u' < u then NextReferenceAt(s, v', u') else s.refs[v'][u']
      {
        events := UpdateColumn(u, itDtArray, deltaT, s, events);
      }
      SnapshotIs(referenceValues, NextReferences(s));
    }

    /** Consume the frame itDtArray taken at time tDt: return the events of
        every pixel (columns in order, rows in order within a column), move
        each reference to its last crossing, and store the frame and time. */
    method Update(tDt: real, itDtArray: array2<real>) returns (events: seq<Event>)
      requires Valid()
      requires itDtArray.Length0 == intensities.Length0 && itDtArray.Length1 == intensities.Length1
      requires tDt - t > 0.0
      requires itDtArray != referenceValues
      modifies this, referenceValues
      ensures Valid()
      ensures referenceValues == old(referenceValues) && fresh(intensities)
      ensures events == FrameEvents(old(StepTo(tDt, itDtArray)), width)
      ensures Snapshot(referenceValues) == NextReferences(old(StepTo(tDt, itDtArray)))
      ensures Snapshot(intensities) == Snapshot(itDtArray)
      ensures t == tDt
    {
      ghost var s := StepTo(tDt, itDtArray);
      var deltaT := tDt - t;
      events := UpdateGrid(itDtArray, deltaT, s);
      intensities := CopyGrid(itDtArray);
      t := tDt;
    }
  }
}
