/** The whole-grid meaning of one DvsSimulator.update call: which events it
    returns, in which order, and the reference grid it leaves behind. */
module Frames {
  import opened Events
  import opened Crossings

  /** A grid of log-intensities or reference levels, indexed [row v][column u]
      like the source's arrays (height rows, width columns). */
  type Grid = seq<seq<real>>

  predicate IsGrid(g: Grid, height: nat, width: nat) {
    |g| == height && forall v :: 0 <= v < height ==> |g[v]| == width
  }

  /** Grids of the same shape that agree at every pixel are equal. */
  lemma GridsEqual(g: Grid, h: Grid, height: nat, width: nat)
    requires IsGrid(g, height, width) && IsGrid(h, height, width)
    requires forall v, u :: 0 <= v < height && 0 <= u < width ==> g[v][u] == h[v][u]
    ensures g == h
  {
    forall v | 0 <= v < height ensures g[v] == h[v] {
      assert forall u :: 0 <= u < width ==> g[v][u] == h[v][u];
    }
  }

  /** Everything one update reads: the reference grid, the stored and the new
      frame, the stored and the new timestamp, and the contrast threshold. */
  datatype FrameStep = FrameStep(height: nat, width: nat, refs: Grid, before: Grid, after: Grid,
                                 t0: real, t1: real, c: real)
  {
    predicate Valid() {
      c > 0.0 && t0 < t1 &&
      IsGrid(refs, height, width) && IsGrid(before, height, width) && IsGrid(after, height, width)
    }
  }

  function PixelEventsAt(s: FrameStep, v: nat, u: nat): seq<Event>
    requires s.Valid() && v < s.height && u < s.width
  {
    PixelEvents(u, v, s.refs[v][u], s.before[v][u], s.after[v][u], s.t0, s.t1, s.c)
  }

  function NextReferenceAt(s: FrameStep, v: nat, u: nat): real
    requires s.Valid() && v < s.height && u < s.width
  {
    NextReference(s.refs[v][u], s.before[v][u], s.after[v][u], s.c)
  }

  /** Events of rows 0..n-1 of column u, in the order the source visits them. */
  function ColumnEvents(s: FrameStep, u: nat, n: nat): seq<Event>
    requires s.Valid() && u < s.width && n <= s.height
  {
    if n == 0 then [] else ColumnEvents(s, u, n - 1) + PixelEventsAt(s, n - 1, u)
  }

  /** Events of columns 0..m-1: the list update returns when m is the width. */
  function FrameEvents(s: FrameStep, m: nat): seq<Event>
    requires s.Valid() && m <= s.width
  {
    if m == 0 then [] else FrameEvents(s, m - 1) + ColumnEvents(s, m - 1, s.height)
  }

  /** The reference grid after the step. */
  function NextReferences(s: FrameStep): Grid
    requires s.Valid()
  {
    seq(s.height, v requires 0 <= v < s.height =>
      seq(s.width, u requires 0 <= u < s.width => NextReferenceAt(s, v, u)))
  }

  /** e is one of the events its own pixel (e.x, e.y) emits in the step. */
  predicate OwnEvent(s: FrameStep, e: Event)
    requires s.Valid()
  {
    e.x < s.width && e.y < s.height && e in PixelEventsAt(s, e.y, e.x)
  }

  /** Every event of a column belongs to one of its first n pixels and is one of that pixel's events. */
  lemma {:induction false} ColumnEventsFromPixels(s: FrameStep, u: nat, n: nat)
    requires s.Valid() && u < s.width && n <= s.height
    ensures forall e :: e in ColumnEvents(s, u, n) ==> e.x == u && e.y < n && OwnEvent(s, e)
  {
    if n > 0 {
      ColumnEventsFromPixels(s, u, n - 1);
      var v := n - 1;
      var earlier, own := ColumnEvents(s, u, n - 1), PixelEventsAt(s, v, u);
      assert ColumnEvents(s, u, n) == earlier + own;
      if Changed(s.before[v][u], s.after[v][u]) {
        PixelEventsShape(u, v, s.refs[v][u], s.before[v][u], s.after[v][u], s.t0, s.t1, s.c);
      }
      forall e: Event | e in earlier + own ensures e.x == u && e.y < n && OwnEvent(s, e) {
        if e !in earlier {
          var k :| 0 <= k < |own| && own[k] == e;
        }
      }
    }
  }

  /** Every event of the first m columns is an event of its own pixel, with x < m. */
  lemma {:induction false} FrameEventsFromPixels(s: FrameStep, m: nat)
    requires s.Valid() && m <= s.width
    ensures forall e :: e in FrameEvents(s, m) ==> e.x < m && OwnEvent(s, e)
  {
    if m > 0 {
      FrameEventsFromPixels(s, m - 1);
      ColumnEventsFromPixels(s, m - 1, s.height);
      var earlier, column := FrameEvents(s, m - 1), ColumnEvents(s, m - 1, s.height);
      assert FrameEvents(s, m) == earlier + column;
    }
  }

  /** Every event update returns lies on the grid, within (t0, t1], and has
      the polarity of its own pixel's change. */
  lemma FrameEventsWellFormed(s: FrameStep)
    requires s.Valid()
    ensures forall e :: e in FrameEvents(s, s.width) ==>
      e.x < s.width && e.y < s.height && s.t0 < e.ts <= s.t1 &&
      Changed(s.before[e.y][e.x], s.after[e.y][e.x]) &&
      e.polarity == Polarity(s.before[e.y][e.x], s.after[e.y][e.x])
  {
    FrameEventsFromPixels(s, s.width);
    forall e | e in FrameEvents(s, s.width)
      ensures s.t0 < e.ts <= s.t1 && Changed(s.before[e.y][e.x], s.after[e.y][e.x]) &&
        e.polarity == Polarity(s.before[e.y][e.x], s.after[e.y][e.x])
    {
      var u, v := e.x, e.y;
      var es := PixelEventsAt(s, v, u);
      assert Changed(s.before[v][u], s.after[v][u]);
      PixelEventsShape(u, v, s.refs[v][u], s.before[v][u], s.after[v][u], s.t0, s.t1, s.c);
      var k :| 0 <= k < |es| && es[k] == e;
    }
  }

  lemma {:induction false} QuietColumn(s: FrameStep, u: nat, n: nat)
    requires s.Valid() && u < s.width && n <= s.height && s.before == s.after
    ensures ColumnEvents(s, u, n) == []
  {
    if n > 0 {
      QuietColumn(s, u, n - 1);
      var v := n - 1;
      QuietPixel(u, v, s.refs[v][u], s.before[v][u], s.after[v][u], s.t0, s.t1, s.c);
    }
  }

  lemma {:induction false} QuietColumns(s: FrameStep, m: nat)
    requires s.Valid() && m <= s.width && s.before == s.after
    ensures FrameEvents(s, m) == []
  {
    if m > 0 {
      QuietColumns(s, m - 1);
      QuietColumn(s, m - 1, s.height);
    }
  }

  /** Feeding the stored frame again produces no events and leaves every reference level as it was. */
  lemma IdenticalFramesQuiet(s: FrameStep)
    requires s.Valid() && s.before == s.after
    ensures FrameEvents(s, s.width) == []
    ensures NextReferences(s) == s.refs
  {
    QuietColumns(s, s.width);
    forall v | 0 <= v < s.height ensures NextReferences(s)[v] == s.refs[v] {
      forall u | 0 <= u < s.width ensures NextReferences(s)[v][u] == s.refs[v][u] {
        QuietPixel(u, v, s.refs[v][u], s.before[v][u], s.after[v][u], s.t0, s.t1, s.c);
      }
    }
  }

  /** No crossing is left pending anywhere: every scanned pixel whose
      reference was within one threshold of its old intensity ends within
      one threshold of its new intensity. */
  lemma FrameSettles(s: FrameStep)
    requires s.Valid()
    requires forall v, u :: 0 <= v < s.height && 0 <= u < s.width ==> Abs(s.before[v][u] - s.refs[v][u]) < s.c
    ensures forall v, u :: 0 <= v < s.height && 0 <= u < s.width && Changed(s.before[v][u], s.after[v][u]) ==>
      Abs(s.after[v][u] - NextReferences(s)[v][u]) < s.c
  {
    forall v, u | 0 <= v < s.height && 0 <= u < s.width && Changed(s.before[v][u], s.after[v][u])
      ensures Abs(s.after[v][u] - NextReferences(s)[v][u]) < s.c
    {
      NoPendingCrossing(s.refs[v][u], s.before[v][u], s.after[v][u], s.c);
    }
  }
}
