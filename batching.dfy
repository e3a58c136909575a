/** The simulation loop's event publishing: each frame's events are appended
    to a buffer, and once more than deltaEvent has passed since the last
    publication the buffer is sorted by timestamp, released as one event
    array stamped with the frame time, and emptied. */
module Batching {
  import opened Events
  import opened Frames
  import opened Simulator

  datatype Option<T> = None | Some(value: T)

  /** The published message: header stamp, sensor size and the events. */
  datatype EventArray = EventArray(stamp: real, width: nat, height: nat, events: seq<Event>)

  predicate SortedByTs(s: seq<Event>) {
    forall i, j :: 0 <= i < j < |s| ==> s[i].ts <= s[j].ts
  }

  /** Insert e before the first element that is not earlier than e. */
  function Insert(e: Event, s: seq<Event>): seq<Event> {
    if |s| == 0 || e.ts <= s[0].ts then [e] + s else [s[0]] + Insert(e, s[1..])
  }

  /** Sorting by timestamp; events with equal timestamps keep their order
      (the sort is stable, as the sort applied to the buffer is). */
  function SortByTs(s: seq<Event>): seq<Event> {
    if |s| == 0 then [] else Insert(s[0], SortByTs(s[1..]))
  }

  /** The events of s carrying timestamp q, in their order in s. */
  function WithTs(s: seq<Event>, q: real): seq<Event> {
    if |s| == 0 then []
    else if s[0].ts == q then [s[0]] + WithTs(s[1..], q)
    else WithTs(s[1..], q)
  }

  lemma {:induction false} InsertPermutes(e: Event, s: seq<Event>)
    ensures multiset(Insert(e, s)) == multiset(s) + multiset{e}
  {
    if |s| > 0 && e.ts > s[0].ts {
      InsertPermutes(e, s[1..]);
      assert s == [s[0]] + s[1..];
    }
  }

  lemma {:induction false} InsertSorted(e: Event, s: seq<Event>)
    requires SortedByTs(s)
    ensures SortedByTs(Insert(e, s))
  {
    if |s| > 0 && e.ts > s[0].ts {
      var rest := s[1..];
      InsertSorted(e, rest);
      InsertPermutes(e, rest);
      var r := Insert(e, rest);
      forall k | 0 <= k < |r| ensures s[0].ts <= r[k].ts {
        assert r[k] in multiset(rest) + multiset{e};
      }
    }
  }

  /** An event earlier than q disappears from the q-filter; one at q comes first. */
  lemma {:induction false} InsertWithTs(e: Event, s: seq<Event>, q: real)
    requires SortedByTs(s)
    ensures WithTs(Insert(e, s), q) == if e.ts == q then [e] + WithTs(s, q) else WithTs(s, q)
  {
    if |s| > 0 && e.ts > s[0].ts {
      InsertWithTs(e, s[1..], q);
      assert Insert(e, s)[1..] == Insert(e, s[1..]);
      if e.ts == q {
        assert s[0].ts != q;
      }
    }
  }

  /** The released batch is in ascending timestamp order. */
  lemma {:induction false} SortByTsSorted(s: seq<Event>)
    ensures SortedByTs(SortByTs(s))
  {
    if |s| > 0 {
      SortByTsSorted(s[1..]);
      InsertSorted(s[0], SortByTs(s[1..]));
    }
  }

  /** The released batch holds exactly the buffered events, each as often as it was buffered. */
  lemma {:induction false} SortByTsPermutes(s: seq<Event>)
    ensures multiset(SortByTs(s)) == multiset(s)
  {
    if |s| > 0 {
      SortByTsPermutes(s[1..]);
      InsertPermutes(s[0], SortByTs(s[1..]));
      assert s == [s[0]] + s[1..];
    }
  }

  /** Events with the same timestamp keep their buffer order in the batch. */
  lemma {:induction false} SortByTsStable(s: seq<Event>, q: real)
    ensures WithTs(SortByTs(s), q) == WithTs(s, q)
  {
    if |s| > 0 {
      SortByTsStable(s[1..], q);
      SortByTsSorted(s[1..]);
      InsertWithTs(s[0], SortByTs(s[1..]), q);
    }
  }

  /** A batch whose events all lie after everything published so far, and
      which is sorted itself, extends a sorted stream to a sorted stream. */
  lemma StreamStaysSorted(published: seq<Event>, batch: seq<Event>, lastPub: real, stamp: real)
    requires SortedByTs(published) && forall e :: e in published ==> e.ts <= lastPub
    requires SortedByTs(batch) && forall e :: e in batch ==> lastPub < e.ts <= stamp
    requires lastPub <= stamp
    ensures SortedByTs(published + batch)
    ensures forall e :: e in published + batch ==> e.ts <= stamp
  {
  }

  /** The buffering invariant, on values: buffered events are newer than
      the last publication and not newer than the clock `now`; the published
      stream is sorted and not newer than the last publication; and the
      published and the buffered events together are exactly the produced ones. */
  predicate Buffered(events: seq<Event>, lastPub: real, now: real, published: seq<Event>, produced: seq<Event>) {
    lastPub <= now &&
    (forall e :: e in events ==> lastPub < e.ts <= now) &&
    SortedByTs(published) &&
    (forall e :: e in published ==> e.ts <= lastPub) &&
    multiset(published) + multiset(events) == multiset(produced)
  }

  /** Buffering a frame whose events lie in (now, next] keeps the invariant at the new clock. */
  lemma BufferFrame(events: seq<Event>, lastPub: real, now: real, published: seq<Event>, produced: seq<Event>,
                    frame: seq<Event>, next: real)
    requires Buffered(events, lastPub, now, published, produced)
    requires now <= next && forall e :: e in frame ==> now < e.ts <= next
    ensures Buffered(events + frame, lastPub, next, published, produced + frame)
  {
  }

  /** Releasing the sorted buffer at the clock `now` keeps the invariant with
      an empty buffer and the publication time moved to `now`; the released
      batch is sorted and holds only events newer than the last publication. */
  lemma ReleaseBuffer(events: seq<Event>, lastPub: real, now: real, published: seq<Event>, produced: seq<Event>)
    requires Buffered(events, lastPub, now, published, produced)
    ensures Buffered([], now, now, published + SortByTs(events), produced)
    ensures SortedByTs(SortByTs(events))
    ensures forall e :: e in SortByTs(events) ==> lastPub < e.ts <= now
  {
    var sorted := SortByTs(events);
    SortByTsSorted(events);
    SortByTsPermutes(events);
    assert forall e :: e in sorted ==> e in multiset(events);
    StreamStaysSorted(published, sorted, lastPub, now);
    assert multiset(published + sorted) == multiset(published) + multiset(events);
  }

  /** The simulation loop's state: the simulator, the event buffer and the
      time of the last event publication. The ghost fields record every
      event the simulator produced and every event published, in order. */
  class SimulationDriver {
    const deltaEvent: real
    var sim: DvsSimulator
    var events: seq<Event>
    var lastPubEventTimestamp: real
    ghost var produced: seq<Event>
    ghost var published: seq<Event>

    /** The buffering invariant at the simulator's clock. */
    ghost predicate Valid()
      reads this, sim
    {
      sim.Valid() && Buffered(events, lastPubEventTimestamp, sim.t, published, produced)
    }

    /** The simulator starts from the first frame at its time, with an empty
        buffer and the last publication at that time. */
    constructor (initTime: real, initSensor: array2<real>, cp: real, deltaEvent: real)
      requires cp > 0.0
      requires initSensor.Length0 > 0 && initSensor.Length1 > 0
      ensures Valid() && fresh(sim) && fresh(sim.referenceValues) && fresh(sim.intensities)
      ensures this.deltaEvent == deltaEvent && sim.C == cp
      ensures sim.height == initSensor.Length0 && sim.width == initSensor.Length1
      ensures Snapshot(sim.referenceValues) == Snapshot(initSensor)
      ensures Snapshot(sim.intensities) == Snapshot(initSensor)
      ensures sim.t == initTime
      ensures events == [] && lastPubEventTimestamp == initTime
      ensures produced == [] && published == []
    {
      this.deltaEvent := deltaEvent;
      sim := new DvsSimulator(initTime, initSensor, cp);
      events := [];
      lastPubEventTimestamp := initTime;
      produced := [];
      published := [];
    }

    /** The publishing step of the simulation loop at the frame time
        timestamp: when strictly more than deltaEvent has passed since the
        last publication, release the buffer sorted by timestamp, empty it
        and move the publication time; otherwise release nothing and change
        nothing. */
    method Publish(timestamp: real) returns (batch: Option<EventArray>)
      requires Valid() && sim.t == timestamp
      modifies this`events, this`lastPubEventTimestamp, this`published
      ensures Valid()
      ensures timestamp - old(lastPubEventTimestamp) > deltaEvent ==>
        batch == Some(EventArray(timestamp, sim.width, sim.height, SortByTs(old(events)))) &&
        events == [] && lastPubEventTimestamp == timestamp && published == old(published) + batch.value.events
      ensures !(timestamp - old(lastPubEventTimestamp) > deltaEvent) ==>
        batch == None && events == old(events) &&
        lastPubEventTimestamp == old(lastPubEventTimestamp) && published == old(published)
      ensures batch.Some? ==> SortedByTs(batch.value.events)
      ensures batch.Some? ==> forall e :: e in batch.value.events ==> old(lastPubEventTimestamp) < e.ts <= timestamp
    {
      if timestamp - lastPubEventTimestamp > deltaEvent {
        ReleaseBuffer(events, lastPubEventTimestamp, timestamp, published, produced);
        var sorted := SortByTs(events);
        batch := Some(EventArray(timestamp, sim.width, sim.height, sorted));
        published := published + sorted;
        events := [];
        lastPubEventTimestamp := timestamp;
      } else {
        batch := None;
      }
    }

    /** Append a frame's events to the buffer and to the record of produced events. */
    method Buffer(frame: seq<Event>)
      modifies this`events, this`produced
      ensures events == old(events) + frame && produced == old(produced) + frame
    {
      events := events + frame;
      produced := produced + frame;
    }

    /** One iteration of the simulation loop for the frame img (already in
        log space) taken at timestamp: run the simulator, append its events
        to the buffer, then publish if the publication interval has passed. */
    method ProcessFrame(timestamp: real, img: array2<real>)
      returns (currentEvents: seq<Event>, batch: Option<EventArray>)
      requires Valid()
      requires img.Length0 == sim.height && img.Length1 == sim.width
      requires timestamp - sim.t > 0.0
      requires img != sim.referenceValues
      modifies this, sim, sim.referenceValues
      ensures Valid() && sim == old(sim) && sim.referenceValues == old(sim.referenceValues)
      ensures sim.t == timestamp
      ensures currentEvents == FrameEvents(old(sim.StepTo(timestamp, img)), sim.width)
      ensures Snapshot(sim.referenceValues) == NextReferences(old(sim.StepTo(timestamp, img)))
      ensures fresh(sim.intensities) && Snapshot(sim.intensities) == Snapshot(img)
      ensures produced == old(produced) + currentEvents
      ensures timestamp - old(lastPubEventTimestamp) > deltaEvent ==>
        batch == Some(EventArray(timestamp, sim.width, sim.height, SortByTs(old(events) + currentEvents))) &&
        events == [] && lastPubEventTimestamp == timestamp
      ensures !(timestamp - old(lastPubEventTimestamp) > deltaEvent) ==>
        batch == None && events == old(events) + currentEvents &&
        lastPubEventTimestamp == old(lastPubEventTimestamp)
    {
      ghost var step := sim.StepTo(timestamp, img);
      currentEvents := sim.Update(timestamp, img);
      FrameEventsWellFormed(step);
      BufferFrame(events, lastPubEventTimestamp, step.t0, published, produced, currentEvents, timestamp);
      Buffer(currentEvents);
      batch := Publish(timestamp);
    }
  }
}
