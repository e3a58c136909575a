# DVS simulator core in Dafny

This project models the event-generation core of the rpg_davis_simulator
(`src/dvs_simulator_py/dvs_simulator.py`). A dynamic vision sensor (DVS)
emits an event at a pixel whenever that pixel's log-intensity crosses a
contrast threshold `C` above or below the pixel's reference level. The
simulator turns a sequence of rendered log-intensity frames into such events.

- `DvsSimulator` holds one reference level per pixel, the previous frame
  and its timestamp.
- Its `update` scans every pixel whose intensity moved by more than `1e-6`.
  It steps a candidate level from the reference by `±C` while the candidate
  stays strictly beyond the old intensity and at or before the new one.
  Each such crossing becomes an event with a linearly interpolated timestamp.
  The pixel's reference then moves to the last crossing.
- The simulation loop appends each frame's events to a buffer. When strictly
  more than `delta_event` has passed since the last publication, it publishes
  the buffer sorted by timestamp, empties it and records the frame time.

Modules:

- `Events` (`events.dfy`) is the event record built by `make_event`.
- `Crossings` (`crossings.dfy`) is the pure per-pixel specification. It
  defines the crossing scan `Scan`, the event times `Interpolate`, a pixel's
  events `PixelEvents` and its new reference `NextReference`, with their
  properties.
- `Frames` (`frames.dfy`) lifts the per-pixel rule to a whole frame. Pixels
  are visited column by column, and rows in order within a column, as the
  source's loops do. It also has the frame-level properties.
- `Simulator` (`simulator.dfy`) is the `DvsSimulator` class over `array2<real>`.
  Its methods keep the source's loops (the `while` crossing loop, the event
  loop, the nested pixel loops) and are proved against `Crossings` and `Frames`.
- `Batching` (`batching.dfy`) is the simulation loop's buffer and publication
  rule as a `SimulationDriver` class. Python's stable `sorted` becomes the
  insertion sort `SortByTs`, with its sortedness, permutation and stability
  proved.
- `Scenarios` (`scenarios.dfy`) has single-pixel cases worked out in full.

Intensities, times and the threshold are real numbers. The tolerance `1e-6`
is held exactly. `update`'s `assert`s (same frame shape, `t_dt > t`) and
the constructor's (`C > 0`, non-empty frame) are preconditions.

The scan stops at the first candidate that fails, so it finds every lattice
level up to the new intensity only when the reference lies within `C` of the
old intensity (`Crossings.ScanCountNearReference`). `Crossings.NoPendingCrossing`
and `Frames.FrameSettles` show that a scanned step keeps that premise. A step
within the tolerance is skipped but still replaces the stored intensity, and
this can break it (`Scenarios.DriftScenario`).

## Model

| member | source | states |
|---|---|---|
| Crossings.OffsetValue | src/dvs_simulator_py/dvs_simulator.py:59-61 | the k-th candidate level is the reference plus k times polarity times C |
| Crossings.ScanClosedForm | src/dvs_simulator_py/dvs_simulator.py:57-71 | the k-th crossing is the reference plus k+1 thresholds in the direction of the polarity; every crossing is strictly beyond the old intensity and at or before the new one; the candidate after the last crossing fails that test, so the scan stops at the first failure |
| Crossings.ScanCount | src/dvs_simulator_py/dvs_simulator.py:57-71 | the number of crossings is the number of whole thresholds between the reference and the new intensity when the first candidate passes, and zero otherwise; when the first candidate passes, every lattice level up to It_dt is a crossing |
| Crossings.ScanCountNearReference | src/dvs_simulator_py/dvs_simulator.py:57-71 | when the reference is within C of the old intensity, the number of crossings is exactly the number of whole thresholds between the reference and the new intensity (zero when there are none) |
| Crossings.ScanOrdered | src/dvs_simulator_py/dvs_simulator.py:60-71 | crossings are strictly increasing for a positive step and strictly decreasing for a negative one |
| Crossings.QuietPixel | src/dvs_simulator_py/dvs_simulator.py:52-53 | a pixel whose intensity moved by at most 1e-6 emits no event and keeps its reference |
| Crossings.InterpolateInInterval | src/dvs_simulator_py/dvs_simulator.py:74 | a crossing inside the band gets a timestamp in (t, t_dt] |
| Crossings.InterpolateMonotone | src/dvs_simulator_py/dvs_simulator.py:74 | a level further in the direction of travel gets a strictly later timestamp |
| Crossings.PixelEventsShape | src/dvs_simulator_py/dvs_simulator.py:73-77 | a scanned pixel emits one event per crossing; each event carries the pixel's coordinates, polarity true exactly when It_dt >= It, and the interpolated time of its own crossing, which lies in (t, t_dt] |
| Crossings.PixelEventsIncreasing | src/dvs_simulator_py/dvs_simulator.py:73-77 | a pixel's events within one update have strictly increasing timestamps |
| Crossings.NextReferenceOnLattice | src/dvs_simulator_py/dvs_simulator.py:79-80 | the new reference is the old one moved by one threshold per crossing; it is the last crossing when there was one and the old reference otherwise |
| Crossings.NoPendingCrossing | src/dvs_simulator_py/dvs_simulator.py:53-80 | if the reference was within C of the old intensity, a scanned step leaves it within C of the new intensity |
| Scenarios.BrighteningScenario | src/dvs_simulator_py/dvs_simulator.py:53-80 | C = 0.15, reference and It 0, It_dt 0.5 over [0, 1]: positive events at 0.3, 0.6 and 0.9, and the reference ends at 0.45 |
| Scenarios.DarkeningScenario | src/dvs_simulator_py/dvs_simulator.py:53-80 | C = 0.1 from 0.5 down to 0 over [0, 1]: five negative events at 0.2 to 1.0; the crossing landing exactly on It_dt is kept |
| Scenarios.DriftScenario | src/dvs_simulator_py/dvs_simulator.py:52-80 | a step within the tolerance is skipped but still replaces the stored intensity; this can leave the reference a full threshold behind, after which a step from 0.15 to 0.5 emits nothing, while the same step from 0.1499995 emits three events |
| Frames.FrameEventsWellFormed | src/dvs_simulator_py/dvs_simulator.py:44-77 | every event of an update lies on the width x height grid, has a time in (t, t_dt], comes from a pixel that changed by more than the tolerance, and has that pixel's polarity |
| Frames.FrameEventsFromPixels | src/dvs_simulator_py/dvs_simulator.py:44-77 | every event of the first m columns comes from a pixel of those columns and is one of that pixel's events |
| Frames.ColumnEventsFromPixels | src/dvs_simulator_py/dvs_simulator.py:45-77 | every event of the first n rows of a column comes from one of those pixels and is one of its events |
| Frames.IdenticalFramesQuiet | src/dvs_simulator_py/dvs_simulator.py:44-80 | an update with the stored frame again emits nothing and leaves every reference unchanged |
| Frames.FrameSettles | src/dvs_simulator_py/dvs_simulator.py:44-80 | if every reference was within C of the stored frame, every scanned pixel ends within C of the new frame |
| Simulator.CopyGrid | src/dvs_simulator_py/dvs_simulator.py:32-33 | the copy is a fresh array with the same shape and contents |
| Simulator.FindCrossings | src/dvs_simulator_py/dvs_simulator.py:57-71 | the crossing loop, with both polarity branches, returns exactly the scan of the specification |
| Simulator.CrossingEvents | src/dvs_simulator_py/dvs_simulator.py:73-75 | the event loop returns one event per crossing, in order, with the interpolated timestamp and the step's polarity |
| Simulator.DvsSimulator.constructor | src/dvs_simulator_py/dvs_simulator.py:25-34 | C, height and width are stored; reference grid and stored frame are fresh copies of the initial frame; the clock is the initial time |
| Simulator.DvsSimulator.UpdatePixel | src/dvs_simulator_py/dvs_simulator.py:46-80 | the pixel's events are its specified events; its reference becomes the specified next reference; every other reference is unchanged |
| Simulator.DvsSimulator.UpdateColumn | src/dvs_simulator_py/dvs_simulator.py:45-80 | appends the events of one column, rows in order, and updates exactly that column's references |
| Simulator.DvsSimulator.UpdateGrid | src/dvs_simulator_py/dvs_simulator.py:44-80 | returns the frame's events, columns in order, and leaves the reference grid equal to the specified next references |
| Simulator.DvsSimulator.Update | src/dvs_simulator_py/dvs_simulator.py:36-85 | returns the frame's events; every reference moves to its pixel's next reference (changed only for pixels with crossings); the stored frame becomes a copy of the new one and the clock becomes t_dt, unconditionally |
| Batching.SortByTsSorted | src/dvs_simulator_py/dvs_simulator.py:337 | the sorted buffer is in ascending timestamp order |
| Batching.SortByTsPermutes | src/dvs_simulator_py/dvs_simulator.py:337 | the sorted buffer holds exactly the buffered events, with multiplicity |
| Batching.SortByTsStable | src/dvs_simulator_py/dvs_simulator.py:337 | events with equal timestamps keep their buffer order |
| Batching.InsertSorted | src/dvs_simulator_py/dvs_simulator.py:337 | inserting into a sorted sequence keeps it sorted |
| Batching.InsertPermutes | src/dvs_simulator_py/dvs_simulator.py:337 | inserting adds exactly the inserted event |
| Batching.InsertWithTs | src/dvs_simulator_py/dvs_simulator.py:337 | inserting into a sorted sequence puts the event first among those with its timestamp |
| Batching.StreamStaysSorted | src/dvs_simulator_py/dvs_simulator.py:336-349 | a sorted batch whose events all lie after the last publication extends a sorted published stream to a sorted stream |
| Batching.BufferFrame | src/dvs_simulator_py/dvs_simulator.py:315-316 | appending a frame whose events lie in (t, t_dt] keeps the buffering invariant at the new time |
| Batching.ReleaseBuffer | src/dvs_simulator_py/dvs_simulator.py:336-349 | releasing keeps the invariant with an empty buffer and the publication time moved to the frame time; the batch is sorted and every event in it is newer than the previous publication and not newer than the frame time |
| Batching.SimulationDriver.constructor | src/dvs_simulator_py/dvs_simulator.py:204-211 | the simulator starts from the first frame at its time; the buffer is empty and the last publication is at that time |
| Batching.SimulationDriver.Publish | src/dvs_simulator_py/dvs_simulator.py:336-349 | when the frame time exceeds the last publication by strictly more than delta_event, returns the buffer sorted by timestamp and stamped with the frame time, empties the buffer and moves the publication time; otherwise returns nothing and changes nothing |
| Batching.SimulationDriver.ProcessFrame | src/dvs_simulator_py/dvs_simulator.py:315-316 | runs update, appends its events to the buffer and applies the publication rule; the simulator's reference grid becomes the specified next references and its stored frame a fresh copy of the new frame; all produced events are either published (as one globally time-sorted stream) or still buffered |

## Left out

- ROS and file I/O is not modelled: node set-up, parameter loading, publishers, rosbag writing and the wait for subscribers. A released batch is returned instead of published.
- OpenEXR reading, grayscale and depth extraction, the optional Gaussian blur and `safe_log` are not modelled. Frames are given already in log space. The dataset utilities module is not part of this model.
- The optical-flow consistency check (motion field against gradient) is not modelled. It only asserts and never changes the events.
- The pose, twist, camera-info, image and depth-map messages and their timer are not modelled.
- Only a single threshold `C` is modelled. The loop passes `cp` to the simulator; `cm` and the noise parameters are only logged, and written to the bag when recording.
- Floating-point rounding is not modelled. Arithmetic is on exact reals, so the repeated `+= polarity * C` does not accumulate error.
- The conversion of event times to `rospy.Time` (nanosecond resolution) is not modelled.
- The loop's early exit on ROS shutdown is not modelled.
- `EventArray` takes its width and height from the simulated frame, while the source takes them from the camera description of the same dataset.
- Simulator.DvsSimulator.Update: requires the new frame not to be the reference array itself. The source always passes a freshly loaded image, so aliasing does not arise there.
- Simulator.DvsSimulator.Update: the nested pixel loop is split into UpdateGrid, UpdateColumn and UpdatePixel. Their contracts compose to the same behaviour.
- The `AssertionError` path of the constructor's and `update`'s `assert`s (lines 26-29, 38, 41) is not modelled: those conditions are preconditions here. Under `python -O` the source skips the checks altogether.
- There is no end-of-run step. Events still buffered when the frame loop ends are never released, because the source has no final flush after its loop.
