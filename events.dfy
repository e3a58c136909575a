/** The event record the simulator emits (make_event in the source). */
module Events {

  /** One threshold-crossing event: pixel column `x`, pixel row `y`, time `ts`
      in seconds (interpolated inside the frame interval) and `polarity`
      (true for a brightening, +1; false for a darkening, -1). */
  datatype Event = Event(x: nat, y: nat, ts: real, polarity: bool)
}
