/** Concrete single-pixel steps worked out from the crossing rule. */
module Scenarios {
  import opened Events
  import opened Crossings

  /** C = 0.15, reference and old intensity 0, new intensity 0.5 over t in [0, 1]:
      three positive events at 0.3, 0.6 and 0.9, and the reference ends at 0.45. */
  lemma BrighteningScenario(x: nat, y: nat)
    ensures PixelEvents(x, y, 0.0, 0.0, 0.5, 0.0, 1.0, 0.15) ==
      [Event(x, y, 0.3, true), Event(x, y, 0.6, true), Event(x, y, 0.9, true)]
    ensures NextReference(0.0, 0.0, 0.5, 0.15) == 0.45
  {
  }

  /** C = 0.1, reference and old intensity 0.5, new intensity 0 over t in [0, 1]:
      five negative events; the last crossing lands exactly on the new
      intensity and is kept, because the far end of the band is inclusive. */
  lemma DarkeningScenario(x: nat, y: nat)
    ensures PixelEvents(x, y, 0.5, 0.5, 0.0, 0.0, 1.0, 0.1) ==
      [Event(x, y, 0.2, false), Event(x, y, 0.4, false), Event(x, y, 0.6, false),
       Event(x, y, 0.8, false), Event(x, y, 1.0, false)]
    ensures NextReference(0.5, 0.5, 0.0, 0.1) == 0.0
  {
  }

  /** C = 0.15, reference 0: a step to 0.1499995 crosses nothing; a further
      step to 0.15 is within the tolerance and skipped, so the reference
      stays a full threshold behind; from there a step to 0.5 emits nothing
      and keeps the reference, because the first candidate 0.15 is not
      strictly beyond the old intensity. Going to 0.5 straight from
      0.1499995 emits three events. */
  lemma DriftScenario(x: nat, y: nat)
    ensures PixelEvents(x, y, 0.0, 0.0, 0.1499995, 0.0, 1.0, 0.15) == []
    ensures NextReference(0.0, 0.0, 0.1499995, 0.15) == 0.0
    ensures !Changed(0.1499995, 0.15)
    ensures PixelEvents(x, y, 0.0, 0.15, 0.5, 2.0, 3.0, 0.15) == []
    ensures NextReference(0.0, 0.15, 0.5, 0.15) == 0.0
    ensures |PixelEvents(x, y, 0.0, 0.1499995, 0.5, 1.0, 2.0, 0.15)| == 3
  {
  }
}
