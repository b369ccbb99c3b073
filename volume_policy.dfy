/** The per-speaker volume rule of sonos-quiet: a speaker louder than the
    threshold is turned down by one step, any other speaker is left alone, and
    an error raised while talking to one speaker is logged and swallowed. */
module VolumePolicy {

  /** Volume above which a speaker is turned down. */
  const Threshold: int := 10

  /** Amount by which a loud speaker is turned down in one visit. */
  const Step: int := 1

  function Min(a: int, b: int): (r: int)
    ensures r <= a && r <= b && (r == a || r == b)
  {
    if a <= b then a else b
  }

  function Max(a: int, b: int): (r: int)
    ensures r >= a && r >= b && (r == a || r == b)
  {
    if a >= b then a else b
  }

  /** The decision taken for a speaker whose volume reads as `volume`.
      The boundary is strict: a speaker exactly at the threshold is kept. */
  function Lowered(volume: int): (r: int)
    ensures r <= volume && volume - r <= Step
    ensures r == volume <==> volume <= Threshold
    ensures r >= Min(volume, Threshold)
  {
    if volume > Threshold then volume - Step else volume
  }

  /** How one speaker fails, if it does. A failing call fails every time it is
      made during the visit: reading the volume, reading the display name,
      or setting the volume. */
  datatype Faults = Faults(volumeFails: bool, nameFails: bool, writeFails: bool)

  const Healthy: Faults := Faults(false, false, false)

  /** What a visit to one speaker amounts to.
      Reduced / Maintained: the informational log line and, for Reduced, the write.
      ErrorLogged: an exception was raised and swallowed by the handler.
      Escaped: the handler's own read of the display name raised, so the
      exception leaves the visit (and with it the polling loop). */
  datatype Outcome = Reduced | Maintained | ErrorLogged | Escaped

  datatype Visit = Visit(outcome: Outcome, volume: int)

  /** The except clause: logging the failure reads the display name again. */
  function Handled(volume: int, f: Faults): (r: Visit)
    ensures r.volume == volume
    ensures r.outcome == Escaped || r.outcome == ErrorLogged
    ensures r.outcome == Escaped <==> f.nameFails
  {
    if f.nameFails then Visit(Escaped, volume) else Visit(ErrorLogged, volume)
  }

  /** One pass of the try block for a speaker whose volume is `volume`.
      The display name is read before the volume is written, so a speaker
      whose name cannot be read is never written; and because the except
      clause reads the name too, such a speaker always escapes. */
  function VisitSpeaker(volume: int, f: Faults): (r: Visit)
    ensures r.outcome == Escaped <==> f.nameFails
    ensures r.outcome == Reduced <==>
              !f.nameFails && !f.volumeFails && !f.writeFails && volume > Threshold
    ensures r.outcome == Maintained <==>
              !f.nameFails && !f.volumeFails && volume <= Threshold
    ensures r.outcome == ErrorLogged <==>
              !f.nameFails && (f.volumeFails || (f.writeFails && volume > Threshold))
    ensures r.outcome != Reduced ==> r.volume == volume
    ensures r.outcome == Reduced ==> r.volume == volume - Step
  {
    if f.volumeFails then Handled(volume, f)
    else if volume > Threshold then
      if f.nameFails then Handled(volume, f)
      else if f.writeFails then Handled(volume, f)
      else Visit(Reduced, volume - Step)
    else if f.nameFails then Handled(volume, f)
    else Visit(Maintained, volume)
  }

  /** A speaker whose calls all succeed receives exactly the decision. */
  lemma HealthyVisit(volume: int)
    ensures VisitSpeaker(volume, Healthy).outcome != Escaped
    ensures VisitSpeaker(volume, Healthy).volume == Lowered(volume)
  {
  }

  /** The volume of a speaker visited `n` times with nothing failing. */
  function Repeat(volume: int, n: nat): (r: int)
    decreases n
  {
    if n == 0 then volume else Repeat(Lowered(volume), n - 1)
  }

  /** A loud speaker comes down by exactly one step per visit until it
      reaches the threshold; a speaker at or below it never moves. */
  lemma {:induction false} RepeatClosedForm(volume: int, n: nat)
    ensures Repeat(volume, n) ==
            if volume > Threshold then Max(volume - n, Threshold) else volume
    decreases n
  {
    if n > 0 {
      RepeatClosedForm(Lowered(volume), n - 1);
    }
  }

  /** Visit n + 1 applies the rule once more to the volume left by visit n. */
  lemma {:induction false} RepeatOneMore(volume: int, n: nat)
    ensures Repeat(volume, n + 1) == Lowered(Repeat(volume, n))
    decreases n
  {
    if n > 0 {
      RepeatOneMore(Lowered(volume), n - 1);
    }
  }

  /** Repeating the rule never takes a volume below the threshold (or below
      its starting point, if it started there), and never raises it. */
  lemma {:induction false} RepeatBounds(volume: int, n: nat)
    ensures Min(volume, Threshold) <= Repeat(volume, n) <= volume
  {
    RepeatClosedForm(volume, n);
  }

  /** After as many visits as the speaker is above the threshold, it has
      settled: every further visit leaves it where it is. */
  lemma {:induction false} RepeatSettles(volume: int, n: nat)
    requires n >= volume - Threshold
    ensures Repeat(volume, n) == Min(volume, Threshold)
    ensures Lowered(Repeat(volume, n)) == Repeat(volume, n)
  {
    RepeatClosedForm(volume, n);
  }
}
