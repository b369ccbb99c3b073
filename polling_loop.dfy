/** The script body of sonos-quiet: inside the shutdown guard for SIGTERM,
    poll until interrupted; each cycle discovers the speakers, visits each one
    in turn with the volume rule, then sleeps out the rest of a ten-second
    interval. Speakers are numbered devices whose volumes live in an array;
    discovery yields the numbers of the speakers found in one cycle. */
module PollingLoop {
  import opened VolumePolicy
  import opened ShutdownGuard

  /** Length of one polling cycle, in seconds. */
  const Interval: int := 10

  /** The sleep that ends a cycle which took `elapsed` seconds: what is left
      of the interval, and nothing once the interval is used up. */
  function SleepFor(elapsed: int): (r: int)
    ensures r >= 0
    ensures elapsed >= 0 ==> r <= Interval
    ensures elapsed >= Interval ==> r == 0
    ensures elapsed < Interval ==> elapsed + r == Interval
  {
    Max(Interval - elapsed, 0)
  }

  datatype Option<T> = None | Some(value: T)

  /** What the outside world does during one cycle: the result of discovery
      (None when discovery raises), when SIGTERM arrives (after that many
      speaker visits; at or past the number of speakers it arrives after the
      last visit), and how long the cycle's work took. */
  datatype CycleInput = CycleInput(discovery: Option<seq<nat>>, signalAt: Option<nat>, elapsed: int)

  predicate InRange(ds: seq<nat>, n: nat)
  {
    forall k :: 0 <= k < |ds| ==> ds[k] < n
  }

  predicate InputInRange(input: CycleInput, n: nat)
  {
    input.discovery.Some? ==> InRange(input.discovery.value, n)
  }

  predicate AllInRange(cycles: seq<CycleInput>, n: nat)
  {
    forall k :: 0 <= k < |cycles| ==> InputInRange(cycles[k], n)
  }

  predicate Distinct(ds: seq<nat>)
  {
    forall a, b :: 0 <= a < b < |ds| ==> ds[a] != ds[b]
  }

  /** The state after visiting speakers in discovery order: their volumes,
      how many visits were made, and whether an exception escaped. */
  datatype SweepResult = SweepResult(volumes: seq<int>, visited: nat, crashed: bool)

  /** The `for speaker in ...` loop over the speakers `ds`, starting from
      volumes `vols`. It stops only at a speaker whose exception escapes the
      except clause; every other failure leaves the loop going. */
  function Sweep(vols: seq<int>, faults: seq<Faults>, ds: seq<nat>): (r: SweepResult)
    requires |faults| == |vols| && InRange(ds, |vols|)
    ensures |r.volumes| == |vols|
    ensures r.visited <= |ds|
    ensures !r.crashed <==> forall k :: 0 <= k < |ds| ==> !faults[ds[k]].nameFails
    ensures !r.crashed ==> r.visited == |ds|
    ensures r.crashed ==>
              0 < r.visited && faults[ds[r.visited - 1]].nameFails &&
              forall k :: 0 <= k < r.visited - 1 ==> !faults[ds[k]].nameFails
    decreases |ds|
  {
    if ds == [] then SweepResult(vols, 0, false)
    else
      var p := Sweep(vols, faults, ds[..|ds| - 1]);
      if p.crashed then p
      else
        var d := ds[|ds| - 1];
        var v := VisitSpeaker(p.volumes[d], faults[d]);
        if v.outcome == Escaped then SweepResult(p.volumes, p.visited + 1, true)
        else SweepResult(p.volumes[d := v.volume], p.visited + 1, false)
  }

  /** Once an exception has escaped, the speakers after it are not visited. */
  lemma {:induction false} SweepStopsAtCrash(vols: seq<int>, faults: seq<Faults>, ds: seq<nat>, i: nat)
    requires |faults| == |vols| && InRange(ds, |vols|) && i <= |ds|
    requires Sweep(vols, faults, ds[..i]).crashed
    ensures Sweep(vols, faults, ds) == Sweep(vols, faults, ds[..i])
    decreases |ds| - i
  {
    if i < |ds| {
      assert ds[..i + 1][..i] == ds[..i];
      SweepStopsAtCrash(vols, faults, ds, i + 1);
    } else {
      assert ds[..i] == ds;
    }
  }

  /** Each speaker's volume stays between its own rule's floor and where it
      started, whatever the other speakers do. */
  lemma {:induction false} SweepBounds(vols: seq<int>, faults: seq<Faults>, ds: seq<nat>, j: nat)
    requires |faults| == |vols| && InRange(ds, |vols|) && j < |vols|
    ensures Min(vols[j], Threshold) <= Sweep(vols, faults, ds).volumes[j] <= vols[j]
    decreases |ds|
  {
    if ds != [] {
      var pre := ds[..|ds| - 1];
      SweepBounds(vols, faults, pre, j);
    }
  }

  /** A speaker that is not discovered, or whose volume cannot be read or
      set, keeps its volume. */
  lemma {:induction false} SweepUntouched(vols: seq<int>, faults: seq<Faults>, ds: seq<nat>, j: nat)
    requires |faults| == |vols| && InRange(ds, |vols|) && j < |vols|
    requires j !in ds || faults[j].volumeFails || faults[j].writeFails
    ensures Sweep(vols, faults, ds).volumes[j] == vols[j]
    decreases |ds|
  {
    if ds != [] {
      var pre := ds[..|ds| - 1];
      assert j !in ds ==> j !in pre;
      SweepUntouched(vols, faults, pre, j);
    }
  }

  /** When no exception escapes and each speaker is discovered once, every
      discovered speaker ends where its own visit put it: failures of the
      others do not reach it. */
  lemma {:induction false} SweepIsolation(vols: seq<int>, faults: seq<Faults>, ds: seq<nat>, j: nat)
    requires |faults| == |vols| && InRange(ds, |vols|) && Distinct(ds)
    requires j in ds && !Sweep(vols, faults, ds).crashed
    ensures Sweep(vols, faults, ds).volumes[j] == VisitSpeaker(vols[j], faults[j]).volume
    decreases |ds|
  {
    var pre := ds[..|ds| - 1];
    var d := ds[|ds| - 1];
    if d == j {
      assert j !in pre;
      SweepUntouched(vols, faults, pre, j);
    } else {
      assert j in pre;
      SweepIsolation(vols, faults, pre, j);
    }
  }

  /** Whether an exception leaves the cycle `input`: discovery raises, or a
      discovered speaker's display name cannot be read. Volumes play no part. */
  predicate Escapes(faults: seq<Faults>, input: CycleInput)
  {
    input.discovery.None? ||
    exists k :: 0 <= k < |input.discovery.value| && input.discovery.value[k] < |faults| &&
                faults[input.discovery.value[k]].nameFails
  }

  datatype CycleOutcome = Slept(duration: int) | Crashed

  datatype CycleOutput = CycleOutput(volumes: seq<int>, outcome: CycleOutcome)

  /** One iteration of the `while` loop: discovery (which may raise), the
      sweep, and the sleep. A cycle that does not crash always sleeps. */
  function CycleSpec(vols: seq<int>, faults: seq<Faults>, input: CycleInput): (r: CycleOutput)
    requires |faults| == |vols| && InputInRange(input, |vols|)
    ensures |r.volumes| == |vols|
    ensures r.outcome == Crashed <==> Escapes(faults, input)
    ensures r.outcome.Slept? ==> r.outcome.duration == SleepFor(input.elapsed)
  {
    match input.discovery
    case None => CycleOutput(vols, Crashed)
    case Some(ds) =>
      var s := Sweep(vols, faults, ds);
      if s.crashed then CycleOutput(s.volumes, Crashed)
      else CycleOutput(s.volumes, Slept(SleepFor(input.elapsed)))
  }

  /** Whether the cycle's SIGTERM is delivered before the cycle ends: it is,
      unless an exception escapes before that many visits were made. */
  predicate SignalReached(vols: seq<int>, faults: seq<Faults>, input: CycleInput)
    requires |faults| == |vols| && InputInRange(input, |vols|)
  {
    input.signalAt.Some? && input.discovery.Some? &&
    var s := Sweep(vols, faults, input.discovery.value);
    !s.crashed || input.signalAt.value < s.visited
  }

  /** How the daemon stopped: the flag was seen raised at the top of the loop,
      an exception escaped, or the modelled cycles ran out. */
  datatype Stop = Interrupted | CrashedOut | OutOfCycles

  /** Volumes at the end, the sleep of every completed cycle, and the stop. */
  datatype RunResult = RunResult(volumes: seq<int>, sleeps: seq<int>, stop: Stop)

  /** The `while not h.interrupted` loop over the cycles `cycles`. The flag is
      only looked at between cycles, so the cycle in which the signal arrives
      runs to its end, sleep included. */
  function RunSpec(vols: seq<int>, faults: seq<Faults>, cycles: seq<CycleInput>): (r: RunResult)
    requires |faults| == |vols| && AllInRange(cycles, |vols|)
    ensures |r.volumes| == |vols|
    ensures |r.sleeps| <= |cycles|
    ensures forall k :: 0 <= k < |r.sleeps| ==> r.sleeps[k] == SleepFor(cycles[k].elapsed)
    ensures r.stop == OutOfCycles ==>
              |r.sleeps| == |cycles| && forall k :: 0 <= k < |cycles| ==> cycles[k].signalAt.None?
    ensures r.stop == Interrupted ==>
              0 < |r.sleeps| && cycles[|r.sleeps| - 1].signalAt.Some? &&
              forall k :: 0 <= k < |r.sleeps| - 1 ==> cycles[k].signalAt.None?
    ensures r.stop == CrashedOut ==>
              |r.sleeps| < |cycles| && forall k :: 0 <= k < |r.sleeps| ==> cycles[k].signalAt.None?
    ensures forall k :: 0 <= k < |r.sleeps| ==> !Escapes(faults, cycles[k])
    ensures r.stop == CrashedOut ==> Escapes(faults, cycles[|r.sleeps|])
    decreases |cycles|
  {
    if cycles == [] then RunResult(vols, [], OutOfCycles)
    else
      var c := CycleSpec(vols, faults, cycles[0]);
      match c.outcome
      case Crashed => RunResult(c.volumes, [], CrashedOut)
      case Slept(d) =>
        if cycles[0].signalAt.Some? then RunResult(c.volumes, [d], Interrupted)
        else
          assert AllInRange(cycles[1..], |vols|) by {
            forall k | 0 <= k < |cycles| - 1 ensures InputInRange(cycles[1..][k], |vols|) {
              assert cycles[1..][k] == cycles[k + 1];
            }
          }
          var rest := RunSpec(c.volumes, faults, cycles[1..]);
          RunResult(rest.volumes, [d] + rest.sleeps, rest.stop)
  }

  /** Nothing raises: every discovery succeeds and every discovered
      speaker's display name reads. */
  predicate NoEscape(faults: seq<Faults>, cycles: seq<CycleInput>)
  {
    forall k :: 0 <= k < |cycles| ==> !Escapes(faults, cycles[k])
  }

  /** Index of the first cycle that raises or receives the signal, or the
      number of cycles if there is none. */
  function FirstStop(faults: seq<Faults>, cycles: seq<CycleInput>): (r: nat)
    ensures r <= |cycles|
    ensures r < |cycles| ==> Escapes(faults, cycles[r]) || cycles[r].signalAt.Some?
    ensures forall k :: 0 <= k < r ==> !Escapes(faults, cycles[k]) && cycles[k].signalAt.None?
    decreases |cycles|
  {
    if cycles == [] then 0
    else if Escapes(faults, cycles[0]) || cycles[0].signalAt.Some? then 0
    else 1 + FirstStop(faults, cycles[1..])
  }

  lemma AllInRangeTail(cycles: seq<CycleInput>, n: nat)
    requires |cycles| > 0 && AllInRange(cycles, n)
    ensures AllInRange(cycles[1..], n)
  {
  }

  /** One step of the loop: the first cycle, then either the stop or the rest. */
  lemma RunUnfold(vols: seq<int>, faults: seq<Faults>, cycles: seq<CycleInput>)
    requires |faults| == |vols| && AllInRange(cycles, |vols|) && cycles != []
    ensures var c := CycleSpec(vols, faults, cycles[0]);
            var r := RunSpec(vols, faults, cycles);
            (c.outcome.Crashed? ==> r == RunResult(c.volumes, [], CrashedOut)) &&
            (c.outcome.Slept? ==> !Sweep(vols, faults, cycles[0].discovery.value).crashed) &&
            (c.outcome.Slept? && cycles[0].signalAt.Some? ==>
               r == RunResult(c.volumes, [c.outcome.duration], Interrupted)) &&
            (c.outcome.Slept? && cycles[0].signalAt.None? ==>
               AllInRange(cycles[1..], |vols|) &&
               var rest := RunSpec(c.volumes, faults, cycles[1..]);
               r == RunResult(rest.volumes, [c.outcome.duration] + rest.sleeps, rest.stop))
  {
  }

  /** The loop invariant of `Daemon`: `spec` is the whole run, split into
      what the loop has done and, while it goes on, the rest of the run from
      the current volumes. */
  ghost predicate LoopInv(spec: RunResult, vols: seq<int>, faults: seq<Faults>, cycles: seq<CycleInput>,
                          i: nat, sleeps: seq<int>, crashed: bool, interrupted: bool)
    requires |faults| == |vols| && AllInRange(cycles, |vols|) && i <= |cycles|
  {
    (crashed ==> spec == RunResult(vols, sleeps, CrashedOut)) &&
    (!crashed && interrupted ==> spec == RunResult(vols, sleeps, Interrupted)) &&
    (!crashed && !interrupted ==>
       AllInRange(cycles[i..], |vols|) &&
       var rest := RunSpec(vols, faults, cycles[i..]);
       spec == RunResult(rest.volumes, sleeps + rest.sleeps, rest.stop))
  }

  /** The loop invariant of `Daemon` is kept by one cycle that started from
      volumes `before`, left `after`, and raised the flag exactly when its
      signal was delivered. */
  lemma RunStep(spec: RunResult, before: seq<int>, faults: seq<Faults>, cycles: seq<CycleInput>,
                i: nat, sleeps: seq<int>, after: seq<int>, outcome: CycleOutcome, interrupted: bool)
    requires |faults| == |before| && AllInRange(cycles, |before|) && i < |cycles|
    requires LoopInv(spec, before, faults, cycles, i, sleeps, false, false)
    requires CycleOutput(after, outcome) == CycleSpec(before, faults, cycles[i])
    requires interrupted == SignalReached(before, faults, cycles[i])
    ensures |after| == |before|
    ensures outcome.Crashed? ==> LoopInv(spec, after, faults, cycles, i, sleeps, true, interrupted)
    ensures outcome.Slept? ==>
              LoopInv(spec, after, faults, cycles, i + 1, sleeps + [outcome.duration], false, interrupted)
  {
    assert cycles[i..][0] == cycles[i];
    assert cycles[i..][1..] == cycles[i + 1..];
    RunUnfold(before, faults, cycles[i..]);
    if outcome.Slept? && cycles[i].signalAt.None? {
      var rest := RunSpec(after, faults, cycles[i + 1..]);
      assert sleeps + ([outcome.duration] + rest.sleeps) == sleeps + [outcome.duration] + rest.sleeps;
    }
  }

  /** The first cycle that raises or receives the signal ends the run: as a
      crash if it raises, otherwise as interrupted after completing it. With
      no such cycle the modelled cycles run out. */
  lemma RunStopsAtFirstEvent(vols: seq<int>, faults: seq<Faults>, cycles: seq<CycleInput>)
    requires |faults| == |vols| && AllInRange(cycles, |vols|)
    ensures var n := FirstStop(faults, cycles);
            RunSpec(vols, faults, cycles).stop ==
              if n == |cycles| then OutOfCycles
              else if Escapes(faults, cycles[n]) then CrashedOut
              else Interrupted
    ensures var n := FirstStop(faults, cycles);
            |RunSpec(vols, faults, cycles).sleeps| ==
              if n < |cycles| && !Escapes(faults, cycles[n]) then n + 1 else n
  {
    // Follows from the contracts of RunSpec and FirstStop.
  }

  /** Every speaker ends between its own floor and its starting volume, on
      every run, whatever fails and however often it is discovered. */
  lemma {:induction false} RunBounds(vols: seq<int>, faults: seq<Faults>, cycles: seq<CycleInput>, j: nat)
    requires |faults| == |vols| && AllInRange(cycles, |vols|) && j < |vols|
    ensures Min(vols[j], Threshold) <= RunSpec(vols, faults, cycles).volumes[j] <= vols[j]
    decreases |cycles|
  {
    if cycles != [] {
      var c := CycleSpec(vols, faults, cycles[0]);
      if cycles[0].discovery.Some? {
        SweepBounds(vols, faults, cycles[0].discovery.value, j);
      }
      if c.outcome.Slept? && cycles[0].signalAt.None? {
        AllInRangeTail(cycles, |vols|);
        RunBounds(c.volumes, faults, cycles[1..], j);
      }
    }
  }

  /** A speaker whose volume cannot be read or set keeps its volume for the
      whole run, even though it is visited in every cycle. */
  lemma {:induction false} RunFailingSpeakerKept(vols: seq<int>, faults: seq<Faults>, cycles: seq<CycleInput>, j: nat)
    requires |faults| == |vols| && AllInRange(cycles, |vols|) && j < |vols|
    requires faults[j].volumeFails || faults[j].writeFails
    ensures RunSpec(vols, faults, cycles).volumes[j] == vols[j]
    decreases |cycles|
  {
    if cycles != [] {
      var c := CycleSpec(vols, faults, cycles[0]);
      if cycles[0].discovery.Some? {
        SweepUntouched(vols, faults, cycles[0].discovery.value, j);
      }
      if c.outcome.Slept? && cycles[0].signalAt.None? {
        AllInRangeTail(cycles, |vols|);
        RunFailingSpeakerKept(c.volumes, faults, cycles[1..], j);
      }
    }
  }

  /** Speaker `j` is discovered exactly once in every cycle. */
  predicate AlwaysFoundOnce(cycles: seq<CycleInput>, j: nat)
  {
    forall k :: 0 <= k < |cycles| ==>
      cycles[k].discovery.Some? && j in cycles[k].discovery.value &&
      Distinct(cycles[k].discovery.value)
  }

  /** Convergence: a healthy speaker found once per cycle is turned down by
      exactly one step per completed cycle until it reaches the threshold,
      and stays there. */
  lemma {:induction false} RunConverges(vols: seq<int>, faults: seq<Faults>, cycles: seq<CycleInput>, j: nat)
    requires |faults| == |vols| && AllInRange(cycles, |vols|) && j < |vols|
    requires NoEscape(faults, cycles) && AlwaysFoundOnce(cycles, j)
    requires !faults[j].volumeFails && !faults[j].writeFails
    ensures RunSpec(vols, faults, cycles).volumes[j] ==
              Repeat(vols[j], |RunSpec(vols, faults, cycles).sleeps|)
    ensures RunSpec(vols, faults, cycles).volumes[j] ==
              if vols[j] > Threshold then Max(vols[j] - |RunSpec(vols, faults, cycles).sleeps|, Threshold)
              else vols[j]
    decreases |cycles|
  {
    var r := RunSpec(vols, faults, cycles);
    if cycles != [] {
      var ds := cycles[0].discovery.value;
      var c := CycleSpec(vols, faults, cycles[0]);
      assert !Escapes(faults, cycles[0]);
      assert c.outcome.Slept?;
      SweepIsolation(vols, faults, ds, j);
      var w :| 0 <= w < |ds| && ds[w] == j;
      assert !faults[ds[w]].nameFails;
      assert faults[j] == Healthy;
      HealthyVisit(vols[j]);
      assert c.volumes[j] == Lowered(vols[j]);
      if cycles[0].signalAt.None? {
        AllInRangeTail(cycles, |vols|);
        assert NoEscape(faults, cycles[1..]) && AlwaysFoundOnce(cycles[1..], j) by {
          forall k | 0 <= k < |cycles| - 1
            ensures !Escapes(faults, cycles[1..][k]) &&
                    cycles[1..][k].discovery.Some? && j in cycles[1..][k].discovery.value &&
                    Distinct(cycles[1..][k].discovery.value)
          {
            assert cycles[1..][k] == cycles[k + 1];
          }
        }
        RunConverges(c.volumes, faults, cycles[1..], j);
      }
    }
    RepeatClosedForm(vols[j], |r.sleeps|);
  }

  /** Lines 40-51: one cycle, run while the guard is held and the flag is
      down. Volumes are changed in place; the SIGTERM of the cycle, if it
      arrives, is delivered between two speaker visits (or after the last)
      and does not cut the cycle short. */
  method Cycle(h: GracefulInterruptHandler, volumes: array<int>, faults: seq<Faults>, input: CycleInput)
    returns (outcome: CycleOutcome)
    requires h.entered && h.Valid() && !h.interrupted && !h.released
    requires volumes.Length == |faults| && InputInRange(input, volumes.Length)
    modifies h, volumes
    ensures CycleOutput(volumes[..], outcome) == CycleSpec(old(volumes[..]), faults, input)
    ensures h.interrupted == SignalReached(old(volumes[..]), faults, input)
    ensures h.entered && h.Valid() && h.released == h.interrupted
    ensures h.originalHandler == old(h.originalHandler)
  {
    if input.discovery.None? {
      return Crashed;
    }
    var ds := input.discovery.value;
    ghost var start := volumes[..];
    var i := 0;
    var crashed := false;
    while i < |ds| && !crashed
      invariant 0 <= i <= |ds|
      invariant Sweep(start, faults, ds[..i]) == SweepResult(volumes[..], i, crashed)
      invariant h.entered && h.Valid() && h.released == h.interrupted
      invariant h.originalHandler == old(h.originalHandler)
      invariant h.interrupted == (input.signalAt.Some? && input.signalAt.value < i)
    {
      if input.signalAt == Some(i) {
        var _ := h.Deliver();
      }
      assert ds[..i + 1][..i] == ds[..i];
      var d := ds[i];
      var v := VisitSpeaker(volumes[d], faults[d]);
      if v.outcome == Escaped {
        crashed := true;
      } else if v.outcome == Reduced {
        volumes[d] := v.volume;
      }
      i := i + 1;
    }
    if crashed {
      SweepStopsAtCrash(start, faults, ds, i);
      return Crashed;
    }
    assert ds[..i] == ds;
    if input.signalAt.Some? && input.signalAt.value >= |ds| {
      var _ := h.Deliver();
    }
    outcome := Slept(SleepFor(input.elapsed));
  }

  /** What the daemon reports when its loop has ended. */
  datatype Report = Report(sleeps: seq<int>, stop: Stop)

  /** Lines 38-51: the daemon, in a process whose SIGTERM disposition is
      `original`, over the cycles `cycles` (the model's bound on the
      otherwise endless loop). Whatever ends the loop, leaving the `with`
      block puts the original disposition back. */
  method Daemon(original: Disposition, volumes: array<int>, faults: seq<Faults>, cycles: seq<CycleInput>)
    returns (h: GracefulInterruptHandler, report: Report)
    requires original != GuardHandler
    requires volumes.Length == |faults| && AllInRange(cycles, volumes.Length)
    modifies volumes
    ensures volumes[..] == RunSpec(old(volumes[..]), faults, cycles).volumes
    ensures report == Report(RunSpec(old(volumes[..]), faults, cycles).sleeps,
                             RunSpec(old(volumes[..]), faults, cycles).stop)
    ensures h.sig == SIGTERM && h.released && h.installed == original
    ensures report.stop == Interrupted ==> h.interrupted
    ensures report.stop == OutOfCycles ==> !h.interrupted
  {
    h := new GracefulInterruptHandler(original, SIGTERM);
    h.Enter();
    ghost var spec := RunSpec(volumes[..], faults, cycles);
    var sleeps: seq<int> := [];
    var i := 0;
    var crashed := false;
    assert cycles[0..] == cycles;
    while !h.interrupted && !crashed && i < |cycles|
      invariant 0 <= i <= |cycles|
      invariant h.sig == SIGTERM && h.entered && h.Valid() && h.originalHandler == original
      invariant h.released == h.interrupted
      invariant LoopInv(spec, volumes[..], faults, cycles, i, sleeps, crashed, h.interrupted)
    {
      ghost var before := volumes[..];
      var outcome := Cycle(h, volumes, faults, cycles[i]);
      RunStep(spec, before, faults, cycles, i, sleeps, volumes[..], outcome, h.interrupted);
      match outcome
      case Crashed =>
        crashed := true;
      case Slept(d) =>
        sleeps := sleeps + [d];
        i := i + 1;
    }
    var stop := if crashed then CrashedOut else if h.interrupted then Interrupted else OutOfCycles;
    report := Report(sleeps, stop);
    h.Exit();
  }
}
