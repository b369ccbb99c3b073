# sonos-quiet, modelled in Dafny

sonos-quiet is a small daemon. It takes SIGTERM through a context manager,
`GracefulInterruptHandler`. Until that signal arrives it repeats one polling
cycle:

- discover the Sonos speakers on the network;
- turn each speaker louder than 10 down by one step, and leave any other
  speaker alone;
- log and swallow any error on one speaker and go on to the next;
- sleep out whatever is left of a ten-second interval.

The project has three modules, one per component of `sonos-quiet.py`:

- `shutdown_guard.dfy`, module `ShutdownGuard`: the guard as a class. Its
  fields are `interrupted`, `released` and `originalHandler`. A further field,
  `installed`, holds the disposition the process has for the signal. The
  field `entered` records that `__enter__` has run, because the three
  attributes do not exist before it. The invariant `Valid()` says that the
  guard's handler is installed while the guard is held, and that the recorded
  disposition is installed once it is released. `Deliver` models the arrival
  of the signal: it runs the guard's handler if that is installed, and
  otherwise goes to the installed disposition.
- `volume_policy.dfy`, module `VolumePolicy`: the threshold decision
  (`Lowered`), one visit of the `try` block to one speaker (`VisitSpeaker`),
  and repeated visits (`Repeat`) with their closed form.
- `polling_loop.dfy`, module `PollingLoop`: the script body. Speakers are
  numbered devices whose volumes live in an `array<int>`. A
  discovery is a sequence of device numbers. Each device has a fixed fault
  profile that says which of its calls fail. `Sweep` specifies the
  `for` loop, `CycleSpec` one iteration of the `while` loop, and `RunSpec` the
  whole loop over a finite sequence of cycles. The methods come in two
  kinds. `Cycle` runs one iteration in place on the array. `Daemon` runs the
  `with` block: it creates and enters the guard, loops, and exits. Both are
  proved against those functions.

Two behaviours of the code shape the model:

- **The except clause reads the display name.** Line 49 reads
  `speaker.player_name`, which is a network call, inside the handler. If
  that call raises, the exception is not caught. It leaves the loop and ends
  the daemon. Leaving the `with` block still releases the guard. The model
  keeps this path, as outcome `Escaped`. A speaker whose name cannot be read
  always escapes: either the log line on line 44 or 47 raises first, or the
  handler raises. So fault isolation holds for every speaker whose name reads.
  The cycle stops at the first speaker whose name does not read
  (`Sweep`, `CycleSpec`).
- **Discovery is not guarded.** An exception from discovery (line 41) is not
  isolated. In the model it is a crash of the cycle, and the daemon stops.

## Model

| member | source | states |
|---|---|---|
| `ShutdownGuard.GracefulInterruptHandler.constructor` | sonos-quiet.py:12-13 | records the signal, SIGINT unless another is given; nothing is installed and the guard is not yet entered |
| `ShutdownGuard.GracefulInterruptHandler.Enter` | sonos-quiet.py:15-25 | records the current disposition as `originalHandler`, installs the guard's handler, and lowers both flags |
| `ShutdownGuard.GracefulInterruptHandler.Release` | sonos-quiet.py:30-35 | idempotent. The first call restores `originalHandler`, sets `released` and returns true. Later calls return false and change nothing. Afterwards `released` holds and the original disposition is installed |
| `ShutdownGuard.GracefulInterruptHandler.Handler` | sonos-quiet.py:20-22 | releases and then raises `interrupted`. Afterwards both flags are up and the original disposition is installed |
| `ShutdownGuard.GracefulInterruptHandler.Exit` | sonos-quiet.py:27-28 | whether or not the signal came, leaves `released` up, the original disposition installed, and `interrupted` as it was |
| `ShutdownGuard.GracefulInterruptHandler.Deliver` | sonos-quiet.py:20-24 | a signal runs the guard's handler exactly when that handler is installed. Otherwise it goes to the installed disposition and the guard is unchanged |
| `ShutdownGuard.SignalTwice` | sonos-quiet.py:15-35 | with the guard held, the first signal reaches the guard and raises both flags. The second signal reaches the disposition the process had before |
| `ShutdownGuard.ExitThenReleaseAgain` | sonos-quiet.py:15-35 | after the scope is left, with or without a signal, the previous disposition is installed, `interrupted` tells whether the signal came, and a further `release` reports false |
| `VolumePolicy.Lowered` | sonos-quiet.py:43-47 | never raises the volume and lowers it by at most one step. It changes the volume exactly when the volume is above 10 (strict boundary), and never takes it below `min(volume, 10)` |
| `VolumePolicy.VisitSpeaker` | sonos-quiet.py:42-49 | one visit to one speaker. It is reduced by one step exactly when every call succeeds and the volume is above 10. It is maintained when the reads succeed and the volume is at most 10. A failing volume read, or a failing write of a loud speaker, is logged with the volume unchanged. A failing name read escapes |
| `VolumePolicy.RepeatClosedForm` | sonos-quiet.py:43-47 | after n visits a speaker above 10 is at `max(v - n, 10)`, and any other speaker stays where it is |
| `VolumePolicy.RepeatOneMore` | sonos-quiet.py:43-47 | each further visit applies the rule once more to the volume left by the previous visit |
| `VolumePolicy.RepeatBounds` | sonos-quiet.py:43-47 | repeating the rule keeps the volume between `min(v, 10)` and `v` |
| `VolumePolicy.RepeatSettles` | sonos-quiet.py:43-47 | after `v - 10` visits the speaker is at `min(v, 10)`, and further visits leave it there |
| `PollingLoop.SleepFor` | sonos-quiet.py:50-51 | the sleep is never negative and is at most 10 for a non-negative elapsed time. It is 0 once the cycle took 10 or more, and otherwise brings the cycle to exactly 10 |
| `PollingLoop.Sweep` | sonos-quiet.py:41-49 | the speaker loop stops early exactly when some discovered speaker's name does not read, and then at the first such speaker. Otherwise it visits every discovered speaker |
| `PollingLoop.SweepStopsAtCrash` | sonos-quiet.py:41-49 | after an escaping speaker, no later speaker is visited or changed |
| `PollingLoop.SweepBounds` | sonos-quiet.py:41-49 | within one cycle every speaker ends between `min(v, 10)` and `v`, whatever the other speakers do |
| `PollingLoop.SweepUntouched` | sonos-quiet.py:41-49 | a speaker that is not discovered keeps its volume, and so does one whose volume read or write fails |
| `PollingLoop.SweepIsolation` | sonos-quiet.py:41-49 | when nothing escapes and discovery lists each speaker once, every discovered speaker ends exactly as its own visit leaves it, whatever fails on the others |
| `PollingLoop.CycleSpec` | sonos-quiet.py:40-51 | a cycle crashes exactly when discovery raises or some discovered speaker's name does not read. Otherwise it sleeps `SleepFor(elapsed)` |
| `PollingLoop.RunSpec` | sonos-quiet.py:39-51 | the flag is checked only between cycles. Every completed cycle sleeps `SleepFor` of its elapsed time, and no completed cycle raised. An interrupted run ends with the first cycle that received the signal. A crashed run ends at a cycle whose discovery raised or whose discovered speaker's name did not read. A run that ran out of cycles saw no signal |
| `PollingLoop.RunStopsAtFirstEvent` | sonos-quiet.py:39-51 | the first cycle that raises or receives the signal ends the run. If it raises, the run crashes there with the cycles before it completed. Otherwise the run completes it and stops as interrupted. With no such cycle the modelled cycles run out |
| `PollingLoop.RunBounds` | sonos-quiet.py:39-51 | over a whole run every speaker ends between `min(v, 10)` and `v`, whatever fails and however often it is discovered |
| `PollingLoop.RunFailingSpeakerKept` | sonos-quiet.py:39-51 | a speaker whose volume read or write fails keeps its volume for the whole run |
| `PollingLoop.RunConverges` | sonos-quiet.py:39-51 | when no cycle raises, a speaker whose volume reads and writes, discovered once per cycle, comes down by exactly one step per completed cycle to `max(v - n, 10)`, or stays at `v` if it started at or below 10 |
| `PollingLoop.Cycle` | sonos-quiet.py:40-51 | one loop iteration changes the volumes in place as `CycleSpec` says. A signal during the iteration raises the flag and releases the guard without cutting the iteration short |
| `PollingLoop.Daemon` | sonos-quiet.py:38-51 | the final volumes, the sleeps and the stop reason are those of `RunSpec`. However the loop ends, the guard is released and the original SIGTERM disposition is back |

## Left out

- Discovery (`soco.discover()`, line 41) is an input: a sequence of device numbers per cycle, or a failure. The library's own return values, including what it gives when nothing is found, are not part of this model.
- The speaker protocol calls (`speaker.volume`, `speaker.player_name`, lines 43-45 and 49) are modelled as volume reads and writes and name reads that either succeed or fail. Each device has one fault profile. A call that fails fails every time during the run, and a volume read returns the same value every time within a visit. Transient failures, and volumes changed by someone else between the reads on lines 43-45, are not modelled.
- Log output and message formatting (lines 44, 47, 49) are not modelled. Only the name reads the log calls make are kept, because they can raise.
- Real signal delivery is not modelled. It is one explicit `Deliver` call at a chosen point in a cycle: between two speaker visits, or after the last one. At most one signal arrives per cycle of the loop. A signal that interrupts the handler between its `release` and its flag update is not modelled. What the signal's original disposition then does, such as terminating the process or running a foreign handler, is not modelled either.
- The installed disposition is a field of the guard object rather than process-wide state. A second guard for the same signal is not modelled.
- `signal.getsignal` returns None for a handler not installed from Python. Restoring None on line 33 then raises TypeError, so `released` stays false and `__exit__` raises. The model restores every recorded disposition, `Foreign` ones included; the None case is not modelled.
- A SIGTERM that arrives between `__enter__` and the first test of the `while` loop ends the loop after zero cycles. Signals arrive only during a cycle in the model, so `RunSpec` has no such run.
- Volumes change only through the daemon during a run. Someone turning a speaker up between cycles is not modelled, so the upper bound of `RunBounds` and the closed form of `RunConverges` hold for this closed world only. Each holds again from whatever volumes a new run starts with.
- `time()` and `sleep()` (lines 40, 50-51) are not modelled. Elapsed time is an integer input per cycle rather than a float. The sleep is computed but not performed.
- The unbounded `while` loop runs over a finite sequence of cycles. `OutOfCycles` means that the modelled cycles ran out, not that the daemon stops.
- The volume rule does not model any range limits the speaker itself puts on the value.
