/** The shutdown guard of sonos-quiet (class GracefulInterruptHandler): a
    context manager that installs its own handler for one signal, raises an
    `interrupted` flag when that signal arrives, and puts the signal's
    previous disposition back exactly once. */
module ShutdownGuard {

  datatype Signal = SIGINT | SIGTERM

  /** What the process does with a signal: the default action, ignore it,
      run a handler that this model does not see, or run the guard's own
      handler. */
  datatype Disposition = Default | Ignore | Foreign(id: nat) | GuardHandler

  /** Who received a delivered signal. */
  datatype Receiver = Guard | Original(disposition: Disposition)

  class GracefulInterruptHandler {
    const sig: Signal
    /** The disposition currently installed for `sig` in the process. */
    var installed: Disposition
    /** False until the first `Enter`: before it, the three attributes below
        do not exist. */
    var entered: bool
    var interrupted: bool
    var released: bool
    var originalHandler: Disposition

    /** While the guard is held its handler is installed; once released, the
        disposition it recorded is back. A guard never entered has not
        installed anything. */
    ghost predicate Valid()
      reads this
    {
      if entered then installed == (if released then originalHandler else GuardHandler)
      else installed != GuardHandler
    }

    /** `GracefulInterruptHandler(sig)`, in a process whose disposition for
        `sig` is `current`; the signal is SIGINT unless another is given. */
    constructor (current: Disposition, sig: Signal := SIGINT)
      requires current != GuardHandler
      ensures this.sig == sig && installed == current && !entered
      ensures Valid()
    {
      this.sig := sig;
      installed := current;
      entered := false;
      interrupted := false;
      released := false;
      originalHandler := current;
    }

    /** `__enter__`: record the current disposition, install the guard's
        handler and start with both flags down. */
    method Enter()
      requires Valid()
      modifies this
      ensures entered && !interrupted && !released
      ensures originalHandler == old(installed) && installed == GuardHandler
      ensures Valid()
    {
      interrupted := false;
      released := false;
      originalHandler := installed;
      installed := GuardHandler;
      entered := true;
    }

    /** `release`: the first call puts the recorded disposition back and
        reports true; every later call reports false and changes nothing. */
    method Release() returns (didRelease: bool)
      requires entered && Valid()
      modifies this`installed, this`released
      ensures didRelease == !old(released)
      ensures released
      ensures !didRelease ==> installed == old(installed)
      ensures installed == originalHandler
      ensures Valid()
    {
      if released {
        return false;
      }
      installed := originalHandler;
      released := true;
      return true;
    }

    /** The inner `handler`: release first, then raise the flag, so that a
        signal arriving in between already finds the original disposition. */
    method Handler()
      requires entered && Valid()
      modifies this`installed, this`released, this`interrupted
      ensures interrupted && released
      ensures installed == originalHandler
      ensures Valid()
    {
      var _ := Release();
      interrupted := true;
    }

    /** `__exit__`: release, whether or not the signal ever arrived. */
    method Exit()
      requires entered && Valid()
      modifies this`installed, this`released
      ensures released && interrupted == old(interrupted)
      ensures installed == originalHandler
      ensures Valid()
    {
      var _ := Release();
    }

    /** Delivery of `sig` to the process: it runs the guard's handler if that
        is installed, and otherwise goes to the installed disposition, which
        does not touch the guard. */
    method Deliver() returns (r: Receiver)
      requires Valid()
      modifies this`installed, this`released, this`interrupted
      ensures r == if old(installed) == GuardHandler then Guard else Original(old(installed))
      ensures r == Guard ==> interrupted && released && installed == originalHandler
      ensures r != Guard ==>
                installed == old(installed) && released == old(released) &&
                interrupted == old(interrupted)
      ensures Valid()
    {
      if installed == GuardHandler {
        Handler();
        r := Guard;
      } else {
        r := Original(installed);
      }
    }
  }

  /** Two signals while the guard is held: the first runs the guard's
      handler, the second reaches the disposition the process had before. */
  method SignalTwice(sig: Signal, before: Disposition)
    returns (first: Receiver, second: Receiver, interrupted: bool, released: bool)
    requires before != GuardHandler
    ensures first == Guard && second == Original(before)
    ensures interrupted && released
  {
    var h := new GracefulInterruptHandler(before, sig);
    h.Enter();
    first := h.Deliver();
    second := h.Deliver();
    interrupted, released := h.interrupted, h.released;
  }

  /** Leaving the guard's scope, with or without a signal during it, restores
      the previous disposition; a `release` after that reports false. */
  method ExitThenReleaseAgain(sig: Signal, before: Disposition, signalled: bool)
    returns (installed: Disposition, interrupted: bool, again: bool)
    requires before != GuardHandler
    ensures installed == before
    ensures interrupted == signalled
    ensures !again
  {
    var h := new GracefulInterruptHandler(before, sig);
    h.Enter();
    if signalled {
      var _ := h.Deliver();
    }
    h.Exit();
    again := h.Release();
    installed, interrupted := h.installed, h.interrupted;
  }
}
