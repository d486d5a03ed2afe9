/**
 The stop state of the TCP reactor: first signal starts a bounded drain, a second signal or
 the fixed deadline ends it. Split from TcpReactor so that session I/O can poll for a stop
 without touching the session table.
 */
module TcpStop {
  import opened TcpKernel

  datatype Operation = SendCall | SendZero | RecvCall | ShutdownCall | SocketErrorCall | SocketError
                     | EpollCtl | BackendSocket | ConnectCall

  datatype CloseReason = Drained | StopDrained | StopConnecting | StopDeadline | StopForced
                       | ServiceError | ConnectTimeout | IdleTimeout | Failure(operation: Operation)

  // Fatal stands for the exceptions that end the service, Failed for a SessionFailure.
  datatype Outcome = Ok | Failed(operation: Operation, error: nat) | Fatal

  // How polling a script of signals ends, with or without a drain under way: no stop and what is
  // left of the script, a stop, or the exception for a failing read.
  datatype PollEnd = NoStop(rest: seq<SignalOutcome>) | Stops | Breaks

  ghost function PollOf(signals: seq<SignalOutcome>, draining: bool): PollEnd {
    if signals == [] then if draining then Stops else NoStop([])
    else match signals[0]
      case StopSignal => if draining then Stops else PollOf(signals[1..], true)
      case NoSignal => if draining then Stops else NoStop(signals[1..])
      case SignalIntr => PollOf(signals[1..], draining)
      case SignalError(_) => Breaks
  }

  // How shutdown(SHUT_WR) ends, repeated while it is interrupted and polling finds no stop.
  datatype ShutdownEnd = ShutDone | ShutError(error: nat) | ShutInterrupted | ShutBroken

  ghost function ShutdownOf(codes: seq<nat>, signals: seq<SignalOutcome>): ShutdownEnd
    decreases |codes|
  {
    if codes == [] || codes[0] == 0 then ShutDone
    else if codes[0] != EINTR then ShutError(codes[0])
    else match PollOf(signals, false)
      case NoStop(rest) => ShutdownOf(codes[1..], rest)
      case Stops => ShutInterrupted
      case Breaks => ShutBroken
  }

  class StopControl {
    const kernel: Kernel
    const drainTimeout: nat
    var draining: bool
    var stopRequested: bool
    var drainDeadline: nat
    var stopReason: CloseReason
    var listenerOpen: bool
    var listenerDeferred: bool

    // The stop flags say exactly how many stop signals were consumed, and why a stop is final.
    ghost predicate Valid()
      reads this, kernel`stops, kernel`now, kernel`recvsAfterStop, kernel`acceptsAfterStop, kernel`listensAfterStop
    {
      && (draining <==> 0 < kernel.stops)
      && kernel.Quiet()
      && (stopRequested ==> draining)
      && (draining ==> !listenerOpen && !listenerDeferred)
      && (stopRequested ==> if kernel.stops == 1 then stopReason == StopDeadline && drainDeadline <= kernel.now
                            else kernel.stops == 2 && stopReason == StopForced)
      && (!stopRequested ==> kernel.stops <= 1)
      && (stopReason == StopDeadline || stopReason == StopForced)
    }

    // A stop never goes back, the deadline of the drain never moves, time passes, and until
    // the first stop the listener stays open.
    twostate predicate Moved()
      reads this, kernel
    {
      && old(kernel.now) <= kernel.now && |kernel.codes| <= old(|kernel.codes|) && old(kernel.faults) <= kernel.faults
      && (old(draining) ==> draining && drainDeadline == old(drainDeadline))
      && (!draining ==> listenerOpen == old(listenerOpen))
      && (old(stopRequested) ==> stopRequested && stopReason == old(stopReason))
    }

    // The same, and the listener was not backed off meanwhile.
    twostate predicate Advanced()
      reads this, kernel
    {
      Moved() && (listenerDeferred ==> old(listenerDeferred))
    }

    constructor (kernel: Kernel, drainTimeout: nat)
      requires kernel.stops == 0 && kernel.Quiet()
      ensures Valid() && !draining && listenerOpen && !listenerDeferred
      ensures this.kernel == kernel && this.drainTimeout == drainTimeout
    {
      this.kernel, this.drainTimeout := kernel, drainTimeout;
      draining, stopRequested, drainDeadline, stopReason := false, false, 0, StopDeadline;
      listenerOpen, listenerDeferred := true, false;
    }

    // The first stop signal: fix the deadline and retire the listener.
    method BeginDrain()
      requires kernel.stops == 1 && !draining && !stopRequested && kernel.Quiet()
      requires (stopReason == StopDeadline || stopReason == StopForced)
      modifies this, kernel`now, kernel`ticks, kernel`codes
      ensures Valid() && draining && !stopRequested
      ensures old(kernel.now) + drainTimeout <= drainDeadline == kernel.now + drainTimeout
      ensures |kernel.codes| <= old(|kernel.codes|)
      ensures kernel.codes == if old(listenerDeferred) || old(kernel.codes) == [] then old(kernel.codes) else old(kernel.codes)[1..]
    {
      var t := kernel.Now();
      draining, drainDeadline := true, t + drainTimeout;
      if !listenerDeferred {
        var detach := kernel.Code();  // a failed DEL is only reported
      }
      listenerOpen, listenerDeferred := false, false;
    }

    // Reads every pending signal. `stop` tells callers to start no new work.
    method ConsumeStopSignals() returns (stop: bool, out: Outcome)
      requires Valid()
      modifies this, kernel`now, kernel`ticks, kernel`codes, kernel`faults, kernel`signals, kernel`stops
      ensures Valid() && Advanced()
      ensures !out.Failed?
      ensures out.Ok? ==> stop == (draining || stopRequested)
      ensures out.Ok? && old(kernel.signals) != [] && old(kernel.signals[0]) == StopSignal ==> draining
      ensures !old(draining) && draining ==> old(kernel.now) + drainTimeout <= drainDeadline <= kernel.now + drainTimeout
      ensures out.Ok? && draining && drainDeadline <= old(kernel.now) ==> stopRequested
      ensures !old(draining) ==> match PollOf(old(kernel.signals), false)
                case NoStop(rest) => out.Ok? && !stop && kernel.signals == rest && kernel.codes == old(kernel.codes)
                case Stops => out.Ok? && stop
                case Breaks => out.Fatal?
      ensures kernel.faults == old(kernel.faults) + if out.Ok? then 0 else 1
      ensures out.Ok? ==> stop == draining
    {
      if stopRequested {
        return true, Ok;
      }
      ghost var first := true;
      while true
        invariant Valid() && Advanced() && !stopRequested && kernel.faults == old(kernel.faults)
        invariant !old(draining) && draining ==> old(kernel.now) + drainTimeout <= drainDeadline <= kernel.now + drainTimeout
        invariant first ==> kernel.signals == old(kernel.signals)
        invariant !old(draining) ==> PollOf(kernel.signals, draining) == PollOf(old(kernel.signals), false)
        invariant !draining ==> kernel.codes == old(kernel.codes)
        invariant !first && old(kernel.signals) != [] && old(kernel.signals[0]) == StopSignal ==> draining
        decreases |kernel.signals|
      {
        var r := kernel.ReadSignal();
        if r == StopSignal {
          if draining {
            stopRequested, stopReason := true, StopForced;
            return true, Ok;
          }
          BeginDrain();
        } else if r.NoSignal? {
          break;
        } else if r.SignalError? {
          return false, Fatal;
        }
        first := false;
      }
      if draining {
        var t := kernel.Now();
        if drainDeadline <= t {
          stopRequested, stopReason := true, StopDeadline;
        }
      }
      return draining || stopRequested, Ok;
    }

    // The clock read of the deadline scan, which also arms a backed-off listener whose time has
    // come.
    method ReadTimer(retryTime: nat) returns (now: nat, out: Outcome)
      requires Valid() && !draining
      modifies this`listenerDeferred, kernel`codes, kernel`faults, kernel`listensAfterStop, kernel`now, kernel`ticks
      ensures Valid() && Advanced() && now == kernel.now == old(kernel.NextNow()) && !out.Failed?
      ensures out.Ok? ==> listenerDeferred == (old(listenerDeferred) && now < retryTime)
      ensures !out.Ok? ==> listenerDeferred == old(listenerDeferred)
      ensures kernel.faults == old(kernel.faults) + if out.Ok? then 0 else 1
    {
      now := kernel.Now();
      if listenerDeferred && retryTime <= now {
        var code := kernel.ArmListener();
        if code != 0 {
          return now, Fatal;
        }
        listenerDeferred := false;
      }
      out := Ok;
    }

    // The accept backoff: the listener leaves the epoll set for a while.
    method DeferListener() returns (now: nat, out: Outcome)
      requires Valid() && !draining
      modifies this`listenerDeferred, kernel`codes, kernel`faults, kernel`now, kernel`ticks
      ensures Valid() && Moved() && !out.Failed? && now == kernel.now
      ensures listenerDeferred == (old(listenerDeferred) || out.Ok?)
      ensures kernel.faults == old(kernel.faults) + if out.Ok? then 0 else 1
    {
      var code := kernel.Call();
      now := kernel.Now();
      if code != 0 {
        return now, Fatal;
      }
      listenerDeferred := true;
      out := Ok;
    }
  }
}
