/**
  TracePolicy and TraceStopCoordinator as the plugin holds them: two objects whose methods update
  fields in place under one mutex. Each method is proved to move the abstract state exactly as the
  corresponding function of TraceModel does.
 */
module Trace {
  import M = TraceModel

  class TracePolicy {
    var id: string
    var mode: M.Mode
    var state: M.TraceState
    var reason: M.Reason
    var pendingReason: M.Reason
    var maxSteps: nat
    var stepsExecuted: nat
    var deadline: int
    var points: seq<nat>
    var modules: seq<M.ModuleRange>

    constructor ()
      ensures View() == M.IDLE_POLICY
    {
      id, mode, state := "", M.Into, M.Interrupted;
      reason, pendingReason := M.NoReason, M.NoReason;
      maxSteps, stepsExecuted, deadline := 0, 0, 0;
      points, modules := [], [];
    }

    ghost function View(): M.Policy
      reads this
    {
      M.Policy(id, mode, state, reason, pendingReason, maxSteps, stepsExecuted, deadline, points,
               modules)
    }

    predicate Active()
      reads this
      ensures Active() == View().Active()
    {
      state == M.Starting || state == M.Running
    }

    method Start(newId: string, newMode: M.Mode, newMaxSteps: nat, newDeadline: int,
                 initialAddress: nat, newModules: seq<M.ModuleRange>) returns (ok: bool)
      modifies this
      ensures ok == M.Startable(old(View()), newId, newMaxSteps, initialAddress)
      ensures ok ==> View() == M.Started(newId, newMode, newMaxSteps, newDeadline, initialAddress,
                                         newModules)
      ensures !ok ==> View() == old(View())
    {
      if newId == "" || Active() || newMaxSteps == 0 || newMaxSteps > M.MAX_STEPS ||
         initialAddress == 0 {
        return false;
      }
      id, mode, state := newId, newMode, M.Starting;
      reason, pendingReason := M.NoReason, M.NoReason;
      maxSteps, stepsExecuted, deadline := newMaxSteps, 0, newDeadline;
      points, modules := [initialAddress], newModules;
      return true;
    }

    method Submitted()
      modifies this
      ensures View() == M.MarkSubmitted(old(View()))
    {
      if state == M.Starting {
        state := M.Running;
      }
    }

    method OnStep(address: nat, nativeStop: bool, now: int) returns (stop: bool)
      modifies this
      ensures !old(View()).Active() ==> stop && View() == old(View())
      ensures old(View()).Active() ==>
                View() == M.StepPolicy(old(View()), address, nativeStop, now) &&
                stop == (View().pending != M.NoReason)
    {
      if !Active() {
        return true;
      }
      state := M.Running;
      if |points| < M.MAX_STEPS + 1 && |points| < maxSteps + 1 {
        points := points + [address];
      }
      if stepsExecuted < maxSteps {
        stepsExecuted := stepsExecuted + 1;
      }
      if pendingReason == M.NoReason && now >= deadline {
        pendingReason := M.Timeout;
      }
      if pendingReason == M.NoReason && stepsExecuted >= maxSteps {
        pendingReason := M.ReachedMaxSteps;
      }
      if pendingReason == M.NoReason && nativeStop {
        pendingReason := M.Interruption;
      }
      return pendingReason != M.NoReason;
    }

    method RequestStop(cause: M.Reason) returns (accepted: bool)
      modifies this
      ensures accepted == M.StopAccepted(old(View()), cause)
      ensures View() == M.RequestPolicy(old(View()), cause)
    {
      if !Active() || cause == M.NoReason {
        return false;
      }
      if pendingReason == M.NoReason ||
         (pendingReason == M.Timeout && cause == M.BackendShutdown) {
        pendingReason := cause;
      }
      return true;
    }

    method Finalize(fallback: M.Reason) returns (ended: bool)
      modifies this
      ensures ended == old(View()).Active()
      ensures View() == M.FinalizePolicy(old(View()), fallback)
    {
      if !Active() {
        return false;
      }
      reason := if pendingReason == M.NoReason then fallback else pendingReason;
      if reason == M.NoReason {
        reason := M.Interruption;
      }
      if reason == M.ReachedMaxSteps {
        state := M.Completed;
      } else if reason == M.CancelRequested {
        state := M.Cancelled;
      } else if reason == M.Timeout {
        state := M.TimedOut;
      } else {
        state := M.Interrupted;
      }
      pendingReason := M.NoReason;
      return true;
    }
  }

  class TraceStopCoordinator {
    var ticket: M.Ticket
    var processId: nat
    var threadId: nat
    var address: nat
    var requestedAt: int
    var fallback: M.Reason
    var submitted: bool
    var resumed: bool
    var requested: bool
    var cooperative: bool
    var paused: bool
    var exited: bool
    var interruptInFlight: bool
    var attempted: bool
    var issued: bool
    var consumed: bool
    var issueAbandoned: bool

    constructor ()
      ensures View() == M.INITIAL.c
    {
      ticket, processId := M.Ticket(0, 0), 0;
      threadId, address, requestedAt, fallback := 0, 0, 0, M.Interruption;
      submitted, resumed, requested, cooperative, paused, exited :=
        false, false, false, false, false, false;
      interruptInFlight, attempted, issued, consumed, issueAbandoned :=
        false, false, false, false, false;
    }

    ghost function View(): M.Coordinator
      reads this
    {
      M.Coordinator(ticket, processId,
                    M.Native(submitted, resumed, paused, exited),
                    M.StopRequest(requested, requestedAt, cooperative, fallback),
                    M.Helper(threadId, address, interruptInFlight, attempted, issued, consumed,
                             issueAbandoned))
    }

    ghost function Pair(trace: TracePolicy): M.System
      reads this, trace
    {
      M.System(trace.View(), View())
    }

    predicate Unresolved()
      reads this
    {
      issued && !consumed && !exited
    }

    method ClearFlags()
      modifies `submitted, `resumed, `requested, `cooperative, `paused, `exited,
               `interruptInFlight, `attempted, `issued, `consumed, `issueAbandoned
      ensures !submitted && !resumed && !requested && !cooperative && !paused && !exited
      ensures !interruptInFlight && !attempted && !issued && !consumed && !issueAbandoned
    {
      submitted, resumed, requested := false, false, false;
      cooperative, paused, exited := false, false, false;
      interruptInFlight, attempted, issued := false, false, false;
      consumed, issueAbandoned := false, false;
    }

    method Begin(processEpoch: nat, newProcessId: nat) returns (t: M.Ticket)
      modifies this
      ensures View() == M.BeginCoordinator(old(View()), processEpoch, newProcessId)
      ensures t == ticket
    {
      var serial := M.NextSerial(ticket.trace);
      ClearFlags();
      threadId, address, requestedAt, fallback := 0, 0, 0, M.Interruption;
      ticket, processId := M.Ticket(serial, processEpoch), newProcessId;
      return ticket;
    }

    method Finalize(trace: TracePolicy)
      modifies trace
      ensures Pair(trace) == M.FinalizeIfSettled(old(Pair(trace)))
    {
      if submitted && !interruptInFlight && (paused || exited) && !Unresolved() {
        var _ := trace.Finalize(fallback);
      }
    }

    method Submitted(trace: TracePolicy, t: M.Ticket, accepted: bool)
      modifies this, trace
      ensures Pair(trace) == M.Submit(old(Pair(trace)), t, accepted)
    {
      if t != ticket {
        return;
      }
      submitted := true;
      if accepted {
        trace.Submitted();
      } else if !resumed {
        paused := true;
      }
      Finalize(trace);
    }

    method Request(trace: TracePolicy, reason: M.Reason, now: int)
      modifies this, trace
      ensures Pair(trace) == M.RequestStop(old(Pair(trace)), reason, now)
    {
      var accepted := trace.RequestStop(reason);
      if !accepted {
        return;
      }
      if !requested {
        requested, requestedAt := true, now;
      }
    }

    method Step(trace: TracePolicy, stepAddress: nat, nativeStop: bool, now: int)
      returns (stopHere: bool)
      modifies this, trace
      ensures Pair(trace) == M.StepTrace(old(Pair(trace)), stepAddress, nativeStop, now)
      ensures stopHere == M.StepStops(old(Pair(trace)), stepAddress, nativeStop, now)
    {
      resumed := true;
      var stop := trace.OnStep(stepAddress, nativeStop, now);
      if issued {
        return nativeStop;
      }
      if stop {
        cooperative := true;
      }
      return stop;
    }

    function WakeAt(trace: TracePolicy): (t: int)
      reads this, trace
      ensures t == M.WakeAt(Pair(trace))
    {
      if !resumed || attempted || cooperative || paused || exited then M.CLOCK_MAX
      else if requested then requestedAt + M.COOPERATIVE_GRACE
      else trace.deadline
    }

    method Reserve(trace: TracePolicy, now: int) returns (reserved: bool, t: M.Ticket)
      modifies this, trace
      ensures Pair(trace) == M.Reserve(old(Pair(trace)), now)
      ensures reserved == M.Reservable(old(Pair(trace)), now)
      ensures t == ticket == old(ticket)
    {
      t := ticket;
      if !trace.Active() || exited {
        return false, t;
      }
      if now >= trace.deadline {
        Request(trace, M.Timeout, now);
      }
      if !requested || now < WakeAt(trace) || !resumed {
        return false, t;
      }
      attempted := true;
      interruptInFlight := true;
      return true, t;
    }

    method Issue(t: M.Ticket, newThreadId: nat, newAddress: nat) returns (ok: bool)
      modifies this
      ensures ok == M.Issuable(old(View()), t, newThreadId, newAddress)
      ensures View() == M.Issue(old(View()), t, newThreadId, newAddress)
    {
      if t != ticket || exited || !interruptInFlight || issued || issueAbandoned || cooperative ||
         paused || newThreadId == 0 || newAddress == 0 {
        return false;
      }
      threadId, address, issued := newThreadId, newAddress, true;
      return true;
    }

    method AbandonIssue(t: M.Ticket)
      modifies this
      ensures View() == M.AbandonIssue(old(View()), t)
    {
      if t == ticket && !exited && !issued {
        issueAbandoned := true;
      }
    }

    method FinishInterrupt(trace: TracePolicy, t: M.Ticket, safelyRetired: bool)
      modifies this, trace
      ensures Pair(trace) == M.FinishInterrupt(old(Pair(trace)), t, safelyRetired)
    {
      if t != ticket || !interruptInFlight {
        return;
      }
      interruptInFlight := false;
      if safelyRetired {
        issued := false;
      } else if !issued {
        issued := true;
      }
      Finalize(trace);
    }

    method ThreadCreated(processEpoch: nat, pid: nat, tid: nat, rawCreateThread: bool, at: nat)
      returns (ours: bool)
      modifies this
      ensures ours == M.Arrives(old(View()), processEpoch, pid, tid, rawCreateThread, at)
      ensures View() == if ours then M.Arrive(old(View())) else old(View())
    {
      if !issued || consumed || exited || ticket.process != processEpoch || processId != pid ||
         threadId != tid || !rawCreateThread || address != at {
        return false;
      }
      consumed := true;
      return true;
    }

    method Resumed()
      modifies this
      ensures View() == M.Resume(old(View()))
    {
      if paused && !submitted {
        return;
      }
      resumed, paused := true, false;
    }

    method PauseCommitted(trace: TracePolicy, newFallback: M.Reason)
      modifies this, trace
      ensures Pair(trace) == M.CommitPause(old(Pair(trace)), newFallback)
    {
      if exited {
        return;
      }
      paused, fallback := true, newFallback;
      Finalize(trace);
    }

    method ProcessExited(trace: TracePolicy)
      modifies this, trace
      ensures Pair(trace) == M.ExitProcess(old(Pair(trace)))
    {
      exited, fallback := true, M.ProcessExit;
      Finalize(trace);
    }
  }

  /** Admission as the runtime performs it: a successful start, then at once a new ticket. */
  method Admit(trace: TracePolicy, stop: TraceStopCoordinator, id: string, mode: M.Mode,
               maxSteps: nat, deadline: int, initialAddress: nat, modules: seq<M.ModuleRange>,
               processEpoch: nat, processId: nat) returns (ok: bool)
    modifies trace, stop
    ensures var e := M.Admit(id, mode, maxSteps, deadline, initialAddress, modules, processEpoch,
                             processId);
            ok == M.Succeeds(old(stop.Pair(trace)), e) &&
            stop.Pair(trace) == M.Apply(old(stop.Pair(trace)), e)
  {
    ok := trace.Start(id, mode, maxSteps, deadline, initialAddress, modules);
    if ok {
      var _ := stop.Begin(processEpoch, processId);
    }
  }
}
