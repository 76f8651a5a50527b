/**
  The trace stop protocol as values: what one admitted trace records (`Policy`), what its stop
  coordinator remembers (`Coordinator`), and how each event of plugin/src/trace_policy.cpp moves
  the pair. The classes of module Trace are proved against these functions, and module TraceRuns
  proves what whole event sequences keep.
 */
module TraceModel {

  const MAX_STEPS: nat := 4096

  // Clock readings and durations are nanoseconds of a steady clock.
  const COOPERATIVE_GRACE: int := 50_000_000
  const CLOCK_MAX: int := 0x7fff_ffff_ffff_ffff

  // Ticket serials are 64-bit and wrap around.
  const SERIAL_MODULUS: nat := 0x1_0000_0000_0000_0000

  datatype Mode = Into | Over

  datatype TraceState = Starting | Running | Completed | Cancelled | TimedOut | Interrupted

  datatype Reason =
    | NoReason
    | ReachedMaxSteps
    | CancelRequested
    | Timeout
    | Breakpoint
    | Exception
    | UserPause
    | ProcessExit
    | BackendShutdown
    | Interruption

  datatype ModuleRange = ModuleRange(base: nat, size: nat, name: string)

  datatype Ticket = Ticket(trace: nat, process: nat)

  /** The state of TracePolicy. */
  datatype Policy = Policy(
    id: string,
    mode: Mode,
    state: TraceState,
    reason: Reason,
    pending: Reason,
    maxSteps: nat,
    steps: nat,
    deadline: int,
    points: seq<nat>,
    modules: seq<ModuleRange>)
  {
    predicate Active() {
      state == Starting || state == Running
    }

    predicate Terminal() {
      id != "" && !Active()
    }
  }

  /** What the debuggee and the submitting call have reported. */
  datatype Native = Native(submitted: bool, resumed: bool, paused: bool, exited: bool)

  /** The first recorded stop request, the cooperative answer to it, and the latest pause kind. */
  datatype StopRequest = StopRequest(requested: bool, requestedAt: int, cooperative: bool,
                                     fallback: Reason)

  /** The interrupting helper thread, from its reservation to its arrival. */
  datatype Helper = Helper(threadId: nat, address: nat, inFlight: bool, attempted: bool,
                           issued: bool, consumed: bool, issueAbandoned: bool)

  /** The state of TraceStopCoordinator, its fields grouped by what they are about. */
  datatype Coordinator = Coordinator(
    ticket: Ticket,
    processId: nat,
    native: Native,
    stop: StopRequest,
    helper: Helper)
  {
    // A helper thread was released and nobody has seen it arrive yet.
    predicate Unresolved() {
      helper.issued && !helper.consumed && !native.exited
    }

    predicate LateResume() {
      native.paused && !native.submitted
    }

    predicate Current(t: Ticket) {
      t == ticket && !native.exited
    }

    predicate Settled() {
      native.submitted && !helper.inFlight && (native.paused || native.exited) && !Unresolved()
    }
  }

  datatype System = System(p: Policy, c: Coordinator)

  const IDLE_POLICY := Policy("", Into, Interrupted, NoReason, NoReason, 0, 0, 0, [], [])

  function FreshCoordinator(ticket: Ticket, processId: nat): Coordinator {
    Coordinator(ticket, processId, Native(false, false, false, false),
                StopRequest(false, 0, false, Interruption),
                Helper(0, 0, false, false, false, false, false))
  }

  const INITIAL := System(IDLE_POLICY, FreshCoordinator(Ticket(0, 0), 0))

  // ---- TracePolicy -------------------------------------------------------------------------

  predicate Startable(p: Policy, id: string, maxSteps: nat, initialAddress: nat) {
    id != "" && !p.Active() && 0 < maxSteps <= MAX_STEPS && initialAddress != 0
  }

  function Started(id: string, mode: Mode, maxSteps: nat, deadline: int, initialAddress: nat,
                   modules: seq<ModuleRange>): Policy
  {
    Policy(id, mode, Starting, NoReason, NoReason, maxSteps, 0, deadline, [initialAddress], modules)
  }

  function MarkSubmitted(p: Policy): Policy {
    if p.state == Starting then p.(state := Running) else p
  }

  function FirstOf(earlier: Reason, condition: bool, later: Reason): Reason {
    if earlier == NoReason && condition then later else earlier
  }

  function StepPolicy(p: Policy, address: nat, nativeStop: bool, now: int): Policy
    requires p.Active()
  {
    var points := if |p.points| < MAX_STEPS + 1 && |p.points| < p.maxSteps + 1
                  then p.points + [address] else p.points;
    var steps := if p.steps < p.maxSteps then p.steps + 1 else p.steps;
    var timed := FirstOf(p.pending, now >= p.deadline, Timeout);
    var counted := FirstOf(timed, steps >= p.maxSteps, ReachedMaxSteps);
    var pending := FirstOf(counted, nativeStop, Interruption);
    p.(state := Running, points := points, steps := steps, pending := pending)
  }

  predicate StopAccepted(p: Policy, reason: Reason) {
    p.Active() && reason != NoReason
  }

  function RequestPolicy(p: Policy, reason: Reason): Policy {
    if StopAccepted(p, reason) &&
       (p.pending == NoReason || (p.pending == Timeout && reason == BackendShutdown))
    then p.(pending := reason) else p
  }

  function EndState(reason: Reason): TraceState {
    match reason
    case ReachedMaxSteps => Completed
    case CancelRequested => Cancelled
    case Timeout => TimedOut
    case _ => Interrupted
  }

  function EndReason(pending: Reason, fallback: Reason): Reason {
    var chosen := if pending == NoReason then fallback else pending;
    if chosen == NoReason then Interruption else chosen
  }

  function FinalizePolicy(p: Policy, fallback: Reason): Policy {
    if !p.Active() then p
    else
      var reason := EndReason(p.pending, fallback);
      p.(reason := reason, state := EndState(reason), pending := NoReason)
  }

  // ---- TraceStopCoordinator ----------------------------------------------------------------

  function FinalizeIfSettled(s: System): System {
    if s.c.Settled() then s.(p := FinalizePolicy(s.p, s.c.stop.fallback)) else s
  }

  function NextSerial(serial: nat): nat {
    if serial + 1 == SERIAL_MODULUS then 0 else serial + 1
  }

  function BeginCoordinator(c: Coordinator, processEpoch: nat, processId: nat): Coordinator {
    FreshCoordinator(Ticket(NextSerial(c.ticket.trace), processEpoch), processId)
  }

  function Submit(s: System, ticket: Ticket, accepted: bool): System {
    if ticket != s.c.ticket then s
    else
      var c := s.c.(native := s.c.native.(submitted := true,
                       paused := s.c.native.paused || (!accepted && !s.c.native.resumed)));
      FinalizeIfSettled(System(if accepted then MarkSubmitted(s.p) else s.p, c))
  }

  function NoteRequest(c: Coordinator, now: int): Coordinator {
    if c.stop.requested then c
    else c.(stop := c.stop.(requested := true, requestedAt := now))
  }

  function RequestStop(s: System, reason: Reason, now: int): System {
    if !StopAccepted(s.p, reason) then s
    else
      System(RequestPolicy(s.p, reason),
             NoteRequest(s.c, now))
  }

  function StepTrace(s: System, address: nat, nativeStop: bool, now: int): System {
    var p := if s.p.Active() then StepPolicy(s.p, address, nativeStop, now) else s.p;
    var stop := !s.p.Active() || p.pending != NoReason;
    System(p, s.c.(native := s.c.native.(resumed := true),
                  stop := s.c.stop.(
                    cooperative := s.c.stop.cooperative || (!s.c.helper.issued && stop))))
  }

  /** What `Step` answers the debugger: whether to stop here. */
  function StepStops(s: System, address: nat, nativeStop: bool, now: int): bool {
    if s.c.helper.issued then nativeStop
    else !s.p.Active() || StepPolicy(s.p, address, nativeStop, now).pending != NoReason
  }

  function WakeAt(s: System): int {
    if !s.c.native.resumed || s.c.helper.attempted || s.c.stop.cooperative || s.c.native.paused ||
       s.c.native.exited then CLOCK_MAX
    else if s.c.stop.requested then s.c.stop.requestedAt + COOPERATIVE_GRACE
    else s.p.deadline
  }

  // The deadline check that `Reserve` makes before it decides.
  function NoteDeadline(s: System, now: int): System {
    if s.p.Active() && !s.c.native.exited && now >= s.p.deadline then RequestStop(s, Timeout, now) else s
  }

  predicate Reservable(s: System, now: int) {
    var noted := NoteDeadline(s, now);
    s.p.Active() && !s.c.native.exited && noted.c.stop.requested && now >= WakeAt(noted) &&
    noted.c.native.resumed
  }

  function Reserve(s: System, now: int): System {
    var noted := NoteDeadline(s, now);
    if Reservable(s, now) then noted.(c := noted.c.(
           helper := noted.c.helper.(attempted := true, inFlight := true))) else noted
  }

  predicate Issuable(c: Coordinator, ticket: Ticket, threadId: nat, address: nat) {
    c.Current(ticket) && c.helper.inFlight && !c.helper.issued && !c.helper.issueAbandoned &&
    !c.stop.cooperative && !c.native.paused && threadId != 0 && address != 0
  }

  function Issue(c: Coordinator, ticket: Ticket, threadId: nat, address: nat): Coordinator {
    if Issuable(c, ticket, threadId, address)
    then c.(helper := c.helper.(threadId := threadId, address := address, issued := true)) else c
  }

  function AbandonIssue(c: Coordinator, ticket: Ticket): Coordinator {
    if c.Current(ticket) && !c.helper.issued then c.(helper := c.helper.(issueAbandoned := true)) else c
  }

  predicate Finishable(c: Coordinator, ticket: Ticket) {
    ticket == c.ticket && c.helper.inFlight
  }

  // A retirement that failed counts as issued even when nothing was: fail closed.
  function Retire(c: Coordinator, safelyRetired: bool): Coordinator {
    c.(helper := c.helper.(inFlight := false, issued := !safelyRetired))
  }

  function FinishInterrupt(s: System, ticket: Ticket, safelyRetired: bool): System {
    if !Finishable(s.c, ticket) then s
    else FinalizeIfSettled(s.(c := Retire(s.c, safelyRetired)))
  }

  predicate Arrives(c: Coordinator, processEpoch: nat, processId: nat, threadId: nat,
                    rawCreateThread: bool, address: nat)
  {
    c.helper.issued && !c.helper.consumed && !c.native.exited && c.ticket.process == processEpoch &&
    c.processId == processId && c.helper.threadId == threadId && rawCreateThread &&
    c.helper.address == address
  }

  function Arrive(c: Coordinator): Coordinator {
    c.(helper := c.helper.(consumed := true))
  }

  function Resume(c: Coordinator): Coordinator {
    if c.LateResume() then c else c.(native := c.native.(resumed := true, paused := false))
  }

  function Pause(c: Coordinator, fallback: Reason): Coordinator {
    c.(native := c.native.(paused := true), stop := c.stop.(fallback := fallback))
  }

  function CommitPause(s: System, fallback: Reason): System {
    if s.c.native.exited then s
    else FinalizeIfSettled(s.(c := Pause(s.c, fallback)))
  }

  function Exit(c: Coordinator): Coordinator {
    c.(native := c.native.(exited := true), stop := c.stop.(fallback := ProcessExit))
  }

  function ExitProcess(s: System): System {
    FinalizeIfSettled(s.(c := Exit(s.c)))
  }

  // ---- Events ------------------------------------------------------------------------------

  /**
    Everything that can reach the pair under the trace mutex. `Admit` is a successful start
    followed at once by the coordinator's `Begin`.
   */
  datatype Event =
    | Admit(id: string, mode: Mode, maxSteps: nat, deadline: int, initialAddress: nat,
            modules: seq<ModuleRange>, processEpoch: nat, processId: nat)
    | Submitted(ticket: Ticket, accepted: bool)
    | Request(reason: Reason, now: int)
    | Step(stepAddress: nat, nativeStop: bool, now: int)
    | TryReserve(now: int)
    | TryIssue(ticket: Ticket, threadId: nat, address: nat)
    | GiveUpIssue(ticket: Ticket)
    | FinishHelper(ticket: Ticket, safelyRetired: bool)
    | ThreadCreated(processEpoch: nat, processId: nat, threadId: nat, raw: bool, address: nat)
    | Resumed
    | PauseCommitted(fallback: Reason)
    | ProcessExited

  function Apply(s: System, e: Event): System {
    match e
    case Admit(id, mode, maxSteps, deadline, initial, modules, epoch, pid) =>
      if Startable(s.p, id, maxSteps, initial)
      then System(Started(id, mode, maxSteps, deadline, initial, modules),
                  BeginCoordinator(s.c, epoch, pid))
      else s
    case Submitted(t, accepted) => Submit(s, t, accepted)
    case Request(reason, now) => RequestStop(s, reason, now)
    case Step(address, native, now) => StepTrace(s, address, native, now)
    case TryReserve(now) => Reserve(s, now)
    case TryIssue(t, tid, address) => s.(c := Issue(s.c, t, tid, address))
    case GiveUpIssue(t) => s.(c := AbandonIssue(s.c, t))
    case FinishHelper(t, safely) => FinishInterrupt(s, t, safely)
    case ThreadCreated(epoch, pid, tid, raw, address) =>
      if Arrives(s.c, epoch, pid, tid, raw, address) then s.(c := Arrive(s.c)) else s
    case Resumed => s.(c := Resume(s.c))
    case PauseCommitted(fallback) => CommitPause(s, fallback)
    case ProcessExited => ExitProcess(s)
  }

  /** Whether the event's call reports success (an admission, a reservation, a match). */
  predicate Succeeds(s: System, e: Event) {
    match e
    case Admit(id, _, maxSteps, _, initial, _, _, _) => Startable(s.p, id, maxSteps, initial)
    case Submitted(t, _) => t == s.c.ticket
    case Request(reason, _) => StopAccepted(s.p, reason)
    case Step(address, native, now) => StepStops(s, address, native, now)
    case TryReserve(now) => Reservable(s, now)
    case TryIssue(t, tid, address) => Issuable(s.c, t, tid, address)
    case GiveUpIssue(t) => s.c.Current(t) && !s.c.helper.issued
    case FinishHelper(t, _) => Finishable(s.c, t)
    case ThreadCreated(epoch, pid, tid, raw, address) => Arrives(s.c, epoch, pid, tid, raw, address)
    case Resumed => !s.c.LateResume()
    case PauseCommitted(_) => !s.c.native.exited
    case ProcessExited => true
  }
}
