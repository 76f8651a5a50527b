/**
  What every event sequence of the trace stop protocol keeps. A run is any finite sequence of
  events from the initial state; nothing is assumed about their order, tickets or arguments beyond
  what a lemma names.
 */
module TraceRuns {
  import opened TraceModel

  ghost function After(run: seq<Event>): System {
    if run == [] then INITIAL else Apply(After(run[..|run| - 1]), run[|run| - 1])
  }

  ghost function At(run: seq<Event>, i: nat): System
    requires i <= |run|
  {
    After(run[..i])
  }

  ghost predicate Happens(run: seq<Event>, i: nat) {
    i < |run| && Succeeds(At(run, i), run[i])
  }

  ghost predicate Admits(run: seq<Event>, i: nat) {
    Happens(run, i) && run[i].Admit?
  }

  lemma AtSucc(run: seq<Event>, i: nat)
    requires i < |run|
    ensures At(run, i + 1) == Apply(At(run, i), run[i])
  {
    assert run[..i + 1][..i] == run[..i];
  }

  lemma AtEnd(run: seq<Event>)
    ensures At(run, |run|) == After(run)
  {
    assert run[..|run|] == run;
  }

  predicate SucceedsAdmit(s: System, e: Event) {
    e.Admit? && Succeeds(s, e)
  }

  // ---- No interrupt survives the end of a trace ----------------------------------------------

  /** Holds in every reachable state. */
  ghost predicate Inv(s: System) {
    && (!s.p.Active() ==> !s.c.helper.inFlight && !s.c.Unresolved())
    && (s.c.helper.inFlight || s.c.helper.issued ==> s.c.helper.attempted)
    && (s.p.Active() ==> |s.p.points| == s.p.steps + 1 && s.p.steps <= s.p.maxSteps <= MAX_STEPS)
    && (s.p.Active() ==> s.p.id != "")
  }

  lemma InvStep(s: System, e: Event)
    requires Inv(s)
    ensures Inv(Apply(s, e))
  {
  }

  lemma {:induction false} InvAfter(run: seq<Event>)
    ensures Inv(After(run))
  {
    if run != [] {
      InvAfter(run[..|run| - 1]);
      InvStep(After(run[..|run| - 1]), run[|run| - 1]);
    }
  }

  /** No admission finds its predecessor's interrupt in flight or its helper unaccounted for. */
  lemma AdmissionFindsNoHelper(run: seq<Event>, i: nat)
    requires Admits(run, i)
    ensures !At(run, i).c.helper.inFlight && !At(run, i).c.Unresolved()
  {
    InvAfter(run[..i]);
  }

  // Only the finishing call itself takes an interrupt out of flight.
  lemma InterruptStep(s: System, e: Event)
    requires Inv(s) && s.c.helper.inFlight
    ensures Apply(s, e).c.helper.inFlight ==> Apply(s, e).c.ticket == s.c.ticket
    ensures !Apply(s, e).c.helper.inFlight ==> e.FinishHelper? && e.ticket == s.c.ticket && Succeeds(s, e)
  {
  }

  lemma {:induction false} InterruptEnds(run: seq<Event>, i: nat, j: nat) returns (k: nat)
    requires i <= j <= |run|
    requires At(run, i).c.helper.inFlight && !At(run, j).c.helper.inFlight
    ensures i <= k < j && Happens(run, k) && run[k].FinishHelper?
    ensures run[k].ticket == At(run, k).c.ticket == At(run, i).c.ticket
    decreases j - i
  {
    AtSucc(run, i);
    InvAfter(run[..i]);
    InterruptStep(At(run, i), run[i]);
    if At(run, i + 1).c.helper.inFlight {
      k := InterruptEnds(run, i + 1, j);
    } else {
      k := i;
    }
  }

  /**
    Between a reservation and the next admission the reserving call's own FinishInterrupt ran,
    with the reserved ticket.
   */
  lemma ReservationRetiredBeforeAdmission(run: seq<Event>, i: nat, j: nat) returns (k: nat)
    requires i < j && Happens(run, i) && run[i].TryReserve? && Admits(run, j)
    ensures i < k < j && Happens(run, k) && run[k].FinishHelper?
    ensures run[k].ticket == At(run, i).c.ticket
  {
    AtSucc(run, i);
    AdmissionFindsNoHelper(run, j);
    k := InterruptEnds(run, i + 1, j);
  }

  /** The three ways an issued helper is accounted for. */
  predicate AccountsForHelper(s: System, e: Event) {
    Succeeds(s, e) &&
    match e
    case ThreadCreated(_, _, _, _, _) => true
    case FinishHelper(_, safely) => safely
    case ProcessExited => true
    case _ => false
  }

  lemma HelperStep(s: System, e: Event)
    requires Inv(s) && s.c.Unresolved()
    ensures Apply(s, e).c.Unresolved() ==> Apply(s, e).c.ticket == s.c.ticket
    ensures !Apply(s, e).c.Unresolved() ==> AccountsForHelper(s, e)
  {
  }

  lemma {:induction false} HelperAccounted(run: seq<Event>, i: nat, j: nat) returns (k: nat)
    requires i <= j <= |run|
    requires At(run, i).c.Unresolved() && !At(run, j).c.Unresolved()
    ensures i <= k < j && AccountsForHelper(At(run, k), run[k])
    ensures At(run, k).c.ticket == At(run, i).c.ticket
    decreases j - i
  {
    AtSucc(run, i);
    InvAfter(run[..i]);
    HelperStep(At(run, i), run[i]);
    if At(run, i + 1).c.Unresolved() {
      k := HelperAccounted(run, i + 1, j);
    } else {
      k := i;
    }
  }

  /**
    Between an issued helper and the next admission the helper was seen to arrive, was safely
    retired, or its process exited.
   */
  lemma HelperAccountedBeforeAdmission(run: seq<Event>, i: nat, j: nat) returns (k: nat)
    requires Timely(run)
    requires i < j && Happens(run, i) && run[i].TryIssue? && Admits(run, j)
    ensures i < k < j && AccountsForHelper(At(run, k), run[k])
    ensures At(run, k).c.ticket == run[i].ticket
  {
    AtSucc(run, i);
    AdmissionFindsNoHelper(run, j);
    TimelyPrefix(run, i);
    SpentAfter(run[..i]);
    k := HelperAccounted(run, i + 1, j);
  }

  // ---- Every ticket is spent once ------------------------------------------------------------

  /** `Reserve` is never asked at the clock's last instant, which `WakeAt` uses for "never". */
  ghost predicate Timely(run: seq<Event>) {
    forall i | 0 <= i < |run| && run[i].TryReserve? :: run[i].now < CLOCK_MAX
  }

  lemma TimelyPrefix(run: seq<Event>, i: nat)
    requires Timely(run) && i <= |run|
    ensures Timely(run[..i])
  {
  }

  // A reservation that is over, or an issued helper, uses the ticket's one issue up.
  predicate IssueSpent(c: Coordinator) {
    c.helper.issued || (c.helper.attempted && !c.helper.inFlight)
  }

  predicate Spent(c: Coordinator) {
    && (c.helper.consumed ==> c.helper.attempted && IssueSpent(c))
    && (!IssueSpent(c) ==> c.helper.threadId == 0)
  }

  predicate TimelyEvent(e: Event) {
    e.TryReserve? ==> e.now < CLOCK_MAX
  }

  lemma SpentStep(s: System, e: Event)
    requires Inv(s) && Spent(s.c) && TimelyEvent(e)
    ensures Spent(Apply(s, e).c)
  {
  }

  lemma {:induction false} SpentAfter(run: seq<Event>)
    requires Timely(run)
    ensures Spent(After(run).c)
  {
    if run != [] {
      var before := run[..|run| - 1];
      SpentAfter(before);
      InvAfter(before);
      SpentStep(After(before), run[|run| - 1]);
    }
  }

  /** How many admissions succeeded. */
  ghost function Admissions(run: seq<Event>): nat {
    if run == [] then 0
    else
      Admissions(run[..|run| - 1]) + if Admits(run, |run| - 1) then 1 else 0
  }

  lemma {:induction false} SerialCountsAdmissions(run: seq<Event>)
    ensures After(run).c.ticket.trace == Admissions(run) % 0x1_0000_0000_0000_0000
    ensures Admissions(run) <= |run|
  {
    if run != [] {
      var last := |run| - 1;
      SerialCountsAdmissions(run[..last]);
      TicketStep(After(run[..last]), run[last]);
    }
  }

  lemma TicketStep(s: System, e: Event)
    ensures Apply(s, e).c.ticket.trace ==
            if SucceedsAdmit(s, e) then NextSerial(s.c.ticket.trace) else s.c.ticket.trace
    ensures !SucceedsAdmit(s, e) ==> Apply(s, e).c.ticket == s.c.ticket
  {
  }

  // What one ticket has used up stays used up.
  predicate Uses(earlier: Coordinator, later: Coordinator) {
    && (earlier.helper.attempted ==> later.helper.attempted)
    && (IssueSpent(earlier) ==> IssueSpent(later))
    && (earlier.helper.consumed ==> later.helper.consumed)
    && (earlier.stop.requested ==> later.stop.requested && later.stop.requestedAt == earlier.stop.requestedAt)
    && (earlier.native.exited ==> later.native.exited)
  }

  lemma UsesStep(s: System, e: Event)
    requires Inv(s) && TimelyEvent(e) && !SucceedsAdmit(s, e)
    ensures Uses(s.c, Apply(s, e).c)
  {
  }

  /** Ticket serials never go back, and while a ticket stays current its uses only accumulate. */
  lemma {:induction false} TicketsAccumulate(run: seq<Event>, i: nat, j: nat)
    requires Timely(run) && |run| < SERIAL_MODULUS && i <= j <= |run|
    ensures At(run, i).c.ticket.trace <= At(run, j).c.ticket.trace
    ensures At(run, i).c.ticket.trace == At(run, j).c.ticket.trace ==>
              At(run, i).c.ticket == At(run, j).c.ticket && Uses(At(run, i).c, At(run, j).c)
    decreases j - i
  {
    if i < j {
      TicketsAccumulate(run, i, j - 1);
      var s, e := At(run, j - 1), run[j - 1];
      AtSucc(run, j - 1);
      InvAfter(run[..j - 1]);
      SerialCountsAdmissions(run[..j - 1]);
      TicketStep(s, e);
      if !SucceedsAdmit(s, e) {
        UsesStep(s, e);
      }
    }
  }

  /** The events that spend something of the current ticket. */
  predicate Spends(e: Event) {
    e.TryReserve? || e.TryIssue? || e.ThreadCreated?
  }

  predicate SameKind(e: Event, f: Event) {
    (e.TryReserve? && f.TryReserve?) || (e.TryIssue? && f.TryIssue?) ||
    (e.ThreadCreated? && f.ThreadCreated?)
  }

  lemma SpendStep(s: System, e: Event)
    requires Inv(s) && Spends(e) && Succeeds(s, e) && TimelyEvent(e)
    ensures var c := Apply(s, e).c;
            c.ticket == s.c.ticket &&
            (e.TryReserve? ==> !s.c.helper.attempted && c.helper.attempted) &&
            (e.TryIssue? ==> !IssueSpent(s.c) && IssueSpent(c)) &&
            (e.ThreadCreated? ==> !s.c.helper.consumed && c.helper.consumed)
  {
    match e {
      case TryReserve(now) =>
        var noted := NoteDeadline(s, now);
        assert noted.c.helper.attempted == s.c.helper.attempted && noted.c.ticket == s.c.ticket;
      case TryIssue(_, _, _) =>
      case ThreadCreated(_, _, _, _, _) =>
    }
  }

  /** Per ticket, at most one reservation, one issue and one arrival succeed. */
  lemma OncePerTicket(run: seq<Event>, i: nat, j: nat)
    requires Timely(run) && |run| < SERIAL_MODULUS && i < j
    requires Happens(run, i) && Happens(run, j) && SameKind(run[i], run[j])
    ensures At(run, i).c.ticket.trace < At(run, j).c.ticket.trace
  {
    InvAfter(run[..i]);
    InvAfter(run[..j]);
    SpendStep(At(run, i), run[i]);
    SpendStep(At(run, j), run[j]);
    AtSucc(run, i);
    TicketsAccumulate(run, i + 1, j);
  }

  /** An event carrying a ticket that an admission has since replaced changes nothing. */
  lemma StaleTicketIsInert(run: seq<Event>, i: nat, j: nat)
    requires Timely(run) && |run| < SERIAL_MODULUS && i <= j < |run|
    requires At(run, i).c.ticket.trace < At(run, j).c.ticket.trace
    requires run[j].Submitted? || run[j].TryIssue? || run[j].GiveUpIssue? || run[j].FinishHelper?
    requires run[j].ticket == At(run, i).c.ticket
    ensures At(run, j + 1) == At(run, j)
  {
    AtSucc(run, j);
  }

  /** The event records the first stop request of its ticket. */
  ghost predicate RecordsRequest(run: seq<Event>, k: nat) {
    k < |run| && !At(run, k).c.stop.requested && At(run, k + 1).c.stop.requested
  }

  lemma RequestStep(s: System, e: Event)
    requires Apply(s, e).c.stop.requested && !s.c.stop.requested
    ensures !e.Admit? && (e.Request? || e.TryReserve?) && Apply(s, e).c.stop.requestedAt == e.now
  {
  }

  lemma {:induction false} RequestRecorded(run: seq<Event>, j: nat) returns (k: nat)
    requires Timely(run) && |run| < SERIAL_MODULUS && j <= |run| && At(run, j).c.stop.requested
    ensures k < j && RecordsRequest(run, k)
    ensures At(run, k).c.ticket == At(run, j).c.ticket
    ensures run[k].Request? || run[k].TryReserve?
    ensures run[k].now == At(run, j).c.stop.requestedAt
  {
    var s, e := At(run, j - 1), run[j - 1];
    AtSucc(run, j - 1);
    TicketStep(s, e);
    if s.c.stop.requested {
      InvAfter(run[..j - 1]);
      UsesStep(s, e);
      k := RequestRecorded(run, j - 1);
    } else {
      RequestStep(s, e);
      k := j - 1;
    }
  }

  /**
    A helper is reserved only after the cooperative grace: the reserving ticket's first recorded
    stop request (by cancellation, shutdown or the deadline) is at least 50 ms old.
   */
  lemma ReserveAfterGrace(run: seq<Event>, j: nat) returns (k: nat)
    requires Timely(run) && |run| < SERIAL_MODULUS
    requires Happens(run, j) && run[j].TryReserve?
    ensures k < j && RecordsRequest(run, k) && At(run, k).c.ticket == At(run, j).c.ticket
    ensures run[k].Request? || run[k].TryReserve?
    ensures run[k].now + COOPERATIVE_GRACE <= run[j].now
  {
    assert At(run, j).c.stop.requested;
    k := RequestRecorded(run, j);
  }

  // ---- No stuck trace, and fail-closed -------------------------------------------------------

  /** A settled coordinator has ended its trace. */
  predicate Ended(s: System) {
    s.c.Settled() ==> !s.p.Active()
  }

  /** The one call that settles the coordinator without ending the trace. */
  predicate ArrivesLate(s: System, e: Event) {
    e.ThreadCreated? && Succeeds(s, e) &&
    s.p.Active() && s.c.native.submitted && !s.c.helper.inFlight && s.c.native.paused
  }

  /** Exactly one kind of event leaves a settled trace active: an arrival that comes while paused. */
  lemma EndedStep(s: System, e: Event)
    requires Inv(s) && Ended(s)
    ensures Ended(Apply(s, e)) <==> !ArrivesLate(s, e)
  {
  }

  lemma {:induction false} NoStuckTrace(run: seq<Event>)
    requires forall i | 0 <= i < |run| :: !ArrivesLate(At(run, i), run[i])
    ensures Ended(After(run))
  {
    if run != [] {
      var last := |run| - 1;
      var before := run[..last];
      forall i | 0 <= i < last ensures !ArrivesLate(At(before, i), before[i]) {
        assert before[..i] == run[..i];
        assert !ArrivesLate(At(run, i), run[i]);
      }
      NoStuckTrace(before);
      InvAfter(before);
      assert !ArrivesLate(At(run, last), run[last]);
      EndedStep(After(before), run[last]);
    }
  }

  /** What lets such a trace end or run on. */
  predicate Releases(s: System, e: Event) {
    e.Resumed? || e.PauseCommitted? || e.ProcessExited? || (e.Submitted? && e.ticket == s.c.ticket)
  }

  lemma StuckStep(s: System, e: Event)
    requires Inv(s) && !Ended(s) && !s.c.native.exited && TimelyEvent(e)
    ensures Ended(Apply(s, e)) <==> Releases(s, e)
  {
  }

  ghost predicate LateAt(run: seq<Event>, i: nat) {
    i < |run| && ArrivesLate(At(run, i), run[i])
  }

  ghost predicate ReleasedAt(run: seq<Event>, i: nat) {
    i < |run| && Releases(At(run, i), run[i])
  }

  ghost predicate StuckSince(run: seq<Event>, i: nat) {
    LateAt(run, i) && forall k | i < k < |run| :: !ReleasedAt(run, k)
  }

  /** A late arrival that nothing has released since. */
  ghost predicate Stuck(run: seq<Event>) {
    exists i: nat :: StuckSince(run, i)
  }

  lemma SameBefore(run: seq<Event>, n: nat, i: nat)
    requires i < n <= |run|
    ensures LateAt(run[..n], i) == LateAt(run, i)
    ensures ReleasedAt(run[..n], i) == ReleasedAt(run, i)
  {
    assert run[..n][..i] == run[..i];
  }

  lemma StuckSinceExtends(run: seq<Event>, i: nat)
    requires i < |run| - 1
    ensures var last := |run| - 1;
            StuckSince(run, i) <==> StuckSince(run[..last], i) && !ReleasedAt(run, last)
  {
    var last := |run| - 1;
    forall k: nat | k < last
      ensures LateAt(run[..last], k) == LateAt(run, k)
      ensures ReleasedAt(run[..last], k) == ReleasedAt(run, k)
    {
      SameBefore(run, last, k);
    }
  }

  lemma StuckExtends(run: seq<Event>)
    requires run != []
    ensures var last := |run| - 1;
            Stuck(run) <==> LateAt(run, last) || (Stuck(run[..last]) && !ReleasedAt(run, last))
  {
    var last := |run| - 1;
    if Stuck(run) {
      var i: nat :| StuckSince(run, i);
      if i < last {
        StuckSinceExtends(run, i);
      }
    }
    if LateAt(run, last) {
      assert StuckSince(run, last);
    }
    if Stuck(run[..last]) {
      var i: nat :| StuckSince(run[..last], i);
      StuckSinceExtends(run, i);
    }
  }

  /** Exactly when a settled trace is still active. */
  lemma {:induction false} StuckExactly(run: seq<Event>)
    requires Timely(run)
    ensures !Ended(After(run)) <==> Stuck(run)
  {
    if run != [] {
      var last := |run| - 1;
      var s := After(run[..last]);
      StuckExactly(run[..last]);
      StuckExtends(run);
      InvAfter(run[..last]);
      if Ended(s) {
        EndedStep(s, run[last]);
      } else {
        ExitedTraceEnds(run[..last]);
        StuckStep(s, run[last]);
      }
    }
  }

  /** After the process exited there is no such exception. */
  lemma {:induction false} ExitedTraceEnds(run: seq<Event>)
    ensures var s := After(run);
            s.c.native.submitted && !s.c.helper.inFlight && s.c.native.exited ==> !s.p.Active()
  {
    if run != [] {
      ExitedTraceEnds(run[..|run| - 1]);
      InvAfter(run[..|run| - 1]);
      ExitedStep(After(run[..|run| - 1]), run[|run| - 1]);
    }
  }

  lemma ExitedStep(s: System, e: Event)
    requires Inv(s) && (s.c.native.submitted && !s.c.helper.inFlight && s.c.native.exited ==> !s.p.Active())
    ensures var t := Apply(s, e);
            t.c.native.submitted && !t.c.helper.inFlight && t.c.native.exited ==> !t.p.Active()
  {
  }

  const EXAMPLE_TICKET := Ticket(1, 7)

  /** The late arrival does occur: this run settles the coordinator and leaves the trace active. */
  const LATE_ARRIVAL: seq<Event> := [
    Admit("trace", Over, 10, 1_000_000_000, 1, [], 7, 42),
    Resumed,
    Submitted(EXAMPLE_TICKET, true),
    Request(CancelRequested, 0),
    TryReserve(50_000_000),
    TryIssue(EXAMPLE_TICKET, 99, 2),
    FinishHelper(EXAMPLE_TICKET, false),
    PauseCommitted(Breakpoint),
    ThreadCreated(7, 42, 99, true, 2)]

  // The run one event longer.
  lemma LateArrivalAt(i: nat)
    requires i < |LATE_ARRIVAL|
    ensures At(LATE_ARRIVAL, i + 1) == Apply(At(LATE_ARRIVAL, i), LATE_ARRIVAL[i])
  {
    AtSucc(LATE_ARRIVAL, i);
  }

  // The first three events of the run.
  lemma LateArrivalBegins() returns (p: Policy)
    ensures At(LATE_ARRIVAL, 3) ==
            System(p, FreshCoordinator(EXAMPLE_TICKET, 42).(
                        native := Native(true, true, false, false)))
    ensures p.state == Running && p.pending == NoReason && p.deadline == 1_000_000_000
  {
    var c := FreshCoordinator(EXAMPLE_TICKET, 42);
    LateArrivalAt(0);
    assert At(LATE_ARRIVAL, 1).c == c;
    LateArrivalAt(1);
    c := c.(native := c.native.(resumed := true));
    p := At(LATE_ARRIVAL, 1).p;
    assert At(LATE_ARRIVAL, 2) == System(p, c);
    LateArrivalAt(2);
    p := p.(state := Running);
  }

  lemma LateArrivalIsStuck()
    ensures !Ended(After(LATE_ARRIVAL))
  {
    var p := LateArrivalBegins();
    var c := At(LATE_ARRIVAL, 3).c;
    LateArrivalAt(3);
    c := c.(stop := c.stop.(requested := true));
    p := p.(pending := CancelRequested);
    assert At(LATE_ARRIVAL, 4) == System(p, c);
    LateArrivalAt(4);
    c := c.(helper := c.helper.(attempted := true, inFlight := true));
    assert At(LATE_ARRIVAL, 5) == System(p, c);
    LateArrivalRest(c);
  }

  lemma LateArrivalRest(d: Coordinator)
    requires d == FreshCoordinator(EXAMPLE_TICKET, 42).(
                    native := Native(true, true, false, false),
                    stop := StopRequest(true, 0, false, Interruption),
                    helper := Helper(0, 0, true, true, false, false, false))
    requires At(LATE_ARRIVAL, 5).c == d && At(LATE_ARRIVAL, 5).p.Active()
    ensures !Ended(After(LATE_ARRIVAL))
  {
    var p, c := At(LATE_ARRIVAL, 5).p, d;
    LateArrivalAt(5);
    c := c.(helper := c.helper.(issued := true, threadId := 99, address := 2));
    assert At(LATE_ARRIVAL, 6) == System(p, c);
    LateArrivalAt(6);
    c := Retire(c, false);
    assert At(LATE_ARRIVAL, 7) == System(p, c);
    LateArrivalAt(7);
    c := Pause(c, Breakpoint);
    assert At(LATE_ARRIVAL, 8) == System(p, c);
    LateArrivalAt(8);
    AtEnd(LATE_ARRIVAL);
  }

  /** Fail closed: a helper whose retirement failed before it was ever issued. */
  predicate Poisoned(s: System) {
    s.p.Active() && s.c.Unresolved() && !s.c.helper.inFlight && s.c.helper.attempted &&
    s.c.helper.threadId == 0
  }

  lemma PoisonedStep(s: System, e: Event)
    requires Poisoned(s) && TimelyEvent(e) && !e.ProcessExited?
    requires e.ThreadCreated? ==> e.threadId != 0
    ensures Poisoned(Apply(s, e)) && Apply(s, e).c.ticket == s.c.ticket
  {
  }

  /**
    From there on every event short of process exit, thread arrivals with real (nonzero) thread
    ids included, keeps the trace active and so keeps every admission out.
   */
  lemma {:induction false} FailsClosed(run: seq<Event>, i: nat, j: nat)
    requires Timely(run) && i <= j <= |run| && Poisoned(At(run, i))
    requires forall k | i <= k < j ::
               !run[k].ProcessExited? && (run[k].ThreadCreated? ==> run[k].threadId != 0)
    ensures Poisoned(At(run, j))
    decreases j - i
  {
    if i < j {
      FailsClosed(run, i, j - 1);
      AtSucc(run, j - 1);
      PoisonedStep(At(run, j - 1), run[j - 1]);
    }
  }

  /** Entering that state: a failed retirement of a helper that was never issued, before exit. */
  lemma FailedRetirementFailsClosed(run: seq<Event>, i: nat, j: nat)
    requires Timely(run) && i < j <= |run| && Happens(run, i)
    requires run[i].FinishHelper? && !run[i].safelyRetired
    requires !At(run, i).c.helper.issued && !At(run, i).c.native.exited
    requires forall k | i < k < j ::
               !run[k].ProcessExited? && (run[k].ThreadCreated? ==> run[k].threadId != 0)
    ensures At(run, j).p.Active() && At(run, j).c.Unresolved()
  {
    AtSucc(run, i);
    InvAfter(run[..i]);
    TimelyPrefix(run, i);
    SpentAfter(run[..i]);
    FailsClosed(run, i + 1, j);
  }
}
