/**
  Where the coordinator's fields come from: each of its flags is raised and lowered by certain events
  since the latest admission, and each right is granted under certain flags.
 */
module TraceHistory {
  import opened TraceModel
  import opened TraceRuns

  // ---- Flags ---------------------------------------------------------------------------------

  /** Since the latest admission something raised the flag, and nothing has lowered it after that. */
  ghost predicate Raised(run: seq<Event>, raises: (System, Event) -> bool,
                         lowers: (System, Event) -> bool)
  {
    run != [] &&
    var last := |run| - 1;
    var s, e := After(run[..last]), run[last];
    !Admits(run, last) && (raises(s, e) || (!lowers(s, e) && Raised(run[..last], raises, lowers)))
  }

  predicate Never(s: System, e: Event) {
    false
  }

  predicate Submits(s: System, e: Event) {
    e.Submitted? && e.ticket == s.c.ticket
  }

  // A resume that comes after a pause, but before the submission has returned, is that pause's own.
  predicate Resumes(s: System, e: Event) {
    e.Step? || (e.Resumed? && (s.c.native.paused ==> s.c.native.submitted))
  }

  /** A pause, or a rejected submission of which nothing was ever resumed. */
  predicate Pauses(s: System, e: Event) {
    || (e.PauseCommitted? && !s.c.native.exited)
    || (Submits(s, e) && !e.accepted && !s.c.native.resumed)
  }

  predicate Unpauses(s: System, e: Event) {
    e.Resumed? && s.c.native.submitted
  }

  predicate Exits(s: System, e: Event) {
    e.ProcessExited?
  }

  /** A cause while the trace is active; the deadline counts when a reservation finds it passed. */
  predicate Requests(s: System, e: Event) {
    s.p.Active() &&
    ((e.Request? && e.reason != NoReason) ||
     (e.TryReserve? && !s.c.native.exited && e.now >= s.p.deadline))
  }

  predicate Cooperates(s: System, e: Event) {
    e.Step? && !s.c.helper.issued && Succeeds(s, e)
  }

  predicate Reserves(s: System, e: Event) {
    e.TryReserve? && Succeeds(s, e)
  }

  predicate Retires(s: System, e: Event) {
    e.FinishHelper? && e.ticket == s.c.ticket && s.c.helper.inFlight
  }

  /** An issue, or a retirement that was not safe. */
  predicate Issues(s: System, e: Event) {
    (e.TryIssue? && Succeeds(s, e)) || (Retires(s, e) && !e.safelyRetired)
  }

  predicate RetiresSafely(s: System, e: Event) {
    Retires(s, e) && e.safelyRetired
  }

  predicate Arriving(s: System, e: Event) {
    e.ThreadCreated? && Succeeds(s, e)
  }

  predicate GivesUp(s: System, e: Event) {
    e.GiveUpIssue? && e.ticket == s.c.ticket && !s.c.native.exited && !s.c.helper.issued
  }

  /** The helper thread and address of the latest issue since the admission. */
  ghost function IssuedHelper(run: seq<Event>): (nat, nat) {
    if run == [] then (0, 0)
    else
      var last := |run| - 1;
      var e := run[last];
      if Admits(run, last) then (0, 0)
      else if e.TryIssue? && Happens(run, last) then (e.threadId, e.address)
      else IssuedHelper(run[..last])
  }

  ghost predicate NativeHistory(run: seq<Event>) {
    var native := After(run).c.native;
    && (native.submitted <==> Raised(run, Submits, Never))
    && (native.resumed <==> Raised(run, Resumes, Never))
    && (native.paused <==> Raised(run, Pauses, Unpauses))
    && (native.exited <==> Raised(run, Exits, Never))
  }

  ghost predicate StopHistory(run: seq<Event>) {
    var stop := After(run).c.stop;
    && (stop.requested <==> Raised(run, Requests, Never))
    && (stop.cooperative <==> Raised(run, Cooperates, Never))
  }

  ghost predicate HelperHistory(run: seq<Event>) {
    var helper := After(run).c.helper;
    && (helper.attempted <==> Raised(run, Reserves, Never))
    && (helper.inFlight <==> Raised(run, Reserves, Retires))
    && (helper.issued <==> Raised(run, Issues, RetiresSafely))
    && (helper.consumed <==> Raised(run, Arriving, Never))
    && (helper.issueAbandoned <==> Raised(run, GivesUp, Never))
    && (helper.threadId, helper.address) == IssuedHelper(run)
  }

  /** A flag after one event, by what raises and lowers it. */
  predicate Moves(flag: bool, after: bool, s: System, e: Event, raises: (System, Event) -> bool,
                  lowers: (System, Event) -> bool)
  {
    after <==> !SucceedsAdmit(s, e) && (raises(s, e) || (!lowers(s, e) && flag))
  }

  lemma NativeStep(s: System, e: Event)
    ensures var before, after := s.c.native, Apply(s, e).c.native;
            && Moves(before.submitted, after.submitted, s, e, Submits, Never)
            && Moves(before.resumed, after.resumed, s, e, Resumes, Never)
            && Moves(before.exited, after.exited, s, e, Exits, Never)
  {}

  lemma PausedStep(s: System, e: Event)
    ensures Moves(s.c.native.paused, Apply(s, e).c.native.paused, s, e, Pauses, Unpauses)
  {}

  lemma StopStep(s: System, e: Event)
    ensures var before, after := s.c.stop, Apply(s, e).c.stop;
            && Moves(before.requested, after.requested, s, e, Requests, Never)
            && Moves(before.cooperative, after.cooperative, s, e, Cooperates, Never)
  {}

  lemma HelperStep(s: System, e: Event)
    ensures var before, after := s.c.helper, Apply(s, e).c.helper;
            && Moves(before.attempted, after.attempted, s, e, Reserves, Never)
            && Moves(before.inFlight, after.inFlight, s, e, Reserves, Retires)
            && Moves(before.issueAbandoned, after.issueAbandoned, s, e, GivesUp, Never)
  {}

  lemma IssueStep(s: System, e: Event)
    ensures var before, after := s.c.helper, Apply(s, e).c.helper;
            && Moves(before.issued, after.issued, s, e, Issues, RetiresSafely)
            && Moves(before.consumed, after.consumed, s, e, Arriving, Never)
  {}

  lemma IssuedStep(s: System, e: Event)
    ensures var before, after := s.c.helper, Apply(s, e).c.helper;
            (after.threadId, after.address) ==
            if SucceedsAdmit(s, e) then (0, 0)
            else if e.TryIssue? && Succeeds(s, e) then (e.threadId, e.address)
            else (before.threadId, before.address)
  {}

  lemma RaisedStep(run: seq<Event>, flag: bool, after: bool, raises: (System, Event) -> bool,
                   lowers: (System, Event) -> bool)
    requires run != []
    requires flag <==> Raised(run[..|run| - 1], raises, lowers)
    requires Moves(flag, after, After(run[..|run| - 1]), run[|run| - 1], raises, lowers)
    ensures after <==> Raised(run, raises, lowers)
  {
    hide After, Succeeds;
  }

  lemma NativeAfter(run: seq<Event>)
    requires run != [] && NativeHistory(run[..|run| - 1])
    ensures NativeHistory(run)
  {
    hide Apply, Moves, Raised, Submits, Resumes, Pauses, Unpauses, Exits;
    var before, after := After(run[..|run| - 1]).c.native, After(run).c.native;
    NativeStep(After(run[..|run| - 1]), run[|run| - 1]);
    PausedStep(After(run[..|run| - 1]), run[|run| - 1]);
    RaisedStep(run, before.submitted, after.submitted, Submits, Never);
    RaisedStep(run, before.resumed, after.resumed, Resumes, Never);
    RaisedStep(run, before.paused, after.paused, Pauses, Unpauses);
    RaisedStep(run, before.exited, after.exited, Exits, Never);
  }

  lemma StopAfter(run: seq<Event>)
    requires run != [] && StopHistory(run[..|run| - 1])
    ensures StopHistory(run)
  {
    hide Apply, Moves, Raised, Requests, Cooperates;
    var before, after := After(run[..|run| - 1]).c.stop, After(run).c.stop;
    StopStep(After(run[..|run| - 1]), run[|run| - 1]);
    RaisedStep(run, before.requested, after.requested, Requests, Never);
    RaisedStep(run, before.cooperative, after.cooperative, Cooperates, Never);
  }

  lemma HelperAfter(run: seq<Event>)
    requires run != [] && HelperHistory(run[..|run| - 1])
    ensures HelperHistory(run)
  {
    hide Apply, Moves, Raised, Reserves, Retires, Issues, RetiresSafely, Arriving, GivesUp, Succeeds;
    var before, after := After(run[..|run| - 1]).c.helper, After(run).c.helper;
    HelperStep(After(run[..|run| - 1]), run[|run| - 1]);
    IssueStep(After(run[..|run| - 1]), run[|run| - 1]);
    IssuedStep(After(run[..|run| - 1]), run[|run| - 1]);
    RaisedStep(run, before.attempted, after.attempted, Reserves, Never);
    RaisedStep(run, before.inFlight, after.inFlight, Reserves, Retires);
    RaisedStep(run, before.issued, after.issued, Issues, RetiresSafely);
    RaisedStep(run, before.consumed, after.consumed, Arriving, Never);
    RaisedStep(run, before.issueAbandoned, after.issueAbandoned, GivesUp, Never);
  }

  /** In every run, every flag of the coordinator is what the events since the admission made it. */
  lemma {:induction false} FlagsAreHistory(run: seq<Event>)
    ensures NativeHistory(run) && StopHistory(run) && HelperHistory(run)
  {
    if run != [] {
      hide NativeHistory, StopHistory, HelperHistory;
      FlagsAreHistory(run[..|run| - 1]);
      NativeAfter(run);
      StopAfter(run);
      HelperAfter(run);
    } else {
      NoFlagsYet();
    }
  }

  lemma NoFlagsYet()
    ensures NativeHistory([]) && StopHistory([]) && HelperHistory([])
  {}

  // ---- Rights --------------------------------------------------------------------------------

  /** A recorded request has a cause. */
  predicate RequestsHaveCauses(s: System) {
    s.p.Active() && s.c.stop.requested ==> s.p.pending != NoReason
  }

  lemma {:induction false} RequestedHasCause(run: seq<Event>)
    ensures RequestsHaveCauses(After(run))
  {
    if run != [] {
      RequestedHasCause(run[..|run| - 1]);
      CauseStep(After(run[..|run| - 1]), run[|run| - 1]);
    }
  }

  lemma CauseStep(s: System, e: Event)
    requires RequestsHaveCauses(s)
    ensures RequestsHaveCauses(Apply(s, e))
  {}

  /** Nothing in the way of an interrupting helper, but for the time. */
  predicate MayInterrupt(s: System) {
    && s.p.Active() && s.c.native.resumed && !s.c.native.paused && !s.c.native.exited
    && !s.c.stop.cooperative && !s.c.helper.attempted
  }

  /**
    When each call of the protocol grants what it is asked for: a reservation 50 ms after the
    request, an issue for a reservation in flight that nothing has overtaken, an arrival for the
    issued helper itself.
   */
  lemma GrantedExactly(run: seq<Event>, i: nat)
    requires Timely(run) && i < |run|
    ensures var s, e := At(run, i), run[i];
            && (e.Admit? ==>
                  (Happens(run, i) <==> !s.p.Active() && e.id != "" && 1 <= e.maxSteps <= 4096 &&
                                        e.initialAddress != 0))
            && (e.TryReserve? ==>
                  (Happens(run, i) <==> MayInterrupt(s) && s.c.stop.requested &&
                                        e.now - s.c.stop.requestedAt >= 50_000_000))
            && (e.TryIssue? ==>
                  (Happens(run, i) <==> e.ticket == s.c.ticket && e.threadId != 0 && e.address != 0 &&
                                        s.c.helper.inFlight && !s.c.helper.issued &&
                                        !s.c.helper.issueAbandoned && !s.c.stop.cooperative &&
                                        !s.c.native.paused && !s.c.native.exited))
            && (e.ThreadCreated? ==>
                  (Happens(run, i) <==> s.c.helper.issued && !s.c.helper.consumed && e.raw &&
                                        !s.c.native.exited &&
                                        e.processEpoch == s.c.ticket.process &&
                                        e.processId == s.c.processId &&
                                        (e.threadId, e.address) == IssuedHelper(run[..i])))
  {
    FlagsAreHistory(run[..i]);
  }

  /**
    The helper wakes at the first instant at which a reservation does anything, a passed deadline
    being noted included; at no instant at all once it has nothing left to do.
   */
  lemma WakesInTime(run: seq<Event>, now: int)
    requires now < CLOCK_MAX
    ensures var s := After(run);
            && (MayInterrupt(s) ==> (Apply(s, TryReserve(now)) != s <==> now >= WakeAt(s)))
            && (s.p.Active() && !MayInterrupt(s) ==>
                  WakeAt(s) == CLOCK_MAX && !Succeeds(s, TryReserve(now)))
  {
    RequestedHasCause(run);
  }
}
