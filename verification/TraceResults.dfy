/**
  What a trace reports. The recorded points and the final reason are compared with the event
  history itself: the addresses stepped and the stop causes that occurred since the admission.
 */
module TraceResults {
  import opened Options
  import opened TraceModel
  import opened TraceRuns

  // ---- History since the last admission ------------------------------------------------------

  /** Addresses of the steps that found the trace active. */
  ghost function Stepped(run: seq<Event>): seq<nat> {
    if run == [] then []
    else
      var last := |run| - 1;
      var s, earlier := After(run[..last]), Stepped(run[..last]);
      if Admits(run, last) then []
      else if run[last].Step? && s.p.Active() then earlier + [run[last].stepAddress]
      else earlier
  }

  function When(condition: bool, reason: Reason): seq<Reason> {
    if condition then [reason] else []
  }

  /** Why one event asks an active trace to stop, in the order the code looks. */
  function CausesOf(p: Policy, exited: bool, stepsSoFar: nat, e: Event): seq<Reason> {
    if !p.Active() then []
    else match e
      case Request(reason, _) => When(reason != NoReason, reason)
      case TryReserve(now) => When(!exited && now >= p.deadline, Timeout)
      case Step(_, native, now) =>
        When(now >= p.deadline, Timeout) +
        When(stepsSoFar + 1 >= p.maxSteps, ReachedMaxSteps) +
        When(native, Interruption)
      case _ => []
  }

  ghost function Causes(run: seq<Event>): seq<Reason> {
    if run == [] then []
    else
      var last := |run| - 1;
      var s := After(run[..last]);
      if Admits(run, last) then []
      else Causes(run[..last]) +
           CausesOf(s.p, s.c.native.exited, |Stepped(run[..last])|, run[last])
  }

  function NextFallback(s: System, e: Event, fallback: Reason): Reason {
    if !s.p.Active() then fallback
    else if e.PauseCommitted? && !s.c.native.exited then e.fallback
    else if e.ProcessExited? then ProcessExit
    else fallback
  }

  /** The pause kind to report when nothing asked for the stop. */
  ghost function Fallback(run: seq<Event>): Reason {
    if run == [] then Interruption
    else
      var last := |run| - 1;
      if Admits(run, last) then Interruption
      else NextFallback(After(run[..last]), run[last], Fallback(run[..last]))
  }

  /** The latest admission, if there was one. */
  ghost function LastAdmission(run: seq<Event>): (e: Option<Event>)
    ensures e.Some? ==> e.value.Admit?
  {
    if run == [] then None
    else
      var last := |run| - 1;
      if Admits(run, last) then Some(run[last]) else LastAdmission(run[..last])
  }

  ghost function InitialAddress(run: seq<Event>): nat {
    if LastAdmission(run).Some? then LastAdmission(run).value.initialAddress else 0
  }

  /** Since the latest admission its submission was accepted or a step was made. */
  ghost predicate Launched(run: seq<Event>) {
    run != [] &&
    var last := |run| - 1;
    var s, e := After(run[..last]), run[last];
    !Admits(run, last) &&
    (e.Step? || (e.Submitted? && e.ticket == s.c.ticket && e.accepted) || Launched(run[..last]))
  }

  /** The first cause wins, except that a shutdown overrides a first cause that was a timeout. */
  function Verdict(causes: seq<Reason>): Reason {
    if causes == [] then NoReason
    else if causes[0] == Timeout && BackendShutdown in causes then BackendShutdown
    else causes[0]
  }

  // ---- The reported results ------------------------------------------------------------------

  function Take(s: seq<nat>, n: nat): seq<nat> {
    if n <= |s| then s[..n] else s
  }

  /** How a trace ended, by what stopped it, what paused it otherwise, or neither. */
  predicate Reports(p: Policy, causes: seq<Reason>, fallback: Reason) {
    && (causes != [] ==> p.reason == Verdict(causes))
    && (causes == [] && fallback != NoReason ==> p.reason == fallback)
    && (causes == [] && fallback == NoReason ==> p.reason == Interruption)
    && p.pending == NoReason
    && (p.state == Completed <==> p.reason == ReachedMaxSteps)
    && (p.state == Cancelled <==> p.reason == CancelRequested)
    && (p.state == TimedOut <==> p.reason == Timeout)
    && (p.state == Interrupted <==> p.reason !in {ReachedMaxSteps, CancelRequested, Timeout})
  }

  ghost predicate Matches(s: System, steps: seq<nat>, causes: seq<Reason>, fallback: Reason,
                          initial: nat)
  {
    && (s.p.id != "" ==>
          && s.p.points == [initial] + Take(steps, s.p.maxSteps)
          && s.p.steps == |Take(steps, s.p.maxSteps)|
          && s.p.maxSteps <= MAX_STEPS)
    && (s.p.Active() ==> s.p.pending == Verdict(causes) && s.c.stop.fallback == fallback)
    && (s.p.Terminal() ==> Reports(s.p, causes, fallback))
  }

  lemma VerdictAppend(causes: seq<Reason>, more: seq<Reason>)
    ensures causes == [] ==> Verdict(causes + more) == Verdict(more)
    ensures causes != [] && BackendShutdown !in more ==> Verdict(causes + more) == Verdict(causes)
    ensures causes != [] && more == [BackendShutdown] ==>
              Verdict(causes + more) ==
              if Verdict(causes) == Timeout then BackendShutdown else Verdict(causes)
  {
    if causes == [] {
      assert causes + more == more;
    }
  }

  // No cause is the null reason, so a verdict is null only when there was no cause.
  lemma {:induction false} CausesAreReasons(run: seq<Event>)
    ensures NoReason !in Causes(run)
  {
    if run != [] {
      var last := |run| - 1;
      var s := After(run[..last]);
      CausesAreReasons(run[..last]);
      var more := CausesOf(s.p, s.c.native.exited, |Stepped(run[..last])|, run[last]);
      assert NoReason !in more;
      assert Causes(run) == if Admits(run, last) then [] else Causes(run[..last]) + more;
    }
  }

  // One more step appends its address exactly while the limit has room.
  lemma StepPoints(p: Policy, e: Event, steps: seq<nat>, initial: nat)
    requires p.Active() && e.Step? && p.maxSteps <= MAX_STEPS
    requires p.points == [initial] + Take(steps, p.maxSteps)
    requires p.steps == |Take(steps, p.maxSteps)|
    ensures var q := StepPolicy(p, e.stepAddress, e.nativeStop, e.now);
            q.points == [initial] + Take(steps + [e.stepAddress], p.maxSteps) &&
            q.steps == |Take(steps + [e.stepAddress], p.maxSteps)|
  {
    var all, max := steps + [e.stepAddress], p.maxSteps;
    if |steps| < max {
      assert Take(all, max) == all && Take(steps, max) == steps;
    } else {
      assert Take(all, max) == Take(steps, max);
    }
  }

  // One more candidate cause.
  lemma NextCause(causes: seq<Reason>, condition: bool, reason: Reason)
    requires NoReason !in causes && reason != NoReason && reason != BackendShutdown
    ensures NoReason !in causes + When(condition, reason)
    ensures Verdict(causes + When(condition, reason)) ==
            FirstOf(Verdict(causes), condition, reason)
  {
    VerdictAppend(causes, When(condition, reason));
    if !condition {
      assert causes + When(condition, reason) == causes;
    }
  }

  lemma StepCauses(p: Policy, exited: bool, e: Event, steps: nat, causes: seq<Reason>)
    requires p.Active() && e.Step? && p.pending == Verdict(causes) && NoReason !in causes
    requires p.steps == if steps <= p.maxSteps then steps else p.maxSteps
    ensures StepPolicy(p, e.stepAddress, e.nativeStop, e.now).pending ==
            Verdict(causes + CausesOf(p, exited, steps, e))
  {
    var a := When(e.now >= p.deadline, Timeout);
    var b := When(steps + 1 >= p.maxSteps, ReachedMaxSteps);
    var c := When(e.nativeStop, Interruption);
    NextCause(causes, e.now >= p.deadline, Timeout);
    NextCause(causes + a, steps + 1 >= p.maxSteps, ReachedMaxSteps);
    NextCause(causes + a + b, e.nativeStop, Interruption);
    AppendsAssociate(causes, a, b, c);
    hide Verdict;
  }

  lemma AppendsAssociate(causes: seq<Reason>, a: seq<Reason>, b: seq<Reason>, c: seq<Reason>)
    ensures causes + (a + b + c) == causes + a + b + c
  {}

  // A request or a passed deadline.
  lemma RequestCauses(p: Policy, reason: Reason, causes: seq<Reason>)
    requires p.Active() && p.pending == Verdict(causes) && NoReason !in causes
    ensures RequestPolicy(p, reason).pending == Verdict(causes + When(reason != NoReason, reason))
  {
    var more := When(reason != NoReason, reason);
    VerdictAppend(causes, more);
    if more == [] {
      assert causes + more == causes;
    }
  }

  lemma FinalizeMatches(s: System, steps: seq<nat>, causes: seq<Reason>, fallback: Reason,
                        initial: nat)
    requires Matches(s, steps, causes, fallback, initial) && NoReason !in causes
    ensures Matches(FinalizeIfSettled(s), steps, causes, fallback, initial)
  {
  }

  lemma CauseMatches(s: System, e: Event, steps: seq<nat>, causes: seq<Reason>, fallback: Reason,
                     initial: nat)
    requires Matches(s, steps, causes, fallback, initial) && NoReason !in causes
    requires e.Request? || e.TryReserve?
    ensures Matches(Apply(s, e), steps, causes + CausesOf(s.p, s.c.native.exited, |steps|, e), fallback,
                    initial)
  {
    var more := CausesOf(s.p, s.c.native.exited, |steps|, e);
    assert more == [] ==> causes + more == causes;
    if s.p.Active() {
      var reason := if e.Request? then e.reason else Timeout;
      RequestCauses(s.p, reason, causes);
      assert Apply(s, e).p == if more == [] then s.p else RequestPolicy(s.p, reason);
    } else {
      assert Apply(s, e) == s;
    }
  }

  lemma CauselessMatches(s: System, e: Event, steps: seq<nat>, causes: seq<Reason>,
                         fallback: Reason, initial: nat)
    requires Matches(s, steps, causes, fallback, initial) && NoReason !in causes
    requires !e.Request? && !e.TryReserve?
    requires !SucceedsAdmit(s, e) && !(e.Step? && s.p.Active())
    ensures Matches(Apply(s, e), steps, causes, NextFallback(s, e, fallback), initial)
  {
    match e {
      case Submitted(t, accepted) =>
        var c := s.c.(native := s.c.native.(submitted := true,
                        paused := s.c.native.paused || (!accepted && !s.c.native.resumed)));
        FinalizeMatches(System(if accepted then MarkSubmitted(s.p) else s.p, c), steps, causes,
                        fallback, initial);
      case FinishHelper(t, safely) =>
        FinalizeMatches(s.(c := Retire(s.c, safely)), steps, causes,
                        fallback, initial);
      case PauseCommitted(pause) => if !s.c.native.exited {
        FinalizeMatches(s.(c := Pause(s.c, pause)), steps, causes,
                        NextFallback(s, e, fallback), initial);
      }
      case ProcessExited =>
        FinalizeMatches(s.(c := Exit(s.c)), steps, causes,
                        NextFallback(s, e, fallback), initial);
      case _ =>
    }
  }

  /**
    In every run: the points are the initial address followed by the first stepped addresses, one
    per counted step and never more than the limit; a pending stop is the verdict of the causes so
    far; a finished trace reports that verdict, or the committed pause when there was no cause.
   */
  lemma {:induction false} ResultsMatchHistory(run: seq<Event>)
    ensures Matches(After(run), Stepped(run), Causes(run), Fallback(run), InitialAddress(run))
  {
    if run != [] {
      var last := |run| - 1;
      var before := run[..last];
      var s, e := After(before), run[last];
      ResultsMatchHistory(before);
      InvAfter(before);
      CausesAreReasons(before);
      if SucceedsAdmit(s, e) {
      } else if e.Step? && s.p.Active() {
        StepPoints(s.p, e, Stepped(before), InitialAddress(before));
        StepCauses(s.p, s.c.native.exited, e, |Stepped(before)|, Causes(before));
      } else if e.Request? || e.TryReserve? {
        CauseMatches(s, e, Stepped(before), Causes(before), Fallback(before),
                     InitialAddress(before));
      } else {
        assert Causes(run) == Causes(before);
        CauselessMatches(s, e, Stepped(before), Causes(before), Fallback(before),
                         InitialAddress(before));
      }
    }
  }

  // ---- What a trace was admitted with --------------------------------------------------------

  predicate AdmittedWith(s: System, e: Event)
    requires e.Admit?
  {
    && s.p.id == e.id && s.p.mode == e.mode && s.p.modules == e.modules
    && s.p.maxSteps == e.maxSteps && s.p.deadline == e.deadline
    && s.c.ticket.process == e.processEpoch && s.c.processId == e.processId
  }

  lemma AdmissionStep(s: System, e: Event)
    ensures var t := Apply(s, e);
            if SucceedsAdmit(s, e) then AdmittedWith(t, e) && t.p.state == Starting
            else
              && (forall a: Event | a.Admit? && AdmittedWith(s, a) :: AdmittedWith(t, a))
              && t.p.id == s.p.id
              && (t.p.Active() ==>
                    s.p.Active() &&
                    (t.p.state == Running <==>
                       s.p.state == Running || e.Step? ||
                       (e.Submitted? && e.ticket == s.c.ticket && e.accepted)))
  {}

  /**
    A trace keeps what it was admitted with; while it is active it runs if and only if its
    submission was accepted or it has made a step.
   */
  lemma {:induction false} AdmissionIsKept(run: seq<Event>)
    ensures var s, admitted := After(run), LastAdmission(run);
            && (admitted.None? <==> s.p.id == "")
            && (admitted.Some? ==> AdmittedWith(s, admitted.value))
            && (s.p.Active() ==> (s.p.state == Running <==> Launched(run)))
  {
    if run != [] {
      var last := |run| - 1;
      AdmissionIsKept(run[..last]);
      AdmissionStep(After(run[..last]), run[last]);
    }
  }

  // ---- What a step answers the debugger ------------------------------------------------------

  /**
    With a helper issued a step answers what the debugger itself wanted. Otherwise it answers to
    stop if and only if the trace is over or something has asked for a stop by now, this step
    included; and then, and only then, the stop counts as the cooperative one.
   */
  lemma StepAnswers(run: seq<Event>, i: nat)
    requires i < |run| && run[i].Step?
    ensures var before, after := At(run, i), At(run, i + 1);
            && (before.c.helper.issued ==> (Happens(run, i) <==> run[i].nativeStop))
            && (!before.c.helper.issued ==>
                  (Happens(run, i) <==> !before.p.Active() || Causes(run[..i + 1]) != []))
            && (after.c.stop.cooperative <==>
                  before.c.stop.cooperative || (!before.c.helper.issued && Happens(run, i)))
  {
    AtSucc(run, i);
    ResultsMatchHistory(run[..i + 1]);
    CausesAreReasons(run[..i + 1]);
    hide Causes, Stepped, Fallback, InitialAddress;
  }

  lemma FrozenStep(s: System, e: Event)
    requires !s.p.Active() && !SucceedsAdmit(s, e)
    ensures Apply(s, e).p == s.p
  {
  }

  /** A finished trace's results stay put until the next admission. */
  lemma {:induction false} ResultsAreFrozen(run: seq<Event>, i: nat, j: nat)
    requires i <= j <= |run| && !At(run, i).p.Active()
    requires forall k | i <= k < j :: !Admits(run, k)
    ensures At(run, j).p == At(run, i).p
    decreases j - i
  {
    if i < j {
      ResultsAreFrozen(run, i, j - 1);
      AtSucc(run, j - 1);
      assert !Admits(run, j - 1);
      FrozenStep(At(run, j - 1), run[j - 1]);
    }
  }
}
