/**
  What a call may report: a mutation that says it is safe to retry wrote no frame, a finished call
  leaves its id settled, and a repeated answer is the first one under another message.
 */
module CallResults {
  import opened Options
  import opened Recorded
  import opened Ledger
  import opened Ipc
  import opened Admissions

  // ---- Safe to retry means nothing was sent --------------------------------------------------

  /** What a mutation may be in, once its frame is out. */
  predicate Sent(call: Call) {
    match call.phase
    case Admitted | Waiting | Holding => false
    case Reading | Answered(_) | Broken | Cancelled => true
    case Done(final) => !final.Repeated? && !SafeToRetry(final, true)
  }

  predicate FramesAreAccounted(log: seq<Record>, calls: map<nat, Call>) {
    forall i | 0 <= i < |log| && log[i].frame.Some? ::
      var c := log[i].frame.value;
      c in calls && calls[c].op.Some? && calls[c].op.value.id == log[i].id && Sent(calls[c])
  }

  lemma AccountedUpdate(log: seq<Record>, calls: map<nat, Call>, c: nat, call: Call)
    requires FramesAreAccounted(log, calls)
    requires c in calls ==> call.op == calls[c].op
    requires c in calls && calls[c].op.Some? && Sent(calls[c]) ==> Sent(call)
    ensures FramesAreAccounted(log, calls[c := call])
  {}

  lemma AccountedTouch(log: seq<Record>, calls: map<nat, Call>, id: nat, now: Time)
    requires FramesAreAccounted(log, calls)
    ensures FramesAreAccounted(Touching(log, id, now), calls)
  {}

  lemma AccountedGivingUp(m: Machine, c: nat, failure: Failure)
    requires FramesAreAccounted(m.log, m.calls) && c in m.calls
    requires failure in {ConnectionLost, DeadlinePassed, Mismatched}
    ensures FramesAreAccounted(GivenUp(m, c, failure).log, GivenUp(m, c, failure).calls)
  {
    AccountedUpdate(m.log, m.calls, c, m.calls[c].(phase := Done(Failed(failure))));
    var after := m.calls[c := m.calls[c].(phase := Done(Failed(failure)))];
    if m.calls[c].op.Some? {
      AccountedTouch(m.log, after, m.calls[c].op.value.id, m.now);
    }
    hide FramesAreAccounted, Remembered, Released, Settled;
  }

  lemma AccountedFinish(m: Machine, c: nat)
    requires FramesAreAccounted(m.log, m.calls) && Enabled(m, Finish(c))
    ensures FramesAreAccounted(NextFinish(m, c).log, NextFinish(m, c).calls)
  {
    var call := m.calls[c];
    if call.phase.Broken? {
      AccountedGivingUp(m, c, ConnectionLost);
    } else if call.phase.response.request != c {
      AccountedGivingUp(m, c, Mismatched);
    } else {
      PluginAnswersReplay(call.phase.response.body, KindOf(call));
      var outcome := OutcomeOf(call.phase.response.body, KindOf(call));
      hide OutcomeOf, EncodeRecorded, DecodeRecorded, Replayed, Recordable, GivenUp, Settled;
      AccountedUpdate(m.log, m.calls, c, call.(phase := Done(Answer(outcome))));
      AccountedUpdate(m.log, m.calls, c, call.(phase := Done(Failed(LedgerFailed))));
      var after := m.calls[c := call.(phase := Done(Answer(outcome)))];
      if call.op.Some? {
        AccountedTouch(m.log, after, call.op.value.id, m.now);
      }
    }
    hide FramesAreAccounted, GivenUp;
  }

  lemma AccountedBegin(m: Machine, c: nat, op: Option<Op>, pifLaunch: bool)
    requires FramesAreAccounted(m.log, m.calls) && c !in m.calls
    ensures var after := NextBegin(m, c, op, pifLaunch); FramesAreAccounted(after.log, after.calls)
  {
    hide FramesAreAccounted, Begun, Refusal;
    var after := NextBegin(m, c, op, pifLaunch);
    AccountedUpdate(m.log, m.calls, c, after.calls[c]);
    if op.Some? {
      AccountedTouch(m.log, after.calls, op.value.id, m.now);
    }
  }

  lemma AccountedWrite(m: Machine, c: nat, delivered: bool, ok: bool)
    requires FramesAreAccounted(m.log, m.calls) && Enabled(m, Write(c, delivered, ok))
    ensures var after := NextWrite(m, c, delivered, ok); FramesAreAccounted(after.log, after.calls)
  {
    AccountedUpdate(m.log, m.calls, c, m.calls[c].(phase := if ok then Reading else Broken));
  }

  lemma AccountedStep(m: Machine, s: Step)
    requires FramesAreAccounted(m.log, m.calls)
    ensures FramesAreAccounted(Next(m, s).log, Next(m, s).calls)
  {
    hide FramesAreAccounted, GivenUp, NextFinish, NextBegin, NextWrite, Stops, Consumed;
    hide Remembered, Released, Abandoned, Removable;
    if Enabled(m, s) {
      match s
      case Tick(_) =>
      case Reply(_) =>
      case Begin(c, op, pifLaunch) => AccountedBegin(m, c, op, pifLaunch);
      case CheckReady(c) =>
        var call := Next(m, s).calls[c];
        AccountedUpdate(m.log, m.calls, c, call);
      case Lock(c) => AccountedUpdate(m.log, m.calls, c, m.calls[c].(phase := Holding));
      case Write(c, delivered, ok) => AccountedWrite(m, c, delivered, ok);
      case Read(c, ok) =>
        AccountedUpdate(m.log, m.calls, c, m.calls[c].(
          phase := if ok then Answered(m.wire.fromPlugin[0]) else Broken));
      case Finish(c) => AccountedFinish(m, c);
      case TimeOut(c) => AccountedGivingUp(m, c, DeadlinePassed);
      case Cancel(c) => AccountedUpdate(m.log, m.calls, c, m.calls[c].(phase := Cancelled));
    }
  }

  lemma {:induction false} AccountedAfter(steps: seq<Step>)
    ensures FramesAreAccounted(After(steps).log, After(steps).calls)
  {
    hide Next, FramesAreAccounted;
    if steps == [] {
      assert FramesAreAccounted(INITIAL.log, INITIAL.calls) by { AccountedInitially(); }
    } else {
      AccountedAfter(steps[..|steps| - 1]);
      AccountedStep(After(steps[..|steps| - 1]), steps[|steps| - 1]);
    }
  }

  lemma AccountedInitially()
    ensures FramesAreAccounted([], map[])
  {}

  /** A mutation that returns an error saying it is safe to retry has written no frame. */
  lemma SafeToRetryWroteNothing(steps: seq<Step>, c: nat, final: Final)
    requires c in After(steps).calls && After(steps).calls[c].phase == Done(final)
    requires After(steps).calls[c].op.Some? && SafeToRetry(final, true)
    ensures forall i | 0 <= i < |After(steps).log| :: After(steps).log[i].frame != Some(c)
  {
    hide Next;
    AccountedAfter(steps);
  }

  // ---- An answered mutation was sent once ----------------------------------------------------

  predicate NoFrameTwice(log: seq<Record>) {
    forall i, j | 0 <= i < j < |log| && log[i].frame.Some? :: log[i].frame != log[j].frame
  }

  predicate WroteFrame(log: seq<Record>, c: nat) {
    exists i | 0 <= i < |log| :: log[i].frame == Some(c)
  }

  /** A mutation that waits for its answer, or has it. */
  predicate Exchanged(call: Call) {
    call.op.Some? &&
    (call.phase.Reading? || call.phase.Answered? ||
     (call.phase.Done? && call.phase.final.Answer?))
  }

  predicate SentOnce(m: Machine) {
    && NoFrameTwice(m.log)
    && forall c | c in m.calls && Exchanged(m.calls[c]) :: WroteFrame(m.log, c)
  }

  lemma FrameStays(log: seq<Record>, r: Record, c: nat)
    ensures WroteFrame(log + [r], c) <==> WroteFrame(log, c) || r.frame == Some(c)
  {
    assert forall i | 0 <= i < |log| :: (log + [r])[i] == log[i];
    assert (log + [r])[|log|] == r;
  }

  // Only a write adds a frame.
  lemma OtherStepsSendNothing(m: Machine, s: Step)
    requires !s.Write?
    ensures Next(m, s).log == m.log ||
            exists id :: Next(m, s).log == Touching(m.log, id, m.now)
  {
    hide Begun, DecodeRecorded, OutcomeOf, EncodeRecorded, Remembered, Released, Settled;
    hide Stops, Consumed, Abandoned, Removable, Touching;
  }

  lemma GivingUpExchangesNothing(m: Machine, d: nat, failure: Failure, c: nat)
    requires d in m.calls && c in m.calls && Exchanged(GivenUp(m, d, failure).calls[c])
    ensures Exchanged(m.calls[c])
  {
    hide Remembered, Released, Settled, Touching;
  }

  // An answer comes out of an exchange.
  lemma FinishExchangesNothing(m: Machine, d: nat, c: nat)
    requires Enabled(m, Finish(d)) && c in m.calls && Exchanged(NextFinish(m, d).calls[c])
    ensures Exchanged(m.calls[c])
  {
    hide OutcomeOf, EncodeRecorded, Settled, Touching, GivenUp;
    if m.calls[d].phase.Broken? {
      GivingUpExchangesNothing(m, d, ConnectionLost, c);
    } else if m.calls[d].phase.response.request != d {
      GivingUpExchangesNothing(m, d, Mismatched, c);
    }
  }

  // Only a write starts an exchange.
  lemma OtherStepsExchangeNothing(m: Machine, s: Step, c: nat)
    requires !s.Write? && c in Next(m, s).calls && Exchanged(Next(m, s).calls[c])
    ensures c in m.calls && Exchanged(m.calls[c])
  {
    OthersStay(m, s, c);
    hide Begun, DecodeRecorded, NextFinish, GivenUp, Remembered, Released;
    hide Stops, Consumed, Abandoned, Removable, Touching;
    if Enabled(m, s) && s.Finish? {
      FinishExchangesNothing(m, s.call, c);
    } else if Enabled(m, s) && s.TimeOut? {
      GivingUpExchangesNothing(m, s.call, DeadlinePassed, c);
    }
  }

  lemma SentOnceStep(m: Machine, s: Step)
    requires SentOnce(m) && FramesAreAccounted(m.log, m.calls)
    ensures SentOnce(Next(m, s))
  {
    var after := Next(m, s);
    if !Enabled(m, s) {
    } else if s.Write? {
      WriteSendsOnce(m, s.call, s.delivered, s.ok);
    } else {
      OtherStepsSendNothing(m, s);
      forall c | c in after.calls && Exchanged(after.calls[c])
        ensures c in m.calls && Exchanged(m.calls[c])
      {
        OtherStepsExchangeNothing(m, s, c);
      }
      if after.log != m.log {
        var id :| after.log == Touching(m.log, id, m.now);
        forall c { FrameStays(m.log, Record(id, m.now, None), c); }
      }
      hide Next, WroteFrame, Exchanged, FramesAreAccounted;
    }
  }

  lemma WriteSendsOnce(m: Machine, c: nat, delivered: bool, ok: bool)
    requires SentOnce(m) && FramesAreAccounted(m.log, m.calls)
    requires Enabled(m, Write(c, delivered, ok))
    ensures SentOnce(NextWrite(m, c, delivered, ok))
  {
    var op := m.calls[c].op;
    if delivered && op.Some? {
      var r := Record(op.value.id, m.now, Some(c));
      forall d { FrameStays(m.log, r, d); }
    }
    hide WroteFrame, Released;
  }

  lemma {:induction false} SentOnceAfter(steps: seq<Step>)
    ensures SentOnce(After(steps))
  {
    hide Next, SentOnce, FramesAreAccounted;
    if steps == [] {
      SentOnceInitially();
    } else {
      SentOnceAfter(steps[..|steps| - 1]);
      AccountedAfter(steps[..|steps| - 1]);
      SentOnceStep(After(steps[..|steps| - 1]), steps[|steps| - 1]);
    }
  }

  lemma SentOnceInitially()
    ensures SentOnce(INITIAL)
  {}

  /** A mutation that was answered has written its frame, and no call ever writes two. */
  lemma AnsweredWasSentOnce(steps: seq<Step>, c: nat)
    requires c in After(steps).calls && Exchanged(After(steps).calls[c])
    ensures var log := After(steps).log;
            exists i :: 0 <= i < |log| && log[i].frame == Some(c) &&
                        forall j | 0 <= j < |log| && log[j].frame == Some(c) :: i == j
  {
    hide Next, Exchanged, After;
    hide NoFrameTwice, WroteFrame;
    SentOnceAfter(steps);
    OnlyFrame(After(steps).log, c);
  }

  lemma OnlyFrame(log: seq<Record>, c: nat)
    requires NoFrameTwice(log) && WroteFrame(log, c)
    ensures exists i :: 0 <= i < |log| && log[i].frame == Some(c) &&
                        forall j | 0 <= j < |log| && log[j].frame == Some(c) :: i == j
  {
    var i :| 0 <= i < |log| && log[i].frame == Some(c);
    forall j | 0 <= j < |log| && log[j].frame == Some(c) ensures i == j {
      FramesDiffer(log, i, j);
    }
    hide NoFrameTwice, WroteFrame;
  }

  lemma FramesDiffer(log: seq<Record>, i: nat, j: nat)
    requires NoFrameTwice(log) && i < |log| && j < |log|
    requires log[i].frame.Some? && log[i].frame == log[j].frame
    ensures i == j
  {}

  // ---- A finished call leaves its id settled -------------------------------------------------

  /** The call a step is about. */
  function Mover(s: Step): Option<nat> {
    match s
    case Tick(_) => None
    case Reply(_) => None
    case Begin(c, _, _) => Some(c)
    case CheckReady(c) => Some(c)
    case Lock(c) => Some(c)
    case Write(c, _, _) => Some(c)
    case Read(c, _) => Some(c)
    case Finish(c) => Some(c)
    case TimeOut(c) => Some(c)
    case Cancel(c) => Some(c)
  }

  lemma OthersStay(m: Machine, s: Step, d: nat)
    ensures Mover(s) != Some(d) ==> (d in Next(m, s).calls <==> d in m.calls)
    ensures Mover(s) != Some(d) && d in m.calls ==> Next(m, s).calls[d] == m.calls[d]
    ensures d in m.calls ==> d in Next(m, s).calls && Next(m, s).calls[d].op == m.calls[d].op
    ensures d in m.calls && (m.calls[d].phase.Done? || m.calls[d].phase.Cancelled?) ==>
              Next(m, s).calls[d] == m.calls[d]
  {
    hide Begun, Refusal, OutcomeOf, EncodeRecorded, Remembered, Released, Settled, Abandoned;
    hide Removable, Stops, Consumed;
  }

  /** An entry is in flight exactly while some admitted call of that operation is unfinished. */
  lemma InFlightExactly(steps: seq<Step>, op: Op)
    ensures Owns(After(steps).entries, op) <==> exists c :: Claims(After(steps).calls, c, op)
  {
    LedgerAfter(steps);
  }

  /**
    No admission and no ttl takes an in-flight entry away: after any step it is still in flight,
    or the call it belonged to is done.
   */
  lemma InFlightUntilDone(steps: seq<Step>, s: Step, op: Op)
    requires Owns(After(steps).entries, op)
    ensures var m, after := After(steps), After(steps + [s]);
            exists c :: Claims(m.calls, c, op) && c in after.calls &&
                        (after.calls[c].phase.Done? || Owns(after.entries, op))
  {
    hide Next;
    assert (steps + [s])[..|steps|] == steps;
    InFlightExactly(steps, op);
    var c :| Claims(After(steps).calls, c, op);
    OthersStay(After(steps), s, c);
    LedgerAfter(steps + [s]);
  }

  /** The end of a call leaves its id settled or removed, never in flight. */
  lemma FinishedCallSettles(steps: seq<Step>, s: Step, c: nat)
    requires var m := After(steps); c in m.calls && Unfinished(m.calls[c])
    requires var after := After(steps + [s]); c in after.calls && after.calls[c].phase.Done?
    ensures var id, entries := After(steps).calls[c].op.value.id, After(steps + [s]).entries;
            id !in entries || !entries[id].status.InFlight?
  {
    hide Next, AnswersInv;
    assert (steps + [s])[..|steps|] == steps;
    var m, after := After(steps), After(steps + [s]);
    LedgerAfter(steps);
    LedgerAfter(steps + [s]);
    var id := m.calls[c].op.value.id;
    if id in after.entries && after.entries[id].status.InFlight? {
      assert Owns(after.entries, Op(id, after.entries[id].fingerprint));
      var d :| Claims(after.calls, d, Op(id, after.entries[id].fingerprint));
      OthersStay(m, s, d);
      OthersStay(m, s, c);
      StartsFresh(m, s, d);
      assert false;
    }
  }

  // A call that a step admits was not there before, and its id was not in flight.
  lemma StartsFresh(m: Machine, s: Step, d: nat)
    requires d !in m.calls
    ensures d in Next(m, s).calls ==> s.Begin? && s.call == d
  {}

  lemma {:induction false} CancelledStays(steps: seq<Step>, more: seq<Step>, c: nat)
    requires c in After(steps).calls && After(steps).calls[c].phase.Cancelled?
    ensures c in After(steps + more).calls
    ensures After(steps + more).calls[c] == After(steps).calls[c]
  {
    hide Next;
    if more == [] {
      assert steps + more == steps;
    } else {
      var before := more[..|more| - 1];
      CancelledStays(steps, before, c);
      assert (steps + more)[..|steps + more| - 1] == steps + before;
      OthersStay(After(steps + before), more[|more| - 1], c);
    }
  }

  /** The id of a cancelled mutation is in flight in every later state. */
  lemma CancelledIdStaysInFlight(steps: seq<Step>, more: seq<Step>, c: nat)
    requires c in After(steps).calls && After(steps).calls[c].phase.Cancelled?
    requires After(steps).calls[c].op.Some?
    ensures Owns(After(steps + more).entries, After(steps).calls[c].op.value)
  {
    hide Next;
    CancelledStays(steps, more, c);
    LedgerAfter(steps + more);
  }

  const CANCELLED_RUN: seq<Step> :=
    [Begin(0, Some(Op(7, "resume")), false), CheckReady(0), Cancel(0)]

  /** A run that cancels a mutation, and what a retry under the same id is told ever after. */
  lemma CancelledRunStaysBusy(more: seq<Step>, c: nat)
    requires c !in After(CANCELLED_RUN + more).calls
    ensures var op := Op(7, "resume");
            var m := After(CANCELLED_RUN + more);
            Next(m, Begin(c, Some(op), false)).calls[c].phase == Done(Failed(Busy))
  {
    CancelledRun();
    CancelledIdStaysInFlight(CANCELLED_RUN, more, 0);
    hide After, DecodeRecorded;
  }

  lemma CancelledRun()
    ensures var m := After(CANCELLED_RUN);
            0 in m.calls && m.calls[0] == Call(Some(Op(7, "resume")), false, Cancelled)
  {
    hide DecodeRecorded, Remembered, Released;
    var run := CANCELLED_RUN;
    assert run[..2] == [run[0], run[1]] && run[..2][..1] == [run[0]] && run[..1][..0] == [];
    assert After([]) == INITIAL;
    assert After([run[0]]) == Next(INITIAL, run[0]);
    assert 0 in After([run[0]]).calls && After([run[0]]).calls[0].phase.Admitted?;
    assert After(run[..2]).calls[0].phase.Waiting?;
  }

  // ---- Repeated answers ----------------------------------------------------------------------

  /** The step with which call c gets the plugin's answer to operation id. */
  predicate AnswersNow(m: Machine, c: nat, id: nat) {
    && Enabled(m, Finish(c))
    && m.calls[c].op.Some? && m.calls[c].op.value.id == id
    && NextFinish(m, c).calls[c].phase.Done? && NextFinish(m, c).calls[c].phase.final.Answer?
  }

  /** The call that was the last to get an answer to an operation id. */
  ghost function LatestAnswer(steps: seq<Step>, id: nat): Option<nat> {
    if steps == [] then None
    else
      var before, s := steps[..|steps| - 1], steps[|steps| - 1];
      if s.Finish? && AnswersNow(After(before), s.call, id) then Some(s.call)
      else LatestAnswer(before, id)
  }

  // What finishing does to the entry and the call.
  lemma FinishEnds(m: Machine, c: nat)
    requires Enabled(m, Finish(c)) && m.calls[c].op.Some? && m.calls[c].op.value.id in m.entries
    ensures var call, after := m.calls[c], NextFinish(m, c);
            if call.phase.Answered? && call.phase.response.request == c then
              var outcome := OutcomeOf(call.phase.response.body, KindOf(call));
              && after.calls == Moved(m, c, Done(Answer(outcome))).calls
              && after.entries == Settled(m.entries, call.op.value.id,
                                          Completed(EncodeRecorded(outcome)), m.now)
            else
              && c in after.calls
              && after.calls[c].phase.Done? && after.calls[c].phase.final.Failed?
              && after.entries == Settled(m.entries, call.op.value.id, Unclear, m.now)
  {
    hide OutcomeOf, EncodeRecorded, Settled, Remembered, Released, Touching;
  }

  lemma FinishRecords(m: Machine, c: nat)
    requires LedgerInv(m.entries, m.calls) && Enabled(m, Finish(c)) && m.calls[c].op.Some?
    ensures var op, after := m.calls[c].op.value, NextFinish(m, c);
            && op.id in after.entries
            && (AnswersNow(m, c, op.id) ==>
                  after.entries[op.id].status.Completed? &&
                  GaveAnswer(after.calls, c, Op(op.id, after.entries[op.id].fingerprint),
                              DecodeRecorded(after.entries[op.id].status.value)))
            && (!AnswersNow(m, c, op.id) ==> after.entries[op.id].status.Unclear?)
            && forall other | other != op.id && other in after.entries ::
                 other in m.entries && after.entries[other] == m.entries[other]
  {
    var call := m.calls[c];
    assert Owns(m.entries, call.op.value);
    FinishEnds(m, c);
    hide LedgerInv, OutcomeOf, EncodeRecorded, DecodeRecorded, Replayed, NextFinish;
    if call.phase.Answered? {
      PluginAnswersReplay(call.phase.response.body, KindOf(call));
    }
  }

  // A completed entry was completed by this step, or before, and this step answers nothing for it.
  lemma CompletedStep(m: Machine, s: Step, id: nat)
    requires LedgerInv(m.entries, m.calls)
    requires id in Next(m, s).entries && Next(m, s).entries[id].status.Completed?
    ensures s.Finish? && AnswersNow(m, s.call, id) ==>
              GaveAnswer(Next(m, s).calls, s.call, Op(id, Next(m, s).entries[id].fingerprint),
                          DecodeRecorded(Next(m, s).entries[id].status.value))
    ensures !(s.Finish? && AnswersNow(m, s.call, id)) ==>
              id in m.entries && m.entries[id].status == Next(m, s).entries[id].status &&
              m.entries[id].fingerprint == Next(m, s).entries[id].fingerprint
  {
    hide DecodeRecorded, LedgerInv, GaveAnswer, Next, NextFinish;
    if s.Finish? && Enabled(m, s) && m.calls[s.call].op.Some? {
      assert Next(m, s) == NextFinish(m, s.call) by { FinishIsNext(m, s); }
      FinishRecords(m, s.call);
    } else {
      OthersComplete(m, s, id);
    }
  }

  lemma FinishIsNext(m: Machine, s: Step)
    requires s.Finish? && Enabled(m, s)
    ensures Next(m, s) == NextFinish(m, s.call)
  {
    hide NextFinish;
  }

  // Other steps complete nothing.
  lemma OthersComplete(m: Machine, s: Step, id: nat)
    requires id in Next(m, s).entries && Next(m, s).entries[id].status.Completed?
    requires !(s.Finish? && Enabled(m, s) && m.calls[s.call].op.Some?)
    ensures id in m.entries && m.entries[id].status == Next(m, s).entries[id].status &&
            m.entries[id].fingerprint == Next(m, s).entries[id].fingerprint
  {
    hide DecodeRecorded, Remembered, Released, Stops, Consumed, OutcomeOf, EncodeRecorded;
    hide NextReply, Touching, Refusal, Verdict;
  }

  /** A completed entry holds the latest answer there was to its operation id. */
  lemma {:induction false} CompletedIsLatest(steps: seq<Step>, id: nat)
    requires id in After(steps).entries && After(steps).entries[id].status.Completed?
    ensures var m, latest := After(steps), LatestAnswer(steps, id);
            latest.Some? &&
            GaveAnswer(m.calls, latest.value, Op(id, m.entries[id].fingerprint),
                        DecodeRecorded(m.entries[id].status.value))
  {
    hide Next, AnswersNow, LedgerInv, DecodeRecorded, Replayed;
    if steps != [] {
      var before, s := steps[..|steps| - 1], steps[|steps| - 1];
      LedgerAfter(before);
      CompletedStep(After(before), s, id);
      if !(s.Finish? && AnswersNow(After(before), s.call, id)) {
        CompletedIsLatest(before, id);
        OthersStay(After(before), s, LatestAnswer(before, id).value);
      }
    }
  }

  /**
    A call that gets a repeated answer gets the latest one that any call got to its operation id,
    for the same arguments, except for the text of an error.
   */
  lemma RepeatsTheLatestAnswer(steps: seq<Step>, c: nat, op: Op, pifLaunch: bool)
    requires c !in After(steps).calls
    ensures var m, latest := After(steps + [Begin(c, Some(op), pifLaunch)]), LatestAnswer(steps, op.id);
            c in m.calls &&
            (m.calls[c].phase.Done? && m.calls[c].phase.final.Repeated? ==>
               latest.Some? &&
               GaveAnswer(m.calls, latest.value, op, m.calls[c].phase.final.outcome))
  {
    hide Next, DecodeRecorded, Replayed, LatestAnswer, GaveAnswer;
    var m, s := After(steps), Begin(c, Some(op), pifLaunch);
    assert (steps + [s])[..|steps|] == steps;
    assert After(steps + [s]) == Next(m, s);
    BegunCall(m, c, op, pifLaunch);
    if Next(m, s).calls[c].phase.Done? && Next(m, s).calls[c].phase.final.Repeated? {
      CompletedIsLatest(steps, op.id);
      AnswerStays(m.calls, LatestAnswer(steps, op.id).value, op, c, Next(m, s).calls[c],
                  DecodeRecorded(m.entries[op.id].status.value));
    }
    hide After;
  }

  // A repeated answer is the recorded one.
  lemma BegunCall(m: Machine, c: nat, op: Op, pifLaunch: bool)
    requires c !in m.calls
    ensures var after := Next(m, Begin(c, Some(op), pifLaunch)).calls;
            && c in after && after == m.calls[c := after[c]]
            && (after[c].phase.Done? && after[c].phase.final.Repeated? ==>
                  && op.id in m.entries && m.entries[op.id].status.Completed?
                  && m.entries[op.id].fingerprint == op.fingerprint
                  && after[c].phase.final.outcome ==
                     DecodeRecorded(m.entries[op.id].status.value))
  {
    hide DecodeRecorded, Begun;
    ReplayIsCompleted(m.entries, op, m.now);
  }

  lemma AnswerStays(calls: map<nat, Call>, d: nat, op: Op, c: nat, call: Call, repeated: Outcome)
    requires GaveAnswer(calls, d, op, repeated) && c !in calls
    ensures GaveAnswer(calls[c := call], d, op, repeated)
  {
    hide Replayed;
  }

  lemma ReplayIsCompleted(entries: Entries, op: Op, now: Time)
    ensures var admission := Begun(entries, op.id, op.fingerprint, now, CAPACITY, TTL).1;
            admission.Replay? ==>
              && op.id in entries && entries[op.id].status == Completed(admission.value)
              && entries[op.id].fingerprint == op.fingerprint
  {}

  /** In every later state, a repeated answer is one that a call of the same operation got. */
  lemma RepeatsAnAnswer(steps: seq<Step>, c: nat)
    requires c in After(steps).calls
    requires After(steps).calls[c].phase.Done? && After(steps).calls[c].phase.final.Repeated?
    ensures var m := After(steps);
            exists earlier :: earlier in m.calls && m.calls[earlier].op == m.calls[c].op &&
                            m.calls[earlier].phase.Done? && m.calls[earlier].phase.final.Answer? &&
                            m.calls[c].phase.final.outcome ==
                            Replayed(m.calls[earlier].phase.final.outcome)
  {
    hide Next, Replayed;
    LedgerAfter(steps);
    var m := After(steps);
    var earlier :| GaveAnswer(m.calls, earlier, m.calls[c].op.value, m.calls[c].phase.final.outcome);
  }

  // ---- The ledger never loses an admission ---------------------------------------------------

  predicate LedgerHasFailed(m: Machine) {
    exists c | c in m.calls :: m.calls[c].phase == Done(Failed(LedgerFailed))
  }

  lemma LedgerFailsOnlyIf(m: Machine, s: Step, c: nat)
    requires LedgerInv(m.entries, m.calls)
    requires c in Next(m, s).calls && Next(m, s).calls[c].phase == Done(Failed(LedgerFailed))
    ensures c in m.calls && m.calls[c].phase == Done(Failed(LedgerFailed))
  {
    hide AnswersInv, InFlightIsClaimed, OneUnfinishedPerId;
    hide Begun, DecodeRecorded, OutcomeOf, EncodeRecorded, Remembered, Released, Settled;
    hide Stops, Consumed;
    OthersStay(m, s, c);
    assert c in m.calls && Unfinished(m.calls[c]) ==> Owns(m.entries, m.calls[c].op.value);
  }

  /** Completing or abandoning an admitted operation never finds its entry missing. */
  lemma {:induction false} LedgerNeverFails(steps: seq<Step>)
    ensures !LedgerHasFailed(After(steps))
  {
    hide Next, LedgerInv;
    if steps != [] {
      var before := steps[..|steps| - 1];
      LedgerNeverFails(before);
      LedgerAfter(before);
      forall c | c in After(steps).calls
        ensures After(steps).calls[c].phase != Done(Failed(LedgerFailed))
      {
        if After(steps).calls[c].phase == Done(Failed(LedgerFailed)) {
          LedgerFailsOnlyIf(After(before), steps[|steps| - 1], c);
        }
      }
    }
  }
}
