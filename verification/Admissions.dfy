/**
  The admissions of the IPC adapter: what every interleaving of calls keeps true of the ledger and
  of the calls that own its entries, and where a repeated answer comes from.
 */
module Admissions {
  import opened Options
  import opened Recorded
  import opened Ledger
  import opened Ipc

  // ---- The ledger and the calls --------------------------------------------------------------

  /** From its admission to its end a call owns the entry of its id; a cancelled call never ends. */
  predicate Unfinished(call: Call) {
    call.op.Some? && !call.phase.Done?
  }

  predicate Owns(entries: Entries, op: Op) {
    && op.id in entries
    && entries[op.id].fingerprint == op.fingerprint
    && entries[op.id].status.InFlight?
  }

  predicate UnfinishedOwn(entries: Entries, calls: map<nat, Call>) {
    forall c | c in calls && Unfinished(calls[c]) :: Owns(entries, calls[c].op.value)
  }

  predicate OneUnfinishedPerId(calls: map<nat, Call>) {
    forall c, d | c in calls && d in calls && Unfinished(calls[c]) && Unfinished(calls[d]) &&
                  calls[c].op.value.id == calls[d].op.value.id :: c == d
  }

  predicate Claims(calls: map<nat, Call>, c: nat, op: Op) {
    c in calls && calls[c].op == Some(op) && Unfinished(calls[c])
  }

  /** Only an unfinished call keeps an entry in flight. */
  ghost predicate InFlightIsClaimed(entries: Entries, calls: map<nat, Call>) {
    forall op | Owns(entries, op) :: exists c :: Claims(calls, c, op)
  }

  /** A call that got an answer to an operation, and what a later call gets to see of it. */
  predicate GaveAnswer(calls: map<nat, Call>, c: nat, op: Op, repeated: Outcome) {
    && c in calls
    && calls[c].op == Some(op)
    && calls[c].phase.Done?
    && calls[c].phase.final.Answer?
    && repeated == Replayed(calls[c].phase.final.outcome)
  }

  ghost predicate CompletedWasAnswered(entries: Entries, calls: map<nat, Call>) {
    forall id | id in entries && entries[id].status.Completed? ::
      exists c :: GaveAnswer(calls, c, Op(id, entries[id].fingerprint),
                              DecodeRecorded(entries[id].status.value))
  }

  ghost predicate RepeatsWereAnswered(calls: map<nat, Call>) {
    forall c | c in calls && calls[c].phase.Done? && calls[c].phase.final.Repeated? ::
      calls[c].op.Some? &&
      exists earlier :: GaveAnswer(calls, earlier, calls[c].op.value, calls[c].phase.final.outcome)
  }

  ghost predicate OwnersInv(entries: Entries, calls: map<nat, Call>) {
    && |entries| <= CAPACITY
    && UnfinishedOwn(entries, calls)
    && OneUnfinishedPerId(calls)
    && InFlightIsClaimed(entries, calls)
  }

  ghost predicate AnswersInv(entries: Entries, calls: map<nat, Call>) {
    CompletedWasAnswered(entries, calls) && RepeatsWereAnswered(calls)
  }

  ghost predicate LedgerInv(entries: Entries, calls: map<nat, Call>) {
    OwnersInv(entries, calls) && AnswersInv(entries, calls)
  }

  // ---- Every step keeps the ledger in order --------------------------------------------------

  // Answers are final, so changing a call that has not answered leaves them all in place.
  lemma AnswersStay(calls: map<nat, Call>, c: nat, call: Call)
    requires c in calls ==> !calls[c].phase.Done?
    ensures forall earlier, op, repeated | GaveAnswer(calls, earlier, op, repeated) ::
              GaveAnswer(calls[c := call], earlier, op, repeated)
  {}

  lemma ClaimsStay(calls: map<nat, Call>, c: nat, call: Call)
    requires c in calls ==> call.op == calls[c].op && Unfinished(call)
    ensures forall d, op | Claims(calls, d, op) :: Claims(calls[c := call], d, op)
  {}

  lemma MovingOn(entries: Entries, calls: map<nat, Call>, c: nat, phase: Phase)
    requires LedgerInv(entries, calls)
    requires c in calls && !calls[c].phase.Done? && !calls[c].phase.Cancelled?
    requires phase.Done? ==> calls[c].op.None? && !phase.final.Repeated?
    ensures LedgerInv(entries, calls[c := calls[c].(phase := phase)])
  {
    var call := calls[c].(phase := phase);
    AnswersStay(calls, c, call);
    hide GaveAnswer;
    if call.op.Some? {
      ClaimsStay(calls, c, call);
    } else {
      assert forall d, op | Claims(calls, d, op) :: Claims(calls[c := call], d, op);
    }
  }

  /** Only the entry of one id may differ, and it is not in flight any more. */
  ghost predicate LetsGo(entries: Entries, after: Entries, id: nat) {
    && (forall other | other != id :: other in after <==> other in entries)
    && (forall other | other != id && other in after :: after[other] == entries[other])
    && (id in after ==> !after[id].status.InFlight?)
  }

  lemma EndingKeepsOwners(entries: Entries, calls: map<nat, Call>, c: nat, after: Entries,
                          final: Final)
    requires OwnersInv(entries, calls) && c in calls && Unfinished(calls[c])
    requires LetsGo(entries, after, calls[c].op.value.id) && |after| <= CAPACITY
    ensures OwnersInv(after, calls[c := calls[c].(phase := Done(final))])
  {
    var op := calls[c].op.value;
    var calls' := calls[c := calls[c].(phase := Done(final))];
    assert Owns(entries, op);
    assert forall other | Owns(after, other) :: other.id != op.id && Owns(entries, other);
    assert forall d, other | Claims(calls, d, other) && other.id != op.id ::
        Claims(calls', d, other);
    forall d | d in calls' && Unfinished(calls'[d]) ensures Owns(after, calls'[d].op.value) {
      assert Owns(entries, calls[d].op.value);
    }
  }

  lemma EndingKeepsAnswers(entries: Entries, calls: map<nat, Call>, c: nat, after: Entries,
                           final: Final)
    requires AnswersInv(entries, calls) && c in calls && Unfinished(calls[c])
    requires LetsGo(entries, after, calls[c].op.value.id) && !final.Repeated?
    requires var op := calls[c].op.value;
             op.id in after && after[op.id].status.Completed? ==>
               after[op.id].fingerprint == op.fingerprint && final.Answer? &&
               DecodeRecorded(after[op.id].status.value) == Replayed(final.outcome)
    ensures AnswersInv(after, calls[c := calls[c].(phase := Done(final))])
  {
    hide DecodeRecorded, Replayed;
    var op := calls[c].op.value;
    var call := calls[c].(phase := Done(final));
    AnswersStay(calls, c, call);
    assert op.id in after && after[op.id].status.Completed? ==>
             GaveAnswer(calls[c := call], c, op, DecodeRecorded(after[op.id].status.value));
    hide GaveAnswer;
  }

  lemma SettlingKeeps(entries: Entries, calls: map<nat, Call>, c: nat, status: Status, now: Time,
                      final: Final)
    requires LedgerInv(entries, calls)
    requires c in calls && Unfinished(calls[c])
    requires !status.InFlight? && !final.Repeated?
    requires status.Completed? ==>
               final.Answer? && DecodeRecorded(status.value) == Replayed(final.outcome)
    ensures LedgerInv(Settled(entries, calls[c].op.value.id, status, now),
                      calls[c := calls[c].(phase := Done(final))])
  {
    var op := calls[c].op.value;
    var after := Settled(entries, op.id, status, now);
    assert Owns(entries, op);
    OthersKeepCapacity(entries, op.id, op.fingerprint, status, now);
    hide DecodeRecorded, Replayed;
    EndingKeepsOwners(entries, calls, c, after, final);
    EndingKeepsAnswers(entries, calls, c, after, final);
    hide OwnersInv, AnswersInv;
  }

  lemma AbandoningKeeps(entries: Entries, calls: map<nat, Call>, c: nat, failure: Failure)
    requires LedgerInv(entries, calls)
    requires c in calls && Unfinished(calls[c])
    ensures var op := calls[c].op.value;
            LedgerInv(Abandoned(entries, op.id, op.fingerprint),
                      calls[c := calls[c].(phase := Done(Failed(failure)))])
  {
    var op := calls[c].op.value;
    var after := Abandoned(entries, op.id, op.fingerprint);
    assert Owns(entries, op);
    OthersKeepCapacity(entries, op.id, op.fingerprint, Unclear, 0);
    hide DecodeRecorded, Replayed;
    EndingKeepsOwners(entries, calls, c, after, Failed(failure));
    EndingKeepsAnswers(entries, calls, c, after, Failed(failure));
    hide OwnersInv, AnswersInv;
  }

  /** An admission leaves every in-flight entry in flight, and adds at most its own. */
  lemma BegunOwners(entries: Entries, op: Op, now: Time)
    ensures var (after, admission) := Begun(entries, op.id, op.fingerprint, now, CAPACITY, TTL);
            && (forall other | Owns(entries, other) :: Owns(after, other))
            && (forall other | Owns(after, other) ::
                  Owns(entries, other) || (admission == Started && other == op))
            && (admission == Started ==>
                  Owns(after, op) && forall other | Owns(entries, other) :: other.id != op.id)
  {}

  lemma BeginKeepsOwners(entries: Entries, calls: map<nat, Call>, c: nat, op: Op,
                         pifLaunch: bool, now: Time)
    requires OwnersInv(entries, calls) && c !in calls
    ensures var (after, admission) :=
              Begun(entries, op.id, op.fingerprint, now, CAPACITY, TTL);
            OwnersInv(after, calls[c := Call(Some(op), pifLaunch, Refusal(admission))])
  {
    BegunOwners(entries, op, now);
    BeginKeepsCapacity(entries, op.id, op.fingerprint, now, CAPACITY, TTL);
    hide Begun, DecodeRecorded, Owns;
    var (after, admission) := Begun(entries, op.id, op.fingerprint, now, CAPACITY, TTL);
    var calls' := calls[c := Call(Some(op), pifLaunch, Refusal(admission))];
    assert forall d, other | Claims(calls, d, other) :: Claims(calls', d, other);
    assert admission == Started ==> Claims(calls', c, op);
  }

  lemma BeginKeepsAnswers(entries: Entries, calls: map<nat, Call>, c: nat, op: Op,
                          pifLaunch: bool, now: Time)
    requires AnswersInv(entries, calls) && c !in calls
    ensures var (after, admission) :=
              Begun(entries, op.id, op.fingerprint, now, CAPACITY, TTL);
            AnswersInv(after, calls[c := Call(Some(op), pifLaunch, Refusal(admission))])
  {
    var (after, admission) := Begun(entries, op.id, op.fingerprint, now, CAPACITY, TTL);
    var call := Call(Some(op), pifLaunch, Refusal(admission));
    var calls' := calls[c := call];
    AnswersStay(calls, c, call);
    hide GaveAnswer, DecodeRecorded;
    assert admission.Replay? ==>
             op.id in entries && entries[op.id].fingerprint == op.fingerprint &&
             entries[op.id].status == Completed(admission.value);
    forall id | id in after && after[id].status.Completed?
      ensures exists earlier :: GaveAnswer(calls', earlier, Op(id, after[id].fingerprint),
                                          DecodeRecorded(after[id].status.value))
    {
      assert id in entries && entries[id].status == after[id].status;
    }
  }

  lemma GivingUpKeeps(m: Machine, c: nat, failure: Failure)
    requires LedgerInv(m.entries, m.calls)
    requires c in m.calls && !m.calls[c].phase.Done? && !m.calls[c].phase.Cancelled?
    ensures var after := GivenUp(m, c, failure); LedgerInv(after.entries, after.calls)
  {
    if Unfinished(m.calls[c]) {
      SettlingKeeps(m.entries, m.calls, c, Unclear, m.now, Failed(failure));
      assert Owns(m.entries, m.calls[c].op.value);
    } else {
      MovingOn(m.entries, m.calls, c, Done(Failed(failure)));
    }
    hide LedgerInv, Remembered, Released, Settled;
  }

  lemma FinishKeeps(m: Machine, c: nat)
    requires LedgerInv(m.entries, m.calls) && Enabled(m, Finish(c))
    ensures var after := NextFinish(m, c); LedgerInv(after.entries, after.calls)
  {
    var call := m.calls[c];
    if call.phase.Broken? {
      GivingUpKeeps(m, c, ConnectionLost);
    } else if call.phase.response.request != c {
      GivingUpKeeps(m, c, Mismatched);
    } else {
      var outcome := OutcomeOf(call.phase.response.body, KindOf(call));
      PluginAnswersReplay(call.phase.response.body, KindOf(call));
      if Unfinished(call) {
        SettlingKeeps(m.entries, m.calls, c, Completed(EncodeRecorded(outcome)), m.now,
                      Answer(outcome));
        assert Owns(m.entries, call.op.value);
      } else {
        MovingOn(m.entries, m.calls, c, Done(Answer(outcome)));
      }
    }
    hide LedgerInv, GivenUp, Settled, OutcomeOf, EncodeRecorded, DecodeRecorded, Replayed;
  }

  lemma CheckReadyKeeps(m: Machine, c: nat)
    requires LedgerInv(m.entries, m.calls) && Enabled(m, CheckReady(c))
    ensures var after := NextCheckReady(m, c); LedgerInv(after.entries, after.calls)
  {
    var call := m.calls[c];
    if m.ready {
      MovingOn(m.entries, m.calls, c, Waiting);
    } else if call.op.None? {
      MovingOn(m.entries, m.calls, c, Done(Failed(NotReady)));
    } else {
      AbandoningKeeps(m.entries, m.calls, c, NotReady);
      AbandoningKeeps(m.entries, m.calls, c, LedgerFailed);
    }
    hide LedgerInv, Abandoned, Removable;
  }

  /** Every step, of whatever call and with whatever the plugin sends, keeps the ledger in order. */
  lemma LedgerStep(m: Machine, s: Step)
    requires LedgerInv(m.entries, m.calls)
    ensures LedgerInv(Next(m, s).entries, Next(m, s).calls)
  {
    hide GivenUp, NextFinish, NextCheckReady, Begun, LedgerInv, Refusal, Stops, Consumed;
    if Enabled(m, s) {
      match s
      case Tick(_) =>
      case Reply(_) =>
      case Begin(c, op, pifLaunch) =>
        if op.Some? {
          BeginStepKeeps(m, c, op.value, pifLaunch);
        } else {
          BeginReadKeeps(m, c, pifLaunch);
        }
      case CheckReady(c) => CheckReadyKeeps(m, c);
      case Lock(c) => MovingOn(m.entries, m.calls, c, Holding);
      case Write(c, _, ok) => MovingOn(m.entries, m.calls, c, if ok then Reading else Broken);
      case Read(c, ok) =>
        if !ok {
          MovingOn(m.entries, m.calls, c, Broken);
        } else {
          MovingOn(m.entries, m.calls, c, Answered(m.wire.fromPlugin[0]));
        }
      case Finish(c) => FinishKeeps(m, c);
      case TimeOut(c) => GivingUpKeeps(m, c, DeadlinePassed);
      case Cancel(c) => MovingOn(m.entries, m.calls, c, Cancelled);
    }
  }

  lemma BeginStepKeeps(m: Machine, c: nat, op: Op, pifLaunch: bool)
    requires LedgerInv(m.entries, m.calls) && c !in m.calls
    ensures var after := NextBegin(m, c, Some(op), pifLaunch);
            LedgerInv(after.entries, after.calls)
  {
    BeginKeepsOwners(m.entries, m.calls, c, op, pifLaunch, m.now);
    BeginKeepsAnswers(m.entries, m.calls, c, op, pifLaunch, m.now);
    hide OwnersInv, AnswersInv, Begun, Refusal;
  }

  lemma BeginReadKeeps(m: Machine, c: nat, pifLaunch: bool)
    requires LedgerInv(m.entries, m.calls) && c !in m.calls
    ensures LedgerInv(m.entries, m.calls[c := Call(None, pifLaunch, Admitted)])
  {
    var call := Call(None, pifLaunch, Admitted);
    AnswersStay(m.calls, c, call);
    hide GaveAnswer, DecodeRecorded;
    assert forall d, op | Claims(m.calls, d, op) :: Claims(m.calls[c := call], d, op);
  }

  lemma {:induction false} LedgerAfter(steps: seq<Step>)
    ensures LedgerInv(After(steps).entries, After(steps).calls)
  {
    hide Next, LedgerInv;
    if steps == [] {
      LedgerInitially();
    } else {
      LedgerAfter(steps[..|steps| - 1]);
      LedgerStep(After(steps[..|steps| - 1]), steps[|steps| - 1]);
    }
  }

  lemma LedgerInitially()
    ensures LedgerInv(INITIAL.entries, INITIAL.calls)
  {}
}
