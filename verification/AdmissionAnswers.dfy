/**
  What a mutation is told when it arrives, by what has happened to its operation id: which call of
  the id was the last to be admitted, how it ended, and when the id was last used.
 */
module AdmissionAnswers {
  import opened Options
  import opened Recorded
  import opened Ledger
  import opened Ipc
  import opened Admissions
  import opened CallResults

  // ---- The history of an operation id --------------------------------------------------------

  /** The step admits call c to the operation id. */
  predicate AdmitsTo(m: Machine, s: Step, id: nat) {
    s.Begin? && s.op.Some? && s.op.value.id == id && s.call !in m.calls &&
    Next(m, s).calls[s.call].phase.Admitted?
  }

  /** The call of the id that was admitted last. */
  ghost function LastAdmitted(steps: seq<Step>, id: nat): Option<nat> {
    if steps == [] then None
    else
      var before, s := steps[..|steps| - 1], steps[|steps| - 1];
      if AdmitsTo(After(before), s, id) then Some(s.call) else LastAdmitted(before, id)
  }

  /** A call of the id arrives and does not find the ledger full, or one ends, at this step. */
  predicate Uses(m: Machine, s: Step, id: nat) {
    match s
    case Begin(c, op, _) =>
      op.Some? && op.value.id == id && c !in m.calls &&
      Next(m, s).calls[c].phase != Done(Failed(LedgerFull))
    case Finish(c) => Enabled(m, s) && m.calls[c].op.Some? && m.calls[c].op.value.id == id
    case TimeOut(c) => Enabled(m, s) && m.calls[c].op.Some? && m.calls[c].op.value.id == id
    case _ => false
  }

  ghost function LastUsed(steps: seq<Step>, id: nat): Time {
    if steps == [] then 0
    else
      var before, s := steps[..|steps| - 1], steps[|steps| - 1];
      if Uses(After(before), s, id) then After(before).now else LastUsed(before, id)
  }

  /** The call is unfinished, or it ended otherwise than unstarted and the id was used within a ttl. */
  predicate Remembers(calls: map<nat, Call>, now: Time, admitted: Option<nat>, used: Time) {
    admitted.Some? && admitted.value in calls &&
    (!calls[admitted.value].phase.Done? ||
     (calls[admitted.value].phase != Done(Failed(NotReady)) && now - used < 600_000))
  }

  /** Whether the operation id is still known. */
  ghost predicate Lives(steps: seq<Step>, id: nat) {
    Remembers(After(steps).calls, After(steps).now, LastAdmitted(steps, id), LastUsed(steps, id))
  }

  ghost function AdmittedIds(steps: seq<Step>): set<nat> {
    if steps == [] then {}
    else
      var s := steps[|steps| - 1];
      AdmittedIds(steps[..|steps| - 1]) + if s.Begin? && s.op.Some? then {s.op.value.id} else {}
  }

  ghost function Living(steps: seq<Step>): set<nat> {
    set id | id in AdmittedIds(steps) && Lives(steps, id)
  }

  // ---- The ledger agrees with it -------------------------------------------------------------

  /** How an entry reads when its call has come this far. */
  predicate Stands(status: Status, phase: Phase) {
    match status
    case InFlight => !phase.Done?
    case Completed(value) =>
      phase.Done? && phase.final.Answer? && DecodeRecorded(value) == Replayed(phase.final.outcome)
    case Unclear =>
      phase in {Done(Failed(ConnectionLost)), Done(Failed(DeadlinePassed)), Done(Failed(Mismatched))}
  }

  /** The entry of an id, or its absence, is what the history of the id says. */
  predicate Agrees(entries: Entries, calls: map<nat, Call>, now: Time, id: nat,
                   admitted: Option<nat>, used: Time)
  {
    && (admitted.Some? ==>
          admitted.value in calls && calls[admitted.value].op.Some? &&
          calls[admitted.value].op.value.id == id)
    && used <= now
    && if id in entries then
         && admitted.Some?
         && calls[admitted.value].op == Some(Op(id, entries[id].fingerprint))
         && entries[id].touched == used
         && Stands(entries[id].status, calls[admitted.value].phase)
       else
         admitted.Some? ==>
           && calls[admitted.value].phase.Done?
           && (calls[admitted.value].phase == Done(Failed(NotReady)) || now - used >= TTL)
  }

  // Nothing of the id's business.
  lemma AgreesStill(entries: Entries, calls: map<nat, Call>, now: Time, id: nat,
                    admitted: Option<nat>, used: Time, after: Entries, calls': map<nat, Call>,
                    later: Time)
    requires Agrees(entries, calls, now, id, admitted, used) && now <= later
    requires admitted.Some? && id in entries ==>
               admitted.value in calls' &&
               calls'[admitted.value].op == calls[admitted.value].op &&
               (calls'[admitted.value].phase == calls[admitted.value].phase ||
                (!calls'[admitted.value].phase.Done? && !calls[admitted.value].phase.Done?))
    requires admitted.Some? && id !in entries ==>
               admitted.value in calls' && calls'[admitted.value] == calls[admitted.value]
    requires id in after ==> id in entries && after[id] == entries[id]
    requires id in entries && id !in after ==>
               !entries[id].status.InFlight? && later - entries[id].touched >= TTL
    ensures Agrees(after, calls', later, id, admitted, used)
  {
    hide DecodeRecorded, Replayed;
  }

  /** An admission, refused or not, as the id itself sees it. */
  lemma BeginAgrees(m: Machine, c: nat, op: Op, pifLaunch: bool, admitted: Option<nat>, used: Time)
    requires Agrees(m.entries, m.calls, m.now, op.id, admitted, used) && c !in m.calls
    ensures var s := Begin(c, Some(op), pifLaunch);
            var after := Next(m, s);
            Agrees(after.entries, after.calls, after.now, op.id,
                   if AdmitsTo(m, s, op.id) then Some(c) else admitted,
                   if Uses(m, s, op.id) then m.now else used)
  {
    hide DecodeRecorded, Replayed;
  }

  // An admission as another id sees it: it may be purged.
  lemma BeginAgreesElsewhere(m: Machine, c: nat, op: Op, pifLaunch: bool, id: nat,
                             admitted: Option<nat>, used: Time)
    requires Agrees(m.entries, m.calls, m.now, id, admitted, used) && c !in m.calls && id != op.id
    ensures var after := Next(m, Begin(c, Some(op), pifLaunch));
            Agrees(after.entries, after.calls, after.now, id, admitted, used)
  {
    hide DecodeRecorded, Agrees;
    var after := Next(m, Begin(c, Some(op), pifLaunch));
    AgreesFacts(m.entries, m.calls, m.now, id, admitted, used);
    AgreesStill(m.entries, m.calls, m.now, id, admitted, used, after.entries, after.calls, m.now);
  }

  lemma AgreesFacts(entries: Entries, calls: map<nat, Call>, now: Time, id: nat,
                    admitted: Option<nat>, used: Time)
    requires Agrees(entries, calls, now, id, admitted, used)
    ensures admitted.Some? ==> admitted.value in calls && calls[admitted.value].op.Some? &&
                               calls[admitted.value].op.value.id == id
    ensures id in entries ==> entries[id].touched <= now
    ensures id in entries ==> admitted.Some? &&
                              (entries[id].status.InFlight? <==> !calls[admitted.value].phase.Done?)
    ensures id !in entries && admitted.Some? ==> calls[admitted.value].phase.Done?
  {
    hide DecodeRecorded, Replayed;
  }

  /** The call that holds an id is the one that was admitted last. */
  lemma HolderIsLast(m: Machine, c: nat, id: nat, admitted: Option<nat>, used: Time)
    requires LedgerInv(m.entries, m.calls) && Agrees(m.entries, m.calls, m.now, id, admitted, used)
    requires c in m.calls && Unfinished(m.calls[c]) && m.calls[c].op.value.id == id
    ensures admitted == Some(c) && id in m.entries && m.entries[id].status.InFlight?
  {
    AgreesFacts(m.entries, m.calls, m.now, id, admitted, used);
    hide AnswersInv, Agrees, InFlightIsClaimed;
    assert Owns(m.entries, m.calls[c].op.value);
  }

  lemma FinishAgrees(m: Machine, c: nat, admitted: Option<nat>, used: Time)
    requires LedgerInv(m.entries, m.calls) && Enabled(m, Finish(c)) && m.calls[c].op.Some?
    requires Agrees(m.entries, m.calls, m.now, m.calls[c].op.value.id, admitted, used)
    ensures var after := Next(m, Finish(c));
            Agrees(after.entries, after.calls, after.now, m.calls[c].op.value.id, admitted, m.now)
  {
    HolderIsLast(m, c, m.calls[c].op.value.id, admitted, used);
    if m.calls[c].phase.Answered? {
      PluginAnswersReplay(m.calls[c].phase.response.body, KindOf(m.calls[c]));
    }
    hide LedgerInv, OutcomeOf, EncodeRecorded, DecodeRecorded, Replayed, Remembered, Released;
  }

  lemma TimeOutAgrees(m: Machine, c: nat, admitted: Option<nat>, used: Time)
    requires LedgerInv(m.entries, m.calls) && Enabled(m, TimeOut(c)) && m.calls[c].op.Some?
    requires Agrees(m.entries, m.calls, m.now, m.calls[c].op.value.id, admitted, used)
    ensures var after := Next(m, TimeOut(c));
            Agrees(after.entries, after.calls, after.now, m.calls[c].op.value.id, admitted, m.now)
  {
    HolderIsLast(m, c, m.calls[c].op.value.id, admitted, used);
    hide LedgerInv, DecodeRecorded, Replayed, Remembered, Released;
  }

  lemma CheckReadyAgrees(m: Machine, c: nat, admitted: Option<nat>, used: Time)
    requires LedgerInv(m.entries, m.calls) && Enabled(m, CheckReady(c)) && m.calls[c].op.Some?
    requires Agrees(m.entries, m.calls, m.now, m.calls[c].op.value.id, admitted, used)
    ensures var after := Next(m, CheckReady(c));
            Agrees(after.entries, after.calls, after.now, m.calls[c].op.value.id, admitted, used)
  {
    HolderIsLast(m, c, m.calls[c].op.value.id, admitted, used);
    assert Owns(m.entries, m.calls[c].op.value);
    hide LedgerInv, DecodeRecorded, Replayed;
  }

  /** What a step does to the entries of the ids that it is not about. */
  lemma OthersUntouched(m: Machine, s: Step, id: nat)
    requires !(s.Begin? && s.op.Some?)
    requires Mover(s).Some? && Mover(s).value in m.calls && m.calls[Mover(s).value].op.Some? ==>
               m.calls[Mover(s).value].op.value.id != id
    ensures id in Next(m, s).entries <==> id in m.entries
    ensures id in m.entries ==> Next(m, s).entries[id] == m.entries[id]
    ensures m.now <= Next(m, s).now
  {
    hide OutcomeOf, EncodeRecorded, Remembered, Released, Stops, Consumed, Touching;
  }

  // Moving a call along without ending it changes no entry.
  lemma MovesAlong(m: Machine, s: Step)
    requires s.Lock? || s.Write? || s.Read? || s.Cancel? || s.Tick? || s.Reply?
    ensures Next(m, s).entries == m.entries && m.now <= Next(m, s).now
    ensures forall c | c in m.calls && c in Next(m, s).calls ::
              Next(m, s).calls[c].phase == m.calls[c].phase ||
              (!Next(m, s).calls[c].phase.Done? && !m.calls[c].phase.Done?)
  {
    hide Remembered, Released, Stops, Consumed;
  }

  lemma AgreesStep(m: Machine, s: Step, id: nat, admitted: Option<nat>, used: Time)
    requires LedgerInv(m.entries, m.calls) && Agrees(m.entries, m.calls, m.now, id, admitted, used)
    ensures var after := Next(m, s);
            Agrees(after.entries, after.calls, after.now, id,
                   if AdmitsTo(m, s, id) then Some(s.call) else admitted,
                   if Uses(m, s, id) then m.now else used)
  {
    hide LedgerInv, Agrees, NextBegin, NextCheckReady, NextFinish, NextRead, NextWrite, GivenUp;
    hide NextCancel, Stops;
    AgreesFacts(m.entries, m.calls, m.now, id, admitted, used);
    if Enabled(m, s) {
      if s.Begin? && s.op.Some? {
        if s.op.value.id == id {
          BeginAgrees(m, s.call, s.op.value, s.pifLaunch, admitted, used);
        } else {
          BeginAgreesElsewhere(m, s.call, s.op.value, s.pifLaunch, id, admitted, used);
        }
      } else if Mover(s).Some? && Mover(s).value in m.calls &&
                m.calls[Mover(s).value].op.Some? && m.calls[Mover(s).value].op.value.id == id &&
                (s.Finish? || s.TimeOut? || s.CheckReady?) {
        match s {
          case Finish(c) => FinishAgrees(m, c, admitted, used);
          case TimeOut(c) => TimeOutAgrees(m, c, admitted, used);
          case CheckReady(c) => CheckReadyAgrees(m, c, admitted, used);
        }
      } else {
        RestAgrees(m, s, id, admitted, used);
      }
    }
  }

  lemma RestAgrees(m: Machine, s: Step, id: nat, admitted: Option<nat>, used: Time)
    requires Agrees(m.entries, m.calls, m.now, id, admitted, used) && Enabled(m, s)
    requires !(s.Begin? && s.op.Some?)
    requires Mover(s).Some? && Mover(s).value in m.calls && m.calls[Mover(s).value].op.Some? &&
             m.calls[Mover(s).value].op.value.id == id ==>
               !s.Finish? && !s.TimeOut? && !s.CheckReady?
    ensures var after := Next(m, s);
            Agrees(after.entries, after.calls, after.now, id, admitted, used)
  {
    hide Agrees, Next;
    AgreesFacts(m.entries, m.calls, m.now, id, admitted, used);
    var after := Next(m, s);
    if admitted.Some? {
      OthersStay(m, s, admitted.value);
    }
    if s.Lock? || s.Write? || s.Read? || s.Cancel? || s.Tick? || s.Reply? {
      MovesAlong(m, s);
    } else {
      OthersUntouched(m, s, id);
    }
    AgreesStill(m.entries, m.calls, m.now, id, admitted, used, after.entries, after.calls, after.now);
  }

  /** In every run the ledger says of every id what its history says. */
  lemma {:induction false} LedgerIsHistory(steps: seq<Step>, id: nat)
    ensures var m := After(steps);
            Agrees(m.entries, m.calls, m.now, id, LastAdmitted(steps, id), LastUsed(steps, id))
  {
    hide Next, Agrees, LedgerInv, AdmitsTo, Uses;
    if steps == [] {
      InitiallyAgrees(id);
    } else {
      var before := steps[..|steps| - 1];
      LedgerIsHistory(before, id);
      LedgerAfter(before);
      AgreesStep(After(before), steps[|steps| - 1], id, LastAdmitted(before, id),
                 LastUsed(before, id));
    }
  }

  lemma InitiallyAgrees(id: nat)
    ensures Agrees(INITIAL.entries, INITIAL.calls, INITIAL.now, id, None, 0)
  {}

  // ---- What a mutation is told ---------------------------------------------------------------

  /** The same answer but for the message of an error. */
  predicate SameButMessage(repeated: Outcome, original: Outcome) {
    if original.Ok? then repeated == original
    else
      && repeated.Err?
      && repeated.error.message == "replayed debugger operation result"
      && repeated.error.code == original.error.code
      && repeated.error.recoverable == original.error.recoverable
      && repeated.error.safeToRetry == original.error.safeToRetry
      && repeated.error.suggestedAction == original.error.suggestedAction
      && repeated.error.nextActions == original.error.nextActions
      && repeated.error.details == original.error.details
  }

  // An id that lives is one whose entry survives the purge.
  lemma LivesExactly(steps: seq<Step>, id: nat)
    ensures Lives(steps, id) <==> id in Purged(After(steps).entries, After(steps).now, TTL)
    ensures Lives(steps, id) ==> id in AdmittedIds(steps)
  {
    hide After, DecodeRecorded, Replayed;
    LedgerIsHistory(steps, id);
    AdmittedIsKnown(steps, id);
  }

  lemma {:induction false} AdmittedIsKnown(steps: seq<Step>, id: nat)
    ensures LastAdmitted(steps, id).Some? ==> id in AdmittedIds(steps)
  {
    hide Next;
    if steps != [] {
      AdmittedIsKnown(steps[..|steps| - 1], id);
    }
  }

  lemma LivingIsKept(steps: seq<Step>)
    ensures Living(steps) == Purged(After(steps).entries, After(steps).now, TTL).Keys
  {
    hide After, Lives, AdmittedIds, Purged;
    forall id ensures id in Living(steps) <==>
                      id in Purged(After(steps).entries, After(steps).now, TTL) {
      LivesExactly(steps, id);
    }
  }

  /** The answer, from the entry that survives the purge or from its absence. */
  lemma BegunAnswers(m: Machine, c: nat, op: Op, pifLaunch: bool, admitted: Option<nat>, used: Time)
    requires Agrees(m.entries, m.calls, m.now, op.id, admitted, used) && c !in m.calls
    ensures var phase := Next(m, Begin(c, Some(op), pifLaunch)).calls[c].phase;
            var kept := Purged(m.entries, m.now, TTL);
            if op.id !in kept then
              phase == if |kept.Keys| >= 1024 then Done(Failed(LedgerFull)) else Admitted
            else
              && admitted.Some? && admitted.value in m.calls
              && var earlier := m.calls[admitted.value];
                 if earlier.op != Some(op) then phase == Done(Failed(IdConflict))
                 else if !earlier.phase.Done? then phase == Done(Failed(Busy))
                 else if earlier.phase.final.Answer? then
                   && phase.Done? && phase.final.Repeated?
                   && SameButMessage(phase.final.outcome, earlier.phase.final.outcome)
                 else
                   && phase == Done(Failed(OutcomeIsUnknown))
                   && earlier.phase.final.Failed?
                   && earlier.phase.final.failure in {ConnectionLost, DeadlinePassed, Mismatched}
  {
    hide DecodeRecorded;
    assert |Purged(m.entries, m.now, TTL).Keys| == |Purged(m.entries, m.now, TTL)|;
  }

  /**
    What a mutation is told when it arrives, in every run. If its id is still known: that the id is
    taken, if the call that was admitted last had other arguments; that it is busy, if that call is
    not done; its answer, if it got one; and that the outcome is unknown if it lost touch. If not:
    that the ledger is full, if 1024 other ids are known, and else it is admitted.
   */
  lemma BeginAnswers(steps: seq<Step>, c: nat, op: Op, pifLaunch: bool)
    requires c !in After(steps).calls
    ensures var m, after := After(steps), After(steps + [Begin(c, Some(op), pifLaunch)]);
            c in after.calls &&
            var phase := after.calls[c].phase;
            if !Lives(steps, op.id) then
              phase == if |Living(steps)| >= 1024 then Done(Failed(LedgerFull)) else Admitted
            else
              var earlier := m.calls[LastAdmitted(steps, op.id).value];
              if earlier.op != Some(op) then phase == Done(Failed(IdConflict))
              else if !earlier.phase.Done? then phase == Done(Failed(Busy))
              else if earlier.phase.final.Answer? then
                && phase.Done? && phase.final.Repeated?
                && SameButMessage(phase.final.outcome, earlier.phase.final.outcome)
              else
                && phase == Done(Failed(OutcomeIsUnknown))
                && earlier.phase.final.Failed?
                && earlier.phase.final.failure in {ConnectionLost, DeadlinePassed, Mismatched}
  {
    var m, s := After(steps), Begin(c, Some(op), pifLaunch);
    assert (steps + [s])[..|steps|] == steps;
    assert After(steps + [s]) == Next(m, s);
    assert c in Next(m, s).calls by { hide Begun, Refusal; }
    LedgerIsHistory(steps, op.id);
    LivesExactly(steps, op.id);
    LivingIsKept(steps);
    hide After, Next, Agrees, Lives, Living, Purged, SameButMessage;
    BegunAnswers(m, c, op, pifLaunch, LastAdmitted(steps, op.id), LastUsed(steps, op.id));
  }

  /** A mutation is told it is busy if and only if an unfinished call has the same operation. */
  lemma BusyExactly(steps: seq<Step>, c: nat, op: Op, pifLaunch: bool)
    requires c !in After(steps).calls
    ensures var m, after := After(steps), After(steps + [Begin(c, Some(op), pifLaunch)]);
            c in after.calls &&
            (after.calls[c].phase == Done(Failed(Busy)) <==>
             exists d :: d in m.calls && m.calls[d].op == Some(op) && !m.calls[d].phase.Done?)
  {
    hide After, LedgerInv, AnswersInv, SameButMessage;
    var m := After(steps);
    BeginAnswers(steps, c, op, pifLaunch);
    LedgerAfter(steps);
    LedgerIsHistory(steps, op.id);
    forall d | d in m.calls && m.calls[d].op == Some(op) && !m.calls[d].phase.Done?
      ensures Lives(steps, op.id) && LastAdmitted(steps, op.id) == Some(d)
    {
      HolderIsLast(m, d, op.id, LastAdmitted(steps, op.id), LastUsed(steps, op.id));
      LivesExactly(steps, op.id);
    }
  }
}
