/**
  At most one request frame per operation id: two frames of one mutation are only ever written
  when its ledger entry was left alone for a whole ttl in between.
 */
module AtMostOnce {
  import opened Options
  import opened Recorded
  import opened Ledger
  import opened Ipc
  import opened Admissions

  // ---- Quiet touches -------------------------------------------------------------------------

  /** Record k is a touch before which nothing happened to its id for at least a ttl. */
  predicate QuietAt(log: seq<Record>, k: nat) {
    && k < |log|
    && log[k].frame.None?
    && forall p | 0 <= p < k && log[p].id == log[k].id :: log[p].time + TTL <= log[k].time
  }

  ghost predicate QuietWithin(log: seq<Record>, id: nat, from: nat, to: nat) {
    exists k: nat :: from < k < to && QuietAt(log, k) && log[k].id == id
  }

  predicate FrameOf(log: seq<Record>, i: nat, id: nat) {
    i < |log| && log[i].id == id && log[i].frame.Some?
  }

  /** Between any two frames of one operation there was a quiet touch. */
  ghost predicate FramesAreApart(log: seq<Record>) {
    forall i: nat, j: nat, id: nat | i < j && FrameOf(log, i, id) && FrameOf(log, j, id) ::
      QuietWithin(log, id, i, j)
  }

  // ---- The invariant -------------------------------------------------------------------------

  predicate AllBy(log: seq<Record>, id: nat, time: Time) {
    forall p | 0 <= p < |log| && log[p].id == id :: log[p].time <= time
  }

  predicate AllOlder(log: seq<Record>, id: nat, now: Time) {
    forall p | 0 <= p < |log| && log[p].id == id :: log[p].time + TTL <= now
  }

  predicate NothingAhead(log: seq<Record>, now: Time) {
    forall p | 0 <= p < |log| :: log[p].time <= now
  }

  /** The touched time of a settled entry covers everything recorded for its id. */
  predicate SettledCovers(entries: Entries, log: seq<Record>) {
    forall id | id in entries && !entries[id].status.InFlight? :: AllBy(log, id, entries[id].touched)
  }

  /** A frame no quiet touch has followed is remembered by the ledger, unless its id is quiet. */
  ghost predicate FramesAreGuarded(entries: Entries, log: seq<Record>, now: Time) {
    forall i: nat, id: nat | FrameOf(log, i, id) ::
      QuietWithin(log, id, i, |log|) || id in entries || AllOlder(log, id, now)
  }

  predicate Unwritten(call: Call) {
    call.op.Some? && (call.phase.Admitted? || call.phase.Waiting? || call.phase.Holding?)
  }

  ghost predicate FramesAreBehind(log: seq<Record>, id: nat) {
    forall i: nat | FrameOf(log, i, id) :: QuietWithin(log, id, i, |log|)
  }

  /** A call that has yet to write its frame starts from a quiet id. */
  ghost predicate UnwrittenStartQuiet(log: seq<Record>, calls: map<nat, Call>) {
    forall c | c in calls && Unwritten(calls[c]) :: FramesAreBehind(log, calls[c].op.value.id)
  }

  ghost predicate LogInv(m: Machine) {
    && NothingAhead(m.log, m.now)
    && SettledCovers(m.entries, m.log)
    && FramesAreGuarded(m.entries, m.log, m.now)
    && UnwrittenStartQuiet(m.log, m.calls)
    && FramesAreApart(m.log)
  }

  // ---- Effects on the log --------------------------------------------------------------------

  lemma QuietStays(log: seq<Record>, r: Record)
    ensures forall k: nat | k < |log| :: QuietAt(log + [r], k) == QuietAt(log, k)
  {
    forall k: nat | k < |log| ensures QuietAt(log + [r], k) == QuietAt(log, k) {
      assert forall p | 0 <= p <= k :: (log + [r])[p] == log[p];
    }
  }

  lemma QuietWithinStays(log: seq<Record>, r: Record, id: nat, from: nat, to: nat)
    requires to <= |log|
    ensures QuietWithin(log + [r], id, from, to) == QuietWithin(log, id, from, to)
    ensures QuietWithin(log, id, from, to) ==> QuietWithin(log + [r], id, from, to + 1)
  {
    QuietStays(log, r);
    hide QuietAt;
    assert forall k: nat | k < |log| :: (log + [r])[k] == log[k];
  }

  /** A touch, quiet or not, keeps earlier frames where they were. */
  lemma TouchKeepsApart(log: seq<Record>, r: Record)
    requires FramesAreApart(log)
    requires r.frame.Some? ==> FramesAreBehind(log, r.id)
    ensures FramesAreApart(log + [r])
  {
    hide QuietWithin;
    forall i: nat, j: nat, id: nat
      | i < j && FrameOf(log + [r], i, id) && FrameOf(log + [r], j, id)
      ensures QuietWithin(log + [r], id, i, j)
    {
      assert FrameOf(log, i, id);
      QuietWithinStays(log, r, id, i, j);
      if j < |log| {
        assert FrameOf(log, j, id);
      }
    }
  }

  lemma BehindStays(log: seq<Record>, r: Record, id: nat)
    requires FramesAreBehind(log, id)
    requires r.id != id || r.frame.None?
    ensures FramesAreBehind(log + [r], id)
  {
    hide QuietWithin;
    forall i: nat | FrameOf(log + [r], i, id) ensures QuietWithin(log + [r], id, i, |log + [r]|) {
      assert FrameOf(log, i, id);
      QuietWithinStays(log, r, id, i, |log|);
    }
  }

  lemma QuietTouchPutsBehind(log: seq<Record>, id: nat, now: Time)
    requires AllOlder(log, id, now)
    ensures FramesAreBehind(Touching(log, id, now), id)
  {
    var after := Touching(log, id, now);
    assert QuietAt(after, |log|);
  }

  // ---- Steps that write nothing --------------------------------------------------------------

  lemma StillGuarded(entries: Entries, log: seq<Record>, now: Time, later: Time)
    requires FramesAreGuarded(entries, log, now) && now <= later
    ensures FramesAreGuarded(entries, log, later)
  {
    hide QuietWithin;
    forall i: nat, id: nat | FrameOf(log, i, id) && AllOlder(log, id, now)
      ensures AllOlder(log, id, later)
    {}
  }

  lemma StillQuiet(log: seq<Record>, calls: map<nat, Call>, c: nat, call: Call)
    requires UnwrittenStartQuiet(log, calls)
    requires Unwritten(call) ==> c in calls && Unwritten(calls[c]) && calls[c].op == call.op
    ensures UnwrittenStartQuiet(log, calls[c := call])
  {
    hide FramesAreBehind;
  }

  lemma AbandoningLog(m: Machine, c: nat)
    requires LedgerInv(m.entries, m.calls) && LogInv(m)
    requires c in m.calls && Unwritten(m.calls[c])
    ensures var op := m.calls[c].op.value;
            var entries := Abandoned(m.entries, op.id, op.fingerprint);
            SettledCovers(entries, m.log) && FramesAreGuarded(entries, m.log, m.now)
  {
    hide QuietWithin, AllOlder, AnswersInv, InFlightIsClaimed, OneUnfinishedPerId;
    var op := m.calls[c].op.value;
    assert FramesAreBehind(m.log, op.id);
  }

  // ---- Touches -------------------------------------------------------------------------------

  lemma TouchGuards(entries: Entries, log: seq<Record>, now: Time, id: nat, after: Entries)
    requires FramesAreGuarded(entries, log, now)
    requires id in after
    requires forall other | other in entries && other !in after :: AllOlder(log, other, now)
    ensures FramesAreGuarded(after, Touching(log, id, now), now)
  {
    hide QuietWithin;
    var r := Record(id, now, None);
    forall i: nat, other: nat | FrameOf(log + [r], i, other) && other !in after
      ensures QuietWithin(log + [r], other, i, |log| + 1) || AllOlder(log + [r], other, now)
    {
      assert FrameOf(log, i, other);
      QuietWithinStays(log, r, other, i, |log|);
      if AllOlder(log, other, now) {
        assert forall p | 0 <= p < |log| + 1 && (log + [r])[p].id == other :: (log + [r])[p] == log[p];
      }
    }
  }

  lemma PurgeGuards(entries: Entries, log: seq<Record>, now: Time)
    requires FramesAreGuarded(entries, log, now) && SettledCovers(entries, log)
    ensures forall id | id in entries && id !in Purged(entries, now, TTL) :: AllOlder(log, id, now)
    ensures SettledCovers(Purged(entries, now, TTL), log)
    ensures FramesAreGuarded(Purged(entries, now, TTL), log, now)
  {
    hide QuietWithin;
    forall id | id in entries && id !in Purged(entries, now, TTL) ensures AllOlder(log, id, now) {
      assert AllBy(log, id, entries[id].touched);
    }
  }

  lemma TouchCovers(entries: Entries, log: seq<Record>, id: nat, now: Time, after: Entries)
    requires SettledCovers(entries, log) && NothingAhead(log, now)
    requires forall other | other in after && other != id ::
               other in entries && after[other] == entries[other]
    requires id in after ==> after[id].status.InFlight? || after[id].touched == now
    ensures SettledCovers(after, Touching(log, id, now))
    ensures NothingAhead(Touching(log, id, now), now)
  {
    forall other | other in after && !after[other].status.InFlight?
      ensures AllBy(Touching(log, id, now), other, after[other].touched)
    {
      assert other != id ==> AllBy(log, other, entries[other].touched);
    }
  }

  lemma TouchKeepsQuiet(log: seq<Record>, calls: map<nat, Call>, id: nat, now: Time)
    requires UnwrittenStartQuiet(log, calls)
    ensures UnwrittenStartQuiet(Touching(log, id, now), calls)
  {
    hide FramesAreBehind;
    forall c | c in calls && Unwritten(calls[c])
      ensures FramesAreBehind(Touching(log, id, now), calls[c].op.value.id)
    {
      BehindStays(log, Record(id, now, None), calls[c].op.value.id);
    }
  }

  lemma SettlingLog(m: Machine, c: nat, status: Status, final: Final)
    requires LedgerInv(m.entries, m.calls) && LogInv(m)
    requires c in m.calls && Unfinished(m.calls[c])
    requires !status.InFlight?
    ensures LogInv(Moved(SettledIn(m, m.calls[c].op, status), c, Done(final)))
  {
    var op := m.calls[c].op.value;
    assert Owns(m.entries, op);
    var after := Settled(m.entries, op.id, status, m.now);
    TouchGuards(m.entries, m.log, m.now, op.id, after);
    TouchCovers(m.entries, m.log, op.id, m.now, after);
    TouchKeepsQuiet(m.log, m.calls, op.id, m.now);
    TouchKeepsApart(m.log, Record(op.id, m.now, None));
    StillQuiet(Touching(m.log, op.id, m.now), m.calls, c, m.calls[c].(phase := Done(final)));
    hide NothingAhead, SettledCovers, FramesAreGuarded, UnwrittenStartQuiet, FramesAreApart;
  }

  lemma StartsQuiet(entries: Entries, log: seq<Record>, now: Time, id: nat)
    requires FramesAreGuarded(entries, log, now) && id !in entries
    ensures FramesAreBehind(Touching(log, id, now), id)
  {
    hide QuietWithin;
    if AllOlder(log, id, now) {
      QuietTouchPutsBehind(log, id, now);
    } else {
      BehindStays(log, Record(id, now, None), id);
    }
  }

  lemma BeginLog(m: Machine, c: nat, op: Op, pifLaunch: bool)
    requires LogInv(m) && c !in m.calls
    ensures LogInv(NextBegin(m, c, Some(op), pifLaunch))
  {
    hide DecodeRecorded;
    var (after, admission) :=
      Begun(m.entries, op.id, op.fingerprint, m.now, CAPACITY, TTL);
    var kept := Purged(m.entries, m.now, TTL);
    var call := Call(Some(op), pifLaunch, Refusal(admission));
    PurgeGuards(m.entries, m.log, m.now);
    if admission == Full {
      StillQuiet(m.log, m.calls, c, call);
    } else {
      var log := Touching(m.log, op.id, m.now);
      TouchGuards(kept, m.log, m.now, op.id, after);
      TouchCovers(kept, m.log, op.id, m.now, after);
      TouchKeepsQuiet(m.log, m.calls, op.id, m.now);
      TouchKeepsApart(m.log, Record(op.id, m.now, None));
      if admission == Started {
        StartsQuiet(kept, m.log, m.now, op.id);
        AddQuiet(log, m.calls, c, call);
      } else {
        StillQuiet(log, m.calls, c, call);
      }
    }
    hide NothingAhead, SettledCovers, FramesAreGuarded, UnwrittenStartQuiet, FramesAreApart;
  }

  lemma AddQuiet(log: seq<Record>, calls: map<nat, Call>, c: nat, call: Call)
    requires UnwrittenStartQuiet(log, calls)
    requires Unwritten(call) ==> FramesAreBehind(log, call.op.value.id)
    ensures UnwrittenStartQuiet(log, calls[c := call])
  {
    hide FramesAreBehind;
  }

  // ---- The frame itself ----------------------------------------------------------------------

  lemma FrameGuards(entries: Entries, log: seq<Record>, now: Time, id: nat, c: nat)
    requires FramesAreGuarded(entries, log, now) && id in entries
    ensures FramesAreGuarded(entries, log + [Record(id, now, Some(c))], now)
  {
    hide QuietWithin;
    var r := Record(id, now, Some(c));
    forall i: nat, other: nat | FrameOf(log + [r], i, other) && other !in entries
      ensures QuietWithin(log + [r], other, i, |log| + 1) || AllOlder(log + [r], other, now)
    {
      assert FrameOf(log, i, other);
      QuietWithinStays(log, r, other, i, |log|);
      if AllOlder(log, other, now) {
        assert forall p | 0 <= p < |log| + 1 && (log + [r])[p].id == other :: (log + [r])[p] == log[p];
      }
    }
  }

  lemma FrameLeavesOthersQuiet(log: seq<Record>, calls: map<nat, Call>, c: nat, now: Time,
                               call: Call)
    requires UnwrittenStartQuiet(log, calls) && OneUnfinishedPerId(calls)
    requires c in calls && Unfinished(calls[c]) && !Unwritten(call)
    ensures UnwrittenStartQuiet(log + [Record(calls[c].op.value.id, now, Some(c))],
                                calls[c := call])
  {
    hide FramesAreBehind;
    var r := Record(calls[c].op.value.id, now, Some(c));
    forall d | d in calls && d != c && Unwritten(calls[d])
      ensures FramesAreBehind(log + [r], calls[d].op.value.id)
    {
      BehindStays(log, r, calls[d].op.value.id);
    }
  }

  lemma WriteLog(m: Machine, c: nat, delivered: bool, ok: bool)
    requires LedgerInv(m.entries, m.calls) && LogInv(m)
    requires Enabled(m, Write(c, delivered, ok))
    ensures LogInv(NextWrite(m, c, delivered, ok))
  {
    var call := m.calls[c].(phase := if ok then Reading else Broken);
    if delivered && call.op.Some? {
      var id := call.op.value.id;
      var r := Record(id, m.now, Some(c));
      assert Owns(m.entries, call.op.value);
      FrameGuards(m.entries, m.log, m.now, id, c);
      FrameLeavesOthersQuiet(m.log, m.calls, c, m.now, call);
      TouchKeepsApart(m.log, r);
      assert NothingAhead(m.log + [r], m.now);
      assert SettledCovers(m.entries, m.log + [r]) by {
        forall other | other in m.entries && !m.entries[other].status.InFlight?
          ensures AllBy(m.log + [r], other, m.entries[other].touched)
        {
          assert AllBy(m.log, other, m.entries[other].touched);
        }
      }
    } else {
      StillQuiet(m.log, m.calls, c, call);
    }
    hide NothingAhead, SettledCovers, FramesAreGuarded, UnwrittenStartQuiet, FramesAreApart;
  }

  // ---- Whole runs ----------------------------------------------------------------------------

  lemma MoveLog(m: Machine, c: nat, phase: Phase)
    requires LogInv(m) && c in m.calls
    requires !Unwritten(m.calls[c].(phase := phase)) || Unwritten(m.calls[c])
    ensures LogInv(Moved(m, c, phase))
  {
    StillQuiet(m.log, m.calls, c, m.calls[c].(phase := phase));
    hide NothingAhead, SettledCovers, FramesAreGuarded, UnwrittenStartQuiet, FramesAreApart;
  }

  lemma GivingUpLog(m: Machine, c: nat, failure: Failure)
    requires LedgerInv(m.entries, m.calls) && LogInv(m)
    requires c in m.calls && !m.calls[c].phase.Done? && !m.calls[c].phase.Cancelled?
    ensures LogInv(GivenUp(m, c, failure))
  {
    hide NothingAhead, SettledCovers, FramesAreGuarded, UnwrittenStartQuiet, FramesAreApart;
    hide LedgerInv, Remembered, Released, Settled;
    if Unfinished(m.calls[c]) {
      SettlingLog(m, c, Unclear, Failed(failure));
    } else {
      MoveLog(m, c, Done(Failed(failure)));
    }
  }

  lemma FinishLog(m: Machine, c: nat)
    requires LedgerInv(m.entries, m.calls) && LogInv(m) && Enabled(m, Finish(c))
    ensures LogInv(NextFinish(m, c))
  {
    hide LogInv, LedgerInv, GivenUp, SettledIn, OutcomeOf, EncodeRecorded;
    var call := m.calls[c];
    if call.phase.Broken? {
      GivingUpLog(m, c, ConnectionLost);
    } else if call.phase.response.request != c {
      GivingUpLog(m, c, Mismatched);
    } else {
      var outcome := OutcomeOf(call.phase.response.body, KindOf(call));
      MoveLog(m, c, Done(Failed(LedgerFailed)));
      if Unfinished(call) {
        SettlingLog(m, c, Completed(EncodeRecorded(outcome)), Answer(outcome));
      } else {
        NothingToSettle(m, Completed(EncodeRecorded(outcome)));
        MoveLog(m, c, Done(Answer(outcome)));
      }
    }
  }

  lemma NothingToSettle(m: Machine, status: Status)
    ensures SettledIn(m, None, status) == m
  {}

  lemma CheckReadyLog(m: Machine, c: nat)
    requires LedgerInv(m.entries, m.calls) && LogInv(m) && Enabled(m, CheckReady(c))
    ensures LogInv(NextCheckReady(m, c))
  {
    hide NothingAhead, SettledCovers, FramesAreGuarded, UnwrittenStartQuiet, FramesAreApart;
    hide LedgerInv, Abandoned, Removable;
    var call := m.calls[c];
    MoveLog(m, c, if m.ready then Waiting else Done(Failed(NotReady)));
    MoveLog(m, c, if m.ready then Waiting else Done(Failed(LedgerFailed)));
    if !m.ready && call.op.Some? {
      AbandoningLog(m, c);
    }
  }

  lemma OthersLog(m: Machine, s: Step)
    requires LogInv(m) && Enabled(m, s)
    requires s.Tick? || s.Reply? || s.Lock? || s.Read? || s.Cancel? || (s.Begin? && s.op.None?)
    ensures LogInv(Next(m, s))
  {
    hide SettledCovers, UnwrittenStartQuiet, FramesAreApart, FramesAreGuarded;
    hide Stops, Consumed, Remembered, Released;
    if s.Tick? {
      StillGuarded(m.entries, m.log, m.now, m.now + s.elapsed);
    } else if s.Begin? {
      StillQuiet(m.log, m.calls, s.call, Call(None, s.pifLaunch, Admitted));
    } else if s.Lock? {
      MoveLog(m, s.call, Holding);
    } else if s.Cancel? {
      MoveLog(m, s.call, Cancelled);
    } else if s.Read? {
      MoveLog(m, s.call, if s.ok then Answered(m.wire.fromPlugin[0]) else Broken);
    }
  }

  lemma LogStep(m: Machine, s: Step)
    requires LedgerInv(m.entries, m.calls) && LogInv(m)
    ensures LogInv(Next(m, s))
  {
    hide LedgerInv, LogInv, GivenUp, NextFinish, NextCheckReady, NextBegin, NextWrite;
    if Enabled(m, s) {
      if s.Begin? && s.op.Some? {
        BeginLog(m, s.call, s.op.value, s.pifLaunch);
      } else if s.CheckReady? {
        CheckReadyLog(m, s.call);
      } else if s.Write? {
        WriteLog(m, s.call, s.delivered, s.ok);
      } else if s.Finish? {
        FinishLog(m, s.call);
      } else if s.TimeOut? {
        GivingUpLog(m, s.call, DeadlinePassed);
      } else {
        OthersLog(m, s);
      }
    }
  }

  lemma {:induction false} LogAfter(steps: seq<Step>)
    ensures LogInv(After(steps))
  {
    hide Next, LedgerInv, LogInv;
    if steps == [] {
      LogInitially();
    } else {
      LogAfter(steps[..|steps| - 1]);
      LedgerAfter(steps[..|steps| - 1]);
      LogStep(After(steps[..|steps| - 1]), steps[|steps| - 1]);
    }
  }

  lemma LogInitially()
    ensures LogInv(INITIAL)
  {}

  /**
    For every interleaving of calls, cancelled or not: when two request frames were written for one
    operation id, some touch of its entry between them came at least a ttl after everything that
    had happened to the id before, the earlier frame included.
   */
  lemma FramesNeedAQuietTtl(steps: seq<Step>, i: nat, j: nat)
    requires i < j < |After(steps).log|
    requires After(steps).log[i].id == After(steps).log[j].id
    requires After(steps).log[i].frame.Some? && After(steps).log[j].frame.Some?
    ensures var log := After(steps).log;
            exists k :: i < k < j && log[k].id == log[i].id && log[k].frame.None? &&
                        forall p | 0 <= p < k && log[p].id == log[i].id ::
                          log[p].time + TTL <= log[k].time
  {
    hide Next, LedgerInv;
    LogAfter(steps);
    var log := After(steps).log;
    var id := log[i].id;
    assert FrameOf(log, i, id) && FrameOf(log, j, id);
    var k: nat :| i < k < j && QuietAt(log, k) && log[k].id == id;
  }
}
