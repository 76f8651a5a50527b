/**
  The ring of abandoned request ids of crates/server/src/ipc_adapter.rs: which ids it holds in every
  run, whatever the plugin does, and exactly when it has had to forget one.
 */
module RequestMemory {
  import opened Options
  import opened Recorded
  import opened Ledger
  import opened Ipc
  import opened Identifiers

  lemma RememberKeeps(w: Wire, c: nat)
    requires Distinct(w.ring) && c !in w.ring && c !in w.lost
    requires forall id | id in w.ring :: id !in w.lost
    ensures Distinct(Remembered(w, c).ring)
    ensures forall id | id in Remembered(w, c).ring :: id !in Remembered(w, c).lost
    ensures forall id :: id in Remembered(w, c).ring || id in Remembered(w, c).lost <==>
                         id in w.ring || id in w.lost || id == c
  {
    if |w.ring| == RING {
      var rest := w.ring[1..];
      assert w.ring == [w.ring[0]] + rest;
      assert forall i | 0 <= i < |rest| :: rest[i] == w.ring[i + 1];
    }
  }

  lemma ConsumeRemoves(ring: seq<nat>, id: nat)
    requires Distinct(ring)
    ensures Distinct(Consumed(ring, id))
    ensures forall other :: other in Consumed(ring, id) <==> other in ring && other != id
  {
    var k := Position(ring, id);
    hide Position;
    if k < |ring| {
      var rest := Consumed(ring, id);
      assert forall i | 0 <= i < |rest| :: rest[i] == if i < k then ring[i] else ring[i + 1];
      forall j | 0 <= j < |ring| && j != k ensures ring[j] in rest {
        assert rest[if j < k then j else j - 1] == ring[j];
      }
    }
  }

  // ---- Which ids the ring holds --------------------------------------------------------------

  /** A call whose caller has stopped waiting for it without its answer. */
  predicate GaveUp(phase: Phase) {
    phase.Cancelled? ||
    (phase.Done? && phase.final.Failed? &&
     phase.final.failure in {ConnectionLost, DeadlinePassed, Mismatched})
  }

  /** The step reads a response of an abandoned request and drops it. */
  predicate Drains(m: Machine, s: Step) {
    s.Read? && s.ok && Enabled(m, s) &&
    !Stops(m.wire.ring, s.call, m.wire.fromPlugin[0].request)
  }

  ghost function DrainedIds(steps: seq<Step>): set<nat> {
    if steps == [] then {}
    else
      var before, s := steps[..|steps| - 1], steps[|steps| - 1];
      DrainedIds(before) +
      if Drains(After(before), s) then {After(before).wire.fromPlugin[0].request} else {}
  }

  /** The given-up calls whose responses have not been read and dropped. */
  ghost function Awaited(steps: seq<Step>): set<nat> {
    set c | c in After(steps).calls && GaveUp(After(steps).calls[c].phase) &&
            c !in DrainedIds(steps)
  }

  ghost predicate Remembers(m: Machine, drained: set<nat>) {
    && Distinct(m.wire.ring) && |m.wire.ring| <= RING
    && (forall c | c in m.wire.ring :: c !in m.wire.lost)
    && (forall c :: c in m.wire.ring || c in m.wire.lost <==>
                    c in m.calls && GaveUp(m.calls[c].phase) && c !in drained)
    && (forall c | c in drained :: c in m.calls && GaveUp(m.calls[c].phase))
  }

  lemma GivingUpRemembers(m: Machine, c: nat, after: Machine, drained: set<nat>)
    requires Remembers(m, drained) && c in m.calls && !GaveUp(m.calls[c].phase)
    requires after.calls.Keys == m.calls.Keys && GaveUp(after.calls[c].phase)
    requires forall d | d in m.calls && d != c :: after.calls[d] == m.calls[d]
    requires after.wire == Remembered(Released(m.wire, c), c)
    ensures Remembers(after, drained)
  {
    hide GaveUp, Distinct;
    RememberKeeps(Released(m.wire, c), c);
  }

  lemma DrainingRemembers(m: Machine, s: Step, drained: set<nat>)
    requires Remembers(m, drained) && Drains(m, s)
    ensures Remembers(Next(m, s), drained + {m.wire.fromPlugin[0].request})
  {
    ConsumeRemoves(m.wire.ring, m.wire.fromPlugin[0].request);
    hide GaveUp, Distinct, Consumed;
  }

  /** Steps that neither give up nor drain leave the ring and the given-up calls alone. */
  lemma OthersRemember(m: Machine, after: Machine, drained: set<nat>)
    requires Remembers(m, drained)
    requires after.wire.ring == m.wire.ring && after.wire.lost == m.wire.lost
    requires forall c | c in m.calls ::
               c in after.calls && GaveUp(after.calls[c].phase) == GaveUp(m.calls[c].phase)
    requires forall c | c in after.calls && c !in m.calls :: !GaveUp(after.calls[c].phase)
    ensures Remembers(after, drained)
  {
    hide GaveUp, Distinct;
  }

  predicate Plain(m: Machine, s: Step) {
    !Drains(m, s) && !s.TimeOut? && !s.Cancel? && !s.Finish?
  }

  // Only giving up and draining touch the ring.
  lemma RingUntouched(m: Machine, s: Step)
    requires Plain(m, s)
    ensures Next(m, s).wire.ring == m.wire.ring && Next(m, s).wire.lost == m.wire.lost
  {
    hide Begun, DecodeRecorded, Abandoned, Removable, Consumed, Touching;
  }

  lemma NobodyGivesUp(m: Machine, s: Step, c: nat)
    requires Plain(m, s)
    ensures c in m.calls ==>
              c in Next(m, s).calls && GaveUp(Next(m, s).calls[c].phase) == GaveUp(m.calls[c].phase)
    ensures c in Next(m, s).calls && c !in m.calls ==> !GaveUp(Next(m, s).calls[c].phase)
  {
    hide Begun, DecodeRecorded, Abandoned, Removable, Consumed, Touching, Released, Stops;
    hide OutcomeOf, EncodeRecorded, Settled, Remembered, NextReply;
  }

  lemma RememberingStep(m: Machine, s: Step, drained: set<nat>)
    requires Remembers(m, drained)
    ensures Remembers(Next(m, s), drained +
                      if Drains(m, s) then {m.wire.fromPlugin[0].request} else {})
  {
    hide Remembers, NextFinish, NextRead, NextBegin, NextCheckReady, NextWrite, NextReply;
    hide Remembered, Released, Settled, Touching;
    assert drained + {} == drained;
    if Drains(m, s) {
      DrainingRemembers(m, s, drained);
    } else if s.TimeOut? || s.Cancel? {
      if Enabled(m, s) {
        GivingUpRemembers(m, s.call, Next(m, s), drained);
      }
    } else if s.Finish? {
      if Enabled(m, s) {
        FinishRemembers(m, s.call, drained);
      }
    } else {
      RingUntouched(m, s);
      forall c { NobodyGivesUp(m, s, c); }
      OthersRemember(m, Next(m, s), drained);
    }
  }

  lemma FinishRemembers(m: Machine, c: nat, drained: set<nat>)
    requires Remembers(m, drained) && Enabled(m, Finish(c))
    ensures Remembers(NextFinish(m, c), drained)
  {
    hide Remembers, OutcomeOf, EncodeRecorded, Settled, Remembered, Released, Touching;
    var after := NextFinish(m, c);
    if m.calls[c].phase.Broken? || m.calls[c].phase.response.request != c {
      GivingUpRemembers(m, c, after, drained);
    } else {
      OthersRemember(m, after, drained);
    }
  }

  lemma {:induction false} RemembersAfter(steps: seq<Step>)
    ensures Remembers(After(steps), DrainedIds(steps))
  {
    hide Next, Drains, Remembers;
    if steps == [] {
      RemembersInitially();
    } else {
      RemembersAfter(steps[..|steps| - 1]);
      RememberingStep(After(steps[..|steps| - 1]), steps[|steps| - 1],
                      DrainedIds(steps[..|steps| - 1]));
    }
  }

  lemma RemembersInitially()
    ensures Remembers(INITIAL, {})
  {}

  // ---- When it has forgotten -----------------------------------------------------------------

  /** What is awaited is what the ring holds and what it has forgotten. */
  lemma AwaitedIsRemembered(steps: seq<Step>)
    ensures var w := After(steps).wire;
            |Awaited(steps)| == |w.ring| + |w.lost| && |w.ring| <= RING
  {
    RemembersAfter(steps);
    hide After, DrainedIds, GaveUp;
    var w := After(steps).wire;
    DistinctSize(w.ring);
    assert Awaited(steps) == Members(w.ring) + w.lost;
    assert Members(w.ring) !! w.lost;
  }

  // The ring forgets only when it is full, and stays full in that step.
  lemma ForgettingStep(m: Machine, s: Step)
    ensures m.wire.lost <= Next(m, s).wire.lost
    ensures Next(m, s).wire.lost != m.wire.lost ==> |Next(m, s).wire.ring| == RING
  {
    hide Begun, DecodeRecorded, OutcomeOf, EncodeRecorded, Settled, Abandoned, Removable;
    hide Stops, Consumed, Touching;
  }

  /**
    The ring has never forgotten an id if and only if at no time more than 64 given-up calls were
    still awaited.
   */
  lemma {:induction false} NothingForgottenExactly(steps: seq<Step>)
    ensures After(steps).wire.lost == {} <==>
            forall n | 0 <= n <= |steps| :: |Awaited(steps[..n])| <= 64
  {
    hide Next, Awaited;
    AwaitedIsRemembered(steps);
    assert steps[..|steps|] == steps;
    if steps == [] {
      assert After(steps).wire.lost == {};
    } else {
      var before := steps[..|steps| - 1];
      NothingForgottenExactly(before);
      AwaitedIsRemembered(before);
      ForgettingStep(After(before), steps[|steps| - 1]);
      assert forall n | 0 <= n <= |before| :: before[..n] == steps[..n];
    }
  }
}
