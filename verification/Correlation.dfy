/**
  Correlation of responses: with a plugin that answers each frame once and in order, and a ring that
  never has to forget an id, every exchange that finishes got the answer to its own request.
 */
module Correlation {
  import opened Options
  import opened Recorded
  import opened Ledger
  import opened Ipc
  import opened Identifiers
  import opened RequestMemory

  /** The next answer is to the oldest frame not answered yet, and no transfer fails half way. */
  predicate Faithful(m: Machine, s: Step) {
    && (s.Reply? ==> m.wire.toPlugin != [] && s.response.request == m.wire.toPlugin[0])
    && (s.Write? ==> s.ok)
    && (s.Read? ==> s.ok)
  }

  predicate FaithfulRun(steps: seq<Step>) {
    steps == [] ||
    (FaithfulRun(steps[..|steps| - 1]) && Faithful(After(steps[..|steps| - 1]), steps[|steps| - 1]))
  }

  // ---- The invariant -------------------------------------------------------------------------

  function Requests(responses: seq<Response>): seq<nat> {
    seq(|responses|, i requires 0 <= i < |responses| => responses[i].request)
  }

  /** The requests whose response was not read yet, in the order in which they will be read. */
  function Outstanding(w: Wire): seq<nat> {
    Requests(w.fromPlugin) + w.toPlugin
  }

  predicate InExchange(phase: Phase) {
    phase.Holding? || phase.Reading?
  }

  /** The stream is held by the one call that is in its exchange. */
  predicate OneHolder(calls: map<nat, Call>, w: Wire) {
    && (forall c | c in calls && InExchange(calls[c].phase) :: w.holder == Some(c))
    && (w.holder.Some? ==> w.holder.value in calls && InExchange(calls[w.holder.value].phase))
  }

  predicate IsReading(calls: map<nat, Call>, c: nat) {
    c in calls && calls[c].phase.Reading?
  }

  predicate Over(calls: map<nat, Call>, c: nat) {
    c in calls && (calls[c].phase.Done? || calls[c].phase.Cancelled?)
  }

  /** Only the reader, whose frame is the last one, is owed a response that nobody remembers. */
  predicate Accounted(calls: map<nat, Call>, w: Wire) {
    forall i | 0 <= i < |Outstanding(w)| ::
      var c := Outstanding(w)[i];
      || (IsReading(calls, c) && i == |Outstanding(w)| - 1)
      || (Over(calls, c) && (c in w.ring || c in w.lost))
  }

  predicate RingInv(calls: map<nat, Call>, w: Wire) {
    && Distinct(w.ring)
    && (forall c | c in w.ring :: Over(calls, c) && c !in w.lost)
    && (forall c | c in w.lost :: Over(calls, c))
  }

  predicate Correlated(calls: map<nat, Call>) {
    forall c | c in calls ::
      && (calls[c].phase.Answered? ==> calls[c].phase.response.request == c)
      && calls[c].phase !in {Broken, Done(Failed(Mismatched)), Done(Failed(ConnectionLost))}
  }

  predicate CleanInv(calls: map<nat, Call>, w: Wire) {
    Distinct(Outstanding(w)) && Accounted(calls, w) && RingInv(calls, w) && Correlated(calls)
  }

  predicate WireInv(calls: map<nat, Call>, w: Wire) {
    && OneHolder(calls, w)
    && (w.clean ==> CleanInv(calls, w))
    && (w.lost == {} ==> w.clean)
  }

  // ---- Steps ---------------------------------------------------------------------------------

  /** A call that gives up, in its exchange or before it, is remembered from then on. */
  lemma AbandonKeeps(calls: map<nat, Call>, w: Wire, c: nat, phase: Phase)
    requires WireInv(calls, w) && c in calls && calls[c].phase in {Waiting, Holding, Reading}
    requires phase.Cancelled? || phase == Done(Failed(DeadlinePassed))
    ensures WireInv(calls[c := calls[c].(phase := phase)], Remembered(Released(w, c), c))
  {
    hide Distinct, Outstanding, Remembered, Released;
    AbandonedWire(w, c);
    if w.clean {
      RememberKeeps(Released(w, c), c);
    }
  }

  lemma AbandonedWire(w: Wire, c: nat)
    ensures var released, after := Released(w, c), Remembered(Released(w, c), c);
            && released.ring == w.ring && released.lost == w.lost
            && after == w.(holder := released.holder, ring := after.ring, lost := after.lost)
            && after.lost >= w.lost && Outstanding(after) == Outstanding(w)
            && released.holder == if w.holder == Some(c) then None else w.holder
  {}

  /** A call outside an exchange moves on without entering one. */
  lemma MoveKeeps(calls: map<nat, Call>, w: Wire, c: nat, call: Call)
    requires WireInv(calls, w)
    requires c in calls ==> !InExchange(calls[c].phase) && !Over(calls, c)
    requires call.phase.Admitted? || call.phase.Waiting? ||
             (call.phase.Done? &&
              call.phase !in {Done(Failed(Mismatched)), Done(Failed(ConnectionLost))})
    ensures WireInv(calls[c := call], w)
  {
    hide Distinct, Outstanding;
  }

  lemma LockKeeps(calls: map<nat, Call>, w: Wire, c: nat)
    requires WireInv(calls, w) && c in calls && calls[c].phase.Waiting? && w.holder.None?
    ensures WireInv(calls[c := calls[c].(phase := Holding)], w.(holder := Some(c)))
  {
    assert Outstanding(w.(holder := Some(c))) == Outstanding(w);
    hide Distinct, Outstanding;
  }

  lemma WriteKeeps(calls: map<nat, Call>, w: Wire, c: nat)
    requires WireInv(calls, w) && c in calls && calls[c].phase.Holding?
    ensures WireInv(calls[c := calls[c].(phase := Reading)], w.(toPlugin := w.toPlugin + [c]))
  {
    assert Outstanding(w.(toPlugin := w.toPlugin + [c])) == Outstanding(w) + [c];
    assert w.clean ==> c !in Outstanding(w);
    hide Outstanding;
  }

  lemma ReplyKeeps(calls: map<nat, Call>, w: Wire, r: Response)
    requires WireInv(calls, w) && w.toPlugin != [] && r.request == w.toPlugin[0]
    ensures WireInv(calls, NextReply(w, r))
  {
    assert Requests(w.fromPlugin + [r]) == Requests(w.fromPlugin) + [r.request];
    assert w.toPlugin == [r.request] + w.toPlugin[1..];
    assert Outstanding(NextReply(w, r)) == Outstanding(w);
    hide Distinct, Outstanding;
  }

  /** The next response is the reader's own, or for a call that is over and was remembered. */
  lemma NextResponse(calls: map<nat, Call>, w: Wire, c: nat)
    requires OneHolder(calls, w) && Accounted(calls, w)
    requires IsReading(calls, c) && w.fromPlugin != []
    ensures var id := w.fromPlugin[0].request;
            id == c || (Over(calls, id) && (id in w.ring || id in w.lost))
  {
    assert Outstanding(w)[0] == w.fromPlugin[0].request;
  }

  lemma RestIsDistinct(w: Wire)
    requires w.fromPlugin != []
    ensures var id, rest := w.fromPlugin[0].request, w.(fromPlugin := w.fromPlugin[1..]);
            Outstanding(w) == [id] + Outstanding(rest) &&
            (Distinct(Outstanding(w)) ==>
               Distinct(Outstanding(rest)) && id !in Outstanding(rest))
  {
    var id, rest := w.fromPlugin[0].request, w.(fromPlugin := w.fromPlugin[1..]);
    assert Requests(w.fromPlugin) == [id] + Requests(w.fromPlugin[1..]);
    assert Outstanding(w) == [id] + Outstanding(rest);
    if Distinct(Outstanding(w)) {
      TailIsDistinct(id, Outstanding(rest));
    }
  }

  lemma TailIsDistinct(id: nat, rest: seq<nat>)
    requires Distinct([id] + rest)
    ensures Distinct(rest) && id !in rest
  {
    var ids := [id] + rest;
    assert forall i | 0 <= i < |rest| :: rest[i] == ids[i + 1] && ids[0] == id;
  }

  /** Reading an own response ends the exchange; reading a remembered one uses up its memory. */
  lemma ReadKeepsAccounts(calls: map<nat, Call>, w: Wire, c: nat, after: map<nat, Call>, w': Wire)
    requires OneHolder(calls, w) && CleanInv(calls, w)
    requires IsReading(calls, c) && w.fromPlugin != []
    requires w'.fromPlugin == w.fromPlugin[1..] && w'.toPlugin == w.toPlugin && w'.lost == w.lost
    requires var id := w.fromPlugin[0].request;
             if id == c then w'.ring == w.ring && forall d | d in calls && d != c ::
                 d in after && after[d] == calls[d]
             else after == calls && w'.ring == Consumed(w.ring, id)
    ensures Distinct(Outstanding(w')) && Accounted(after, w')
  {
    var id, rest := w.fromPlugin[0].request, w.(fromPlugin := w.fromPlugin[1..]);
    RestIsDistinct(w);
    assert Outstanding(w') == Outstanding(rest);
    ConsumeRemoves(w.ring, id);
    hide Outstanding, Consumed, Distinct, Correlated;
    forall i | 0 <= i < |Outstanding(rest)|
      ensures var d := Outstanding(rest)[i];
              (IsReading(after, d) && i == |Outstanding(rest)| - 1) ||
              (Over(after, d) && (d in w'.ring || d in w'.lost))
    {
      assert Outstanding(w)[i + 1] == Outstanding(rest)[i];
    }
  }

  lemma ReadKeeps(m: Machine, c: nat)
    requires WireInv(m.calls, m.wire) && m.wire.clean && Enabled(m, Read(c, true))
    ensures WireInv(NextRead(m, c, true).calls, NextRead(m, c, true).wire)
  {
    var w, after := m.wire, NextRead(m, c, true);
    NextResponse(m.calls, w, c);
    ConsumeRemoves(w.ring, w.fromPlugin[0].request);
    if after.wire.clean {
      ReadKeepsAccounts(m.calls, w, c, after.calls, after.wire);
    }
    hide Outstanding, Consumed, Distinct, Accounted;
  }

  lemma FinishKeepsWire(m: Machine, c: nat)
    requires WireInv(m.calls, m.wire) && m.wire.clean && Enabled(m, Finish(c))
    ensures WireInv(NextFinish(m, c).calls, NextFinish(m, c).wire)
  {
    var after := NextFinish(m, c);
    MoveKeeps(m.calls, m.wire, c, after.calls[c]);
    hide Outstanding, OutcomeOf, EncodeRecorded, Settled, Distinct;
    assert after.wire == m.wire && after.calls == m.calls[c := after.calls[c]];
  }

  // ---- When an exchange has gone wrong -------------------------------------------------------

  lemma HolderMoves(calls: map<nat, Call>, w: Wire, c: nat, call: Call, after: Wire)
    requires OneHolder(calls, w)
    requires if InExchange(call.phase)
             then after.holder == Some(c) && (w.holder == Some(c) || w.holder.None?)
             else after.holder == Released(w, c).holder
    ensures OneHolder(calls[c := call], after)
  {}

  lemma HolderGivesUp(m: Machine, c: nat, failure: Failure)
    requires OneHolder(m.calls, m.wire) && c in m.calls
    ensures OneHolder(GivenUp(m, c, failure).calls, GivenUp(m, c, failure).wire)
  {
    hide OneHolder, Settled;
    var after := GivenUp(m, c, failure);
    HolderMoves(m.calls, m.wire, c, after.calls[c], after.wire);
  }

  lemma HolderFinishes(m: Machine, c: nat)
    requires OneHolder(m.calls, m.wire) && Enabled(m, Finish(c))
    ensures OneHolder(NextFinish(m, c).calls, NextFinish(m, c).wire)
  {
    hide OutcomeOf, EncodeRecorded, Settled, GivenUp;
    HolderGivesUp(m, c, ConnectionLost);
    HolderGivesUp(m, c, Mismatched);
    var after := NextFinish(m, c);
    if m.calls[c].phase.Answered? && m.calls[c].phase.response.request == c {
      HolderMoves(m.calls, m.wire, c, after.calls[c], after.wire);
    }
    hide OneHolder;
  }

  /** Faithful or not, no step lets two calls into an exchange at once. */
  lemma HolderStep(m: Machine, s: Step)
    requires OneHolder(m.calls, m.wire)
    ensures OneHolder(Next(m, s).calls, Next(m, s).wire)
  {
    hide Begun, DecodeRecorded, Abandoned, Removable, NextFinish, GivenUp, Stops, Consumed;
    var after := Next(m, s);
    if Enabled(m, s) && !s.Tick? && !s.Reply? {
      if s.Finish? {
        HolderFinishes(m, s.call);
      } else if s.TimeOut? {
        HolderGivesUp(m, s.call, DeadlinePassed);
      } else {
        HolderMoves(m.calls, m.wire, s.call, after.calls[s.call], after.wire);
      }
    }
    hide OneHolder;
  }

  /** What the ring has forgotten stays forgotten, and an unclean wire stays unclean. */
  lemma UncleanStep(m: Machine, s: Step)
    ensures Next(m, s).wire.clean ==> m.wire.clean
    ensures m.wire.lost <= Next(m, s).wire.lost
  {
    hide Begun, DecodeRecorded, OutcomeOf, EncodeRecorded, Settled, Abandoned, Removable;
    hide Stops, Consumed;
  }

  lemma WireStep(m: Machine, s: Step)
    requires WireInv(m.calls, m.wire) && Faithful(m, s)
    ensures WireInv(Next(m, s).calls, Next(m, s).wire)
  {
    hide Next, OneHolder, CleanInv;
    if !Enabled(m, s) {
      NothingHappens(m, s);
    } else if !m.wire.clean {
      HolderStep(m, s);
      UncleanStep(m, s);
    } else {
      CleanStep(m, s);
    }
  }

  lemma NothingHappens(m: Machine, s: Step)
    requires !Enabled(m, s)
    ensures Next(m, s) == m
  {}

  lemma CleanStep(m: Machine, s: Step)
    requires WireInv(m.calls, m.wire) && m.wire.clean && Faithful(m, s) && Enabled(m, s)
    ensures WireInv(Next(m, s).calls, Next(m, s).wire)
  {
    hide Begun, NextRead, NextFinish, DecodeRecorded, Settled, Abandoned, Removable;
    hide Remembered, NextReply, OneHolder, CleanInv;
    var calls, w := m.calls, m.wire;
    match s
    case Tick(_) =>
    case Begin(c, op, pifLaunch) => MoveKeeps(calls, w, c, Next(m, s).calls[c]);
    case CheckReady(c) => MoveKeeps(calls, w, c, Next(m, s).calls[c]);
    case Lock(c) => LockKeeps(calls, w, c);
    case Write(c, delivered, ok) => WriteKeeps(calls, w, c);
    case Reply(r) => ReplyKeeps(calls, w, r);
    case Read(c, ok) => ReadKeeps(m, c);
    case Finish(c) => FinishKeepsWire(m, c);
    case TimeOut(c) => AbandonKeeps(calls, w, c, Done(Failed(DeadlinePassed)));
    case Cancel(c) => AbandonKeeps(calls, w, c, Cancelled);
  }

  lemma {:induction false} WireAfter(steps: seq<Step>)
    requires FaithfulRun(steps)
    ensures WireInv(After(steps).calls, After(steps).wire)
  {
    hide Next, WireInv, Faithful;
    if steps == [] {
      WireInitially();
    } else {
      WireAfter(steps[..|steps| - 1]);
      WireStep(After(steps[..|steps| - 1]), steps[|steps| - 1]);
    }
  }

  lemma WireInitially()
    ensures WireInv(INITIAL.calls, INITIAL.wire)
  {}

  // ---- Results -------------------------------------------------------------------------------

  lemma UnforgottenAreOwn(steps: seq<Step>, c: nat)
    requires FaithfulRun(steps) && After(steps).wire.lost == {}
    requires c in After(steps).calls
    ensures var phase := After(steps).calls[c].phase;
            && (phase.Answered? ==> phase.response.request == c)
            && phase !in {Broken, Done(Failed(Mismatched)), Done(Failed(ConnectionLost))}
  {
    WireAfter(steps);
    hide Next;
  }

  /**
    With a faithful plugin, and no more than 64 given-up calls whose responses were still to come at
    any time, every exchange that finishes has the response to its own request, and no call reports
    a mismatch or a lost connection.
   */
  lemma ResponsesAreOwn(steps: seq<Step>, c: nat)
    requires FaithfulRun(steps) && c in After(steps).calls
    requires forall n | 0 <= n <= |steps| :: |Awaited(steps[..n])| <= RING
    ensures var phase := After(steps).calls[c].phase;
            && (phase.Answered? ==> phase.response.request == c)
            && phase !in {Broken, Done(Failed(Mismatched)), Done(Failed(ConnectionLost))}
  {
    hide After, Awaited, FaithfulRun;
    NothingForgottenExactly(steps);
    UnforgottenAreOwn(steps, c);
  }

  /** Until then, a read mistakes a response for its own exactly when its id fell out of the ring. */
  lemma MismatchExactly(steps: seq<Step>, c: nat)
    requires FaithfulRun(steps) && After(steps).wire.clean
    requires Enabled(After(steps), Read(c, true))
    ensures var m := After(steps);
            var phase := NextRead(m, c, true).calls[c].phase;
            (phase.Answered? && phase.response.request != c) <==>
            m.wire.fromPlugin[0].request in m.wire.lost
  {
    WireAfter(steps);
    NextResponse(After(steps).calls, After(steps).wire, c);
    hide Next, Outstanding;
  }

  // ---- The read loop is the read steps -------------------------------------------------------

  function Reads(m: Machine, c: nat, times: nat): Machine
    decreases times
  {
    if times == 0 then m else Reads(Next(m, Read(c, true)), c, times - 1)
  }

  lemma {:induction false} ReadsAfterwards(m: Machine, c: nat, times: nat)
    requires !Enabled(m, Read(c, true))
    ensures Reads(m, c, times) == m
  {
    if times > 0 {
      ReadsAfterwards(m, c, times - 1);
    }
  }

  /** Uninterrupted, a call's read steps come to what its read loop does. */
  lemma {:induction false} ReadLoopIsItsSteps(m: Machine, c: nat)
    requires In(m, c, {Reading})
    ensures var after := Reads(m, c, |m.wire.fromPlugin|);
            var (ring, rest, response) := Drained(m.wire.ring, c, m.wire.fromPlugin);
            && after.wire.ring == ring && after.wire.fromPlugin == rest
            && c in after.calls
            && after.calls[c].phase ==
               if response.Some? then Answered(response.value) else Reading
    decreases |m.wire.fromPlugin|
  {
    hide Consumed;
    if m.wire.fromPlugin != [] {
      var after := NextRead(m, c, true);
      assert Reads(m, c, |m.wire.fromPlugin|) == Reads(after, c, |m.wire.fromPlugin| - 1);
      if Stops(m.wire.ring, c, m.wire.fromPlugin[0].request) {
        ReadsAfterwards(after, c, |m.wire.fromPlugin| - 1);
      } else {
        ReadLoopIsItsSteps(after, c);
      }
    }
  }
}
