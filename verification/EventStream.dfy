/**
  EventStream of plugin/src/event_stream.cpp: a queue that drops its oldest events when full, a
  worker that writes one frame at a time, and a count of drops that it reports in gap frames. A
  frame write succeeds or fails as a whole, and memory may run out in either queue operation.
 */
module EventStream {

  const MAX_QUEUED: nat := 4096

  // The payload of a native event is not looked at here.
  datatype Event = Event(sequence: nat, payload: seq<nat>)

  datatype Frame = EventFrame(event: Event) | GapFrame(dropped: nat)

  /** What the worker took under the lock and has not yet written. */
  datatype Hand = Idle | Holding(event: Event) | HoldingGap(dropped: nat)

  datatype State = State(queue: seq<Event>, dropped: nat, stopping: bool)

  const EMPTY := State([], 0, false)

  function Enqueued(s: State, e: Event, memory: bool): State {
    if s.stopping then s
    else
      var full := |s.queue| == MAX_QUEUED;
      var queue := if full then s.queue[1..] else s.queue;
      var dropped := if full then s.dropped + 1 else s.dropped;
      if memory then s.(queue := queue + [e], dropped := dropped)
      else s.(queue := queue, dropped := dropped + 1)
  }

  // The worker waits until there is something to report or to stop for.
  predicate CanTake(s: State) {
    !s.stopping && (s.dropped != 0 || s.queue != [])
  }

  /** A pending gap goes out before any event. */
  function Taken(s: State): (State, Hand)
    requires CanTake(s)
  {
    if s.dropped != 0 then (s.(dropped := 0), HoldingGap(s.dropped))
    else (s.(queue := s.queue[1..]), Holding(s.queue[0]))
  }

  /** After a failed write. */
  function PutBack(s: State, hand: Hand, memory: bool): State {
    match hand
    case Idle => s
    case Holding(e) =>
      if memory then s.(queue := [e] + s.queue) else s.(dropped := s.dropped + 1)
    case HoldingGap(n) => s.(dropped := s.dropped + n)
  }

  /** Once the worker is gone, what it never got to is thrown away. */
  function Cleared(s: State): State {
    s.(queue := [], dropped := 0)
  }

  class EventStream {
    var queue: seq<Event>
    var dropped: nat
    var stopping: bool

    constructor ()
      ensures View() == EMPTY
    {
      queue, dropped, stopping := [], 0, false;
    }

    ghost function View(): State
      reads this
    {
      State(queue, dropped, stopping)
    }

    method Enqueue(event: Event, memory: bool)
      modifies this
      ensures View() == Enqueued(old(View()), event, memory)
      ensures old(stopping) ==> queue == old(queue) && dropped == old(dropped)
      ensures !old(stopping) ==>
                var full := |old(queue)| == 4096;
                && queue == (if full then old(queue)[1..] else old(queue)) +
                            (if memory then [event] else [])
                && dropped == old(dropped) + (if full then 1 else 0) + (if memory then 0 else 1)
    {
      if stopping {
        return;
      }
      if |queue| == MAX_QUEUED {
        queue := queue[1..];
        dropped := dropped + 1;
      }
      if memory {
        queue := queue + [event];
      } else {
        dropped := dropped + 1;
      }
    }

    method Take() returns (hand: Hand)
      requires CanTake(View())
      modifies this
      ensures (View(), hand) == Taken(old(View()))
      ensures old(dropped) > 0 ==>
                hand == HoldingGap(old(dropped)) && dropped == 0 && queue == old(queue)
      ensures old(dropped) == 0 ==>
                hand == Holding(old(queue)[0]) && dropped == 0 && queue == old(queue)[1..]
    {
      var gap := dropped;
      dropped := 0;
      if gap == 0 {
        hand := Holding(queue[0]);
        queue := queue[1..];
      } else {
        hand := HoldingGap(gap);
      }
    }

    method Restore(hand: Hand, memory: bool)
      modifies this
      ensures View() == PutBack(old(View()), hand, memory)
      ensures hand.Holding? && memory ==> queue == [hand.event] + old(queue)
      ensures hand.Holding? && !memory ==> queue == old(queue) && dropped == old(dropped) + 1
      ensures hand.HoldingGap? ==> queue == old(queue) && dropped == old(dropped) + hand.dropped
    {
      match hand {
        case Idle =>
        case Holding(event) =>
          if memory {
            queue := [event] + queue;
          } else {
            dropped := dropped + 1;
          }
        case HoldingGap(gap) =>
          dropped := dropped + gap;
      }
    }

    /** The first half of stopping: later events are refused and the worker is told to end. */
    method RequestStop()
      modifies this
      ensures View() == old(View()).(stopping := true)
    {
      stopping := true;
    }

    /** The second half, after the worker has ended. */
    method FinishStop()
      modifies this
      ensures View() == Cleared(old(View()))
    {
      queue, dropped := [], 0;
    }
  }

  // ---- Runs ----------------------------------------------------------------------------------

  /** Where an accepted event is. */
  datatype Place = Queued | Held | Lost | InGap | Reported | Written | Discarded

  /**
    The stream, the worker's hand, the events accepted so far and the frames written so far.
    `place` is a history variable: where each accepted event has got to.
   */
  datatype Machine = Machine(s: State, hand: Hand, accepted: seq<Event>, wire: seq<Frame>,
                             place: seq<Place>)

  const START := Machine(EMPTY, Idle, [], [], [])

  datatype Step =
    | Accept(event: Event, memory: bool)
    | TakeNext
    | WriteSucceeds
    | WriteFails(memory: bool)
    | StopRequested
    | StopFinished

  predicate Enabled(m: Machine, step: Step) {
    match step
    case Accept(_, _) => true
    case TakeNext => m.hand.Idle? && CanTake(m.s)
    case WriteSucceeds => !m.hand.Idle?
    case WriteFails(_) => !m.hand.Idle?
    case StopRequested => true
    case StopFinished => m.s.stopping && m.hand.Idle?
  }

  function FirstAt(place: seq<Place>, p: Place): (i: nat)
    ensures i <= |place|
    ensures i < |place| ==> place[i] == p
    ensures forall k | 0 <= k < i :: place[k] != p
  {
    if place == [] || place[0] == p then 0 else 1 + FirstAt(place[1..], p)
  }

  function MoveFirst(place: seq<Place>, p: Place, q: Place): seq<Place> {
    var i := FirstAt(place, p);
    if i < |place| then place[i := q] else place
  }

  function MoveAll(place: seq<Place>, p: Place, q: Place): (r: seq<Place>)
    ensures |r| == |place|
    ensures forall i | 0 <= i < |place| :: r[i] == if place[i] == p then q else place[i]
  {
    if place == [] then [] else [if place[0] == p then q else place[0]] + MoveAll(place[1..], p, q)
  }

  function Next(m: Machine, step: Step): Machine
    requires Enabled(m, step)
  {
    match step
    case Accept(e, memory) =>
      if m.s.stopping then m
      else
        var full := |m.s.queue| == MAX_QUEUED;
        var place := if full then MoveFirst(m.place, Queued, Lost) else m.place;
        m.(s := Enqueued(m.s, e, memory), accepted := m.accepted + [e],
           place := place + [if memory then Queued else Lost])
    case TakeNext =>
      var (s, hand) := Taken(m.s);
      m.(s := s, hand := hand,
         place := if m.s.dropped != 0 then MoveAll(m.place, Lost, InGap)
                  else MoveFirst(m.place, Queued, Held))
    case WriteSucceeds =>
      m.(hand := Idle,
         wire := m.wire + [if m.hand.Holding? then EventFrame(m.hand.event)
                           else GapFrame(m.hand.dropped)],
         place := if m.hand.Holding? then MoveFirst(m.place, Held, Written)
                  else MoveAll(m.place, InGap, Reported))
    case WriteFails(memory) =>
      m.(s := PutBack(m.s, m.hand, memory), hand := Idle,
         place := if m.hand.Holding? then MoveFirst(m.place, Held, if memory then Queued else Lost)
                  else MoveAll(m.place, InGap, Lost))
    case StopRequested => m.(s := m.s.(stopping := true))
    case StopFinished =>
      m.(s := Cleared(m.s),
         place := MoveAll(MoveAll(m.place, Queued, Discarded), Lost, Discarded))
  }

  /** Steps that cannot happen are skipped, so every sequence of steps is a run. */
  ghost function After(run: seq<Step>): Machine {
    if run == [] then START
    else
      var m := After(run[..|run| - 1]);
      if Enabled(m, run[|run| - 1]) then Next(m, run[|run| - 1]) else m
  }

  function Select(events: seq<Event>, place: seq<Place>, p: Place): seq<Event>
    requires |events| == |place|
  {
    if place == [] then []
    else (if place[0] == p then [events[0]] else []) + Select(events[1..], place[1..], p)
  }

  function Count(place: seq<Place>, p: Place): nat {
    if place == [] then 0 else (if place[0] == p then 1 else 0) + Count(place[1..], p)
  }

  /** The events written, in order, and how many the gap frames admit to. */
  function EventsOf(wire: seq<Frame>): seq<Event> {
    if wire == [] then []
    else EventsOf(wire[..|wire| - 1]) +
         if wire[|wire| - 1].EventFrame? then [wire[|wire| - 1].event] else []
  }

  function GapTotal(wire: seq<Frame>): nat {
    if wire == [] then 0
    else GapTotal(wire[..|wire| - 1]) +
         if wire[|wire| - 1].GapFrame? then wire[|wire| - 1].dropped else 0
  }

  predicate Settled(p: Place) {
    p == Written || p == Reported
  }

  /** Nothing that was accepted before `i` is still unaccounted for. */
  predicate AllBefore(place: seq<Place>, i: nat)
    requires i <= |place|
  {
    forall k | 0 <= k < i :: Settled(place[k])
  }

  predicate Ordered(place: seq<Place>) {
    forall i | 0 <= i < |place| && (place[i] == Written || place[i] == Held) :: AllBefore(place, i)
  }

  ghost predicate Inv(m: Machine) {
    && |m.place| == |m.accepted|
    && Ordered(m.place)
    && m.s.queue == Select(m.accepted, m.place, Queued)
    && m.s.dropped == Count(m.place, Lost)
    && Select(m.accepted, m.place, Held) == (if m.hand.Holding? then [m.hand.event] else [])
    && Count(m.place, InGap) == (if m.hand.HoldingGap? then m.hand.dropped else 0)
    && EventsOf(m.wire) == Select(m.accepted, m.place, Written)
    && GapTotal(m.wire) == Count(m.place, Reported)
    && (!m.s.stopping ==> Count(m.place, Discarded) == 0)
  }

  // ---- Selection -----------------------------------------------------------------------------

  lemma {:induction false} SelectAppend(events: seq<Event>, place: seq<Place>, e: Event, q: Place,
                                        p: Place)
    requires |events| == |place|
    ensures Select(events + [e], place + [q], p) ==
            Select(events, place, p) + if q == p then [e] else []
    ensures Count(place + [q], p) == Count(place, p) + if q == p then 1 else 0
  {
    if place != [] {
      SelectAppend(events[1..], place[1..], e, q, p);
      assert (events + [e])[1..] == events[1..] + [e];
      assert (place + [q])[1..] == place[1..] + [q];
    }
  }

  lemma {:induction false} SelectCounts(events: seq<Event>, place: seq<Place>, p: Place)
    requires |events| == |place|
    ensures |Select(events, place, p)| == Count(place, p)
  {
    if place != [] {
      SelectCounts(events[1..], place[1..], p);
    }
  }

  /** Moving one event changes only the selections it leaves and enters. */
  lemma {:induction false} SelectUpdate(events: seq<Event>, place: seq<Place>, i: nat, q: Place,
                                        p: Place)
    requires |events| == |place| && i < |place|
    ensures place[i] != p && q != p ==>
              Select(events, place[i := q], p) == Select(events, place, p)
  {
    if i == 0 {
      assert place[i := q][1..] == place[1..];
    } else {
      assert place[i := q][1..] == place[1..][i - 1 := q];
      SelectUpdate(events[1..], place[1..], i - 1, q, p);
    }
  }

  lemma {:induction false} SelectLeavesFront(events: seq<Event>, place: seq<Place>, i: nat,
                                             q: Place, p: Place)
    requires |events| == |place| && i < |place| && place[i] == p && q != p
    requires forall k | 0 <= k < i :: place[k] != p
    ensures Select(events, place, p) == [events[i]] + Select(events, place[i := q], p)
  {
    if i == 0 {
      assert place[i := q][1..] == place[1..];
    } else {
      assert place[i := q][1..] == place[1..][i - 1 := q];
      SelectLeavesFront(events[1..], place[1..], i - 1, q, p);
    }
  }

  lemma {:induction false} SelectEntersBack(events: seq<Event>, place: seq<Place>, i: nat,
                                            q: Place)
    requires |events| == |place| && i < |place| && place[i] != q
    requires forall k | i < k < |place| :: place[k] != q
    ensures Select(events, place[i := q], q) == Select(events, place, q) + [events[i]]
  {
    if i == 0 {
      assert place[i := q][1..] == place[1..];
      SelectNone(events[1..], place[1..], q);
    } else {
      assert place[i := q][1..] == place[1..][i - 1 := q];
      SelectEntersBack(events[1..], place[1..], i - 1, q);
    }
  }

  lemma {:induction false} CountUpdate(place: seq<Place>, i: nat, q: Place, p: Place)
    requires i < |place|
    ensures Count(place[i := q], p) + (if place[i] == p then 1 else 0) ==
            Count(place, p) + (if q == p then 1 else 0)
  {
    if i == 0 {
      assert place[i := q][1..] == place[1..];
    } else {
      assert place[i := q][1..] == place[1..][i - 1 := q];
      CountUpdate(place[1..], i - 1, q, p);
    }
  }

  lemma {:induction false} SelectNone(events: seq<Event>, place: seq<Place>, p: Place)
    requires |events| == |place|
    ensures (forall k | 0 <= k < |place| :: place[k] != p) <==> Select(events, place, p) == []
    ensures Select(events, place, p) == [] <==> Count(place, p) == 0
  {
    if place != [] {
      SelectNone(events[1..], place[1..], p);
      assert forall k | 0 < k < |place| :: place[k] == place[1..][k - 1];
    }
  }

  lemma {:induction false} SelectMoveAll(events: seq<Event>, place: seq<Place>, p: Place, q: Place,
                                         r: Place)
    requires |events| == |place| && p != q && r != p && r != q
    ensures Select(events, MoveAll(place, p, q), r) == Select(events, place, r)
  {
    if place != [] {
      SelectMoveAll(events[1..], place[1..], p, q, r);
    }
  }

  lemma {:induction false} CountMoveAll(place: seq<Place>, p: Place, q: Place, r: Place)
    requires p != q
    ensures Count(MoveAll(place, p, q), r) ==
            if r == p then 0
            else if r == q then Count(place, p) + Count(place, q)
            else Count(place, r)
  {
    if place != [] {
      CountMoveAll(place[1..], p, q, r);
    }
  }

  // ---- Every step keeps the invariant ----------------------------------------------------------

  /** The three ordered selections and the three counts after moving the first event of a place. */
  lemma MoveFirstEffect(events: seq<Event>, place: seq<Place>, p: Place, q: Place)
    requires |events| == |place| && p != q && Count(place, p) > 0
    ensures var i := FirstAt(place, p);
            i < |place| && MoveFirst(place, p, q) == place[i := q] &&
            Select(events, place, p) == [events[i]] + Select(events, place[i := q], p)
    ensures var moved := MoveFirst(place, p, q);
            && |moved| == |place|
            && Count(moved, p) == Count(place, p) - 1
            && Count(moved, q) == Count(place, q) + 1
    ensures forall r | r != p && r != q ::
              Select(events, MoveFirst(place, p, q), r) == Select(events, place, r) &&
              Count(MoveFirst(place, p, q), r) == Count(place, r)
  {
    hide Select, Count;
    SelectNone(events, place, p);
    var i := FirstAt(place, p);
    SelectLeavesFront(events, place, i, q, p);
    CountUpdate(place, i, q, p);
    CountUpdate(place, i, q, q);
    forall r | r != p && r != q
      ensures Select(events, place[i := q], r) == Select(events, place, r)
      ensures Count(place[i := q], r) == Count(place, r)
    {
      SelectUpdate(events, place, i, q, r);
      CountUpdate(place, i, q, r);
    }
  }

  lemma MoveAllEffect(events: seq<Event>, place: seq<Place>, p: Place, q: Place)
    requires |events| == |place| && p != q
    ensures var moved := MoveAll(place, p, q);
            Count(moved, p) == 0 && Count(moved, q) == Count(place, p) + Count(place, q)
    ensures forall r | r != p && r != q ::
              Select(events, MoveAll(place, p, q), r) == Select(events, place, r) &&
              Count(MoveAll(place, p, q), r) == Count(place, r)
  {
    hide Select, Count, MoveAll;
    CountMoveAll(place, p, q, p);
    CountMoveAll(place, p, q, q);
    forall r | r != p && r != q
      ensures Select(events, MoveAll(place, p, q), r) == Select(events, place, r)
      ensures Count(MoveAll(place, p, q), r) == Count(place, r)
    {
      SelectMoveAll(events, place, p, q, r);
      CountMoveAll(place, p, q, r);
    }
  }

  lemma AppendEffect(events: seq<Event>, place: seq<Place>, e: Event, q: Place)
    requires |events| == |place|
    ensures forall p ::
              Select(events + [e], place + [q], p) ==
              Select(events, place, p) + (if q == p then [e] else []) &&
              Count(place + [q], p) == Count(place, p) + if q == p then 1 else 0
  {
    forall p
      ensures Select(events + [e], place + [q], p) ==
              Select(events, place, p) + (if q == p then [e] else [])
      ensures Count(place + [q], p) == Count(place, p) + if q == p then 1 else 0
    {
      SelectAppend(events, place, e, q, p);
    }
  }

  // The oldest queued event makes room.
  function Evicted(m: Machine): Machine
    requires m.s.queue != []
  {
    m.(s := m.s.(queue := m.s.queue[1..], dropped := m.s.dropped + 1),
       place := MoveFirst(m.place, Queued, Lost))
  }

  lemma InvEvict(m: Machine)
    requires Inv(m) && m.s.queue != []
    ensures Inv(Evicted(m))
  {
    hide Select, Count, EventsOf, GapTotal, MoveFirst;
    SelectCounts(m.accepted, m.place, Queued);
    MoveFirstEffect(m.accepted, m.place, Queued, Lost);
    assert m.s.queue[1..] == Select(m.accepted, Evicted(m).place, Queued);
  }

  function Appended(m: Machine, e: Event, memory: bool): Machine {
    m.(s := if memory then m.s.(queue := m.s.queue + [e]) else m.s.(dropped := m.s.dropped + 1),
       accepted := m.accepted + [e], place := m.place + [if memory then Queued else Lost])
  }

  lemma InvAppend(m: Machine, e: Event, memory: bool)
    requires Inv(m)
    ensures Inv(Appended(m, e, memory))
  {
    hide Select, Count, EventsOf, GapTotal, MoveFirst;
    AppendEffect(m.accepted, m.place, e, if memory then Queued else Lost);
  }

  lemma InvAccept(m: Machine, e: Event, memory: bool)
    requires Inv(m) && !m.s.stopping
    ensures Inv(Next(m, Accept(e, memory)))
  {
    hide Inv, MoveFirst;
    if |m.s.queue| == MAX_QUEUED {
      InvEvict(m);
      InvAppend(Evicted(m), e, memory);
    } else {
      InvAppend(m, e, memory);
    }
  }

  lemma InvTake(m: Machine)
    requires Inv(m) && Enabled(m, TakeNext)
    ensures Inv(Next(m, TakeNext))
  {
    hide Select, Count, EventsOf, GapTotal, MoveFirst, MoveAll;
    if m.s.dropped != 0 {
      MoveAllEffect(m.accepted, m.place, Lost, InGap);
    } else {
      SelectCounts(m.accepted, m.place, Queued);
      MoveFirstEffect(m.accepted, m.place, Queued, Held);
      NothingBefore(m);
      assert m.s.queue[1..] == Select(m.accepted, Next(m, TakeNext).place, Queued);
      SelectNone(m.accepted, m.place, Held);
      var i := FirstAt(m.place, Queued);
      SelectEntersBack(m.accepted, m.place, i, Held);
    }
  }

  // With no drop pending and empty hands, everything before the queue's front is settled.
  lemma NothingBefore(m: Machine)
    requires Inv(m) && m.hand.Idle? && m.s.dropped == 0 && !m.s.stopping
    ensures var i := FirstAt(m.place, Queued);
            AllBefore(m.place, i) && forall k | 0 <= k < |m.place| :: m.place[k] != Held
  {
    hide Select, Count;
    SelectNone(m.accepted, m.place, Held);
    SelectNone(m.accepted, m.place, Lost);
    SelectNone(m.accepted, m.place, InGap);
    SelectNone(m.accepted, m.place, Discarded);
  }

  lemma InvWrite(m: Machine)
    requires Inv(m) && Enabled(m, WriteSucceeds)
    ensures Inv(Next(m, WriteSucceeds))
  {
    hide Select, Count, EventsOf, GapTotal, MoveFirst, MoveAll;
    var frame := if m.hand.Holding? then EventFrame(m.hand.event) else GapFrame(m.hand.dropped);
    WireGrows(m.wire, frame);
    if m.hand.Holding? {
      HeldIsNext(m);
      var i := FirstAt(m.place, Held);
      MoveFirstEffect(m.accepted, m.place, Held, Written);
      SelectEntersBack(m.accepted, m.place, i, Written);
    } else {
      MoveAllEffect(m.accepted, m.place, InGap, Reported);
    }
  }

  lemma WireGrows(wire: seq<Frame>, frame: Frame)
    ensures EventsOf(wire + [frame]) ==
            EventsOf(wire) + if frame.EventFrame? then [frame.event] else []
    ensures GapTotal(wire + [frame]) ==
            GapTotal(wire) + if frame.GapFrame? then frame.dropped else 0
  {
    assert (wire + [frame])[..|wire|] == wire;
  }

  // The held event is the only one held, everything before it is settled and nothing after it is
  // written.
  lemma HeldIsNext(m: Machine)
    requires Inv(m) && m.hand.Holding?
    ensures var i := FirstAt(m.place, Held);
            && i < |m.place| && AllBefore(m.place, i) && m.accepted[i] == m.hand.event
            && Count(m.place, Held) == 1
            && forall k | i < k < |m.place| :: m.place[k] != Written && m.place[k] != Held
  {
    hide Select, Count;
    SelectCounts(m.accepted, m.place, Held);
    SelectNone(m.accepted, m.place, Held);
    var i := FirstAt(m.place, Held);
    assert i < |m.place|;
    SelectLeavesFront(m.accepted, m.place, i, Lost, Held);
    assert Select(m.accepted, m.place, Held)[0] == m.accepted[i];
    forall k | i < k < |m.place| ensures m.place[k] != Written && m.place[k] != Held {
      assert m.place[k] == Written || m.place[k] == Held ==> AllBefore(m.place, k);
      assert !Settled(m.place[i]);
    }
  }

  lemma InvFail(m: Machine, memory: bool)
    requires Inv(m) && Enabled(m, WriteFails(memory))
    ensures Inv(Next(m, WriteFails(memory)))
  {
    hide Select, Count, EventsOf, GapTotal, MoveFirst, MoveAll;
    if m.hand.Holding? {
      HeldIsNext(m);
      var i := FirstAt(m.place, Held);
      var q := if memory then Queued else Lost;
      MoveFirstEffect(m.accepted, m.place, Held, q);
      if memory {
        var moved := MoveFirst(m.place, Held, Queued);
        SelectLeavesFront(m.accepted, moved, i, Held, Queued);
        assert moved[i := Held] == m.place;
      }
    } else {
      MoveAllEffect(m.accepted, m.place, InGap, Lost);
    }
  }

  lemma InvStopFinished(m: Machine)
    requires Inv(m) && Enabled(m, StopFinished)
    ensures Inv(Next(m, StopFinished))
  {
    hide Select, Count, EventsOf, GapTotal, MoveFirst, MoveAll;
    var moved := MoveAll(m.place, Queued, Discarded);
    MoveAllEffect(m.accepted, m.place, Queued, Discarded);
    MoveAllEffect(m.accepted, moved, Lost, Discarded);
    SelectNone(m.accepted, Next(m, StopFinished).place, Queued);
  }

  lemma {:induction false} InvAfter(run: seq<Step>)
    ensures Inv(After(run))
  {
    hide Select, Count, EventsOf, GapTotal, Next, Ordered;
    if run == [] {
      InvStart();
    } else {
      var m, step := After(run[..|run| - 1]), run[|run| - 1];
      InvAfter(run[..|run| - 1]);
      if Enabled(m, step) {
        InvNext(m, step);
      }
    }
  }

  lemma InvStart()
    ensures Inv(START)
  {
  }

  lemma InvNext(m: Machine, step: Step)
    requires Inv(m) && Enabled(m, step)
    ensures Inv(Next(m, step))
  {
    hide Select, Count, EventsOf, GapTotal, Ordered;
    match step {
      case Accept(e, memory) =>
        if !m.s.stopping {
          InvAccept(m, e, memory);
        }
      case TakeNext => InvTake(m);
      case WriteSucceeds => InvWrite(m);
      case WriteFails(memory) => InvFail(m, memory);
      case StopRequested =>
      case StopFinished => InvStopFinished(m);
    }
  }

  // ---- Main results ----------------------------------------------------------------------------

  /**
    In every run, once a frame carries an event, every event accepted before it was written earlier
    or is counted in a written gap frame; and the written events are accepted events in their order.
   */
  lemma DeliveryInOrder(run: seq<Step>)
    ensures var m := After(run);
            && |m.place| == |m.accepted|
            && EventsOf(m.wire) == Select(m.accepted, m.place, Written)
            && GapTotal(m.wire) == Count(m.place, Reported)
            && forall i | 0 <= i < |m.place| && m.place[i] == Written :: AllBefore(m.place, i)
  {
    InvAfter(run);
  }

  function InHand(hand: Hand): nat {
    match hand
    case Idle => 0
    case Holding(_) => 1
    case HoldingGap(n) => n
  }

  lemma {:induction false} PlacesAddUp(place: seq<Place>)
    ensures |place| == Count(place, Queued) + Count(place, Held) + Count(place, Lost) +
                       Count(place, InGap) + Count(place, Reported) + Count(place, Written) +
                       Count(place, Discarded)
  {
    if place != [] {
      PlacesAddUp(place[1..]);
    }
  }

  /**
    At any step of any run no event is lost without being counted, nor counted twice; only stopping
    discards events.
   */
  lemma Conservation(run: seq<Step>)
    ensures var m := After(run);
            && |m.accepted| == |EventsOf(m.wire)| + GapTotal(m.wire) + m.s.dropped +
                               InHand(m.hand) + |m.s.queue| + Count(m.place, Discarded)
            && (!m.s.stopping ==> Count(m.place, Discarded) == 0)
  {
    hide Select, Count;
    InvAfter(run);
    var m := After(run);
    PlacesAddUp(m.place);
    SelectCounts(m.accepted, m.place, Queued);
    SelectCounts(m.accepted, m.place, Held);
    SelectCounts(m.accepted, m.place, Written);
  }

  /** When the worker has nothing to do, every event ever accepted was written or reported as lost. */
  lemma NothingWaits(run: seq<Step>)
    requires var m := After(run); !m.s.stopping && m.hand.Idle? && !Enabled(m, TakeNext)
    ensures var m := After(run); |m.accepted| == |EventsOf(m.wire)| + GapTotal(m.wire)
  {
    Conservation(run);
    hide After, EventsOf, GapTotal, Count;
  }

  // ---- The size of the queue -------------------------------------------------------------------

  /** Giving an event back to a queue that has filled up meanwhile. */
  predicate Overfills(m: Machine, step: Step) {
    step.WriteFails? && step.memory && m.hand.Holding? && |m.s.queue| == MAX_QUEUED
  }

  /** That is exactly how the queue grows past its limit. */
  lemma LimitStep(m: Machine, step: Step)
    requires Enabled(m, step) && |m.s.queue| <= MAX_QUEUED
    ensures |Next(m, step).s.queue| <= MAX_QUEUED <==> !Overfills(m, step)
  {
    hide MoveFirst, MoveAll;
    match step {
      case Accept(e, memory) =>
        assert |Next(m, step).s.queue| <= MAX_QUEUED;
      case WriteFails(memory) =>
        match m.hand {
          case Holding(e) => assert |[e] + m.s.queue| == |m.s.queue| + 1;
          case _ =>
        }
      case _ =>
    }
  }

  ghost predicate OverfillsAt(run: seq<Step>, i: nat) {
    i < |run| && Enabled(After(run[..i]), run[i]) && Overfills(After(run[..i]), run[i])
  }

  lemma {:induction false} WithinLimit(run: seq<Step>)
    requires forall i | 0 <= i < |run| :: !OverfillsAt(run, i)
    ensures |After(run).s.queue| <= MAX_QUEUED
  {
    hide Next, Overfills;
    if run != [] {
      var last := |run| - 1;
      var before := run[..last];
      forall i | 0 <= i < last ensures !OverfillsAt(before, i) {
        assert before[..i] == run[..i];
        assert !OverfillsAt(run, i);
      }
      WithinLimit(before);
      assert !OverfillsAt(run, last);
      if Enabled(After(before), run[last]) {
        LimitStep(After(before), run[last]);
      }
    }
  }

  // An event is taken, and then n more are accepted.
  ghost function Flood(n: nat): seq<Step> {
    [Accept(SAMPLE, true), TakeNext] + seq(n, _ => Accept(SAMPLE, true))
  }

  const SAMPLE := Event(0, [])

  lemma {:induction false} FloodFills(n: nat)
    requires n <= MAX_QUEUED
    ensures var m := After(Flood(n));
            |m.s.queue| == n && m.s.dropped == 0 && !m.s.stopping && m.hand == Holding(SAMPLE)
  {
    hide MoveFirst, MoveAll;
    var run := Flood(n);
    if n == 0 {
      assert run == [Accept(SAMPLE, true), TakeNext];
      assert run[..1] == [Accept(SAMPLE, true)] && run[..1][..0] == [];
      assert After([]) == START;
      assert After(run[..1]).s == State([SAMPLE], 0, false);
    } else {
      FloodFills(n - 1);
      assert run[..|run| - 1] == Flood(n - 1);
    }
  }

  ghost function Overflow(n: nat): seq<Step> {
    Flood(MAX_QUEUED) + [WriteFails(true)] + seq(n, _ => Accept(SAMPLE, true))
  }

  /**
    Runs that take the queue past its limit, and as far past it as there are further events: the
    taken event cannot be written once the queue is full.
   */
  lemma {:induction false} QueuePassesLimit(n: nat)
    ensures var s := After(Overflow(n)).s;
            |s.queue| == MAX_QUEUED + 1 + n && s.dropped == 0 && !s.stopping
  {
    hide MoveFirst, MoveAll;
    var run := Overflow(n);
    if n == 0 {
      FloodFills(MAX_QUEUED);
      assert run[..|run| - 1] == Flood(MAX_QUEUED);
      hide Flood;
    } else {
      QueuePassesLimit(n - 1);
      assert run[..|run| - 1] == Overflow(n - 1);
      hide Overflow;
    }
  }

  /** Past the limit the fullness test no longer fires: every further event makes it longer. */
  lemma {:induction false} PastLimitGrows(m: Machine, events: seq<Event>)
    requires |m.s.queue| > MAX_QUEUED && !m.s.stopping
    ensures var s := AcceptAll(m.s, events);
            |s.queue| == |m.s.queue| + |events| && s.dropped == m.s.dropped && !s.stopping
  {
    if events != [] {
      PastLimitGrows(m, events[..|events| - 1]);
    }
  }

  function AcceptAll(s: State, events: seq<Event>): State {
    if events == [] then s
    else Enqueued(AcceptAll(s, events[..|events| - 1]), events[|events| - 1], true)
  }
}
