/**
  IpcAdapter of crates/server/src/ipc_adapter.rs: concurrent calls that share one stream and one
  operation ledger, may time out or be cancelled, and leave late responses for others to drain.
 */
module Ipc {
  import opened Options
  import opened Recorded
  import opened Ledger

  const CAPACITY: nat := 1024
  const TTL: nat := 600_000
  const RING: nat := 64

  // ---- Calls ---------------------------------------------------------------------------------

  /** A mutation carries an operation id and the fingerprint of its name and arguments. */
  datatype Op = Op(id: nat, fingerprint: string)

  datatype Response = Response(request: nat, body: Body)

  datatype Failure =
    | Busy | OutcomeIsUnknown | IdConflict | LedgerFull | LedgerFailed | NotReady
    | ConnectionLost | DeadlinePassed | Mismatched

  datatype Final = Answer(outcome: Outcome) | Repeated(outcome: Outcome) | Failed(failure: Failure)

  predicate SafeToRetry(final: Final, mutation: bool) {
    match final
    case Answer(outcome) => outcome.Err? && outcome.error.safeToRetry
    case Repeated(outcome) => outcome.Err? && outcome.error.safeToRetry
    case Failed(failure) =>
      || failure in {Busy, LedgerFull, NotReady}
      || (!mutation && failure in {ConnectionLost, DeadlinePassed, Mismatched})
  }

  // A call is named by its request id.
  datatype Phase =
    | Admitted
    | Waiting
    | Holding
    | Reading
    | Answered(response: Response)
    | Broken
    | Done(final: Final)
    | Cancelled

  datatype Call = Call(op: Option<Op>, pifLaunch: bool, phase: Phase)

  function KindOf(call: Call): Kind {
    Kind(call.op.Some?, call.pifLaunch)
  }

  // ---- The machine ---------------------------------------------------------------------------

  /** One touch of a ledger entry, or one request frame of a mutation. */
  datatype Record = Record(id: nat, time: Time, frame: Option<nat>)

  datatype Wire = Wire(
    ring: seq<nat>,
    holder: Option<nat>,
    toPlugin: seq<nat>,
    fromPlugin: seq<Response>,
    // Observers: request ids that fell out of a full ring, and whether no exchange went wrong yet.
    lost: set<nat>,
    clean: bool)

  datatype Machine = Machine(
    now: Time,
    ready: bool,
    entries: Entries,
    log: seq<Record>,
    calls: map<nat, Call>,
    wire: Wire)

  const INITIAL := Machine(0, true, map[], [], map[], Wire([], None, [], [], {}, true))

  datatype Step =
    | Tick(elapsed: nat)
    | Begin(call: nat, op: Option<Op>, pifLaunch: bool)
    | CheckReady(call: nat)
    | Lock(call: nat)
    | Write(call: nat, delivered: bool, ok: bool)
    | Reply(response: Response)
    | Read(call: nat, ok: bool)
    | Finish(call: nat)
    | TimeOut(call: nat)
    | Cancel(call: nat)

  predicate In(m: Machine, c: nat, phases: set<Phase>) {
    c in m.calls && m.calls[c].phase in phases
  }

  // Where a call awaits: only here can its deadline pass or its caller drop it.
  predicate Suspended(m: Machine, c: nat) {
    In(m, c, {Waiting, Holding, Reading})
  }

  predicate Enabled(m: Machine, s: Step) {
    match s
    case Tick(_) => true
    case Begin(c, _, _) => c !in m.calls
    case CheckReady(c) => In(m, c, {Admitted})
    case Lock(c) => In(m, c, {Waiting}) && m.wire.holder.None?
    case Write(c, delivered, ok) => In(m, c, {Holding}) && (ok ==> delivered)
    case Reply(_) => true
    case Read(c, ok) => In(m, c, {Reading}) && (ok ==> m.wire.fromPlugin != [])
    case Finish(c) => c in m.calls && (m.calls[c].phase.Answered? || m.calls[c].phase.Broken?)
    case TimeOut(c) => Suspended(m, c)
    case Cancel(c) => Suspended(m, c)
  }

  function Moved(m: Machine, c: nat, phase: Phase): Machine
    requires c in m.calls
  {
    m.(calls := m.calls[c := m.calls[c].(phase := phase)])
  }

  /** A full ring forgets its oldest id. */
  function Remembered(w: Wire, c: nat): Wire {
    if |w.ring| == RING then w.(ring := w.ring[1..] + [c], lost := w.lost + {w.ring[0]})
    else w.(ring := w.ring + [c])
  }

  function Position(ring: seq<nat>, id: nat): (k: nat)
    ensures k <= |ring| && (id in ring <==> k < |ring|)
    ensures k < |ring| ==> ring[k] == id
    ensures forall j | 0 <= j < k :: ring[j] != id
  {
    if ring == [] || ring[0] == id then 0 else Position(ring[1..], id) + 1
  }

  function Consumed(ring: seq<nat>, id: nat): seq<nat> {
    var k := Position(ring, id);
    if k < |ring| then ring[..k] + ring[k + 1..] else ring
  }

  function Released(w: Wire, c: nat): Wire {
    if w.holder == Some(c) then w.(holder := None) else w
  }

  function Touching(log: seq<Record>, id: nat, now: Time): seq<Record> {
    log + [Record(id, now, None)]
  }

  function SettledIn(m: Machine, op: Option<Op>, status: Status): Machine {
    if op.Some? && op.value.id in m.entries then
      m.(entries := Settled(m.entries, op.value.id, status, m.now),
         log := Touching(m.log, op.value.id, m.now))
    else m
  }

  /** The outcome of the call is unknown, the adapter is no longer ready, its request is abandoned. */
  function GivenUp(m: Machine, c: nat, failure: Failure): Machine
    requires c in m.calls
  {
    var marked := Moved(SettledIn(m, m.calls[c].op, Unclear), c, Done(Failed(failure)));
    marked.(ready := false, wire := Remembered(Released(m.wire, c), c))
  }

  function Refusal(admission: Admission): Phase {
    match admission
    case Started => Admitted
    case Running => Done(Failed(Busy))
    case Replay(value) => Done(Repeated(DecodeRecorded(value)))
    case OutcomeUnknown => Done(Failed(OutcomeIsUnknown))
    case Conflict => Done(Failed(IdConflict))
    case Full => Done(Failed(LedgerFull))
  }

  function NextBegin(m: Machine, c: nat, op: Option<Op>, pifLaunch: bool): Machine {
    if op.None? then m.(calls := m.calls[c := Call(op, pifLaunch, Admitted)])
    else
      var id := op.value.id;
      var (entries, admission) := Begun(m.entries, id, op.value.fingerprint, m.now, CAPACITY, TTL);
      m.(entries := entries,
         log := if admission == Full then m.log else Touching(m.log, id, m.now),
         calls := m.calls[c := Call(op, pifLaunch, Refusal(admission))])
  }

  function NextCheckReady(m: Machine, c: nat): Machine
    requires c in m.calls
  {
    var op := m.calls[c].op;
    if m.ready then Moved(m, c, Waiting)
    else if op.None? then Moved(m, c, Done(Failed(NotReady)))
    else
      var removable := Removable(m.entries, op.value.id, op.value.fingerprint);
      Moved(m, c, Done(Failed(if removable then NotReady else LedgerFailed))).(
        entries := Abandoned(m.entries, op.value.id, op.value.fingerprint))
  }

  function NextWrite(m: Machine, c: nat, delivered: bool, ok: bool): Machine
    requires c in m.calls
  {
    var op := m.calls[c].op;
    var w := if delivered then m.wire.(toPlugin := m.wire.toPlugin + [c]) else m.wire;
    Moved(m, c, if ok then Reading else Broken).(
      log := if delivered && op.Some? then m.log + [Record(op.value.id, m.now, Some(c))] else m.log,
      wire := if ok then w else Released(w, c).(clean := false))
  }

  // The plugin may answer what it likes; see Faithful in Correlation for one that behaves.
  function NextReply(w: Wire, response: Response): Wire {
    w.(fromPlugin := w.fromPlugin + [response],
       toPlugin := if w.toPlugin == [] then [] else w.toPlugin[1..])
  }

  /** Does a response end the wait of a call? If not, it was for an abandoned request. */
  predicate Stops(ring: seq<nat>, c: nat, request: nat) {
    request == c || request !in ring
  }

  function NextRead(m: Machine, c: nat, ok: bool): Machine
    requires c in m.calls && (ok ==> m.wire.fromPlugin != [])
  {
    if !ok then Moved(m, c, Broken).(wire := Released(m.wire, c).(clean := false))
    else
      var response, rest := m.wire.fromPlugin[0], m.wire.fromPlugin[1..];
      if Stops(m.wire.ring, c, response.request) then
        Moved(m, c, Answered(response)).(
          wire := Released(m.wire, c).(fromPlugin := rest,
                                       clean := m.wire.clean && response.request == c))
      else
        m.(wire := m.wire.(fromPlugin := rest, ring := Consumed(m.wire.ring, response.request)))
  }

  function NextFinish(m: Machine, c: nat): Machine
    requires c in m.calls && (m.calls[c].phase.Answered? || m.calls[c].phase.Broken?)
  {
    var call := m.calls[c];
    if call.phase.Broken? then GivenUp(m, c, ConnectionLost)
    else if call.phase.response.request != c then GivenUp(m, c, Mismatched)
    else
      var outcome := OutcomeOf(call.phase.response.body, KindOf(call));
      if call.op.Some? && call.op.value.id !in m.entries then
        Moved(m, c, Done(Failed(LedgerFailed)))
      else
        Moved(SettledIn(m, call.op, Completed(EncodeRecorded(outcome))), c, Done(Answer(outcome)))
  }

  function NextCancel(m: Machine, c: nat): Machine
    requires c in m.calls
  {
    Moved(m, c, Cancelled).(wire := Remembered(Released(m.wire, c), c))
  }

  /** A step that cannot be taken changes nothing. */
  function Next(m: Machine, s: Step): Machine {
    if !Enabled(m, s) then m
    else
      match s
      case Tick(elapsed) => m.(now := m.now + elapsed)
      case Begin(c, op, pifLaunch) => NextBegin(m, c, op, pifLaunch)
      case CheckReady(c) => NextCheckReady(m, c)
      case Lock(c) => Moved(m, c, Holding).(wire := m.wire.(holder := Some(c)))
      case Write(c, delivered, ok) => NextWrite(m, c, delivered, ok)
      case Reply(response) => m.(wire := NextReply(m.wire, response))
      case Read(c, ok) => NextRead(m, c, ok)
      case Finish(c) => NextFinish(m, c)
      case TimeOut(c) => GivenUp(m, c, DeadlinePassed)
      case Cancel(c) => NextCancel(m, c)
  }

  function After(steps: seq<Step>): Machine {
    if steps == [] then INITIAL else Next(After(steps[..|steps| - 1]), steps[|steps| - 1])
  }

  // ---- The ring and the read loop ------------------------------------------------------------

  /** What the read loop of one call leaves: the ring, the responses not read, its own response. */
  function Drained(ring: seq<nat>, c: nat, incoming: seq<Response>)
    : (seq<nat>, seq<Response>, Option<Response>)
  {
    if incoming == [] then (ring, [], None)
    else if Stops(ring, c, incoming[0].request) then (ring, incoming[1..], Some(incoming[0]))
    else Drained(Consumed(ring, incoming[0].request), c, incoming[1..])
  }

  class RequestRing {
    var ids: seq<nat>

    constructor ()
      ensures ids == []
    {
      ids := [];
    }

    method RememberAbandonedRequest(id: nat)
      modifies this
      ensures ids == (if |old(ids)| == RING then old(ids)[1..] else old(ids)) + [id]
    {
      if |ids| == RING {
        ids := ids[1..];
      }
      ids := ids + [id];
    }

    method ConsumeAbandonedResponse(id: nat) returns (found: bool)
      modifies this
      ensures found == (id in old(ids)) && ids == Consumed(old(ids), id)
    {
      var k := 0;
      while k < |ids| && ids[k] != id
        invariant k <= |ids| && id !in ids[..k]
      {
        k := k + 1;
      }
      assert forall j | 0 <= j < k :: ids[j] == ids[..k][j];
      if k == |ids| {
        return false;
      }
      ids := ids[..k] + ids[k + 1..];
      return true;
    }

    /** Reads until a response is the caller's own or for nobody that gave up. */
    method AwaitResponse(c: nat, incoming: seq<Response>)
      returns (response: Option<Response>, rest: seq<Response>)
      modifies this
      ensures (ids, rest, response) == Drained(old(ids), c, incoming)
    {
      rest, response := incoming, None;
      while rest != []
        invariant Drained(ids, c, rest) == Drained(old(ids), c, incoming)
        decreases |rest|
      {
        var next := rest[0];
        rest := rest[1..];
        if next.request == c {
          return Some(next), rest;
        }
        var abandoned := ConsumeAbandonedResponse(next.request);
        if !abandoned {
          return Some(next), rest;
        }
      }
    }
  }
}
