/**
  OperationLedger of crates/server/src/operation_ledger.rs: which mutation ids were admitted, with
  which arguments, and what became of them. Reading the clock and taking the lock is one step.
 */
module Ledger {
  import opened Options
  import opened Recorded

  type Time = nat

  datatype Status = InFlight | Completed(value: Value) | Unclear

  datatype Entry = Entry(fingerprint: string, status: Status, touched: Time)

  type Entries = map<nat, Entry>

  datatype Admission = Started | Running | Replay(value: Value) | OutcomeUnknown | Conflict | Full

  // Durations saturate at zero.
  function Elapsed(now: Time, since: Time): nat {
    if since <= now then now - since else 0
  }

  predicate Retained(e: Entry, now: Time, ttl: nat) {
    e.status.InFlight? || Elapsed(now, e.touched) < ttl
  }

  function Purged(entries: Entries, now: Time, ttl: nat): Entries {
    map id | id in entries && Retained(entries[id], now, ttl) :: entries[id]
  }

  function Verdict(e: Entry, fingerprint: string): Admission {
    if e.fingerprint != fingerprint then Conflict
    else match e.status
      case InFlight => Running
      case Completed(value) => Replay(value)
      case Unclear => OutcomeUnknown
  }

  function Begun(entries: Entries, id: nat, fingerprint: string, now: Time, capacity: nat, ttl: nat)
    : (Entries, Admission)
  {
    var kept := Purged(entries, now, ttl);
    if id in kept then (kept[id := kept[id].(touched := now)], Verdict(kept[id], fingerprint))
    else if |kept| >= capacity then (kept, Full)
    else (kept[id := Entry(fingerprint, InFlight, now)], Started)
  }

  /** Nothing changes for an id that is not there. */
  function Settled(entries: Entries, id: nat, status: Status, now: Time): Entries {
    if id in entries then entries[id := Entry(entries[id].fingerprint, status, now)] else entries
  }

  predicate Removable(entries: Entries, id: nat, fingerprint: string) {
    id in entries && entries[id].fingerprint == fingerprint && entries[id].status.InFlight?
  }

  function Abandoned(entries: Entries, id: nat, fingerprint: string): Entries {
    if Removable(entries, id, fingerprint) then entries - {id} else entries
  }

  // ---- The class -----------------------------------------------------------------------------

  class OperationLedger {
    const maxEntries: nat
    const ttl: nat
    var entries: Entries

    constructor (maxEntries: nat, ttl: nat)
      ensures this.maxEntries == maxEntries && this.ttl == ttl && entries == map[]
    {
      this.maxEntries, this.ttl, entries := maxEntries, ttl, map[];
    }

    method Begin(id: nat, fingerprint: string, now: Time) returns (admission: Admission)
      modifies this`entries
      ensures (entries, admission) == Begun(old(entries), id, fingerprint, now, maxEntries, ttl)
    {
      entries := map key | key in entries && Retained(entries[key], now, ttl) :: entries[key];
      if id in entries {
        var entry := entries[id];
        entries := entries[id := entry.(touched := now)];
        if entry.fingerprint != fingerprint {
          return Conflict;
        }
        match entry.status {
          case InFlight => return Running;
          case Completed(value) => return Replay(value);
          case Unclear => return OutcomeUnknown;
        }
      }
      if |entries| >= maxEntries {
        return Full;
      }
      entries := entries[id := Entry(fingerprint, InFlight, now)];
      return Started;
    }

    method Complete(id: nat, value: Value, now: Time) returns (found: bool)
      modifies this`entries
      ensures found == (id in old(entries))
      ensures entries == Settled(old(entries), id, Completed(value), now)
    {
      found := SetStatus(id, Completed(value), now);
    }

    method MarkUnknown(id: nat, now: Time) returns (found: bool)
      modifies this`entries
      ensures found == (id in old(entries))
      ensures entries == Settled(old(entries), id, Unclear, now)
    {
      found := SetStatus(id, Unclear, now);
    }

    method SetStatus(id: nat, status: Status, now: Time) returns (found: bool)
      modifies this`entries
      ensures found == (id in old(entries))
      ensures entries == Settled(old(entries), id, status, now)
    {
      if id !in entries {
        return false;
      }
      entries := entries[id := Entry(entries[id].fingerprint, status, now)];
      return true;
    }

    /** Fails unless the exact operation is still in flight. */
    method AbandonUnstarted(id: nat, fingerprint: string) returns (removed: bool)
      modifies this`entries
      ensures removed <==> id in old(entries) && old(entries)[id].fingerprint == fingerprint &&
                           old(entries)[id].status == InFlight
      ensures removed ==> entries == old(entries) - {id}
      ensures !removed ==> entries == old(entries)
      ensures entries == Abandoned(old(entries), id, fingerprint)
    {
      if id !in entries || entries[id].fingerprint != fingerprint || !entries[id].status.InFlight? {
        return false;
      }
      entries := entries - {id};
      return true;
    }
  }

  /** A ledger that could admit nothing, or would forget at once, is refused. */
  method NewLedger(maxEntries: nat, ttl: nat) returns (ledger: Option<OperationLedger>)
    ensures ledger.None? <==> maxEntries == 0 || ttl == 0
    ensures ledger.Some? ==>
              fresh(ledger.value) && ledger.value.entries == map[] &&
              ledger.value.maxEntries == maxEntries && ledger.value.ttl == ttl
  {
    if maxEntries == 0 || ttl == 0 {
      return None;
    }
    var created := new OperationLedger(maxEntries, ttl);
    return Some(created);
  }

  // ---- What every operation keeps ------------------------------------------------------------

  lemma PurgeShrinks(entries: Entries, now: Time, ttl: nat)
    ensures |Purged(entries, now, ttl)| <= |entries|
    ensures Purged(entries, now, ttl).Keys <= entries.Keys
  {
    var kept := Purged(entries, now, ttl);
    SubsetIsSmaller(kept.Keys, entries.Keys);
  }

  lemma {:induction false} SubsetIsSmaller<T>(a: set<T>, b: set<T>)
    requires a <= b
    ensures |a| <= |b|
    decreases a
  {
    if a != {} {
      var x :| x in a;
      SubsetIsSmaller(a - {x}, b - {x});
    }
  }

  /** The capacity is hard: no admission goes over it, whatever the ledger held before. */
  lemma BeginKeepsCapacity(entries: Entries, id: nat, fingerprint: string, now: Time,
                           capacity: nat, ttl: nat)
    requires |entries| <= capacity
    ensures |Begun(entries, id, fingerprint, now, capacity, ttl).0| <= capacity
  {
    var kept := Purged(entries, now, ttl);
    PurgeShrinks(entries, now, ttl);
    var after := Begun(entries, id, fingerprint, now, capacity, ttl).0;
    assert after.Keys == kept.Keys || after.Keys == kept.Keys + {id};
    assert id in kept ==> kept.Keys + {id} == kept.Keys;
    assert |after| == |after.Keys|;
  }

  /** Settling keeps every id, abandoning drops one at most. */
  lemma OthersKeepCapacity(entries: Entries, id: nat, fingerprint: string, status: Status,
                           now: Time)
    ensures |Settled(entries, id, status, now)| == |entries|
    ensures |Abandoned(entries, id, fingerprint)| <= |entries|
  {
    assert Settled(entries, id, status, now).Keys == entries.Keys;
    SubsetIsSmaller(Abandoned(entries, id, fingerprint).Keys, entries.Keys);
    assert |Settled(entries, id, status, now)| == |entries.Keys|;
  }

  /**
    An admission changes nothing but the touched time of the id it is for, apart from dropping
    entries that are settled and were not touched for a whole ttl.
   */
  lemma BeginLeavesOthers(entries: Entries, id: nat, fingerprint: string, now: Time,
                          capacity: nat, ttl: nat, other: nat)
    requires other in entries
    ensures var (after, admission) := Begun(entries, id, fingerprint, now, capacity, ttl);
            && (Retained(entries[other], now, ttl) ==>
                  other in after &&
                  after[other] == if other == id then entries[id].(touched := now)
                                  else entries[other])
            && (!Retained(entries[other], now, ttl) && other in after ==>
                  other == id && admission == Started)
  {}
}
