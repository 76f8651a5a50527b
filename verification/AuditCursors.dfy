/**
  The snapshot cursors of AuditLog::read in crates/server/src/audit_log.rs: a bounded table in
  which a repeated page finds the cursor it was given before.
 */
module AuditCursors {
  import opened Options
  import opened Identifiers
  import opened AuditReader

  const MAX_CURSORS: nat := 512

  /** One page asked for from one cursor. */
  datatype Key = Key(source: nat, limit: nat, budget: nat)

  datatype Table = Table(
    cursors: map<nat, Cursor>,
    order: seq<nat>,
    successors: map<Key, nat>,
    nextId: nat)

  const EMPTY_TABLE := Table(map[], [], map[], 0)

  function WithoutOldest(t: Table): Table
    requires t.order != []
  {
    var expired := t.order[0];
    t.(cursors := t.cursors - {expired}, order := t.order[1..],
       successors := map k | k in t.successors && k.source != expired && t.successors[k] != expired
                     :: t.successors[k])
  }

  function Trimmed(t: Table): Table
    decreases |t.order|
  {
    if |t.order| > MAX_CURSORS then Trimmed(WithoutOldest(t)) else t
  }

  // Cursor ids are fresh: the next one has never been given out.
  function Added(t: Table, key: Option<Key>, c: Cursor): Table {
    t.(cursors := t.cursors[t.nextId := c], order := t.order + [t.nextId],
       successors := if key.Some? then t.successors[key.value := t.nextId] else t.successors,
       nextId := t.nextId + 1)
  }

  predicate Known(t: Table, key: Option<Key>) {
    key.Some? && key.value in t.successors && t.successors[key.value] in t.cursors
  }

  /** The id of the cursor that continues a page: the one given before, if it is still there. */
  function Published(t: Table, key: Option<Key>, c: Cursor): (Table, nat) {
    if Known(t, key) then (t, t.successors[key.value]) else (Trimmed(Added(t, key, c)), t.nextId)
  }

  class CursorTable {
    var cursors: map<nat, Cursor>
    var order: seq<nat>
    var successors: map<Key, nat>
    var nextId: nat

    constructor ()
      ensures View() == EMPTY_TABLE
    {
      cursors, order, successors, nextId := map[], [], map[], 0;
    }

    ghost function View(): Table
      reads this
    {
      Table(cursors, order, successors, nextId)
    }

    method Publish(key: Option<Key>, c: Cursor) returns (id: nat)
      modifies this
      ensures (View(), id) == Published(old(View()), key, c)
    {
      if key.Some? && key.value in successors && successors[key.value] in cursors {
        return successors[key.value];
      }
      id := nextId;
      nextId := nextId + 1;
      cursors, order := cursors[id := c], order + [id];
      if key.Some? {
        successors := successors[key.value := id];
      }
      while |order| > MAX_CURSORS
        invariant Trimmed(View()) == Trimmed(Added(old(View()), key, c))
        decreases |order|
      {
        var expired := order[0];
        order, cursors := order[1..], cursors - {expired};
        successors := map k | k in successors && k.source != expired && successors[k] != expired
                      :: successors[k];
      }
    }
  }

  // ---- What the table keeps ------------------------------------------------------------------

  /** The ids given out last, oldest first. */
  predicate Latest(order: seq<nat>, nextId: nat) {
    |order| <= nextId && forall i | 0 <= i < |order| :: order[i] == nextId - |order| + i
  }

  lemma TailOfLatest(order: seq<nat>, nextId: nat)
    requires Latest(order, nextId) && order != []
    ensures Latest(order[1..], nextId)
    ensures forall id :: id in order[1..] <==> id in order && id != order[0]
  {
    assert order == [order[0]] + order[1..];
  }

  lemma LatestIds(order: seq<nat>, nextId: nat, id: nat)
    requires Latest(order, nextId)
    ensures id in order <==> nextId - |order| <= id < nextId
  {
    if nextId - |order| <= id < nextId {
      assert order[id - (nextId - |order|)] == id;
    }
  }

  /**
    Map and order hold the same ids, which are the last ones given out, and every successor leads
    between two live cursors.
   */
  ghost predicate Consistent(t: Table) {
    && Latest(t.order, t.nextId)
    && (forall id :: id in t.order <==> id in t.cursors)
    && (forall id | id in t.cursors :: id < t.nextId)
    && (forall k | k in t.successors :: k.source in t.cursors && t.successors[k] in t.cursors)
    && (forall k, l | k in t.successors && l in t.successors && t.successors[k] == t.successors[l] ::
          k == l)
  }

  ghost predicate TableInv(t: Table) {
    Consistent(t) && |t.order| == if t.nextId < MAX_CURSORS then t.nextId else MAX_CURSORS
  }

  lemma AddedKeeps(t: Table, key: Option<Key>, c: Cursor)
    requires Consistent(t) && (key.Some? ==> key.value.source in t.cursors)
    ensures Consistent(Added(t, key, c))
  {
    assert t.nextId !in t.order;
    assert forall id :: id in Added(t, key, c).order <==> id in t.order || id == t.nextId;
  }

  // Dropping one id from the map and from the order, wherever it is in the order.
  lemma DroppingKeeps(t: Table, expired: nat, after: Table)
    requires Consistent(t) && Latest(after.order, after.nextId) && after.nextId == t.nextId
    requires forall id :: id in after.order <==> id in t.order && id != expired
    requires after.cursors == t.cursors - {expired}
    requires after.successors ==
             map k | k in t.successors && k.source != expired && t.successors[k] != expired
             :: t.successors[k]
    ensures Consistent(after) && Fewer(t, after)
  {
    hide Latest;
  }

  lemma WithoutOldestKeeps(t: Table)
    requires Consistent(t) && t.order != []
    ensures Consistent(WithoutOldest(t)) && Fewer(t, WithoutOldest(t))
  {
    TailOfLatest(t.order, t.nextId);
    DroppingKeeps(t, t.order[0], WithoutOldest(t));
    hide Latest, Consistent, Fewer;
  }

  /** Some cursors are gone, with the successors that led from or to them; nothing else changed. */
  ghost predicate Fewer(t: Table, after: Table) {
    && after.nextId == t.nextId
    && (forall id | id in after.cursors :: id in t.cursors && after.cursors[id] == t.cursors[id])
    && (forall k | k in after.successors ::
          k in t.successors && after.successors[k] == t.successors[k])
    && (forall k | k in t.successors && k.source in after.cursors &&
                   t.successors[k] in after.cursors :: k in after.successors)
  }

  lemma FewerTwice(a: Table, b: Table, c: Table)
    requires Fewer(a, b) && Fewer(b, c)
    ensures Fewer(a, c)
  {}

  lemma {:induction false} TrimmedKeeps(t: Table)
    requires Consistent(t)
    ensures Consistent(Trimmed(t)) && Fewer(t, Trimmed(t))
    ensures |Trimmed(t).order| == if |t.order| < MAX_CURSORS then |t.order| else MAX_CURSORS
    ensures |t.order| > 0 ==>
              Trimmed(t).order != [] &&
              Trimmed(t).order[|Trimmed(t).order| - 1] == t.order[|t.order| - 1]
    decreases |t.order|
  {
    hide Consistent;
    if |t.order| > MAX_CURSORS {
      WithoutOldestKeeps(t);
      TrimmedKeeps(WithoutOldest(t));
      FewerTwice(t, WithoutOldest(t), Trimmed(t));
    }
    hide Fewer;
  }

  // The newest cursor outlives the trimming.
  lemma NewestStays(t: Table)
    requires Consistent(t) && t.order != []
    ensures t.order[|t.order| - 1] in Trimmed(t).cursors
  {
    TrimmedKeeps(t);
    hide Trimmed, Latest, Fewer;
  }

  /** Cursors may be gone later, but those that are still there, and their successors, are the same. */
  ghost predicate Aged(t: Table, after: Table) {
    && t.nextId <= after.nextId
    && (forall id | id in after.cursors && id < t.nextId ::
          id in t.cursors && after.cursors[id] == t.cursors[id])
    && (forall k | k in t.successors && k.source in after.cursors &&
                   t.successors[k] in after.cursors ::
          k in after.successors && after.successors[k] == t.successors[k])
  }

  lemma AgedTwice(a: Table, b: Table, c: Table)
    requires Consistent(a) && Aged(a, b) && Aged(b, c)
    ensures Aged(a, c)
  {
    hide Latest;
  }

  // A successor that is recorded and alive is Known, so a new one does not replace it.
  lemma AddedAges(t: Table, key: Option<Key>, c: Cursor)
    requires Consistent(t) && !Known(t, key)
    ensures Aged(t, Added(t, key, c))
  {
    hide Latest;
  }

  lemma FewerAges(t: Table, mid: Table, after: Table)
    requires Aged(t, mid) && Fewer(mid, after)
    ensures Aged(t, after)
  {}

  /** The only new entry is the one for this page. */
  ghost predicate OneNew(t: Table, after: Table, key: Option<Key>, id: nat) {
    && (forall other | other in after.cursors && other != id ::
          other in t.cursors && after.cursors[other] == t.cursors[other])
    && (forall k | k in after.successors ::
          (key == Some(k) && after.successors[k] == id) ||
          (k in t.successors && t.successors[k] == after.successors[k]))
  }

  lemma FewerOneNew(t: Table, key: Option<Key>, c: Cursor, after: Table)
    requires Fewer(Added(t, key, c), after)
    ensures OneNew(t, after, key, t.nextId)
  {}

  /**
    Publishing keeps the table consistent and bounded, gives out a live cursor, and either finds
    the one it gave before or adds a new one that no one has seen.
   */
  lemma PublishedKeeps(t: Table, key: Option<Key>, c: Cursor)
    requires TableInv(t) && (key.Some? ==> key.value.source in t.cursors)
    ensures var (after, id) := Published(t, key, c);
            && TableInv(after) && Aged(t, after) && OneNew(t, after, key, id)
            && id in after.cursors && after.nextId <= t.nextId + 1
            && (Known(t, key) ==> after == t)
            && (!Known(t, key) ==> after.cursors[id] == c && id == t.nextId)
  {
    if Known(t, key) {
    } else {
      var added := Added(t, key, c);
      AddedKeeps(t, key, c);
      AddedAges(t, key, c);
      TrimmedKeeps(added);
      NewestStays(added);
      FewerAges(t, added, Trimmed(added));
      FewerOneNew(t, key, c, Trimmed(added));
      assert Trimmed(added).cursors[t.nextId] == added.cursors[t.nextId];
    }
    hide Consistent, Trimmed, Fewer;
  }

  /** A page asked for again gets the same cursor, as long as both ends are still there. */
  lemma PublishedIsRemembered(t: Table, key: Key, c: Cursor)
    requires TableInv(t) && key.source in t.cursors
    ensures var (after, id) := Published(t, Some(key), c);
            key.source in after.cursors ==> key in after.successors && after.successors[key] == id
  {
    if !Known(t, Some(key)) {
      AddedKeeps(t, Some(key), c);
      TrimmedKeeps(Added(t, Some(key), c));
      NewestStays(Added(t, Some(key), c));
    }
    hide Consistent, Trimmed;
  }

  // ---- Sizes ---------------------------------------------------------------------------------

  lemma {:induction false} InjectiveSize(m: map<Key, nat>, targets: set<nat>)
    requires forall k | k in m :: m[k] in targets
    requires forall k, l | k in m && l in m && m[k] == m[l] :: k == l
    ensures |m| <= |targets|
    decreases targets
  {
    if m.Keys == {} {
      assert |m| == |m.Keys|;
    } else {
      var k :| k in m;
      InjectiveSize(m - {k}, targets - {m[k]});
      assert |m - {k}| == |m| - 1 by {
        assert (m - {k}).Keys == m.Keys - {k};
        assert |m| == |m.Keys| && |m - {k}| == |(m - {k}).Keys|;
      }
    }
  }

  lemma LatestAreDistinct(order: seq<nat>, nextId: nat)
    requires Latest(order, nextId)
    ensures Distinct(order)
  {}

  /** The live cursors are exactly the last 512 that were given out. */
  lemma LiveExactly(t: Table, id: nat)
    requires TableInv(t)
    ensures id in t.cursors <==> id < t.nextId <= id + MAX_CURSORS
  {
    LatestIds(t.order, t.nextId, id);
    hide Latest;
  }

  /** At most 512 cursors and at most as many successors, whatever was read. */
  lemma Bounded(t: Table)
    requires TableInv(t)
    ensures |t.cursors| == |t.order| <= MAX_CURSORS && |t.successors| <= MAX_CURSORS
  {
    hide Latest;
    assert Distinct(t.order) by { LatestAreDistinct(t.order, t.nextId); }
    DistinctSize(t.order);
    assert Members(t.order) == t.cursors.Keys;
    assert |t.cursors| == |t.cursors.Keys|;
    InjectiveSize(t.successors, t.cursors.Keys);
  }
}
