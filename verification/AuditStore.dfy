/**
  Store of crates/server/src/audit_log.rs: an append-only log in files that rotate when full and
  are pruned when old. Every file operation may fail, and a failed write may leave a part of its
  bytes, or all of them, in the file.
 */
module AuditStore {
  import opened Options
  import opened Utf8
  import opened AuditTail

  type Bytes = seq<Byte>

  // The active file is audit.jsonl; a rotated one is named after its segment.
  datatype Path = Active | Backup(id: nat)

  datatype Segment = Segment(id: nat, path: Path, length: nat)

  datatype Limits = Limits(backups: nat, rotateBytes: nat)

  datatype State = State(
    disk: map<Path, Bytes>,
    handle: Path,
    segments: seq<Segment>,
    nextId: nat,
    oversize: nat)

  /** A write is completed when it is synced; a failed one leaves that many bytes in the file. */
  datatype Write = Completed | Failed(left: nat)

  function PutBytes(bytes: Bytes, w: Write): Bytes {
    if w.Completed? || w.left >= |bytes| then bytes else bytes[..w.left]
  }

  /** Whether a failed write has left something in the file. */
  predicate Leaves(bytes: Bytes, w: Write) {
    w.Failed? && PutBytes(bytes, w) != []
  }

  /**
    How the file operations of one append turn out; `removals` old segments can be removed. A failed
    line that could be cut off again has left nothing.
   */
  datatype Luck = Luck(sync: bool, rename: bool, create: bool, header: Write, removals: nat,
                       line: Write)

  predicate Open(s: State) {
    s.segments != [] && s.handle in s.disk && Last(s).path in s.disk
  }

  function Last(s: State): Segment
    requires s.segments != []
  {
    s.segments[|s.segments| - 1]
  }

  function WithLast(s: State, segment: Segment): State
    requires s.segments != []
  {
    s.(segments := s.segments[..|s.segments| - 1] + [segment])
  }

  // ---- Rotation ------------------------------------------------------------------------------

  predicate MustRotate(s: State, limits: Limits, line: Bytes)
    requires s.segments != []
  {
    Last(s).length + |line| > limits.rotateBytes && Last(s).length > 256
  }

  /** The open file keeps its contents under its new name. */
  function Renamed(s: State): State
    requires Open(s)
  {
    var from, to := Last(s).path, Backup(Last(s).id);
    WithLast(s, Last(s).(path := to)).(
      disk := (s.disk - {from})[to := s.disk[from]],
      handle := if s.handle == from then to else s.handle)
  }

  // Segment ids are fresh: the next one has never been used.
  function Created(s: State): State {
    s.(disk := s.disk[Active := []], handle := Active,
       segments := s.segments + [Segment(s.nextId, Active, 0)], nextId := s.nextId + 1)
  }

  function Headed(s: State, header: Bytes, w: Write): State
    requires Open(s)
  {
    WithLast(s, if w.Completed? then Last(s).(length := |header|) else Last(s)).(
      disk := s.disk[s.handle := s.disk[s.handle] + PutBytes(header, w)])
  }

  function WithoutFirst(s: State): State
    requires s.segments != []
  {
    s.(disk := s.disk - {s.segments[0].path}, segments := s.segments[1..])
  }

  function Pruned(s: State, keep: nat, removals: nat): (State, bool)
    decreases |s.segments|
  {
    if |s.segments| <= keep then (s, true)
    else if removals == 0 then (s, false)
    else Pruned(WithoutFirst(s), keep, removals - 1)
  }

  function NewSegment(s: State, limits: Limits, header: Bytes, luck: Luck): (State, bool) {
    if !luck.create || Active in s.disk then (s, false)
    else
      var headed := Headed(Created(s), header, luck.header);
      if luck.header.Failed? then (headed, false)
      else Pruned(headed, limits.backups + 1, luck.removals)
  }

  function Rotated(s: State, limits: Limits, header: Bytes, luck: Luck): (State, bool)
    requires Open(s)
  {
    if !luck.sync || !luck.rename then (s, false)
    else NewSegment(Renamed(s), limits, header, luck)
  }

  // ---- Appending -----------------------------------------------------------------------------

  function Written(s: State, limits: Limits, line: Bytes, w: Write): State
    requires Open(s)
  {
    var wrote := s.(disk := s.disk[s.handle := s.disk[s.handle] + PutBytes(line, w)]);
    if w.Failed? then wrote
    else
      WithLast(wrote, Last(s).(length := Last(s).length + |line|)).(
        oversize := if |line| > limits.rotateBytes then s.oversize + 1 else s.oversize)
  }

  /** The store that the line goes to. */
  function Prepared(s: State, limits: Limits, line: Bytes, header: Bytes, luck: Luck)
    : (State, bool)
    requires Open(s)
  {
    if MustRotate(s, limits, line) then Rotated(s, limits, header, luck) else (s, true)
  }

  function Appended(s: State, limits: Limits, line: Bytes, header: Bytes, luck: Luck)
    : (State, bool)
    requires Open(s)
  {
    var (ready, ok) := Prepared(s, limits, line, header, luck);
    if !ok || !Open(ready) then (ready, false)
    else (Written(ready, limits, line, luck.line), luck.line.Completed?)
  }

  // ---- The class -----------------------------------------------------------------------------

  class Store {
    const limits: Limits
    var disk: map<Path, Bytes>
    var handle: Path
    var segments: seq<Segment>
    var nextId: nat
    var oversize: nat

    constructor (limits: Limits, s: State)
      ensures this.limits == limits && View() == s
    {
      this.limits, disk, handle, segments, nextId, oversize :=
        limits, s.disk, s.handle, s.segments, s.nextId, s.oversize;
    }

    ghost function View(): State
      reads this
    {
      State(disk, handle, segments, nextId, oversize)
    }

    method Prune(removals: nat) returns (ok: bool)
      modifies this
      ensures (View(), ok) == Pruned(old(View()), limits.backups + 1, removals)
    {
      var left := removals;
      while |segments| > limits.backups + 1
        invariant Pruned(View(), limits.backups + 1, left) ==
                  Pruned(old(View()), limits.backups + 1, removals)
        decreases |segments|
      {
        if left == 0 {
          return false;
        }
        disk := disk - {segments[0].path};
        segments := segments[1..];
        left := left - 1;
      }
      return true;
    }

    method StartSegment(header: Bytes, luck: Luck) returns (ok: bool)
      modifies this
      ensures (View(), ok) == NewSegment(old(View()), limits, header, luck)
    {
      if !luck.create || Active in disk {
        return false;
      }
      disk, handle := disk[Active := []], Active;
      segments, nextId := segments + [Segment(nextId, Active, 0)], nextId + 1;
      var created := segments[|segments| - 1];
      disk := disk[handle := disk[handle] + PutBytes(header, luck.header)];
      if luck.header.Failed? {
        return false;
      }
      segments := segments[..|segments| - 1] + [created.(length := |header|)];
      ok := Prune(luck.removals);
    }

    method Rotate(header: Bytes, luck: Luck) returns (ok: bool)
      requires Open(View())
      modifies this
      ensures (View(), ok) == Rotated(old(View()), limits, header, luck)
    {
      if !luck.sync || !luck.rename {
        return false;
      }
      var active := segments[|segments| - 1];
      var backup := Backup(active.id);
      disk := (disk - {active.path})[backup := disk[active.path]];
      handle := if handle == active.path then backup else handle;
      segments := segments[..|segments| - 1] + [active.(path := backup)];
      assert View() == Renamed(old(View()));
      ok := StartSegment(header, luck);
    }

    method Append(line: Bytes, header: Bytes, luck: Luck) returns (ok: bool)
      requires Open(View())
      modifies this
      ensures (View(), ok) == Appended(old(View()), limits, line, header, luck)
    {
      hide Rotated, PutBytes;
      var active := segments[|segments| - 1];
      if active.length + |line| > limits.rotateBytes && active.length > 256 {
        ok := Rotate(header, luck);
        if !ok {
          return false;
        }
      }
      if segments == [] || handle !in disk || segments[|segments| - 1].path !in disk {
        return false;
      }
      disk := disk[handle := disk[handle] + PutBytes(line, luck.line)];
      if luck.line.Failed? {
        return false;
      }
      if |line| > limits.rotateBytes {
        oversize := oversize + 1;
      }
      active := segments[|segments| - 1];
      segments := segments[..|segments| - 1] + [active.(length := active.length + |line|)];
      return true;
    }
  }

  // ---- Opening -------------------------------------------------------------------------------

  function Listed(disk: map<Path, Bytes>, listing: seq<nat>): seq<Segment>
    requires forall id | id in listing :: Backup(id) in disk
  {
    seq(|listing|, i requires 0 <= i < |listing| =>
          Segment(listing[i], Backup(listing[i]), |disk[Backup(listing[i])]|))
  }

  function ActiveFile(disk: map<Path, Bytes>): Bytes {
    if Active in disk then disk[Active] else []
  }

  function CompletePart(disk: map<Path, Bytes>): Bytes {
    ActiveFile(disk)[..TailLength(ActiveFile(disk))]
  }

  function ActiveId(named: Option<nat>, nextId: nat): nat {
    if named.Some? then named.value else nextId
  }

  /**
    A store over a directory whose backups, oldest first, are `listing`. The id that the first line
    of the active file names, if any, is `named`; otherwise the segment gets a fresh one.
   */
  function Opened(disk: map<Path, Bytes>, listing: seq<nat>, named: Option<nat>, nextId: nat): State
    requires forall id | id in listing :: Backup(id) in disk
  {
    var kept := CompletePart(disk);
    var id := ActiveId(named, nextId);
    State(disk[Active := kept], Active, Listed(disk, listing) + [Segment(id, Active, |kept|)],
          if named.Some? then nextId else nextId + 1, 0)
  }

  /** An empty active file gets its header; any failure leaves no store. */
  function Started(s: State, limits: Limits, header: Bytes, luck: Luck): Option<State>
    requires Open(s)
  {
    var headed := if s.disk[s.handle] == [] then Headed(s, header, luck.header) else s;
    var (t, ok) := Pruned(headed, limits.backups + 1, luck.removals);
    if (s.disk[s.handle] == [] && luck.header.Failed?) || !ok then None else Some(t)
  }

  method OpenStore(disk: map<Path, Bytes>, listing: seq<nat>, named: Option<nat>, nextId: nat,
                   limits: Limits, header: Bytes, luck: Luck)
    returns (store: Option<Store>, recovered: nat)
    requires forall id | id in listing :: Backup(id) in disk
    ensures var s := Opened(disk, listing, named, nextId);
            && (store.None? <==> Started(s, limits, header, luck).None?)
            && (store.Some? ==> fresh(store.value) && store.value.limits == limits &&
                                Some(store.value.View()) == Started(s, limits, header, luck))
    ensures recovered == |ActiveFile(disk)| - TailLength(ActiveFile(disk))
  {
    hide Listed, TailLength, Pruned;
    var file := if Active in disk then disk[Active] else [];
    var length := CompleteTailLength(file);
    recovered := |file| - length;
    var id := if named.Some? then named.value else nextId;
    var state := State(disk[Active := file[..length]], Active,
                       Listed(disk, listing) + [Segment(id, Active, length)],
                       if named.Some? then nextId else nextId + 1, 0);
    if length == 0 {
      if luck.header.Failed? {
        return None, recovered;
      }
      state := Headed(state, header, luck.header);
    }
    var created := new Store(limits, state);
    var ok := created.Prune(luck.removals);
    return (if ok then Some(created) else None), recovered;
  }

  // ---- What every append keeps ---------------------------------------------------------------

  /** Complete records, as text. */
  predicate Records(s: Bytes) {
    Terminated(s) && Valid(s)
  }

  lemma RecordsJoin(a: Bytes, b: Bytes)
    requires Records(a) && Records(b)
    ensures Records(a + b)
  {
    ValidConcat(a, b);
    assert b != [] ==> (a + b)[|a + b| - 1] == b[|b| - 1];
    assert b == [] ==> a + b == a;
  }

  /**
    What the files do not tell: every segment there has been, oldest first, with its contents; the
    segments in which a failed write has left bytes that no length accounts for; and those that may
    hold other things than whole records for that reason.
   */
  datatype History = History(ever: seq<nat>, archive: map<nat, Bytes>, short: set<nat>,
                             damaged: set<nat>)

  function WithNew(h: History, id: nat): History {
    h.(ever := h.ever + [id], archive := h.archive[id := []])
  }

  function WithBytes(h: History, id: nat, bytes: Bytes, w: Write): History
    requires id in h.archive
  {
    var marked := if Leaves(bytes, w) then {id} else {};
    h.(archive := h.archive[id := h.archive[id] + PutBytes(bytes, w)],
       short := h.short + marked, damaged := h.damaged + marked)
  }

  /** A recorded length is that of the file if and only if no failed write has left bytes in it. */
  predicate Filed(s: State, i: nat, h: History)
    requires i < |s.segments|
  {
    var segment := s.segments[i];
    && segment.path in s.disk
    && segment.id in h.archive
    && s.disk[segment.path] == h.archive[segment.id]
    && segment.length <= |h.archive[segment.id]|
    && (segment.length == |h.archive[segment.id]| <==> segment.id !in h.short)
    && (segment.path == Backup(segment.id) || (segment.path == Active && i == |s.segments| - 1))
  }

  predicate DistinctIds(segments: seq<Segment>) {
    forall i, j | 0 <= i < j < |segments| :: segments[i].id != segments[j].id
  }

  predicate SuffixOf(segments: seq<Segment>, ever: seq<nat>) {
    && |segments| <= |ever|
    && forall i | 0 <= i < |segments| :: segments[i].id == ever[|ever| - |segments| + i]
  }

  /** Only undamaged contents are known to be whole records. */
  predicate Archived(h: History, nextId: nat) {
    && (forall id | id in h.archive :: id < nextId && (id !in h.damaged ==> Records(h.archive[id])))
    && (forall id | id in h.ever :: id in h.archive)
    && (forall i, j | 0 <= i < j < |h.ever| :: h.ever[i] != h.ever[j])
    && (forall id | id in h.short :: id < nextId) && (forall id | id in h.damaged :: id < nextId)
  }

  function Ids(segments: seq<Segment>): seq<nat> {
    seq(|segments|, i requires 0 <= i < |segments| => segments[i].id)
  }

  /** No file is left that belongs to no retained segment. */
  predicate OnlyOwnFiles(s: State)
    requires s.segments != []
  {
    && (Active in s.disk ==> Last(s).path == Active)
    && (Last(s).path == Active ==> Backup(Last(s).id) !in s.disk)
    && forall p | p in s.disk && p.Backup? :: p.id in Ids(s.segments)
  }

  /**
    The files are those of the retained segments and hold what the history says; no segment is
    missing between retained ones.
   */
  predicate StoreInv(s: State, h: History) {
    && Open(s)
    && s.handle == Last(s).path
    && OnlyOwnFiles(s)
    && (forall i | 0 <= i < |s.segments| :: Filed(s, i, h))
    && DistinctIds(s.segments)
    && SuffixOf(s.segments, h.ever)
    && Archived(h, s.nextId)
  }

  lemma NotEmpty(s: State, h: History)
    requires StoreInv(s, h)
    ensures Open(s) && Last(s).id in h.archive && Last(s).id < s.nextId
    ensures s.disk[s.handle] == h.archive[Last(s).id]
    ensures s.segments != [] && |s.segments| <= |h.ever| && Last(s).id == h.ever[|h.ever| - 1]
  {
    assert Filed(s, |s.segments| - 1, h);
  }

  lemma SameIds(a: seq<Segment>, b: seq<Segment>, ever: seq<nat>)
    requires DistinctIds(a) && SuffixOf(a, ever) && |a| == |b|
    requires forall i | 0 <= i < |a| :: a[i].id == b[i].id
    ensures DistinctIds(b) && SuffixOf(b, ever)
  {}

  // The same files for the same segments.
  lemma SameOwners(s: State, t: State)
    requires s.segments != [] && OnlyOwnFiles(s)
    requires (forall p :: p in t.disk <==> p in s.disk) && |t.segments| == |s.segments|
    requires forall i | 0 <= i < |s.segments| ::
               t.segments[i].id == s.segments[i].id && t.segments[i].path == s.segments[i].path
    ensures OnlyOwnFiles(t)
  {
    assert Ids(t.segments) == Ids(s.segments);
  }

  lemma WithoutFirstOwn(s: State, h: History)
    requires StoreInv(s, h) && |s.segments| > 1
    ensures OnlyOwnFiles(WithoutFirst(s))
  {
    assert Filed(s, 0, h);
    var t := WithoutFirst(s);
    assert Ids(s.segments) == [s.segments[0].id] + Ids(t.segments);
    hide Archived, DistinctIds, SuffixOf;
  }

  lemma CreatedOwn(s: State)
    requires s.segments != [] && OnlyOwnFiles(s) && Active !in s.disk
    requires forall i | 0 <= i < |s.segments| :: s.segments[i].id < s.nextId
    ensures OnlyOwnFiles(Created(s))
  {
    assert Ids(Created(s).segments) == Ids(s.segments) + [s.nextId];
  }

  lemma RenamedOwn(s: State)
    requires Open(s) && OnlyOwnFiles(s)
    ensures OnlyOwnFiles(Renamed(s)) && Active !in Renamed(s).disk
  {
    assert Ids(Renamed(s).segments) == Ids(s.segments);
    assert Ids(s.segments)[|s.segments| - 1] == Last(s).id;
  }

  lemma RenamedKeeps(s: State, h: History)
    requires StoreInv(s, h)
    ensures StoreInv(Renamed(s), h) && Active !in Renamed(s).disk
    ensures Renamed(s).nextId == s.nextId && Last(Renamed(s)).id == Last(s).id
  {
    hide Archived;
    var t, n := Renamed(s), |s.segments|;
    assert Filed(s, n - 1, h);
    forall i | 0 <= i < n ensures Filed(t, i, h) {
      assert Filed(s, i, h);
    }
    RenamedOwn(s);
    hide OnlyOwnFiles;
  }

  lemma CreatedArchived(h: History, id: nat)
    requires Archived(h, id)
    ensures Archived(WithNew(h, id), id + 1)
    ensures id !in h.archive && id !in h.ever && id !in h.short
  {
    assert Records([]);
    assert forall x | x in h.ever :: x in h.archive && x < id;
    hide Records;
    var ever := WithNew(h, id).ever;
    assert forall i | 0 <= i < |h.ever| :: ever[i] == h.ever[i] && h.ever[i] in h.ever;
  }

  lemma CreatedIds(s: State, h: History)
    requires StoreInv(s, h)
    ensures forall i | 0 <= i < |s.segments| :: s.segments[i].id < s.nextId
    ensures DistinctIds(Created(s).segments)
    ensures SuffixOf(Created(s).segments, WithNew(h, s.nextId).ever)
  {
    forall i | 0 <= i < |s.segments| ensures s.segments[i].id < s.nextId {
      assert Filed(s, i, h);
    }
    hide OnlyOwnFiles, Records;
  }

  lemma CreatedKeeps(s: State, h: History)
    requires StoreInv(s, h) && Active !in s.disk
    ensures StoreInv(Created(s), WithNew(h, s.nextId))
    ensures Last(Created(s)) == Segment(s.nextId, Active, 0) && Created(s).nextId == s.nextId + 1
  {
    CreatedArchived(h, s.nextId);
    CreatedIds(s, h);
    CreatedOwn(s);
    hide Archived, OnlyOwnFiles, DistinctIds, SuffixOf;
    var t, grown := Created(s), WithNew(h, s.nextId);
    forall i | 0 <= i < |t.segments| ensures Filed(t, i, grown) {
      assert i < |s.segments| ==> Filed(s, i, h);
    }
  }

  lemma PutContents(a: Bytes, bytes: Bytes, w: Write)
    ensures w.Completed? ==> |PutBytes(bytes, w)| == |bytes| && !Leaves(bytes, w)
    ensures w.Failed? ==> (Leaves(bytes, w) <==> |PutBytes(bytes, w)| > 0)
    ensures Records(a) && Records(bytes) && !Leaves(bytes, w) ==> Records(a + PutBytes(bytes, w))
  {
    if Records(a) && Records(bytes) {
      RecordsJoin(a, bytes);
    }
    hide Records;
    assert a + [] == a;
  }

  lemma PutArchived(h: History, nextId: nat, id: nat, bytes: Bytes, w: Write)
    requires Archived(h, nextId) && id in h.archive && Records(bytes)
    ensures Archived(WithBytes(h, id, bytes, w), nextId)
  {
    PutContents(h.archive[id], bytes, w);
    hide Records, PutBytes, Leaves;
  }

  // The last segment after a write.
  lemma PutFiled(s: State, h: History, bytes: Bytes, w: Write, t: State)
    requires StoreInv(s, h)
    requires t.disk == s.disk[s.handle := s.disk[s.handle] + PutBytes(bytes, w)]
    requires t.segments == if w.Failed? then s.segments
                           else WithLast(s, Last(s).(length := Last(s).length + |bytes|)).segments
    ensures Last(s).id in h.archive
    ensures Filed(t, |s.segments| - 1, WithBytes(h, Last(s).id, bytes, w))
  {
    assert Filed(s, |s.segments| - 1, h);
    PutContents(h.archive[Last(s).id], bytes, w);
    hide Archived, Records, PutBytes, Leaves, OnlyOwnFiles, SuffixOf, DistinctIds;
  }

  // The others, whose files and entries it does not touch.
  lemma PutLeavesOthers(s: State, h: History, bytes: Bytes, w: Write, t: State, i: nat)
    requires StoreInv(s, h) && i < |s.segments| - 1
    requires t.disk == s.disk[s.handle := s.disk[s.handle] + PutBytes(bytes, w)]
    requires |t.segments| == |s.segments| && t.segments[i] == s.segments[i]
    requires Last(s).id in h.archive
    ensures Filed(t, i, WithBytes(h, Last(s).id, bytes, w))
  {
    assert Filed(s, i, h) && Filed(s, |s.segments| - 1, h);
    hide Archived, PutBytes, Leaves, OnlyOwnFiles, SuffixOf;
  }

  // Segments and files keep their names; what they hold is the business of Filed and Archived.
  lemma SameNamesKeep(s: State, h: History, t: State, after: History)
    requires StoreInv(s, h) && t.handle == s.handle && t.nextId == s.nextId
    requires (forall p :: p in t.disk <==> p in s.disk) && |t.segments| == |s.segments|
    requires forall i | 0 <= i < |s.segments| ::
               t.segments[i].id == s.segments[i].id && t.segments[i].path == s.segments[i].path
    requires after.ever == h.ever && Archived(after, t.nextId)
    requires forall i | 0 <= i < |t.segments| :: Filed(t, i, after)
    ensures StoreInv(t, after) && Last(t).id == Last(s).id
  {
    hide Archived, Filed, OnlyOwnFiles, DistinctIds, SuffixOf;
    SameOwners(s, t);
    SameIds(s.segments, t.segments, h.ever);
  }

  // How a write changes the list of segments.
  lemma PutNames(s: State, bytes: Bytes, w: Write)
    requires s.segments != []
    ensures var after := if w.Failed? then s.segments
                         else WithLast(s, Last(s).(length := Last(s).length + |bytes|)).segments;
            && |after| == |s.segments|
            && (forall i | 0 <= i < |after| - 1 :: after[i] == s.segments[i])
            && (forall i | 0 <= i < |after| ::
                  after[i].id == s.segments[i].id && after[i].path == s.segments[i].path)
  {}

  /** A write at the end of the open file, as its last segment records it. */
  lemma PutKeeps(s: State, h: History, bytes: Bytes, w: Write, t: State)
    requires StoreInv(s, h) && Records(bytes)
    requires t.disk == s.disk[s.handle := s.disk[s.handle] + PutBytes(bytes, w)]
    requires t.handle == s.handle && t.nextId == s.nextId
    requires t.segments == if w.Failed? then s.segments
                           else WithLast(s, Last(s).(length := Last(s).length + |bytes|)).segments
    ensures Last(s).id in h.archive
    ensures StoreInv(t, WithBytes(h, Last(s).id, bytes, w)) && Last(t).id == Last(s).id
  {
    PutFiled(s, h, bytes, w, t);
    PutArchived(h, s.nextId, Last(s).id, bytes, w);
    PutNames(s, bytes, w);
    hide StoreInv, Archived, Records, PutBytes, Leaves, Filed, WithLast;
    var after := WithBytes(h, Last(s).id, bytes, w);
    forall i | 0 <= i < |t.segments| ensures Filed(t, i, after) {
      if i < |s.segments| - 1 {
        PutLeavesOthers(s, h, bytes, w, t, i);
      }
    }
    SameNamesKeep(s, h, t, after);
  }

  lemma WithoutFirstKeeps(s: State, h: History)
    requires StoreInv(s, h) && |s.segments| > 1
    ensures StoreInv(WithoutFirst(s), h) && Last(WithoutFirst(s)) == Last(s)
  {
    hide Archived;
    var t, n := WithoutFirst(s), |s.segments|;
    assert Filed(s, 0, h) && Filed(s, n - 1, h);
    forall i | 0 <= i < n - 1 ensures Filed(t, i, h) {
      assert Filed(s, i + 1, h);
    }
    WithoutFirstOwn(s, h);
    hide OnlyOwnFiles;
  }

  lemma {:induction false} PrunedKeeps(s: State, h: History, keep: nat, removals: nat)
    requires StoreInv(s, h) && keep > 0
    ensures var (t, ok) := Pruned(s, keep, removals);
            && StoreInv(t, h)
            && Last(t) == Last(s) && t.nextId == s.nextId && t.oversize == s.oversize
            && (ok ==> |t.segments| <= keep)
    decreases |s.segments|
  {
    hide StoreInv;
    NotEmpty(s, h);
    if |s.segments| > keep && removals > 0 {
      WithoutFirstKeeps(s, h);
      PrunedKeeps(WithoutFirst(s), h, keep, removals - 1);
    }
  }

  // ---- One append ----------------------------------------------------------------------------

  /** Whether the append got as far as a new segment. */
  predicate Begins(s: State, t: State) {
    t.nextId != s.nextId
  }

  /** What getting the store ready does: at most a new segment with what there is of its header. */
  function ReadyHistory(s: State, ready: State, header: Bytes, luck: Luck, h: History): History {
    if Begins(s, ready) then WithBytes(WithNew(h, s.nextId), s.nextId, header, luck.header) else h
  }

  function NextHistory(s: State, limits: Limits, line: Bytes, header: Bytes, luck: Luck, h: History)
    : History
    requires Open(s)
  {
    var (ready, ok) := Prepared(s, limits, line, header, luck);
    var readied := ReadyHistory(s, ready, header, luck, h);
    if ok && Open(ready) && Last(ready).id in readied.archive
    then WithBytes(readied, Last(ready).id, line, luck.line) else readied
  }

  /** What one append adds to the end of the whole log. */
  function Added(s: State, limits: Limits, line: Bytes, header: Bytes, luck: Luck): Bytes
    requires Open(s)
  {
    var (ready, ok) := Prepared(s, limits, line, header, luck);
    (if Begins(s, ready) then PutBytes(header, luck.header) else []) +
    if ok && Open(ready) then PutBytes(line, luck.line) else []
  }

  /** Contents only ever grow at the end. */
  predicate Extends(archive: map<nat, Bytes>, after: map<nat, Bytes>) {
    forall id | id in archive :: id in after && archive[id] <= after[id]
  }

  lemma ExtendsTwice(a: map<nat, Bytes>, b: map<nat, Bytes>, c: map<nat, Bytes>)
    requires Extends(a, b) && Extends(b, c)
    ensures Extends(a, c)
  {
    forall id | id in a ensures a[id] <= c[id] {
      assert a[id] <= b[id] <= c[id];
    }
  }

  /** The whole log, pruned parts included. */
  function All(ever: seq<nat>, archive: map<nat, Bytes>): Bytes
    requires forall id | id in ever :: id in archive
  {
    if ever == [] then []
    else All(ever[..|ever| - 1], archive) + archive[ever[|ever| - 1]]
  }

  lemma {:induction false} AllElsewhere(ever: seq<nat>, archive: map<nat, Bytes>, id: nat, b: Bytes)
    requires forall other | other in ever :: other in archive
    requires id !in ever
    ensures All(ever, archive[id := b]) == All(ever, archive)
  {
    if ever != [] {
      AllElsewhere(ever[..|ever| - 1], archive, id, b);
    }
  }

  lemma AllWithNew(ever: seq<nat>, archive: map<nat, Bytes>, id: nat, b: Bytes)
    requires (forall other | other in ever :: other in archive) && id !in ever
    ensures All(ever + [id], archive[id := b]) == All(ever, archive) + b
  {
    AllElsewhere(ever, archive, id, b);
    assert (ever + [id])[..|ever|] == ever;
  }

  lemma SumsAssociate(x: Bytes, a: Bytes, b: Bytes)
    ensures (x + a) + b == x + (a + b)
  {}

  // More bytes for the last segment are more bytes at the end of the log.
  lemma AllGrows(ever: seq<nat>, archive: map<nat, Bytes>, more: Bytes)
    requires (forall other | other in ever :: other in archive) && ever != []
    requires forall i | 0 <= i < |ever| - 1 :: ever[i] != ever[|ever| - 1]
    ensures var id := ever[|ever| - 1];
            All(ever, archive[id := archive[id] + more]) == All(ever, archive) + more
  {
    var n := |ever| - 1;
    var id := ever[n];
    var front := ever[..n];
    assert front + [id] == ever;
    AllWithNew(front, archive, id, archive[id] + more);
    AllWithNew(front, archive, id, archive[id]);
    assert archive[id := archive[id]] == archive;
    SumsAssociate(All(front, archive), archive[id], more);
  }

  /** The store is in order again, and the whole log has gained these bytes at its end. */
  predicate Grew(h: History, t: State, after: History, added: Bytes) {
    && StoreInv(t, after)
    && Extends(h.archive, after.archive)
    && (forall id | id in h.ever :: id in h.archive)
    && (forall id | id in after.ever :: id in after.archive)
    && All(after.ever, after.archive) == All(h.ever, h.archive) + added
  }

  lemma GrewTwice(h: History, t: State, mid: History, a: Bytes, u: State, after: History, b: Bytes)
    requires Grew(h, t, mid, a) && Grew(mid, u, after, b)
    ensures Grew(h, u, after, a + b)
  {
    hide StoreInv, All, Extends;
    SumsAssociate(All(h.ever, h.archive), a, b);
    ExtendsTwice(h.archive, mid.archive, after.archive);
  }

  lemma GrewNothing(s: State, h: History)
    requires StoreInv(s, h)
    ensures Grew(h, s, h, [])
  {
    assert forall id | id in h.ever :: id in h.archive;
    hide StoreInv, All;
    assert All(h.ever, h.archive) + [] == All(h.ever, h.archive);
  }

  lemma PutGrew(s: State, h: History, bytes: Bytes, w: Write, t: State)
    requires StoreInv(s, h) && Records(bytes)
    requires t.disk == s.disk[s.handle := s.disk[s.handle] + PutBytes(bytes, w)]
    requires t.handle == s.handle && t.nextId == s.nextId
    requires t.segments == if w.Failed? then s.segments
                           else WithLast(s, Last(s).(length := Last(s).length + |bytes|)).segments
    ensures Last(s).id in h.archive && Last(t).id == Last(s).id
    ensures Grew(h, t, WithBytes(h, Last(s).id, bytes, w), PutBytes(bytes, w))
  {
    hide StoreInv, All, Records, PutBytes, Leaves, WithLast;
    NotEmpty(s, h);
    EverIsArchived(s, h);
    PutKeeps(s, h, bytes, w, t);
    var id := Last(s).id;
    assert h.archive[id] <= h.archive[id] + PutBytes(bytes, w);
    AllGrows(h.ever, h.archive, PutBytes(bytes, w));
  }

  lemma EverIsArchived(s: State, h: History)
    requires StoreInv(s, h)
    ensures forall id | id in h.ever :: id in h.archive
    ensures forall i | 0 <= i < |h.ever| - 1 :: h.ever[i] != h.ever[|h.ever| - 1]
  {
    hide Filed, OnlyOwnFiles, Records;
  }

  lemma NewExtends(h: History, id: nat)
    requires id !in h.archive
    ensures Extends(h.archive, WithNew(h, id).archive)
  {}

  lemma CreatedGrew(s: State, h: History)
    requires StoreInv(s, h) && Active !in s.disk
    ensures Grew(h, Created(s), WithNew(h, s.nextId), [])
    ensures Last(Created(s)) == Segment(s.nextId, Active, 0) && Created(s).nextId == s.nextId + 1
  {
    assert Archived(h, s.nextId);
    hide StoreInv, Archived, All, Records, Created, Extends;
    EverIsArchived(s, h);
    CreatedKeeps(s, h);
    CreatedArchived(h, s.nextId);
    AllWithNew(h.ever, h.archive, s.nextId, []);
    NewExtends(h, s.nextId);
    assert All(h.ever, h.archive) + [] == All(h.ever, h.archive);
  }

  // A new segment gets its header, and old ones are only removed after that.
  lemma NewSegmentGrew(s: State, h: History, limits: Limits, header: Bytes, luck: Luck)
    requires StoreInv(s, h) && Records(header) && Active !in s.disk
    ensures var (t, ok) := NewSegment(s, limits, header, luck);
            if luck.create then
              && t.nextId == s.nextId + 1
              && Grew(h, t, ReadyHistory(s, t, header, luck, h), PutBytes(header, luck.header))
              && Last(t).id == s.nextId
              && (ok ==> luck.header.Completed? && |t.segments| <= limits.backups + 1 &&
                         Last(t).length == |header|)
            else t == s && !ok
  {
    hide Grew, StoreInv, WithNew, WithBytes, PutBytes, Records, Created, Headed;
    if luck.create {
      HeadedGrew(s, h, header, luck.header);
      var headed := Headed(Created(s), header, luck.header);
      var after := WithBytes(WithNew(h, s.nextId), s.nextId, header, luck.header);
      GrewKeeps(h, headed, after, PutBytes(header, luck.header));
      if luck.header.Completed? {
        PrunedKeeps(headed, after, limits.backups + 1, luck.removals);
        GrewPruned(h, headed, Pruned(headed, limits.backups + 1, luck.removals).0, after,
                   PutBytes(header, luck.header));
      }
    }
  }

  lemma HeadedGrew(s: State, h: History, header: Bytes, w: Write)
    requires StoreInv(s, h) && Records(header) && Active !in s.disk
    ensures Open(Created(s)) && s.nextId in WithNew(h, s.nextId).archive
    ensures var t := Headed(Created(s), header, w);
            && Grew(h, t, WithBytes(WithNew(h, s.nextId), s.nextId, header, w), PutBytes(header, w))
            && t.segments != [] && t.nextId == s.nextId + 1 && Last(t).id == s.nextId
            && Last(t).length == if w.Completed? then |header| else 0
  {
    hide Grew, StoreInv, WithBytes, PutBytes, Records;
    var created, begun := Created(s), WithNew(h, s.nextId);
    CreatedGrew(s, h);
    GrewKeeps(h, created, begun, []);
    hide Created;
    var headed := Headed(created, header, w);
    PutGrew(created, begun, header, w, headed);
    GrewTwice(h, created, begun, [], headed, WithBytes(begun, s.nextId, header, w),
              PutBytes(header, w));
    assert [] + PutBytes(header, w) == PutBytes(header, w);
  }

  lemma GrewKeeps(h: History, t: State, after: History, added: Bytes)
    requires Grew(h, t, after, added)
    ensures StoreInv(t, after) && Open(t) && Last(t).id in after.archive
  {
    NotEmpty(t, after);
    hide All;
  }

  lemma GrewPruned(h: History, s: State, t: State, after: History, added: Bytes)
    requires Grew(h, s, after, added) && StoreInv(t, after)
    ensures Grew(h, t, after, added)
  {
    hide StoreInv, All;
  }

  lemma RotatedGrew(s: State, h: History, limits: Limits, header: Bytes, luck: Luck)
    requires StoreInv(s, h) && Records(header)
    ensures var (t, ok) := Rotated(s, limits, header, luck);
            && Grew(h, t, ReadyHistory(s, t, header, luck, h),
                    if Begins(s, t) then PutBytes(header, luck.header) else [])
            && (ok ==> Begins(s, t) && |t.segments| <= limits.backups + 1 &&
                       Last(t).length == |header|)
  {
    NotEmpty(s, h);
    hide NewSegment, Renamed, Records, StoreInv, Grew;
    GrewNothing(s, h);
    if luck.sync && luck.rename {
      RenamedKeeps(s, h);
      GrewNothing(Renamed(s), h);
      NewSegmentGrew(Renamed(s), h, limits, header, luck);
    }
  }

  lemma PreparedGrew(s: State, h: History, limits: Limits, line: Bytes, header: Bytes, luck: Luck)
    requires StoreInv(s, h) && Records(header)
    ensures Open(s)
    ensures var (ready, ok) := Prepared(s, limits, line, header, luck);
            && Grew(h, ready, ReadyHistory(s, ready, header, luck, h),
                    if Begins(s, ready) then PutBytes(header, luck.header) else [])
            && (ok && MustRotate(s, limits, line) ==>
                  Begins(s, ready) && |ready.segments| <= limits.backups + 1 &&
                  Last(ready).length == |header|)
            && (!MustRotate(s, limits, line) ==> ok && ready == s)
  {
    NotEmpty(s, h);
    hide Rotated, Records, StoreInv, Grew, MustRotate;
    RotatedGrew(s, h, limits, header, luck);
    GrewNothing(s, h);
  }

  /**
    Every append, whatever fails on the way and whatever failed writes leave behind, keeps the files
    those of the retained segments, recorded lengths those of the files wherever no failed write has
    left bytes, and the whole log growing only at its end, by what was written of header and line.
   */
  lemma AppendKeeps(s: State, h: History, limits: Limits, line: Bytes, header: Bytes, luck: Luck)
    requires StoreInv(s, h) && Records(header) && Records(line)
    ensures Open(s)
    ensures Grew(h, Appended(s, limits, line, header, luck).0,
                 NextHistory(s, limits, line, header, luck, h),
                 Added(s, limits, line, header, luck))
  {
    PreparedGrew(s, h, limits, line, header, luck);
    var (ready, ok) := Prepared(s, limits, line, header, luck);
    var readied := ReadyHistory(s, ready, header, luck, h);
    var added := if Begins(s, ready) then PutBytes(header, luck.header) else [];
    GrewKeeps(h, ready, readied, added);
    hide Prepared, ReadyHistory, Records, StoreInv, Grew, PutBytes, MustRotate;
    if ok {
      LineGrew(h, ready, readied, added, limits, line, luck.line);
    } else {
      assert added + [] == added;
    }
  }

  lemma WrittenIsPut(s: State, limits: Limits, line: Bytes, w: Write)
    requires Open(s)
    ensures var t := Written(s, limits, line, w);
            && t.disk == s.disk[s.handle := s.disk[s.handle] + PutBytes(line, w)]
            && t.handle == s.handle && t.nextId == s.nextId
            && t.segments == if w.Failed? then s.segments
                             else WithLast(s, Last(s).(length := Last(s).length + |line|)).segments
  {
    hide PutBytes;
  }

  lemma LineGrew(h: History, s: State, mid: History, added: Bytes, limits: Limits, line: Bytes,
                 w: Write)
    requires Grew(h, s, mid, added) && Records(line)
    ensures Open(s) && Last(s).id in mid.archive
    ensures Grew(h, Written(s, limits, line, w), WithBytes(mid, Last(s).id, line, w),
                 added + PutBytes(line, w))
  {
    hide Grew, StoreInv, Written, WithBytes, PutBytes, Records, WithLast;
    GrewKeeps(h, s, mid, added);
    WrittenIsPut(s, limits, line, w);
    PutGrew(s, mid, line, w, Written(s, limits, line, w));
    GrewTwice(h, s, mid, added, Written(s, limits, line, w), WithBytes(mid, Last(s).id, line, w),
              PutBytes(line, w));
  }

  // ---- What one append does ------------------------------------------------------------------

  /** Pruning removes the oldest segments there are too many of, as far as they can be removed. */
  lemma {:induction false} PrunedExactly(s: State, keep: nat, removals: nat)
    requires s.segments != []
    ensures var (t, ok) := Pruned(s, keep, removals);
            var excess := if |s.segments| > keep then |s.segments| - keep else 0;
            var gone := if removals < excess then removals else excess;
            && (ok <==> removals >= excess)
            && t.segments == s.segments[gone..]
            && t.handle == s.handle && t.nextId == s.nextId && t.oversize == s.oversize
            && (forall p :: p in t.disk <==>
                  p in s.disk && forall i | 0 <= i < gone :: s.segments[i].path != p)
            && (forall p | p in t.disk :: t.disk[p] == s.disk[p])
    decreases |s.segments|
  {
    if |s.segments| > keep && removals > 0 && |s.segments| > 1 {
      PrunedExactly(WithoutFirst(s), keep, removals - 1);
    }
  }

  // How many segments there are too many once another one begins.
  function Excess(s: State, limits: Limits): nat {
    if |s.segments| > limits.backups then |s.segments| - limits.backups else 0
  }

  lemma RenamedIds(s: State)
    requires Open(s)
    ensures Ids(Renamed(s).segments) == Ids(s.segments) && |Renamed(s).segments| == |s.segments|
    ensures Renamed(s).oversize == s.oversize && Renamed(s).nextId == s.nextId
  {}

  lemma HeadedIds(s: State, header: Bytes, w: Write)
    requires s.segments != [] && Active !in s.disk
    ensures Open(Created(s))
    ensures var t := Headed(Created(s), header, w);
            && Ids(t.segments) == Ids(s.segments) + [s.nextId]
            && |t.segments| == |s.segments| + 1 && t.segments[|s.segments|].id == s.nextId
            && t.handle == Active && t.disk == s.disk[Active := PutBytes(header, w)]
            && t.oversize == s.oversize && t.nextId == s.nextId + 1
  {
    assert [] + PutBytes(header, w) == PutBytes(header, w);
    hide PutBytes;
    var ids := Ids(Headed(Created(s), header, w).segments);
    assert forall i | 0 <= i < |s.segments| :: ids[i] == Ids(s.segments)[i];
  }

  lemma IdsOfTail(segments: seq<Segment>, n: nat)
    requires n <= |segments|
    ensures Ids(segments[n..]) == Ids(segments)[n..]
  {}

  // A new segment, and the pruning that follows its header.
  lemma NewSegmentExactly(s: State, limits: Limits, header: Bytes, luck: Luck)
    requires s.segments != [] && Active !in s.disk
    ensures var (t, ok) := NewSegment(s, limits, header, luck);
            var gone := if luck.header.Failed? then 0
                        else if luck.removals < Excess(s, limits) then luck.removals
                        else Excess(s, limits);
            && t.oversize == s.oversize && gone <= |s.segments|
            && (!luck.create ==> t == s && !ok)
            && (luck.create ==>
                  && t.nextId == s.nextId + 1
                  && Ids(t.segments) == Ids(s.segments)[gone..] + [s.nextId]
                  && (ok <==> luck.header.Completed? && luck.removals >= Excess(s, limits)))
  {
    hide Created, Headed, Ids, Pruned, PutBytes;
    if luck.create {
      HeadedIds(s, header, luck.header);
      var headed := Headed(Created(s), header, luck.header);
      var gone := if luck.header.Failed? then 0
                  else if luck.removals < Excess(s, limits) then luck.removals
                  else Excess(s, limits);
      PrunedExactly(headed, limits.backups + 1, luck.removals);
      IdsOfTail(headed.segments, gone);
      IdsAre(s.segments);
      assert (Ids(s.segments) + [s.nextId])[gone..] == Ids(s.segments)[gone..] + [s.nextId];
    }
  }

  lemma IdsAre(segments: seq<Segment>)
    ensures |Ids(segments)| == |segments|
    ensures forall i | 0 <= i < |segments| :: Ids(segments)[i] == segments[i].id
  {}

  /** A line that is written leaves the segments as they are. */
  lemma WrittenIds(s: State, limits: Limits, line: Bytes, w: Write)
    requires Open(s)
    ensures var t := Written(s, limits, line, w);
            && Ids(t.segments) == Ids(s.segments) && t.nextId == s.nextId
            && t.oversize == s.oversize +
                             if w.Completed? && |line| > limits.rotateBytes then 1 else 0
  {
    hide PutBytes;
  }

  /**
    When an append begins a new segment: if the line does not fit next to what is recorded of the
    active one, and that is more than 256 bytes, and the old file can be synced and renamed and the
    new one be created. Then the oldest segments go that are too many, once the header is written.
    Otherwise the segments stay what they are.
   */
  lemma RotatesExactly(s: State, h: History, limits: Limits, line: Bytes, header: Bytes, luck: Luck)
    requires StoreInv(s, h) && Records(header)
    ensures Open(s)
    ensures var t := Appended(s, limits, line, header, luck).0;
            var gone := if luck.header.Failed? then 0
                        else if luck.removals < Excess(s, limits) then luck.removals
                        else Excess(s, limits);
            if Last(s).length + |line| > limits.rotateBytes && Last(s).length > 256 &&
               luck.sync && luck.rename && luck.create then
              && t.nextId == s.nextId + 1 && gone <= |s.segments|
              && Ids(t.segments) == Ids(s.segments)[gone..] + [s.nextId]
            else t.nextId == s.nextId && Ids(t.segments) == Ids(s.segments)
  {
    hide Written, Renamed, Records, Ids, StoreInv, NewSegment, Excess;
    NotEmpty(s, h);
    RenamedKeeps(s, h);
    RenamedIds(s);
    RotatedExcess(s, limits);
    IdsAre(s.segments);
    NewSegmentExactly(Renamed(s), limits, header, luck);
    var (ready, ok) := Prepared(s, limits, line, header, luck);
    if ok && Open(ready) {
      WrittenIds(ready, limits, line, luck.line);
    }
  }

  lemma RotatedExcess(s: State, limits: Limits)
    requires Open(s)
    ensures Excess(Renamed(s), limits) == Excess(s, limits) && Renamed(s).segments != []
  {}

  /**
    An append succeeds if and only if everything it needs does: the line, and for a rotation the old
    file's sync, its new name, the new file, its header and the removal of all that is too many. Only
    a line that succeeds and is longer than a whole file may be is counted as oversized.
   */
  lemma SucceedsExactly(s: State, h: History, limits: Limits, line: Bytes, header: Bytes,
                        luck: Luck)
    requires StoreInv(s, h) && Records(header)
    ensures Open(s)
    ensures var (t, ok) := Appended(s, limits, line, header, luck);
            && (ok <==>
                  luck.line.Completed? &&
                  (Last(s).length + |line| > limits.rotateBytes && Last(s).length > 256 ==>
                     luck.sync && luck.rename && luck.create && luck.header.Completed? &&
                     luck.removals >= Excess(s, limits)))
            && t.oversize == s.oversize + if ok && |line| > limits.rotateBytes then 1 else 0
  {
    hide Written, Renamed, Records, Ids, StoreInv, NewSegment, Excess, Grew, Begins, ReadyHistory;
    NotEmpty(s, h);
    RenamedKeeps(s, h);
    RenamedIds(s);
    RotatedExcess(s, limits);
    NewSegmentExactly(Renamed(s), limits, header, luck);
    PreparedOpen(s, h, limits, line, header, luck);
    var (ready, ok) := Prepared(s, limits, line, header, luck);
    if ok {
      WrittenIds(ready, limits, line, luck.line);
    }
  }

  lemma PreparedOpen(s: State, h: History, limits: Limits, line: Bytes, header: Bytes, luck: Luck)
    requires StoreInv(s, h) && Records(header)
    ensures Open(s) && Open(Prepared(s, limits, line, header, luck).0)
  {
    PreparedGrew(s, h, limits, line, header, luck);
    hide Prepared, Records, StoreInv, Grew, PutBytes, ReadyHistory;
    var ready := Prepared(s, limits, line, header, luck).0;
    GrewKeeps(h, ready, ReadyHistory(s, ready, header, luck, h),
              if Begins(s, ready) then PutBytes(header, luck.header) else []);
  }

  /** What a write leaves of its bytes: all of them, or as much as a failure let through. */
  predicate Wrote(before: Bytes, bytes: Bytes, w: Write, after: Bytes) {
    && before <= after <= before + bytes
    && (w.Completed? ==> |after| == |before| + |bytes|)
    && (w.Failed? ==> |after| == |before| + if w.left < |bytes| then w.left else |bytes|)
  }

  lemma PutWrote(before: Bytes, bytes: Bytes, w: Write)
    ensures Wrote(before, bytes, w, before + PutBytes(bytes, w))
  {}

  /** A line that fits goes to the end of the active file, and no other file changes. */
  lemma FittingLineExactly(s: State, h: History, limits: Limits, line: Bytes, header: Bytes,
                           luck: Luck)
    requires StoreInv(s, h)
    requires Last(s).length + |line| <= limits.rotateBytes || Last(s).length <= 256
    ensures var t := Appended(s, limits, line, header, luck).0;
            && Open(s) && t.handle == s.handle && t.handle in t.disk
            && Wrote(s.disk[s.handle], line, luck.line, t.disk[t.handle])
            && t.disk == s.disk[s.handle := t.disk[t.handle]]
            && t.segments != [] && Last(t).id == Last(s).id && Last(t).path == Last(s).path
            && t.nextId == s.nextId
  {
    hide StoreInv, PutBytes, Wrote;
    NotEmpty(s, h);
    PutWrote(s.disk[s.handle], line, luck.line);
  }

  // The files right after the old one was renamed.
  lemma RenamedFiles(s: State, h: History)
    requires StoreInv(s, h)
    ensures Open(s) && Open(Renamed(s)) && |Renamed(s).segments| == |s.segments|
    ensures Renamed(s).disk == (s.disk - {Active})[Backup(Last(s).id) := s.disk[s.handle]]
  {
    NotEmpty(s, h);
    assert Filed(s, |s.segments| - 1, h);
    hide Filed, DistinctIds, SuffixOf, Archived, Records;
  }

  lemma HeadedFiles(s: State, header: Bytes, w: Write)
    requires s.segments != []
    ensures Open(Created(s))
    ensures var t := Headed(Created(s), header, w);
            && t.handle == Active && Open(t) && |t.segments| == |s.segments| + 1
            && t.disk == s.disk[Active := PutBytes(header, w)]
  {
    assert [] + PutBytes(header, w) == PutBytes(header, w);
    hide PutBytes;
  }

  lemma RotatedFiles(s: State, h: History, header: Bytes, w: Write)
    requires StoreInv(s, h)
    ensures Open(s) && Open(Renamed(s)) && Open(Created(Renamed(s)))
    ensures var t := Headed(Created(Renamed(s)), header, w);
            && t.handle == Active && Open(t) && |t.segments| == |s.segments| + 1
            && t.disk == (s.disk - {Active})[Backup(Last(s).id) := s.disk[s.handle]]
                                            [Active := PutBytes(header, w)]
  {
    hide StoreInv, PutBytes, Renamed, Created, Headed;
    RenamedFiles(s, h);
    HeadedFiles(Renamed(s), header, w);
  }

  /**
    A line that does not fit and succeeds is the only one in a new active file, after its header; the
    old active file is a backup now, and what is still there of the others has not changed.
   */
  lemma RotatingLineExactly(s: State, h: History, limits: Limits, line: Bytes, header: Bytes,
                            luck: Luck)
    requires StoreInv(s, h)
    requires Last(s).length + |line| > limits.rotateBytes && Last(s).length > 256
    requires Appended(s, limits, line, header, luck).1
    ensures var t := Appended(s, limits, line, header, luck).0;
            && Open(s) && t.handle == Active && Active in t.disk
            && t.disk[Active] == header + line && Last(t).length == |header| + |line|
            && (forall p | p in t.disk && p.Backup? ::
                  if p.id == Last(s).id then t.disk[p] == s.disk[s.handle]
                  else p in s.disk && t.disk[p] == s.disk[p])
  {
    hide StoreInv, Pruned, Headed, Created, Renamed;
    NotEmpty(s, h);
    RenamedKeeps(s, h);
    RotatedFiles(s, h, header, luck.header);
    var headed := Headed(Created(Renamed(s)), header, luck.header);
    PrunedExactly(headed, limits.backups + 1, luck.removals);
    HeadedLength(Renamed(s), header);
  }

  lemma HeadedLength(s: State, header: Bytes)
    requires s.segments != [] && Active !in s.disk
    ensures Open(Created(s)) && Last(Headed(Created(s), header, Completed)).length == |header|
  {}

  // ---- How many and how large ----------------------------------------------------------------

  /**
    A successful append leaves no more than the allowed number of segments exactly when it rotated
    or there were no more before.
   */
  lemma BoundedExactly(s: State, h: History, limits: Limits, line: Bytes, header: Bytes, luck: Luck)
    requires StoreInv(s, h) && Records(header)
    requires Appended(s, limits, line, header, luck).1
    ensures |Appended(s, limits, line, header, luck).0.segments| <= limits.backups + 1 <==>
            (Last(s).length + |line| > limits.rotateBytes && Last(s).length > 256) ||
            |s.segments| <= limits.backups + 1
  {
    PreparedGrew(s, h, limits, line, header, luck);
    hide Prepared, Records, StoreInv, Grew;
  }

  /**
    A segment outgrows the rotation limit only by a line that does not fit next to a header, or next
    to the 256 bytes below which nothing is rotated.
   */
  lemma SegmentsStaySmall(s: State, h: History, limits: Limits, line: Bytes, header: Bytes,
                          luck: Luck)
    requires StoreInv(s, h) && Records(header)
    requires Appended(s, limits, line, header, luck).1
    ensures var t := Appended(s, limits, line, header, luck).0;
            t.segments != [] &&
            (Last(t).length <= limits.rotateBytes || Last(t).length <= 256 + |line| ||
             Last(t).length == |header| + |line|)
  {
    PreparedGrew(s, h, limits, line, header, luck);
    hide Prepared, Records, StoreInv, Grew, PutBytes;
  }

  /**
    When only the header of a new segment cannot be written, the store is left with one segment too
    many, and the next record that fits is accepted all the same.
   */
  lemma HeaderFailureLeavesTooMany(s: State, h: History, limits: Limits, line: Bytes, header: Bytes)
    requires StoreInv(s, h)
    requires Last(s).length + |line| > limits.rotateBytes && Last(s).length > 256
    requires |s.segments| == limits.backups + 1 && |line| <= limits.rotateBytes
    ensures var bad := Luck(true, true, true, Failed(0), 0, Completed);
            var (t, failed) := Appended(s, limits, line, header, bad);
            Open(t) &&
            var good := Luck(true, true, true, Completed, 0, Completed);
            var (u, ok) := Appended(t, limits, line, header, good);
            !failed && ok && |u.segments| == limits.backups + 2
  {
    hide StoreInv, Rotated;
    NotEmpty(s, h);
    AfterHeaderFailure(s, h, limits, header, Failed(0));
    hide MustRotate;
    var t := Rotated(s, limits, header, Luck(true, true, true, Failed(0), 0, Completed)).0;
    NothingToRotate(t, limits, line);
  }

  lemma AfterHeaderFailure(s: State, h: History, limits: Limits, header: Bytes, w: Write)
    requires StoreInv(s, h) && w.Failed?
    ensures Open(s)
    ensures var (t, ok) := Rotated(s, limits, header, Luck(true, true, true, w, 0, Completed));
            && !ok && Open(t) && |t.segments| == |s.segments| + 1
            && Last(t).length == 0 && t.disk[t.handle] == PutBytes(header, w)
  {
    NotEmpty(s, h);
    RenamedKeeps(s, h);
    hide StoreInv, PutBytes, Renamed;
    var created := Created(Renamed(s));
    assert Last(created) == Segment(Renamed(s).nextId, Active, 0);
    assert [] + PutBytes(header, w) == PutBytes(header, w);
    hide Created;
  }

  // ---- When a recorded length is the file's --------------------------------------------------

  /** Whether a write of this append has failed and left something in the file. */
  predicate LeavesBytes(s: State, limits: Limits, line: Bytes, header: Bytes, luck: Luck)
    requires Open(s)
  {
    var (ready, ok) := Prepared(s, limits, line, header, luck);
    (Begins(s, ready) && Leaves(header, luck.header)) ||
    (ok && Open(ready) && Leaves(line, luck.line))
  }

  /**
    After any append, the recorded length of a retained segment is that of its file if and only if
    neither this append nor an earlier one has left bytes of a failed write in it.
   */
  lemma LengthsExactly(s: State, h: History, limits: Limits, line: Bytes, header: Bytes, luck: Luck,
                       i: nat)
    requires StoreInv(s, h) && Records(header) && Records(line)
    requires i < |Appended(s, limits, line, header, luck).0.segments|
    ensures var t := Appended(s, limits, line, header, luck).0;
            var segment := t.segments[i];
            && segment.path in t.disk
            && (segment.length == |t.disk[segment.path]| <==>
                  segment.id !in h.short &&
                  !(i == |t.segments| - 1 && LeavesBytes(s, limits, line, header, luck)))
  {
    hide Appended, NextHistory, LeavesBytes, Grew, Records, Archived, OnlyOwnFiles, SuffixOf;
    var t := Appended(s, limits, line, header, luck).0;
    var after := NextHistory(s, limits, line, header, luck, h);
    AppendKeeps(s, h, limits, line, header, luck);
    GrewKeeps(h, t, after, Added(s, limits, line, header, luck));
    assert Filed(t, i, after);
    ShortAfter(s, h, limits, line, header, luck, t.segments[i].id);
  }

  // Only the segment that was written to is marked.
  lemma ShortAfter(s: State, h: History, limits: Limits, line: Bytes, header: Bytes, luck: Luck,
                   id: nat)
    requires StoreInv(s, h) && Records(header) && Records(line)
    ensures var t := Appended(s, limits, line, header, luck).0;
            Open(t) &&
            (id in NextHistory(s, limits, line, header, luck, h).short <==>
               id in h.short || (LeavesBytes(s, limits, line, header, luck) && id == Last(t).id))
  {
    hide Prepared, Records, StoreInv, Grew, PutBytes, MustRotate, Leaves;
    NotEmpty(s, h);
    PreparedGrew(s, h, limits, line, header, luck);
    BegunIsLast(s, h, limits, line, header, luck);
    var (ready, ok) := Prepared(s, limits, line, header, luck);
    var readied := ReadyHistory(s, ready, header, luck, h);
    GrewKeeps(h, ready, readied, if Begins(s, ready) then PutBytes(header, luck.header) else []);
    assert id in readied.short <==>
           id in h.short || (Begins(s, ready) && Leaves(header, luck.header) && id == Last(ready).id);
    hide ReadyHistory;
  }

  lemma BegunIsLast(s: State, h: History, limits: Limits, line: Bytes, header: Bytes, luck: Luck)
    requires StoreInv(s, h) && Records(header)
    ensures var ready := Prepared(s, limits, line, header, luck).0;
            ready.segments != [] && (Begins(s, ready) ==> Last(ready).id == s.nextId)
  {
    PreparedGrew(s, h, limits, line, header, luck);
    hide StoreInv, Grew, Records;
    if MustRotate(s, limits, line) && luck.sync && luck.rename {
      RenamedKeeps(s, h);
      hide Renamed, NewSegment;
      NewSegmentGrew(Renamed(s), h, limits, header, luck);
    }
  }

  /**
    A header that was written but not synced is in the file and in no length: the next record is
    accepted behind it, and the recorded length ends that many bytes before the end of the record.
   */
  lemma UnsyncedHeaderIsNotCounted(s: State, h: History, limits: Limits, line: Bytes, header: Bytes)
    requires StoreInv(s, h)
    requires Last(s).length + |line| > limits.rotateBytes && Last(s).length > 256
    ensures var bad := Luck(true, true, true, Failed(|header|), 0, Completed);
            var (t, failed) := Appended(s, limits, line, header, bad);
            Open(t) &&
            var good := Luck(true, true, true, Completed, 0, Completed);
            var (u, ok) := Appended(t, limits, line, header, good);
            && !failed && ok && Open(u)
            && Last(u).length == |line| && u.disk[u.handle] == header + line
  {
    hide StoreInv, Rotated;
    NotEmpty(s, h);
    AfterHeaderFailure(s, h, limits, header, Failed(|header|));
    hide MustRotate;
    var t := Rotated(s, limits, header, Luck(true, true, true, Failed(|header|), 0, Completed)).0;
    NothingToRotate(t, limits, line);
  }

  lemma NothingToRotate(s: State, limits: Limits, line: Bytes)
    requires s.segments != [] && Last(s).length <= 256
    ensures !MustRotate(s, limits, line)
  {}

  // ---- Opening -------------------------------------------------------------------------------

  /** Backups, and an active file with at most a torn last line; damaged ones may hold anything. */
  predicate Directory(disk: map<Path, Bytes>, listing: seq<nat>, named: Option<nat>, nextId: nat,
                      damaged: set<nat>) {
    && (forall i | 0 <= i < |listing| ::
          && Backup(listing[i]) in disk && listing[i] < nextId && named != Some(listing[i])
          && (listing[i] !in damaged ==> Records(disk[Backup(listing[i])])))
    && (forall p | p in disk && p.Backup? :: p.id in listing)
    && (forall i, j | 0 <= i < j < |listing| :: listing[i] != listing[j])
    && (named.Some? ==> named.value < nextId)
    && (ActiveId(named, nextId) !in damaged ==> Valid(CompletePart(disk)))
    && (forall id | id in damaged :: id < nextId || id == ActiveId(named, nextId))
  }

  function OpenedHistory(disk: map<Path, Bytes>, listing: seq<nat>, named: Option<nat>, nextId: nat,
                         damaged: set<nat>): History
    requires forall id | id in listing :: Backup(id) in disk
  {
    var id := ActiveId(named, nextId);
    History(listing + [id], (map x | x in listing :: disk[Backup(x)])[id := CompletePart(disk)], {},
            damaged)
  }

  lemma OpenedFiles(disk: map<Path, Bytes>, listing: seq<nat>, named: Option<nat>, nextId: nat,
                    damaged: set<nat>, i: nat)
    requires Directory(disk, listing, named, nextId, damaged) && i <= |listing|
    ensures forall id | id in listing :: Backup(id) in disk
    ensures Filed(Opened(disk, listing, named, nextId), i,
                  OpenedHistory(disk, listing, named, nextId, damaged))
  {
    hide Records, CompletePart, Valid;
    assert i < |listing| ==> listing[i] in listing && listing[i] != ActiveId(named, nextId);
  }

  // What there is of one segment.
  lemma OpenedEntry(disk: map<Path, Bytes>, listing: seq<nat>, named: Option<nat>, nextId: nat,
                    damaged: set<nat>, x: nat)
    requires Directory(disk, listing, named, nextId, damaged)
    requires x in listing || x == ActiveId(named, nextId)
    ensures forall id | id in listing :: Backup(id) in disk
    ensures var archive := OpenedHistory(disk, listing, named, nextId, damaged).archive;
            && x in archive && x < Opened(disk, listing, named, nextId).nextId
            && (x !in damaged ==> Records(archive[x]))
  {
    hide Listed;
    TailIsLongest(ActiveFile(disk));
    assert Valid(CompletePart(disk)) ==> Records(CompletePart(disk));
    hide Records, CompletePart, Valid;
    if x in listing {
      var i :| 0 <= i < |listing| && listing[i] == x;
    }
  }

  // The active segment is another than the backups.
  lemma OpenedDistinct(disk: map<Path, Bytes>, listing: seq<nat>, named: Option<nat>, nextId: nat,
                       damaged: set<nat>)
    requires Directory(disk, listing, named, nextId, damaged)
    ensures var ids := listing + [ActiveId(named, nextId)];
            && ActiveId(named, nextId) !in listing
            && forall i, j | 0 <= i < j < |ids| :: ids[i] != ids[j]
  {
    hide Records, CompletePart, Valid;
    assert forall i | 0 <= i < |listing| :: listing[i] != ActiveId(named, nextId);
  }

  lemma OpenedArchived(disk: map<Path, Bytes>, listing: seq<nat>, named: Option<nat>, nextId: nat,
                       damaged: set<nat>)
    requires Directory(disk, listing, named, nextId, damaged)
    ensures forall id | id in listing :: Backup(id) in disk
    ensures Archived(OpenedHistory(disk, listing, named, nextId, damaged),
                     Opened(disk, listing, named, nextId).nextId)
  {
    OpenedDistinct(disk, listing, named, nextId, damaged);
    OpenedMarks(disk, listing, named, nextId, damaged);
    hide Records, CompletePart, Valid, Directory, Listed;
    var h := OpenedHistory(disk, listing, named, nextId, damaged);
    forall x | x in listing || x == ActiveId(named, nextId)
      ensures x in h.archive && x < Opened(disk, listing, named, nextId).nextId
      ensures x !in damaged ==> Records(h.archive[x])
    {
      OpenedEntry(disk, listing, named, nextId, damaged, x);
    }
  }

  lemma OpenedMarks(disk: map<Path, Bytes>, listing: seq<nat>, named: Option<nat>, nextId: nat,
                    damaged: set<nat>)
    requires Directory(disk, listing, named, nextId, damaged)
    ensures forall id | id in listing :: Backup(id) in disk
    ensures forall id | id in damaged :: id < Opened(disk, listing, named, nextId).nextId
  {
    hide Records, CompletePart, Valid, Listed;
  }

  lemma OpenedNames(disk: map<Path, Bytes>, listing: seq<nat>, named: Option<nat>, nextId: nat,
                    damaged: set<nat>)
    requires Directory(disk, listing, named, nextId, damaged)
    ensures forall id | id in listing :: Backup(id) in disk
    ensures var s := Opened(disk, listing, named, nextId);
            var ever := OpenedHistory(disk, listing, named, nextId, damaged).ever;
            && DistinctIds(s.segments) && SuffixOf(s.segments, ever)
  {
    OpenedMarks(disk, listing, named, nextId, damaged);
    OpenedDistinct(disk, listing, named, nextId, damaged);
    OpenedIds(disk, listing, named, nextId);
    hide Opened, Ids, ActiveId, Directory;
  }

  lemma OpenedOwn(disk: map<Path, Bytes>, listing: seq<nat>, named: Option<nat>, nextId: nat,
                  damaged: set<nat>)
    requires Directory(disk, listing, named, nextId, damaged)
    ensures forall id | id in listing :: Backup(id) in disk
    ensures OnlyOwnFiles(Opened(disk, listing, named, nextId))
  {
    OpenedMarks(disk, listing, named, nextId, damaged);
    OpenedDistinct(disk, listing, named, nextId, damaged);
    OpenedIds(disk, listing, named, nextId);
    hide Ids, ActiveId, Records, CompletePart, Valid, Listed;
  }

  lemma OpenedIds(disk: map<Path, Bytes>, listing: seq<nat>, named: Option<nat>, nextId: nat)
    requires forall id | id in listing :: Backup(id) in disk
    ensures var s, ids := Opened(disk, listing, named, nextId), listing + [ActiveId(named, nextId)];
            && Ids(s.segments) == ids && |s.segments| == |ids|
            && forall i | 0 <= i < |ids| :: s.segments[i].id == ids[i]
  {
    hide CompletePart;
  }

  lemma OpenedKeeps(disk: map<Path, Bytes>, listing: seq<nat>, named: Option<nat>, nextId: nat,
                    damaged: set<nat>)
    requires Directory(disk, listing, named, nextId, damaged)
    ensures forall id | id in listing :: Backup(id) in disk
    ensures StoreInv(Opened(disk, listing, named, nextId),
                     OpenedHistory(disk, listing, named, nextId, damaged))
  {
    OpenedArchived(disk, listing, named, nextId, damaged);
    OpenedNames(disk, listing, named, nextId, damaged);
    OpenedOwn(disk, listing, named, nextId, damaged);
    hide Records, CompletePart, Filed, SuffixOf, DistinctIds, Directory, Archived, OnlyOwnFiles;
    hide OpenedHistory;
    forall i: nat | i <= |listing|
      ensures Filed(Opened(disk, listing, named, nextId), i,
                    OpenedHistory(disk, listing, named, nextId, damaged))
    {
      OpenedFiles(disk, listing, named, nextId, damaged, i);
    }
  }

  /** The history of a store that has opened: a header if the active file was empty. */
  function StartedHistory(s: State, h: History, header: Bytes): History
    requires s.segments != []
  {
    var id := Last(s).id;
    if id in h.archive && h.archive[id] == [] then WithBytes(h, id, header, Completed) else h
  }

  lemma StartKeeps(s: State, h: History, limits: Limits, header: Bytes, luck: Luck)
    requires StoreInv(s, h) && Records(header)
    ensures Open(s)
    ensures var t := Started(s, limits, header, luck);
            t.Some? ==>
              |t.value.segments| <= limits.backups + 1 &&
              StoreInv(t.value, StartedHistory(s, h, header))
  {
    NotEmpty(s, h);
    assert Filed(s, |s.segments| - 1, h);
    hide StoreInv, Records, PutBytes;
    if h.archive[Last(s).id] == [] {
      if luck.header.Completed? {
        var headed := Headed(s, header, luck.header);
        PutKeeps(s, h, header, luck.header, headed);
        PrunedKeeps(headed, WithBytes(h, Last(s).id, header, Completed), limits.backups + 1,
                    luck.removals);
      }
    } else {
      PrunedKeeps(s, h, limits.backups + 1, luck.removals);
    }
  }

  /**
    A store that opens over what another left behind is in order and bounded: it has the backups,
    the complete records of the active file, and a header if the active file was empty. All recorded
    lengths are those of the files.
   */
  lemma OpenEstablishes(disk: map<Path, Bytes>, listing: seq<nat>, named: Option<nat>,
                        nextId: nat, damaged: set<nat>, limits: Limits, header: Bytes, luck: Luck)
    requires Directory(disk, listing, named, nextId, damaged) && Records(header)
    ensures forall id | id in listing :: Backup(id) in disk
    ensures var s := Opened(disk, listing, named, nextId);
            var h := OpenedHistory(disk, listing, named, nextId, damaged);
            var t := Started(s, limits, header, luck);
            t.Some? ==>
              |t.value.segments| <= limits.backups + 1 &&
              StoreInv(t.value, StartedHistory(s, h, header)) &&
              StartedHistory(s, h, header).short == {}
  {
    OpenedKeeps(disk, listing, named, nextId, damaged);
    hide StoreInv, Records, Started, Directory;
    StartKeeps(Opened(disk, listing, named, nextId),
               OpenedHistory(disk, listing, named, nextId, damaged), limits, header, luck);
  }

  /**
    When a store opens: if the active file already holds a record or its header can be written, and
    all backups that are too many can be removed. It has the newest of the backups, and its active
    file holds its complete records, or a header if there are none.
   */
  lemma OpensExactly(disk: map<Path, Bytes>, listing: seq<nat>, named: Option<nat>, nextId: nat,
                     limits: Limits, header: Bytes, luck: Luck)
    requires forall id | id in listing :: Backup(id) in disk
    ensures var kept, t := CompletePart(disk),
                           Started(Opened(disk, listing, named, nextId), limits, header, luck);
            var gone := if |listing| > limits.backups then |listing| - limits.backups else 0;
            && (t.Some? <==> (kept != [] || luck.header.Completed?) && luck.removals >= gone)
            && (t.Some? ==>
                  && Ids(t.value.segments) ==
                     listing[gone..] + [if named.Some? then named.value else nextId]
                  && t.value.handle == Active && t.value.segments != [] && Active in t.value.disk
                  && t.value.disk[Active] == (if kept == [] then header else kept)
                  && Last(t.value).length == |t.value.disk[Active]| && t.value.oversize == 0)
  {
    hide CompletePart, Pruned, PutBytes, Ids, Opened, Headed, Listed, ActiveFile;
    var s := Opened(disk, listing, named, nextId);
    OpenedIds(disk, listing, named, nextId);
    OpenedActive(disk, listing, named, nextId, header, luck.header);
    var headed := if s.disk[s.handle] == [] then Headed(s, header, luck.header) else s;
    PrunedKeepsActive(headed, limits.backups, luck.removals);
    var gone := if |listing| > limits.backups then |listing| - limits.backups else 0;
    IdsOfTail(headed.segments, gone);
    var id := ActiveId(named, nextId);
    assert (listing + [id])[gone..] == listing[gone..] + [id];
  }

  // Pruning down to the active file and some backups leaves the active file alone.
  lemma PrunedKeepsActive(s: State, backups: nat, removals: nat)
    requires s.segments != [] && Active in s.disk
    requires forall i | 0 <= i < |s.segments| - 1 :: s.segments[i].path != Active
    ensures var (t, ok) := Pruned(s, backups + 1, removals);
            var excess := if |s.segments| > backups + 1 then |s.segments| - backups - 1 else 0;
            && (ok <==> removals >= excess)
            && (ok ==> t.segments == s.segments[excess..] && t.segments != [] && Last(t) == Last(s))
            && Active in t.disk && t.disk[Active] == s.disk[Active]
            && t.handle == s.handle && t.oversize == s.oversize
  {
    hide Pruned;
    PrunedExactly(s, backups + 1, removals);
  }

  // The active file after opening, with a header if it needs one.
  lemma OpenedActive(disk: map<Path, Bytes>, listing: seq<nat>, named: Option<nat>, nextId: nat,
                     header: Bytes, w: Write)
    requires forall id | id in listing :: Backup(id) in disk
    ensures var s, kept := Opened(disk, listing, named, nextId), CompletePart(disk);
            var t := if s.disk[s.handle] == [] then Headed(s, header, w) else s;
            && Open(s) && s.disk[s.handle] == kept && s.handle == Active
            && |t.segments| == |listing| + 1 && Ids(t.segments) == Ids(s.segments)
            && t.handle == Active && t.oversize == 0 && Active in t.disk
            && (w.Completed? || kept != [] ==>
                  && t.disk[Active] == (if kept == [] then header else kept)
                  && Last(t) == Segment(ActiveId(named, nextId), Active, |t.disk[Active]|))
            && (forall i | 0 <= i < |listing| :: t.segments[i].path != Active)
  {
    hide CompletePart;
    var s := Opened(disk, listing, named, nextId);
    var t := if s.disk[s.handle] == [] then Headed(s, header, w) else s;
    assert Ids(t.segments) == Ids(s.segments);
    assert [] + header == header;
  }

  // ---- Crashing ------------------------------------------------------------------------------

  /** The active file may end in a part of a line that was being written. */
  function Torn(s: State, tail: Bytes): map<Path, Bytes> {
    if Active in s.disk then s.disk[Active := s.disk[Active] + tail] else s.disk
  }

  /** The backups a crashed store leaves, oldest first. */
  function LeftListing(s: State): seq<nat>
    requires s.segments != []
  {
    if Last(s).path == Active then Ids(s.segments)[..|s.segments| - 1] else Ids(s.segments)
  }

  /**
    A store that crashes at any time, with a torn line at its end, leaves a directory that can be
    opened again, whether or not its active file still names its segment.
   */
  lemma CrashLeavesADirectory(s: State, h: History, tail: Bytes, named: Option<nat>)
    requires StoreInv(s, h) && NEWLINE !in tail
    requires named == None || (Last(s).path == Active && named == Some(Last(s).id))
    ensures s.segments != []
    ensures var damaged := h.damaged + if Last(s).id in h.damaged
                                       then {ActiveId(named, s.nextId)} else {};
            Directory(Torn(s, tail), LeftListing(s), named, s.nextId, damaged)
  {
    NotEmpty(s, h);
    LeftFiles(s, h, tail, named);
    if Last(s).id !in h.damaged {
      CompletePartSurvives(s, h, tail);
    }
    hide Records, Valid, CompletePart, Filed, SuffixOf, OnlyOwnFiles;
    LeftDistinct(s, h, tail);
  }

  lemma LeftFiles(s: State, h: History, tail: Bytes, named: Option<nat>)
    requires StoreInv(s, h)
    requires named == None || (Last(s).path == Active && named == Some(Last(s).id))
    ensures var listing, disk := LeftListing(s), Torn(s, tail);
            forall i | 0 <= i < |listing| ::
              && Backup(listing[i]) in disk && listing[i] < s.nextId && named != Some(listing[i])
              && (listing[i] !in h.damaged ==> Records(disk[Backup(listing[i])]))
  {
    hide Records, OnlyOwnFiles, SuffixOf;
    var listing, disk := LeftListing(s), Torn(s, tail);
    forall i | 0 <= i < |listing|
      ensures && Backup(listing[i]) in disk && listing[i] < s.nextId && named != Some(listing[i])
              && (listing[i] !in h.damaged ==> Records(disk[Backup(listing[i])]))
    {
      assert Filed(s, i, h) && listing[i] == s.segments[i].id;
    }
  }

  // Recovery finds the end of the last complete line, which is where the torn one began.
  lemma CompletePartSurvives(s: State, h: History, tail: Bytes)
    requires StoreInv(s, h) && NEWLINE !in tail && Last(s).id !in h.damaged
    ensures CompletePart(Torn(s, tail)) == ActiveFile(s.disk) && Valid(ActiveFile(s.disk))
  {
    NotEmpty(s, h);
    if Active in s.disk {
      var file := s.disk[Active];
      assert Last(s).path == Active && Records(file);
      hide StoreInv, Valid;
      TailIsLongest(file + tail);
      CompleteRecordsSurvive(file, tail, TailLength(file + tail));
      assert (file + tail)[..|file|] == file;
    }
  }

  lemma LeftDistinct(s: State, h: History, tail: Bytes)
    requires StoreInv(s, h)
    ensures var listing := LeftListing(s);
            && (forall p | p in Torn(s, tail) && p.Backup? :: p.id in listing)
            && (forall i, j | 0 <= i < j < |listing| :: listing[i] != listing[j])
  {
    hide Archived;
    var listing, n := LeftListing(s), |s.segments|;
    assert forall i | 0 <= i < |listing| :: listing[i] == s.segments[i].id;
    assert Filed(s, n - 1, h);
    forall p | p in Torn(s, tail) && p.Backup? ensures p.id in listing {
      var i :| 0 <= i < n && Ids(s.segments)[i] == p.id;
      assert Last(s).path == Active ==> i < n - 1;
    }
  }
}
