/**
  AuditLog::read of crates/server/src/audit_log.rs over whole runs: appends and other readers come in
  between, and a reader that gets to the end has seen exactly what was recorded when it began.
 */
module AuditPaging {
  import opened Options
  import opened Utf8
  import opened AuditTail
  import opened AuditStore
  import opened AuditReader
  import opened AuditCursors

  // ---- Reading -------------------------------------------------------------------------------

  datatype Request = Request(
    source: Option<nat>,
    limit: Option<nat>,
    budget: Option<nat>,
    // Whether the segment's file can be opened and read.
    readable: bool)

  /** A page, absent when nothing was left, and the cursor to go on with, absent at the end. */
  datatype Outcome =
    | Got(page: Option<Page>, next: Option<nat>)
    | InvalidArgument
    | CursorExpired
    | LogReadFailed

  function Given(value: Option<nat>, default: nat): nat {
    if value.None? then default else value.value
  }

  function Limit(r: Request): nat {
    Given(r.limit, 50)
  }

  function Budget(r: Request): nat {
    Given(r.budget, 65_536)
  }

  predicate Acceptable(r: Request) {
    1 <= Limit(r) <= 100 && 1024 <= Budget(r) <= 262_144
  }

  function Snapshot(s: State): Cursor {
    Cursor(s.segments, 0, 0, false)
  }

  function Start(s: State, t: Table, source: Option<nat>): Option<Cursor> {
    if source.None? then Some(Snapshot(s))
    else if source.value in t.cursors then Some(t.cursors[source.value])
    else None
  }

  function PathOf(segments: seq<Segment>, id: nat): Option<Path> {
    if segments == [] then None
    else if segments[0].id == id then Some(segments[0].path)
    else PathOf(segments[1..], id)
  }

  function KeyOf(r: Request): Option<Key> {
    if r.source.None? then None else Some(Key(r.source.value, Limit(r), Budget(r)))
  }

  /** The page, and a cursor for the next one unless this was the last. */
  function Delivered(t: Table, c: Cursor, page: Page, r: Request): (Table, Outcome) {
    var next := After(c, page);
    if Ended(next) then (t, Got(Some(page), None))
    else
      var (after, id) := Published(t, KeyOf(r), next);
      (after, Got(Some(page), Some(id)))
  }

  function ReadFrom(s: State, t: Table, c: Cursor, r: Request): (Table, Outcome)
    requires !Ended(c)
  {
    var path := PathOf(s.segments, c.segments[c.index].id);
    if path.None? then (t, CursorExpired)
    else if !r.readable || path.value !in s.disk then (t, LogReadFailed)
    else
      var page := PageAt(c, s.disk[path.value], Limit(r), Budget(r));
      if page.None? then (t, LogReadFailed) else Delivered(t, c, page.value, r)
  }

  function Read(s: State, t: Table, r: Request): (Table, Outcome) {
    if !Acceptable(r) then (t, InvalidArgument)
    else
      var start := Start(s, t, r.source);
      if start.None? then (t, CursorExpired)
      else
        var c := Advanced(start.value);
        if Ended(c) then (t, Got(None, None)) else ReadFrom(s, t, c, r)
  }

  function Text(outcome: Outcome): Bytes
    requires outcome.Got?
  {
    if outcome.page.None? then [] else outcome.page.value.text
  }

  /** The reader itself, over the table that it shares with other readers. */
  method ReadLog(s: State, table: CursorTable, r: Request) returns (o: Outcome)
    modifies table
    ensures (table.View(), o) == Read(s, old(table.View()), r)
  {
    hide Advanced, PageAt, PathOf, Published;
    var limit, budget := Given(r.limit, 50), Given(r.budget, 65_536);
    if !(1 <= limit <= 100) || !(1024 <= budget <= 262_144) {
      return InvalidArgument;
    }
    var cursor := Cursor(s.segments, 0, 0, false);
    if r.source.Some? {
      if r.source.value !in table.cursors {
        return CursorExpired;
      }
      cursor := table.cursors[r.source.value];
    }
    cursor := AdvanceEmptySegments(cursor);
    if cursor.index >= |cursor.segments| {
      return Got(None, None);
    }
    var segment := cursor.segments[cursor.index];
    var path := PathOf(s.segments, segment.id);
    if path.None? {
      return CursorExpired;
    }
    if !r.readable || path.value !in s.disk {
      return LogReadFailed;
    }
    var page := ReadPage(cursor, s.disk[path.value], limit, budget);
    if page.None? {
      return LogReadFailed;
    }
    var next := cursor.(offset := cursor.offset + |page.value.text|, partial := page.value.endsMid);
    next := AdvanceEmptySegments(next);
    if next.index >= |next.segments| {
      return Got(page, None);
    }
    var id := table.Publish(KeyOf(r), next);
    return Got(page, Some(id));
  }

  // ---- The world -----------------------------------------------------------------------------

  datatype World = World(store: State, table: Table, h: History)

  datatype Step =
    | Append(line: Bytes, header: Bytes, luck: Luck)
    | Fetch(request: Request)

  /** What is appended are whole lines of text. */
  predicate Proper(s: Step) {
    s.Append? ==> Records(s.line) && Records(s.header)
  }

  function Next(w: World, limits: Limits, s: Step): World {
    match s
    case Append(line, header, luck) =>
      if !Open(w.store) then w
      else
        w.(store := Appended(w.store, limits, line, header, luck).0,
           h := NextHistory(w.store, limits, line, header, luck, w.h))
    case Fetch(request) => w.(table := Read(w.store, w.table, request).0)
  }

  // ---- The invariant -------------------------------------------------------------------------

  // The page a cursor leads to, as the archive has it.
  function ArchivedPage(c: Cursor, archive: map<nat, Bytes>, limit: nat, budget: nat): Option<Page> {
    if Ended(c) || c.segments[c.index].id !in archive then None
    else PageAt(c, archive[c.segments[c.index].id], limit, budget)
  }

  /** Every successor is the cursor that its page, read again, would lead to. */
  ghost predicate Agrees(t: Table, archive: map<nat, Bytes>, k: Key)
    requires k in t.successors && k.source in t.cursors && t.successors[k] in t.cursors
  {
    var c := Advanced(t.cursors[k.source]);
    var page := ArchivedPage(c, archive, k.limit, k.budget);
    && !Ended(t.cursors[t.successors[k]])
    && page.Some? && t.cursors[t.successors[k]] == After(c, page.value)
  }

  ghost predicate CursorsInv(t: Table, archive: map<nat, Bytes>) {
    && TableInv(t)
    && (forall id | id in t.cursors ::
          Sound(t.cursors[id], archive) && Placed(t.cursors[id], archive))
    && (forall k | k in t.successors :: Agrees(t, archive, k))
  }

  ghost predicate WorldInv(w: World) {
    StoreInv(w.store, w.h) && CursorsInv(w.table, w.h.archive)
  }

  // ---- Growing files change nothing for a reader ---------------------------------------------

  lemma SliceOfLonger(a: Bytes, b: Bytes, start: nat, end: nat)
    requires a <= b && start <= end <= |a|
    ensures Slice(a, start, end) == Slice(b, start, end)
  {}

  lemma SoundStays(c: Cursor, archive: map<nat, Bytes>, after: map<nat, Bytes>)
    requires Sound(c, archive) && Extends(archive, after)
    ensures Sound(c, after)
  {}

  lemma {:induction false} FromStays(c: Cursor, index: nat, archive: map<nat, Bytes>,
                                     after: map<nat, Bytes>)
    requires Sound(c, archive) && Sound(c, after) && Extends(archive, after)
    ensures From(c.segments, index, archive) == From(c.segments, index, after)
    ensures TextFrom(c.segments, index, archive) <==> TextFrom(c.segments, index, after)
    decreases |c.segments| - index
  {
    hide Valid, Slice;
    if index < |c.segments| {
      var segment := c.segments[index];
      SliceOfLonger(archive[segment.id], after[segment.id], 0, segment.length);
      FromStays(c, index + 1, archive, after);
    }
  }

  /** What a cursor has left to read does not depend on what was appended since. */
  lemma RestStays(c: Cursor, archive: map<nat, Bytes>, after: map<nat, Bytes>)
    requires Sound(c, archive) && Extends(archive, after)
    ensures Sound(c, after) && Rest(c, archive) == Rest(c, after)
    ensures TextLeft(c, archive) <==> TextLeft(c, after)
  {
    SoundStays(c, archive, after);
    hide Valid, Slice, From, TextFrom;
    if !Ended(c) {
      var segment := c.segments[c.index];
      SliceOfLonger(archive[segment.id], after[segment.id], c.offset, segment.length);
      FromStays(c, c.index + 1, archive, after);
    }
  }

  lemma PlacedStays(c: Cursor, archive: map<nat, Bytes>, after: map<nat, Bytes>)
    requires Sound(c, archive) && Extends(archive, after) && Placed(c, archive)
    ensures Sound(c, after) && Placed(c, after)
  {
    RestStays(c, archive, after);
    hide TextLeft;
    if !Ended(c) {
      var id := c.segments[c.index].id;
      assert archive[id] <= after[id];
    }
  }

  lemma PageStays(c: Cursor, content: Bytes, longer: Bytes, limit: nat, budget: nat)
    requires !Ended(c) && content <= longer && c.segments[c.index].length <= |content|
    requires c.offset <= c.segments[c.index].length
    ensures PageAt(c, content, limit, budget) == PageAt(c, longer, limit, budget)
  {
    hide Slice, TextOf;
    SliceOfLonger(content, longer, c.offset, c.offset + Count(c, budget));
  }

  lemma ArchivedPageStays(c: Cursor, archive: map<nat, Bytes>, after: map<nat, Bytes>, limit: nat,
                          budget: nat)
    requires Sound(c, archive) && Extends(archive, after)
    ensures ArchivedPage(c, archive, limit, budget) == ArchivedPage(c, after, limit, budget)
  {
    hide PageAt;
    if !Ended(c) {
      var id := c.segments[c.index].id;
      PageStays(c, archive[id], after[id], limit, budget);
    }
  }

  lemma AgreesStays(t: Table, archive: map<nat, Bytes>, after: map<nat, Bytes>, k: Key)
    requires Extends(archive, after)
    requires k in t.successors && k.source in t.cursors && t.successors[k] in t.cursors
    requires Sound(t.cursors[k.source], archive) && Agrees(t, archive, k)
    ensures Agrees(t, after, k)
  {
    hide ArchivedPage, Advanced, Sound, Extends;
    AdvancingSkipsNothing(t.cursors[k.source], archive);
    ArchivedPageStays(Advanced(t.cursors[k.source]), archive, after, k.limit, k.budget);
  }

  lemma CursorsStay(t: Table, archive: map<nat, Bytes>, after: map<nat, Bytes>)
    requires CursorsInv(t, archive) && Extends(archive, after)
    ensures CursorsInv(t, after)
  {
    hide Sound, Placed, Agrees, Extends, Latest;
    forall id | id in t.cursors ensures Sound(t.cursors[id], after) && Placed(t.cursors[id], after) {
      PlacedStays(t.cursors[id], archive, after);
    }
    forall k | k in t.successors ensures Agrees(t, after, k) {
      AgreesStays(t, archive, after, k);
    }
  }

  // ---- What the files show -------------------------------------------------------------------

  lemma {:induction false} PathFinds(segments: seq<Segment>, id: nat)
    ensures PathOf(segments, id).Some? <==> id in Ids(segments)
    ensures PathOf(segments, id).Some? ==>
              exists i :: 0 <= i < |segments| && segments[i].id == id &&
                          segments[i].path == PathOf(segments, id).value
  {
    if segments != [] {
      PathFinds(segments[1..], id);
      assert Ids(segments) == [segments[0].id] + Ids(segments[1..]);
      if segments[0].id != id && PathOf(segments, id).Some? {
        var i :| 0 <= i < |segments| - 1 && segments[1..][i].id == id &&
                 segments[1..][i].path == PathOf(segments, id).value;
        assert segments[i + 1].path == PathOf(segments, id).value;
      }
    }
  }

  lemma FileIsArchived(s: State, h: History, id: nat)
    requires StoreInv(s, h)
    ensures PathOf(s.segments, id).Some? <==> id in Ids(s.segments)
    ensures PathOf(s.segments, id).Some? ==>
              var path := PathOf(s.segments, id).value;
              path in s.disk && id in h.archive && s.disk[path] == h.archive[id]
  {
    PathFinds(s.segments, id);
    if PathOf(s.segments, id).Some? {
      var i :| 0 <= i < |s.segments| && s.segments[i].id == id &&
               s.segments[i].path == PathOf(s.segments, id).value;
      assert Filed(s, i, h);
    }
    hide StoreInv;
  }

  lemma SnapshotIsSound(s: State, h: History)
    requires StoreInv(s, h)
    ensures Sound(Snapshot(s), h.archive)
  {
    hide Open, DistinctIds, SuffixOf, Archived, OnlyOwnFiles;
    forall i | 0 <= i < |s.segments|
      ensures s.segments[i].id in h.archive
      ensures s.segments[i].length <= |h.archive[s.segments[i].id]|
    {
      assert Filed(s, i, h);
    }
  }

  // ---- One read ------------------------------------------------------------------------------

  /** Whether a cursor is gone, or has something left of which the next file is gone. */
  predicate Expired(w: World, source: Option<nat>) {
    source.Some? &&
    (w.table.nextId > source.value + MAX_CURSORS ||
     (source.value in w.table.cursors && Lost(w.store, w.table.cursors[source.value])))
  }

  predicate Lost(s: State, c: Cursor) {
    var ahead := Advanced(c);
    !Ended(ahead) && ahead.segments[ahead.index].id !in Ids(s.segments)
  }

  // What a read with something left does, as the archive has it.
  function Fetched(w: World, c: Cursor, r: Request): (Table, Outcome)
    requires !Ended(c)
  {
    if c.segments[c.index].id !in Ids(w.store.segments) then (w.table, CursorExpired)
    else if !r.readable then (w.table, LogReadFailed)
    else
      var page := ArchivedPage(c, w.h.archive, Limit(r), Budget(r));
      if page.None? then (w.table, LogReadFailed) else Delivered(w.table, c, page.value, r)
  }

  lemma ReadFromFetches(w: World, c: Cursor, r: Request)
    requires StoreInv(w.store, w.h) && !Ended(c)
    ensures ReadFrom(w.store, w.table, c, r) == Fetched(w, c, r)
  {
    hide StoreInv, PathOf, Delivered, PageAt, Ids;
    FileIsArchived(w.store, w.h, c.segments[c.index].id);
  }

  predicate GoodPage(page: Page, r: Request) {
    Valid(page.text) && page.completed == Newlines(page.text, |page.text|) <= Limit(r)
  }

  /** The cursor after a read, if any, has what is left after the page, and as much of it is text. */
  predicate Continues(c: Cursor, archive: map<nat, Bytes>, next: Option<Cursor>, text: Bytes)
    requires Sound(c, archive)
  {
    if next.None? then Rest(c, archive) == text && TextLeft(c, archive)
    else
      && Sound(next.value, archive)
      && next.value.segments == c.segments
      && Rest(c, archive) == text + Rest(next.value, archive)
      && (TextLeft(c, archive) <==> TextLeft(next.value, archive))
  }

  /** What a successful read has to do with what its cursor had left. */
  predicate Gives(c: Cursor, archive: map<nat, Bytes>, r: Request, t: Table, o: Outcome)
    requires Sound(c, archive) && o.Got?
  {
    && (o.next.Some? ==> o.next.value in t.cursors && o.page.Some?)
    && (o.page.Some? ==> GoodPage(o.page.value, r))
    && (o.page.Some? ==> Located(o.page.value, archive, TextLeft(c, archive)))
    && (o.page.Some? && TextLeft(c, archive) ==> Text(o) != [])
    && Continues(c, archive, if o.next.None? then None else Some(t.cursors[o.next.value]), Text(o))
  }

  /** A new or known successor agrees with the page that led to it. */
  lemma PublishingKeeps(t: Table, archive: map<nat, Bytes>, r: Request, c: Cursor, page: Page)
    requires CursorsInv(t, archive)
    requires r.source.Some? ==> r.source.value in t.cursors && Advanced(t.cursors[r.source.value]) == c
    requires ArchivedPage(c, archive, Limit(r), Budget(r)) == Some(page)
    requires Sound(After(c, page), archive) && !Ended(After(c, page))
    requires Placed(After(c, page), archive)
    ensures var (after, id) := Published(t, KeyOf(r), After(c, page));
            && CursorsInv(after, archive) && Aged(t, after) && after.nextId <= t.nextId + 1
            && id in after.cursors && after.cursors[id] == After(c, page)
  {
    var key, next := KeyOf(r), After(c, page);
    var (after, id) := Published(t, key, next);
    PublishedKeeps(t, key, next);
    hide Published, Sound, Placed, ArchivedPage, Advanced, Latest, Aged, After;
    if Known(t, key) {
      assert Agrees(t, archive, key.value);
    } else {
      forall k | k in after.successors ensures Agrees(after, archive, k) {
        if !(key == Some(k) && after.successors[k] == id) {
          assert Agrees(t, archive, k);
        }
      }
    }
  }

  lemma NothingLeft(c: Cursor, archive: map<nat, Bytes>)
    requires Sound(c, archive) && Ended(c)
    ensures Rest(c, archive) == [] && TextLeft(c, archive)
  {}

  lemma AgedAlready(t: Table)
    ensures Aged(t, t)
  {}

  // A page and what follows it, seen from where the cursor was before it skipped empty segments.
  lemma PageContinues(start: Cursor, archive: map<nat, Bytes>, r: Request)
    requires Sound(start, archive) && !Ended(Advanced(start)) && Acceptable(r)
    requires Placed(start, archive)
    ensures var c := Advanced(start);
            var page := ArchivedPage(c, archive, Limit(r), Budget(r));
            if page.None? then !TextLeft(start, archive)
            else
              && GoodPage(page.value, r)
              && (TextLeft(start, archive) ==> page.value.text != [])
              && Located(page.value, archive, TextLeft(start, archive))
              && Sound(After(c, page.value), archive) && Placed(After(c, page.value), archive)
              && Continues(start, archive,
                           if Ended(After(c, page.value)) then None else Some(After(c, page.value)),
                           page.value.text)
  {
    hide Advanced, PageAt, Valid, Piece, Newlines, EndsMid, Rest, TextLeft, Left, Placed, Located;
    AdvancingSkipsNothing(start, archive);
    AdvancedIsPlaced(start, archive);
    var c := Advanced(start);
    var content := archive[c.segments[c.index].id];
    PageIsPiece(c, archive, content, Limit(r), Budget(r));
    PageIsNext(c, archive, content, Limit(r), Budget(r));
    PageIsLocated(c, archive, content, Limit(r), Budget(r));
    var page := PageAt(c, content, Limit(r), Budget(r));
    if page.Some? {
      PieceIsGood(Left(c, archive), page.value.text, Limit(r));
      var next := After(c, page.value);
      if Ended(next) {
        NothingLeft(next, archive);
        assert page.value.text + [] == page.value.text;
      }
      hide After;
    }
  }

  lemma PieceIsGood(left: Bytes, text: Bytes, limit: nat)
    requires Piece(left, text, limit)
    ensures Valid(text) && Newlines(text, |text|) <= limit
  {}

  lemma FetchGives(w: World, start: Cursor, r: Request)
    requires WorldInv(w) && Acceptable(r) && Sound(start, w.h.archive) && !Ended(Advanced(start))
    requires Placed(start, w.h.archive)
    requires r.source.Some? ==>
               r.source.value in w.table.cursors && w.table.cursors[r.source.value] == start
    ensures var (after, o) := Fetched(w, Advanced(start), r);
            && CursorsInv(after, w.h.archive) && Aged(w.table, after)
            && after.nextId <= w.table.nextId + 1
            && (o.Got? ==> Gives(start, w.h.archive, r, after, o))
            && (o.LogReadFailed? ==> !r.readable || !TextLeft(start, w.h.archive))
            && (o.CursorExpired? <==> Lost(w.store, start)) && !o.InvalidArgument?
  {
    hide StoreInv, CursorsInv, Advanced, Sound, ArchivedPage, GoodPage, Continues, TextLeft, After;
    hide Aged, Ids, Published, Placed, Located;
    PageContinues(start, w.h.archive, r);
    AgedAlready(w.table);
    var c := Advanced(start);
    var page := ArchivedPage(c, w.h.archive, Limit(r), Budget(r));
    if page.Some? && !Ended(After(c, page.value)) {
      PublishingKeeps(w.table, w.h.archive, r, c, page.value);
    }
  }

  lemma SnapshotIsPlaced(s: State, archive: map<nat, Bytes>)
    requires Sound(Snapshot(s), archive)
    ensures Placed(Snapshot(s), archive)
  {
    hide TextLeft;
  }

  lemma StartIsThere(w: World, source: Option<nat>)
    requires WorldInv(w)
    ensures var start := Start(w.store, w.table, source);
            && (start.Some? ==>
                  Sound(start.value, w.h.archive) && Placed(start.value, w.h.archive))
            && (start.None? <==> source.Some? && source.value !in w.table.cursors)
            && (source.Some? ==> (start.None? <==> source.value >= w.table.nextId ||
                                                   w.table.nextId > source.value + MAX_CURSORS))
  {
    SnapshotIsSound(w.store, w.h);
    SnapshotIsPlaced(w.store, w.h.archive);
    hide StoreInv, Sound, Placed, TableInv, Agrees, Snapshot;
    if source.Some? {
      LiveExactly(w.table, source.value);
    }
  }

  // A snapshot begins with what is retained; it cannot be lost.
  lemma SnapshotIsThere(s: State)
    ensures !Lost(s, Snapshot(s))
  {
    AdvancedStays(Snapshot(s));
    hide Advanced;
    var c := Advanced(Snapshot(s));
    assert !Ended(c) ==> Ids(s.segments)[c.index] == c.segments[c.index].id;
  }

  lemma {:induction false} AdvancedStays(c: Cursor)
    ensures Advanced(c).segments == c.segments
    decreases |c.segments| - c.index
  {
    if !Ended(c) && c.offset == c.segments[c.index].length {
      AdvancedStays(c.(index := c.index + 1, offset := 0, partial := false));
    }
  }

  /**
    A read with acceptable bounds and a cursor that was given out fails in two ways. It expires
    exactly when 512 cursors or more were given out since, or the next file has been rotated out. Or
    the log cannot be read, because the file cannot or because not all of what is left is text. If
    it succeeds it returns the next piece of what its cursor had left.
   */
  lemma ReadGives(w: World, r: Request)
    requires WorldInv(w) && (r.source.Some? ==> r.source.value < w.table.nextId)
    ensures var (after, o) := Read(w.store, w.table, r);
            var start := Start(w.store, w.table, r.source);
            && CursorsInv(after, w.h.archive) && Aged(w.table, after)
            && after.nextId <= w.table.nextId + 1
            && (start.Some? ==> Sound(start.value, w.h.archive))
            && (o.Got? ==> start.Some? && Gives(start.value, w.h.archive, r, after, o))
            && (o.LogReadFailed? ==>
                  start.Some? && (!r.readable || !TextLeft(start.value, w.h.archive)))
            && (o.CursorExpired? <==> Acceptable(r) && Expired(w, r.source))
            && (o.InvalidArgument? <==> !Acceptable(r))
            && (o.InvalidArgument? <==>
                  (r.limit.Some? && !(1 <= r.limit.value <= 100)) ||
                  (r.budget.Some? && !(1024 <= r.budget.value <= 262_144)))
  {
    StartIsThere(w, r.source);
    SnapshotIsThere(w.store);
    hide StoreInv, CursorsInv, Advanced, Sound, ReadFrom, Fetched, Aged, Gives, Ids, Snapshot, Lost;
    hide TextLeft;
    AgedAlready(w.table);
    var start := Start(w.store, w.table, r.source);
    if Acceptable(r) && start.Some? {
      if Ended(Advanced(start.value)) {
        EndGives(start.value, w.store, w.h.archive, r, w.table);
      } else {
        ReadFromFetches(w, Advanced(start.value), r);
        FetchGives(w, start.value, r);
      }
    }
  }

  // At the end there is nothing to give.
  lemma EndGives(c: Cursor, s: State, archive: map<nat, Bytes>, r: Request, t: Table)
    requires Sound(c, archive) && Ended(Advanced(c))
    ensures Gives(c, archive, r, t, Got(None, None)) && !Lost(s, c)
  {
    hide Advanced, Sound, TextLeft, Rest;
    AdvancingSkipsNothing(c, archive);
    NothingLeft(Advanced(c), archive);
  }

  /** A request without a limit or a budget is one for 50 records or 65536 bytes. */
  lemma Defaults(s: State, t: Table, r: Request)
    ensures Read(s, t, r) ==
            Read(s, t, r.(limit := Some(if r.limit.None? then 50 else r.limit.value),
                          budget := Some(if r.budget.None? then 65_536 else r.budget.value)))
  {
    hide Advanced, After, Published, PageAt, PathOf;
  }

  // A cursor that was never given out is not there.
  lemma UnknownCursor(w: World, r: Request)
    requires WorldInv(w) && r.source.Some? && r.source.value >= w.table.nextId
    ensures Read(w.store, w.table, r) ==
            (w.table, if Acceptable(r) then CursorExpired else InvalidArgument)
  {
    hide StoreInv, Latest, Agrees, Sound, ReadFrom;
  }

  // ---- Runs ----------------------------------------------------------------------------------

  predicate AllProper(steps: seq<Step>) {
    forall s | s in steps :: Proper(s)
  }

  function Run(w: World, limits: Limits, steps: seq<Step>): World
    decreases |steps|
  {
    if steps == [] then w
    else Run(Next(w, limits, steps[0]), limits, steps[1..])
  }

  /** How many of these steps are reads. */
  function Reads(steps: seq<Step>): nat {
    if steps == [] then 0 else (if steps[0].Fetch? then 1 else 0) + Reads(steps[1..])
  }

  /** The log only grew, and cursors were only added, at most so many of them, or dropped. */
  ghost predicate Later(w: World, v: World, fetches: nat) {
    && Extends(w.h.archive, v.h.archive) && Aged(w.table, v.table)
    && v.table.nextId <= w.table.nextId + fetches
  }

  lemma StepKeeps(w: World, limits: Limits, s: Step)
    requires WorldInv(w) && Proper(s)
    ensures WorldInv(Next(w, limits, s)) && Later(w, Next(w, limits, s), if s.Fetch? then 1 else 0)
  {
    hide StoreInv, CursorsInv, Extends, Aged, Records, Appended, NextHistory, Read, Gives, Expired;
    hide TextLeft, All;
    AgedAlready(w.table);
    match s
    case Append(line, header, luck) =>
      AppendKeeps(w.store, w.h, limits, line, header, luck);
      CursorsStay(w.table, w.h.archive, NextHistory(w.store, limits, line, header, luck, w.h).archive);
    case Fetch(request) =>
      SameExtends(w.h.archive);
      if request.source.Some? && request.source.value >= w.table.nextId {
        UnknownCursor(w, request);
      } else {
        ReadGives(w, request);
      }
  }

  lemma SameExtends(archive: map<nat, Bytes>)
    ensures Extends(archive, archive)
  {}

  lemma {:induction false} RunKeeps(w: World, limits: Limits, steps: seq<Step>)
    requires WorldInv(w) && AllProper(steps)
    ensures WorldInv(Run(w, limits, steps)) && Later(w, Run(w, limits, steps), Reads(steps))
    decreases |steps|
  {
    hide Next, StoreInv, CursorsInv, Extends, Aged, Proper;
    if steps == [] {
      AgedAlready(w.table);
      SameExtends(w.h.archive);
    } else {
      var next := Next(w, limits, steps[0]);
      StepKeeps(w, limits, steps[0]);
      RunKeeps(next, limits, steps[1..]);
      var v := Run(next, limits, steps[1..]);
      ExtendsTwice(w.h.archive, next.h.archive, v.h.archive);
      IsConsistent(w);
      AgedTwice(w.table, next.table, v.table);
    }
  }

  lemma IsConsistent(w: World)
    requires WorldInv(w)
    ensures Consistent(w.table) && TableInv(w.table)
  {}

  /**
    In every run, a segment is closed only when it is longer than 256 bytes and the next line does
    not fit: before any other step the active segment is still the active one.
   */
  lemma ClosedSegmentsAreFull(w: World, limits: Limits, steps: seq<Step>, s: Step)
    requires WorldInv(w) && AllProper(steps) && Proper(s)
    ensures var v := Run(w, limits, steps);
            var u := Next(v, limits, s);
            && v.store.segments != [] && u.store.segments != []
            && var active, later := Last(v.store), Last(u.store);
               (u.store.nextId, later.id, later.path) != (v.store.nextId, active.id, active.path) ==>
                 s.Append? && active.length > 256 && active.length + |s.line| > limits.rotateBytes
  {
    hide Run, StoreInv, CursorsInv, Read, Appended, Records;
    RunKeeps(w, limits, steps);
    var v := Run(w, limits, steps);
    NotEmpty(v.store, v.h);
    StepKeeps(v, limits, s);
    NotEmpty(Next(v, limits, s).store, Next(v, limits, s).h);
    if s.Append? && !(Last(v.store).length > 256 &&
                      Last(v.store).length + |s.line| > limits.rotateBytes) {
      FittingLineExactly(v.store, v.h, limits, s.line, s.header, s.luck);
    }
  }

  /** A cursor outlives any run with too few reads to give out 512 others after it. */
  lemma CursorOutlives(w: World, limits: Limits, id: nat, steps: seq<Step>)
    requires WorldInv(w) && AllProper(steps) && id in w.table.cursors
    requires w.table.nextId + Reads(steps) <= id + MAX_CURSORS
    ensures var v := Run(w, limits, steps);
            id in v.table.cursors && v.table.cursors[id] == w.table.cursors[id]
  {
    RunKeeps(w, limits, steps);
    hide Run, StoreInv, Sound, Agrees, Latest;
    LiveExactly(w.table, id);
    IsConsistent(Run(w, limits, steps));
    LiveExactly(Run(w, limits, steps).table, id);
  }

  lemma NoCursorsYet(archive: map<nat, Bytes>)
    ensures CursorsInv(EMPTY_TABLE, archive)
  {}

  /** Map, order and successors never hold more than 512 entries, and the first two the same ones. */
  lemma TableStaysBounded(w: World, limits: Limits, steps: seq<Step>)
    requires WorldInv(w) && AllProper(steps)
    ensures var t := Run(w, limits, steps).table;
            Consistent(t) && |t.cursors| == |t.order| <= MAX_CURSORS &&
            |t.successors| <= MAX_CURSORS
  {
    RunKeeps(w, limits, steps);
    hide Run, StoreInv;
    Bounded(Run(w, limits, steps).table);
  }

  /** A store that opens over what another left behind, with no cursors yet, starts a good run. */
  lemma OpenStartsAWorld(disk: map<Path, Bytes>, listing: seq<nat>, named: Option<nat>,
                         nextId: nat, damaged: set<nat>, limits: Limits, header: Bytes, luck: Luck)
    requires Directory(disk, listing, named, nextId, damaged) && Records(header)
    ensures forall id | id in listing :: Backup(id) in disk
    ensures var s := Opened(disk, listing, named, nextId);
            var h := OpenedHistory(disk, listing, named, nextId, damaged);
            var started := Started(s, limits, header, luck);
            started.Some? ==>
              WorldInv(World(started.value, EMPTY_TABLE, StartedHistory(s, h, header)))
  {
    OpenEstablishes(disk, listing, named, nextId, damaged, limits, header, luck);
    NoCursorsYet(StartedHistory(Opened(disk, listing, named, nextId),
                                OpenedHistory(disk, listing, named, nextId, damaged),
                                header).archive);
    hide Started, Opened, Directory, StoreInv, Records, CursorsInv, StartedHistory, OpenedHistory;
  }

  // ---- What the retained files hold ----------------------------------------------------------

  /** What the recorded lengths cover of the retained files, oldest first. */
  function RecordedFrom(s: State, i: nat): Bytes
    requires Covered(s)
    decreases |s.segments| - i
  {
    if i >= |s.segments| then []
    else Slice(s.disk[s.segments[i].path], 0, s.segments[i].length) + RecordedFrom(s, i + 1)
  }

  predicate RecordedIsText(s: State, i: nat)
    requires Covered(s)
    decreases |s.segments| - i
  {
    i >= |s.segments| ||
    (Valid(Slice(s.disk[s.segments[i].path], 0, s.segments[i].length)) && RecordedIsText(s, i + 1))
  }

  /** Every retained file is there and as long as recorded or longer. */
  predicate Covered(s: State) {
    forall k | 0 <= k < |s.segments| ::
      s.segments[k].path in s.disk && s.segments[k].length <= |s.disk[s.segments[k].path]|
  }

  function FilesFrom(s: State, i: nat): Bytes
    requires Covered(s)
    decreases |s.segments| - i
  {
    if i >= |s.segments| then [] else s.disk[s.segments[i].path] + FilesFrom(s, i + 1)
  }

  lemma AreCovered(s: State, h: History)
    requires StoreInv(s, h)
    ensures Covered(s)
  {
    hide Open, DistinctIds, SuffixOf, Archived, OnlyOwnFiles;
    forall k | 0 <= k < |s.segments|
      ensures s.segments[k].path in s.disk
      ensures s.segments[k].length <= |s.disk[s.segments[k].path]|
    {
      assert Filed(s, k, h);
    }
  }

  lemma {:induction false} SnapshotIsRecorded(s: State, h: History, i: nat)
    requires StoreInv(s, h) && Sound(Snapshot(s), h.archive) && Covered(s)
    ensures From(s.segments, i, h.archive) == RecordedFrom(s, i)
    ensures TextFrom(s.segments, i, h.archive) <==> RecordedIsText(s, i)
    decreases |s.segments| - i
  {
    hide Valid, Slice, Open, DistinctIds, SuffixOf, Archived, OnlyOwnFiles, Covered, Sound;
    if i < |s.segments| {
      assert Filed(s, i, h);
      SnapshotIsRecorded(s, h, i + 1);
    }
  }

  lemma SnapshotRest(s: State, h: History)
    requires StoreInv(s, h)
    ensures Sound(Snapshot(s), h.archive) && Covered(s)
    ensures Rest(Snapshot(s), h.archive) == RecordedFrom(s, 0)
    ensures TextLeft(Snapshot(s), h.archive) <==> RecordedIsText(s, 0)
  {
    SnapshotIsSound(s, h);
    AreCovered(s, h);
    SnapshotIsRecorded(s, h, 0);
    hide Valid, StoreInv, Covered;
  }

  lemma WholeSlice(b: Bytes)
    ensures Slice(b, 0, |b|) == b
  {}

  /**
    Without bytes of a failed write in a retained segment, the recorded contents are the files, and
    they are text.
   */
  lemma {:induction false} UndamagedIsText(s: State, h: History, i: nat)
    requires StoreInv(s, h)
    requires forall k | 0 <= k < |s.segments| ::
               s.segments[k].id !in h.short && s.segments[k].id !in h.damaged
    ensures Covered(s) && RecordedFrom(s, i) == FilesFrom(s, i) && RecordedIsText(s, i)
    decreases |s.segments| - i
  {
    hide Valid, Slice, Terminated, Open, DistinctIds, SuffixOf, OnlyOwnFiles;
    AreCovered(s, h);
    hide Covered;
    if i < |s.segments| {
      assert Filed(s, i, h);
      assert Records(h.archive[s.segments[i].id]);
      WholeSlice(h.archive[s.segments[i].id]);
      UndamagedIsText(s, h, i + 1);
    }
  }

  /** The retained files are the end of the whole log: what is gone was at its beginning. */
  lemma {:induction false} FilesAreTheTail(s: State, h: History, i: nat)
    requires StoreInv(s, h) && i <= |s.segments|
    ensures Covered(s)
    ensures |s.segments| <= |h.ever| && forall id | id in h.ever :: id in h.archive
    ensures All(h.ever, h.archive) ==
            All(h.ever[..|h.ever| - |s.segments| + i], h.archive) + FilesFrom(s, i)
    decreases |s.segments| - i
  {
    hide Records, Open, DistinctIds, OnlyOwnFiles;
    AreCovered(s, h);
    hide Covered;
    var m := |h.ever| - |s.segments|;
    if i == |s.segments| {
      assert h.ever[..|h.ever|] == h.ever;
      assert All(h.ever, h.archive) + [] == All(h.ever, h.archive);
    } else {
      FilesAreTheTail(s, h, i + 1);
      assert Filed(s, i, h);
      assert h.ever[..m + i + 1][..m + i] == h.ever[..m + i];
      SumsAssociate(All(h.ever[..m + i], h.archive), s.disk[s.segments[i].path],
                    FilesFrom(s, i + 1));
    }
  }

  // ---- Reading a log to its end --------------------------------------------------------------

  /** What goes on before a read, and how the reader asks for its page. */
  datatype Round = Round(before: seq<Step>, limit: Option<nat>, budget: Option<nat>, readable: bool)

  datatype Reading = Whole(text: Bytes) | Partial(text: Bytes) | Stopped(why: Outcome)

  function Prefixed(text: Bytes, rest: Reading): Reading {
    match rest
    case Whole(more) => Whole(text + more)
    case Partial(more) => Partial(text + more)
    case Stopped(_) => rest
  }

  function RequestOf(source: Option<nat>, round: Round): Request {
    Request(source, round.limit, round.budget, round.readable)
  }

  /** A reader that follows next cursors round by round and puts the pages together. */
  function Paged(w: World, limits: Limits, source: Option<nat>, rounds: seq<Round>): Reading
    decreases |rounds|, 1
  {
    if rounds == [] then Partial([])
    else PagedNow(Run(w, limits, rounds[0].before), limits, source, rounds)
  }

  function PagedNow(v: World, limits: Limits, source: Option<nat>, rounds: seq<Round>): Reading
    requires rounds != []
    decreases |rounds|, 0
  {
    var (table, o) := Read(v.store, v.table, RequestOf(source, rounds[0]));
    if !o.Got? then Stopped(o)
    else if o.next.None? then Whole(Text(o))
    else Prefixed(Text(o), Paged(v.(table := table), limits, o.next, rounds[1..]))
  }

  /** At every read so far, fewer than 512 cursors came after the reader's, and its file is there. */
  predicate Kept(w: World, limits: Limits, source: Option<nat>, rounds: seq<Round>)
    decreases |rounds|, 1
  {
    rounds == [] || KeptNow(Run(w, limits, rounds[0].before), limits, source, rounds)
  }

  predicate KeptNow(v: World, limits: Limits, source: Option<nat>, rounds: seq<Round>)
    requires rounds != []
    decreases |rounds|, 0
  {
    var (table, o) := Read(v.store, v.table, RequestOf(source, rounds[0]));
    !Expired(v, source) &&
    (o.Got? && o.next.Some? ==> Kept(v.(table := table), limits, o.next, rounds[1..]))
  }

  predicate Fair(rounds: seq<Round>) {
    forall round | round in rounds ::
      AllProper(round.before) && round.readable && Acceptable(RequestOf(None, round))
  }

  /**
    All of the text; or a start of it, which is at least a byte long for each round if it really is
    text; or nothing, because a cursor has expired or it is no text.
   */
  predicate Faithful(reading: Reading, text: Bytes, isText: bool, rounds: nat) {
    match reading
    case Whole(all) => all == text && isText
    case Partial(some) => some <= text && (isText ==> |some| >= rounds)
    case Stopped(why) => why == CursorExpired || (why == LogReadFailed && !isText)
  }

  lemma PrefixedIsFaithful(text: Bytes, reading: Reading, rest: Bytes, isText: bool, rounds: nat)
    requires Faithful(reading, rest, isText, rounds) && (isText ==> text != [])
    ensures Faithful(Prefixed(text, reading), text + rest, isText, rounds + 1)
  {}

  /** One round, given that the rounds after it are faithful to what they have left. */
  lemma RoundIsFaithful(v: World, limits: Limits, source: Option<nat>, c: Cursor,
                        rounds: seq<Round>)
    requires WorldInv(v) && Fair(rounds) && rounds != [] && Sound(c, v.h.archive)
    requires source.Some? ==> source.value < v.table.nextId
    requires Start(v.store, v.table, source) in {None, Some(c)}
    requires var (table, o) := Read(v.store, v.table, RequestOf(source, rounds[0]));
             o.Got? && o.next.Some? && o.next.value in table.cursors &&
             Sound(table.cursors[o.next.value], v.h.archive) ==>
               Faithful(Paged(v.(table := table), limits, o.next, rounds[1..]),
                        Rest(table.cursors[o.next.value], v.h.archive),
                        TextLeft(table.cursors[o.next.value], v.h.archive), |rounds| - 1)
    ensures Faithful(PagedNow(v, limits, source, rounds), Rest(c, v.h.archive),
                     TextLeft(c, v.h.archive), |rounds|)
  {
    var r := RequestOf(source, rounds[0]);
    assert rounds[0] in rounds;
    hide Read, Sound, Rest, TextLeft, StoreInv, CursorsInv, Prefixed, Aged, GoodPage, Paged, Expired;
    ReadGives(v, r);
    var (table, o) := Read(v.store, v.table, r);
    if o.Got? && o.next.Some? {
      hide Faithful, Start;
      PrefixedIsFaithful(Text(o), Paged(v.(table := table), limits, o.next, rounds[1..]),
                         Rest(table.cursors[o.next.value], v.h.archive), TextLeft(c, v.h.archive),
                         |rounds| - 1);
    }
  }

  // The world after a successful read is in order, and its next cursor is there.
  lemma PagedNext(v: World, source: Option<nat>, rounds: seq<Round>)
    requires WorldInv(v) && Fair(rounds) && rounds != []
    requires source.Some? ==> source.value < v.table.nextId
    ensures Fair(rounds[1..])
    ensures var (table, o) := Read(v.store, v.table, RequestOf(source, rounds[0]));
            && WorldInv(v.(table := table)) && Acceptable(RequestOf(source, rounds[0]))
            && (o.CursorExpired? <==> Expired(v, source))
            && (o.Got? && o.next.Some? ==>
                  o.next.value in table.cursors && o.next.value < table.nextId &&
                  Sound(table.cursors[o.next.value], v.h.archive))
  {
    assert rounds[0] in rounds;
    ReadGives(v, RequestOf(source, rounds[0]));
    hide Read, StoreInv, Sound, Rest, Agrees, Latest, Aged, GoodPage, TextLeft, Expired;
  }

  // What a run in between leaves of a cursor that was given out.
  lemma CursorAfter(w: World, limits: Limits, source: nat, c: Cursor, steps: seq<Step>)
    requires WorldInv(w) && AllProper(steps) && source < w.table.nextId && Sound(c, w.h.archive)
    requires source in w.table.cursors ==> w.table.cursors[source] == c
    ensures var v := Run(w, limits, steps);
            && WorldInv(v) && source < v.table.nextId && Sound(c, v.h.archive)
            && Start(v.store, v.table, Some(source)) in {None, Some(c)}
            && Rest(c, w.h.archive) == Rest(c, v.h.archive)
            && (TextLeft(c, w.h.archive) <==> TextLeft(c, v.h.archive))
  {
    RunKeeps(w, limits, steps);
    hide Run, StoreInv, CursorsInv, Sound, Rest, TextLeft, Extends;
    RestStays(c, w.h.archive, Run(w, limits, steps).h.archive);
  }

  lemma {:induction false} PagedFrom(w: World, limits: Limits, source: nat, c: Cursor,
                                     rounds: seq<Round>)
    requires WorldInv(w) && Fair(rounds) && source < w.table.nextId
    requires source in w.table.cursors ==> w.table.cursors[source] == c
    requires Sound(c, w.h.archive)
    ensures Faithful(Paged(w, limits, Some(source), rounds), Rest(c, w.h.archive),
                     TextLeft(c, w.h.archive), |rounds|)
    decreases |rounds|
  {
    hide Read, Run, WorldInv, Sound, Rest, TextLeft, PagedNow, Expired;
    if rounds != [] {
      assert rounds[0] in rounds;
      var v := Run(w, limits, rounds[0].before);
      CursorAfter(w, limits, source, c, rounds[0].before);
      PagedNext(v, Some(source), rounds);
      var (table, o) := Read(v.store, v.table, RequestOf(Some(source), rounds[0]));
      hide Fair, Start;
      if o.Got? && o.next.Some? {
        PagedFrom(v.(table := table), limits, o.next.value, table.cursors[o.next.value],
                  rounds[1..]);
      }
      RoundIsFaithful(v, limits, Some(source), c, rounds);
    }
  }

  /** A reading stops for an expired cursor exactly when it was not kept. */
  lemma {:induction false} ExpiresExactly(w: World, limits: Limits, source: Option<nat>,
                                          rounds: seq<Round>)
    requires WorldInv(w) && Fair(rounds) && (source.Some? ==> source.value < w.table.nextId)
    ensures Paged(w, limits, source, rounds) == Stopped(CursorExpired) <==>
            !Kept(w, limits, source, rounds)
    decreases |rounds|
  {
    hide Read, Run, WorldInv, Sound, Expired;
    if rounds != [] {
      assert rounds[0] in rounds;
      var v := Run(w, limits, rounds[0].before);
      RunKeeps(w, limits, rounds[0].before);
      PagedNext(v, source, rounds);
      hide Fair;
      var (table, o) := Read(v.store, v.table, RequestOf(source, rounds[0]));
      if o.Got? && o.next.Some? {
        ExpiresExactly(v.(table := table), limits, o.next, rounds[1..]);
      }
    }
  }

  /**
    A reader that starts without a cursor sees the retained files as they were recorded at its first
    read: read to the end they come out whole, whatever was appended, rotated or read in between;
    before the end they come out from the start, at least a byte a round; and it only fails when a
    cursor has expired or when what was recorded is no text.
   */
  lemma ReadingIsFaithful(w: World, limits: Limits, rounds: seq<Round>)
    requires WorldInv(w) && Fair(rounds) && rounds != []
    ensures var s := Run(w, limits, rounds[0].before).store;
            && Covered(s)
            && Faithful(Paged(w, limits, None, rounds), RecordedFrom(s, 0), RecordedIsText(s, 0),
                        |rounds|)
  {
    hide Read, Run, StoreInv, CursorsInv, Sound, Rest, TextLeft, PagedNow, Expired, RecordedFrom;
    hide Covered, Later, Faithful, RecordedIsText;
    assert rounds[0] in rounds;
    var v := Run(w, limits, rounds[0].before);
    RunKeeps(w, limits, rounds[0].before);
    SnapshotRest(v.store, v.h);
    PagedNext(v, None, rounds);
    hide Fair, WorldInv;
    var (table, o) := Read(v.store, v.table, RequestOf(None, rounds[0]));
    if o.Got? && o.next.Some? {
      PagedFrom(v.(table := table), limits, o.next.value, table.cursors[o.next.value], rounds[1..]);
    }
    RoundIsFaithful(v, limits, None, Snapshot(v.store), rounds);
  }

  /**
    With more rounds than there are bytes, a reading comes to its end if and only if what was
    recorded is text and the reading was kept.
   */
  lemma ReadingEnds(w: World, limits: Limits, rounds: seq<Round>)
    requires WorldInv(w) && Fair(rounds) && rounds != []
    ensures var s := Run(w, limits, rounds[0].before).store;
            Covered(s) &&
            (|rounds| > |RecordedFrom(s, 0)| ==>
               (Paged(w, limits, None, rounds) == Whole(RecordedFrom(s, 0)) <==>
                RecordedIsText(s, 0) && Kept(w, limits, None, rounds)))
  {
    ReadingIsFaithful(w, limits, rounds);
    ExpiresExactly(w, limits, None, rounds);
    hide Paged, Kept, Run, WorldInv, RecordedFrom, RecordedIsText, Covered, Fair;
  }

  /** If no failed write has left bytes in a retained segment, what is read is the files. */
  lemma UndamagedReadingEnds(w: World, limits: Limits, rounds: seq<Round>)
    requires WorldInv(w) && Fair(rounds) && rounds != []
    requires var v := Run(w, limits, rounds[0].before);
             forall k | 0 <= k < |v.store.segments| ::
               v.store.segments[k].id !in v.h.short && v.store.segments[k].id !in v.h.damaged
    ensures var s := Run(w, limits, rounds[0].before).store;
            Covered(s) &&
            (|rounds| > |FilesFrom(s, 0)| && Kept(w, limits, None, rounds) ==>
               Paged(w, limits, None, rounds) == Whole(FilesFrom(s, 0)))
  {
    hide Paged, Kept, Run, StoreInv, CursorsInv, RecordedFrom, RecordedIsText, FilesFrom, Covered;
    assert rounds[0] in rounds;
    RunKeeps(w, limits, rounds[0].before);
    var v := Run(w, limits, rounds[0].before);
    ReadingEnds(w, limits, rounds);
    UndamagedIsText(v.store, v.h, 0);
    hide Fair, Later;
  }

  // ---- Asking for a page again ---------------------------------------------------------------

  lemma DeliveryIsRemembered(t: Table, c: Cursor, page: Page, r: Request)
    requires TableInv(t) && r.source.Some? && r.source.value in t.cursors
    ensures var (after, o) := Delivered(t, c, page, r);
            var key := Key(r.source.value, Limit(r), Budget(r));
            o.next.Some? ==>
              o.next.value in after.cursors && r.source.value < after.nextId &&
              (key.source in after.cursors ==>
                 key in after.successors && after.successors[key] == o.next.value)
  {
    hide After;
    PublishedIsRemembered(t, Key(r.source.value, Limit(r), Budget(r)), After(c, page));
    PublishedKeeps(t, KeyOf(r), After(c, page));
    hide Published, Latest, OneNew;
  }

  lemma KnownDelivery(t: Table, c: Cursor, page: Page, r: Request, key: Key)
    requires KeyOf(r) == Some(key) && Known(t, Some(key)) && !Ended(After(c, page))
    ensures Delivered(t, c, page, r) == (t, Got(Some(page), Some(t.successors[key])))
  {
    hide After;
  }

  // What a read that continues one cursor and leads to another has done.
  lemma SuccessfulRead(w: World, r: Request)
    requires WorldInv(w) && r.source.Some?
    ensures var (after, o) := Read(w.store, w.table, r);
            o.Got? && o.next.Some? ==>
              && Acceptable(r) && r.readable && r.source.value in w.table.cursors
              && var c := Advanced(w.table.cursors[r.source.value]);
                 && !Ended(c) && o.page.Some?
                 && o.page == ArchivedPage(c, w.h.archive, Limit(r), Budget(r))
                 && (after, o) == Delivered(w.table, c, o.page.value, r)
  {
    hide StoreInv, CursorsInv, Advanced, ArchivedPage, ReadFrom, Ids, After, Published;
    var start := Start(w.store, w.table, r.source);
    if start.Some? && !Ended(Advanced(start.value)) {
      ReadFromFetches(w, Advanced(start.value), r);
    }
  }

  lemma ReadAgain(v: World, r: Request, key: Key, c: Cursor, page: Page)
    requires WorldInv(v) && Acceptable(r) && r.readable && KeyOf(r) == Some(key)
    requires key.source in v.table.cursors && v.table.cursors[key.source] == c
    requires key in v.table.successors
    requires ArchivedPage(Advanced(c), v.h.archive, Limit(r), Budget(r)) == Some(page)
    ensures Read(v.store, v.table, r).1 ==
            if Lost(v.store, c) then CursorExpired
            else Got(Some(page), Some(v.table.successors[key]))
  {
    assert !Ended(Advanced(c));
    hide StoreInv, Advanced, ReadFrom, Ids, After, Delivered, ArchivedPage, Sound, Latest;
    assert Agrees(v.table, v.h.archive, key) && Known(v.table, Some(key));
    assert Start(v.store, v.table, r.source) == Some(c);
    hide CursorsInv, Start, Agrees;
    ReadFromFetches(v, Advanced(c), r);
    KnownDelivery(v.table, Advanced(c), page, r, key);
  }

  /**
    A page asked for again, any time later, from a cursor that is still there and whose next cursor
    is still there, is the same page with the same next cursor, unless its file has been rotated
    out: then the cursor has expired.
   */
  lemma RepeatedPageIsSame(w: World, limits: Limits, r: Request, steps: seq<Step>)
    requires WorldInv(w) && AllProper(steps) && r.source.Some?
    ensures var (table, first) := Read(w.store, w.table, r);
            first.Got? && first.next.Some? ==>
              && r.source.value in w.table.cursors
              && var v := Run(w.(table := table), limits, steps);
                 r.source.value in v.table.cursors && first.next.value in v.table.cursors ==>
                   Read(v.store, v.table, r).1 ==
                   if Lost(v.store, w.table.cursors[r.source.value]) then CursorExpired else first
  {
    hide Read, Run, Delivered, StoreInv, CursorsInv, Lost, Expired, Gives, TextLeft;
    var (table, first) := Read(w.store, w.table, r);
    if first.Got? && first.next.Some? {
      SuccessfulRead(w, r);
      IsConsistent(w);
      StartIsThere(w, r.source);
      ReadGives(w, r);
      var c := w.table.cursors[r.source.value];
      DeliveryIsRemembered(w.table, Advanced(c), first.page.value, r);
      var u := w.(table := table);
      RunKeeps(u, limits, steps);
      var v := Run(u, limits, steps);
      if r.source.value in v.table.cursors && first.next.value in v.table.cursors {
        RepeatedLater(w, u, v, r, first, Reads(steps));
      }
    }
  }

  lemma RepeatedLater(w: World, u: World, v: World, r: Request, first: Outcome, fetches: nat)
    requires WorldInv(w) && WorldInv(v) && Later(u, v, fetches) && Aged(w.table, u.table)
    requires u == w.(table := u.table) && r.source.Some? && r.source.value in w.table.cursors
    requires Acceptable(r) && r.readable && first.Got? && first.next.Some? && first.page.Some?
    requires var c := Advanced(w.table.cursors[r.source.value]);
             first.page == ArchivedPage(c, w.h.archive, Limit(r), Budget(r))
    requires r.source.value in v.table.cursors && first.next.value in v.table.cursors
    requires var key := Key(r.source.value, Limit(r), Budget(r));
             && r.source.value < u.table.nextId
             && (key.source in u.table.cursors ==>
                   key in u.table.successors && u.table.successors[key] == first.next.value)
    ensures Read(v.store, v.table, r).1 ==
            if Lost(v.store, w.table.cursors[r.source.value]) then CursorExpired else first
  {
    hide Read, StoreInv, Advanced, ArchivedPage, Agrees, Latest, Lost, Sound, Extends;
    var key := Key(r.source.value, Limit(r), Budget(r));
    var c := w.table.cursors[key.source];
    assert Sound(c, w.h.archive);
    assert v.table.cursors[key.source] == c && key in v.table.successors;
    AdvancingSkipsNothing(c, w.h.archive);
    ArchivedPageStays(Advanced(c), w.h.archive, v.h.archive, Limit(r), Budget(r));
    ReadAgain(v, r, key, c, first.page.value);
  }

  // ---- What failed writes do to a reader -----------------------------------------------------

  /**
    A header that was written and not synced, and a record of one character that has two bytes: what
    is recorded of the segment ends inside of the character, so it is no text.
   */
  lemma UnsyncedHeaderCutsText(s: State, h: History, limits: Limits)
    requires StoreInv(s, h)
    requires Last(s).length + 3 > limits.rotateBytes && Last(s).length > 256
    ensures var header, line := [0x7B, NEWLINE], [0xC3, 0xA9, NEWLINE];
            Records(header) && Records(line) && Open(s) &&
            var bad := Luck(true, true, true, Failed(|header|), 0, Completed);
            var t := Appended(s, limits, line, header, bad).0;
            Open(t) &&
            var good := Luck(true, true, true, Completed, 0, Completed);
            var (u, ok) := Appended(t, limits, line, header, good);
            ok && Open(u) && Last(u).length <= |u.disk[u.handle]| &&
            !Valid(Slice(u.disk[u.handle], 0, Last(u).length))
  {
    NotEmpty(s, h);
    var header: Bytes, line: Bytes := [0x7B, NEWLINE], [0xC3, 0xA9, NEWLINE];
    UnsyncedHeaderIsNotCounted(s, h, limits, line, header);
    hide Appended, StoreInv;
    assert Slice(header + line, 0, 3) == [0x7B, NEWLINE, 0xC3];
    SmallTexts();
  }

  lemma SmallTexts()
    ensures Records([0x7B, NEWLINE]) && Records([0xC3, 0xA9, NEWLINE])
    ensures !Valid([0x7B, NEWLINE, 0xC3])
  {
    var cut: Bytes := [0x7B, NEWLINE, 0xC3];
    assert cut[1..] == [NEWLINE, 0xC3] && cut[1..][1..] == [0xC3];
    var brace: Bytes, accented: Bytes := [0x7B, NEWLINE], [0xC3, 0xA9, NEWLINE];
    assert brace[1..] == [NEWLINE] && accented[2..] == [NEWLINE];
    OneNewline();
    ValidUnfolds(cut);
    ValidUnfolds(cut[1..]);
    ValidUnfolds(cut[1..][1..]);
    ValidUnfolds(brace);
    ValidUnfolds(accented);
  }

  // ---- Crashing and opening again ------------------------------------------------------------

  // One file of a crashed store and the one at the same place after opening.
  lemma ReopenedFile(s: State, h: History, tail: Bytes, named: Option<nat>, i: nat)
    requires StoreInv(s, h) && i < |s.segments|
    requires forall id | id in LeftListing(s) :: Backup(id) in Torn(s, tail)
    requires CompletePart(Torn(s, tail)) == ActiveFile(s.disk)
    ensures var t := Opened(Torn(s, tail), LeftListing(s), named, s.nextId);
            && i < |t.segments| && s.segments[i].path in s.disk
            && t.segments[i].path in t.disk
            && t.segments[i].length == |t.disk[t.segments[i].path]|
            && t.disk[t.segments[i].path] == s.disk[s.segments[i].path]
  {
    hide Records, OnlyOwnFiles, CompletePart, DistinctIds, SuffixOf, Archived;
    assert Filed(s, |s.segments| - 1, h);
    assert Filed(s, i, h);
  }

  // A store that had no active file opens with an empty one.
  lemma ReopenedEnd(s: State, h: History, tail: Bytes, named: Option<nat>)
    requires StoreInv(s, h)
    requires forall id | id in LeftListing(s) :: Backup(id) in Torn(s, tail)
    requires CompletePart(Torn(s, tail)) == ActiveFile(s.disk)
    ensures var t, n := Opened(Torn(s, tail), LeftListing(s), named, s.nextId), |s.segments|;
            |t.segments| == n ||
            (|t.segments| == n + 1 && t.segments[n].path in t.disk &&
             t.segments[n].length == 0 && t.disk[t.segments[n].path] == [])
  {
    hide Records, CompletePart, DistinctIds, SuffixOf, Archived;
    assert Filed(s, |s.segments| - 1, h);
  }

  lemma {:induction false} ReopenedFiles(s: State, h: History, tail: Bytes, named: Option<nat>,
                                         i: nat)
    requires StoreInv(s, h) && Covered(s) && i <= |s.segments|
    requires forall id | id in LeftListing(s) :: Backup(id) in Torn(s, tail)
    requires CompletePart(Torn(s, tail)) == ActiveFile(s.disk)
    ensures var t := Opened(Torn(s, tail), LeftListing(s), named, s.nextId);
            Covered(t) && FilesFrom(t, i) == FilesFrom(s, i)
    decreases |s.segments| - i
  {
    var t := Opened(Torn(s, tail), LeftListing(s), named, s.nextId);
    ReopenedEnd(s, h, tail, named);
    forall k | 0 <= k < |t.segments|
      ensures t.segments[k].path in t.disk
      ensures t.segments[k].length <= |t.disk[t.segments[k].path]|
    {
      if k < |s.segments| {
        ReopenedFile(s, h, tail, named, k);
      }
    }
    if i < |s.segments| {
      ReopenedFile(s, h, tail, named, i);
      ReopenedFiles(s, h, tail, named, i + 1);
    }
    hide StoreInv, Opened, CompletePart, ActiveFile, Torn, LeftListing, Covered;
  }

  /**
    A store that crashes with a line half written opens again with all its retained contents, unless
    failed writes had left bytes at the end of its active file.
   */
  lemma CrashLosesNothing(s: State, h: History, tail: Bytes, named: Option<nat>)
    requires StoreInv(s, h) && NEWLINE !in tail && Last(s).id !in h.damaged
    requires named == None || (Last(s).path == Active && named == Some(Last(s).id))
    ensures Directory(Torn(s, tail), LeftListing(s), named, s.nextId, h.damaged)
    ensures forall id | id in LeftListing(s) :: Backup(id) in Torn(s, tail)
    ensures var t := Opened(Torn(s, tail), LeftListing(s), named, s.nextId);
            Covered(s) && Covered(t) && FilesFrom(t, 0) == FilesFrom(s, 0)
  {
    NotEmpty(s, h);
    CrashLeavesADirectory(s, h, tail, named);
    AreCovered(s, h);
    CompletePartSurvives(s, h, tail);
    hide StoreInv, Opened, CompletePart, ActiveFile, Torn, LeftListing, Covered, FilesFrom, Last;
    assert h.damaged + {} == h.damaged;
    BackupsAreThere(Torn(s, tail), LeftListing(s), named, s.nextId, h.damaged);
    ReopenedFiles(s, h, tail, named, 0);
  }

  lemma BackupsAreThere(disk: map<Path, Bytes>, listing: seq<nat>, named: Option<nat>, nextId: nat,
                        damaged: set<nat>)
    requires Directory(disk, listing, named, nextId, damaged)
    ensures forall id | id in listing :: Backup(id) in disk
  {
    hide Records, Valid, CompletePart;
  }
}
