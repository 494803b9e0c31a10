/** The replaceable query index: rebuilding it from the history store and paging
    through it with cursors that go stale. */
module Projections {
  import opened Base
  import opened Tables
  import opened Ledger
  import opened LedgerInvariant
  import opened LedgerHistory
  import opened LocalHistoryStores

  const REBUILD_PAGE_SIZE: nat := 256

  datatype Health = Healthy | Rebuilding
  datatype SourceCursor = SourceCursor(sequence: nat, generation: nat)

  /** Timeline rows by event id, chat summaries, source cursors, the cursor
      generation and the last health record. */
  datatype Index = Index(
    timeline: map<Id, EventRow>, chats: map<StreamKey, Stream>, cursors: map<StreamKey, SourceCursor>,
    generation: nat, health: Option<Health>)

  /** The index seen as history tables. */
  function View(index: Index): Db {
    Db(index.chats, index.timeline, map[], map[], map[], map[], Staging(map[], map[], {}), false)
  }

  /** The timeline of each indexed stream has rows 1..head, and no row is stray. */
  ghost predicate Exact(index: Index) {
    EventsExact(index.chats, index.timeline)
  }

  /** The rows a complete walk over one stream should return. */
  ghost function Shown(index: Index, key: StreamKey): (rows: seq<Event>)
    requires Exact(index)
  {
    History(View(index), key)
  }

  // -------------------------------------------------------------------- rebuilding

  function Without(timeline: map<Id, EventRow>, key: StreamKey): map<Id, EventRow> {
    map id | id in timeline && timeline[id].stream != key :: timeline[id]
  }

  ghost function Republished(timeline: map<Id, EventRow>, db: Db, key: StreamKey): Option<map<Id, EventRow>>
    requires EventsExact(db.streams, db.events)
  {
    var h := History(db, key);
    Inserted(Without(timeline, key), EventIds(h), EventRows(key, 0, h), SameSequence)
  }

  function Published(index: Index, key: StreamKey, stream: Stream, timeline: map<Id, EventRow>, record: bool): Index {
    var generation := index.generation + 1;
    Index(timeline, index.chats[key := stream], index.cursors[key := SourceCursor(stream.head, generation)], generation,
          if record && index.health.None? then Some(Healthy) else index.health)
  }

  /** `rebuild_chat_inner`. */
  ghost function Rebuilt(index: Index, db: Db, key: StreamKey, record: bool): (r: Result<Index>)
    requires EventsExact(db.streams, db.events)
  {
    var known := key in db.streams;
    :- Need(known, UnknownHistoryStream);
    var timeline :- Stored(Republished(index.timeline, db, key));
    Ok(Published(index, key, db.streams[key], timeline, record))
  }

  /** An event of the stream is indexed under another one. */
  ghost predicate HeldElsewhere(index: Index, db: Db, key: StreamKey) {
    exists id :: id in db.events && db.events[id].stream == key && id in index.timeline && index.timeline[id].stream != key
  }

  lemma HistoryIds(db: Db, key: StreamKey, id: Id)
    requires EventsExact(db.streams, db.events)
    ensures id in EventIds(History(db, key)) <==> id in db.events && db.events[id].stream == key
  {
    var h := History(db, key);
    if id in db.events && db.events[id].stream == key {
      HistoryRow(db, key, id);
      assert EventIds(h)[db.events[id].sequence - 1] == id;
    }
    if id in EventIds(h) {
      var i :| 0 <= i < |h| && EventIds(h)[i] == id;
      HistoryHasRow(db, key, i + 1);
    }
  }

  /** A history can be inserted exactly when none of its events is there already. */
  lemma HistoryInserts(kept: map<Id, EventRow>, db: Db, key: StreamKey)
    requires EventsExact(db.streams, db.events) && forall id :: id in kept ==> kept[id].stream != key
    ensures var h := History(db, key);
            Inserted(kept, EventIds(h), EventRows(key, 0, h), SameSequence).Some?
            <==> forall i :: 0 <= i < |h| ==> h[i].id !in kept
  {
    var h := History(db, key);
    var ids, rows := EventIds(h), EventRows(key, 0, h);
    InsertedExactly(kept, ids, rows, SameSequence);
    forall i | 0 <= i < |ids| ensures Refused(kept, ids[i], rows[i], SameSequence) <==> h[i].id in kept {
    }
    forall i, j | 0 <= i < j < |ids| ensures ids[i] != ids[j] && !SameSequence(rows[i], rows[j]) {
      HistoryIdsDiffer(db, key, i, j);
    }
  }

  lemma HistoryIdsDiffer(db: Db, key: StreamKey, i: nat, j: nat)
    requires EventsExact(db.streams, db.events) && i < j < HeadOf(db, key)
    ensures History(db, key)[i].id != History(db, key)[j].id
  {
    HistoryHasRow(db, key, i + 1);
    HistoryHasRow(db, key, j + 1);
  }

  /** Rebuilding a stream succeeds exactly when it exists and none of its events
      is indexed under another stream. */
  lemma RebuildSucceedsExactly(index: Index, db: Db, key: StreamKey, record: bool)
    requires EventsExact(db.streams, db.events)
    ensures Rebuilt(index, db, key, record).Ok? <==> key in db.streams && !HeldElsewhere(index, db, key)
  {
    var h, kept := History(db, key), Without(index.timeline, key);
    HistoryInserts(kept, db, key);
    forall i | 0 <= i < |h| ensures h[i].id in db.events && db.events[h[i].id].stream == key {
      HistoryHasRow(db, key, i + 1);
    }
    if HeldElsewhere(index, db, key) {
      var id :| id in db.events && db.events[id].stream == key && id in index.timeline && index.timeline[id].stream != key;
      HistoryRow(db, key, id);
      assert h[db.events[id].sequence - 1].id in kept;
    }
  }

  /** The rows of one stream replaced by the source's. */
  ghost predicate Replaced(timeline: map<Id, EventRow>, db: Db, key: StreamKey, after: map<Id, EventRow>) {
    && (forall id :: id in db.events && db.events[id].stream == key ==> id in after && after[id] == db.events[id])
    && (forall id :: id in timeline && timeline[id].stream != key ==> id in after && after[id] == timeline[id])
    && (forall id :: id in after ==>
          (id in db.events && db.events[id].stream == key) || (id in timeline && timeline[id].stream != key))
  }

  /** After a rebuild the rows of the stream are exactly its events in the source,
      and every other row is as before. */
  lemma RebuiltRows(timeline: map<Id, EventRow>, db: Db, key: StreamKey, after: map<Id, EventRow>)
    requires EventsExact(db.streams, db.events) && Republished(timeline, db, key) == Some(after)
    ensures Replaced(timeline, db, key, after)
  {
    var h, kept := History(db, key), Without(timeline, key);
    var ids, rows := EventIds(h), EventRows(key, 0, h);
    InsertedExtends(kept, ids, rows, SameSequence);
    forall id ensures id in ids <==> id in db.events && db.events[id].stream == key {
      HistoryIds(db, key, id);
    }
    forall id | id in db.events && db.events[id].stream == key ensures id in after && after[id] == db.events[id] {
      HistoryRow(db, key, id);
      assert ids[db.events[id].sequence - 1] == id;
    }
  }

  lemma ReplacedExact(chats: map<StreamKey, Stream>, timeline: map<Id, EventRow>, db: Db, key: StreamKey, after: map<Id, EventRow>)
    requires EventsExact(chats, timeline) && EventsExact(db.streams, db.events) && key in db.streams
    requires Replaced(timeline, db, key, after)
    ensures EventsExact(chats[key := db.streams[key]], after)
  {
    forall k, n: nat | k in chats[key := db.streams[key]] && 1 <= n <= chats[key := db.streams[key]][k].head
      ensures HasEvent(after, k, n)
    {
      if k == key {
        assert HasEvent(db.events, k, n);
        var id :| id in db.events && db.events[id].stream == k && db.events[id].sequence == n;
      } else {
        assert HasEvent(timeline, k, n);
        var id :| id in timeline && timeline[id].stream == k && timeline[id].sequence == n;
      }
    }
    forall a, b | a in after && b in after && SameSequence(after[a], after[b]) ensures a == b {
      if after[a].stream == key {
        assert SameSequence(db.events[a], db.events[b]);
      } else {
        assert SameSequence(timeline[a], timeline[b]);
      }
    }
  }

  lemma ReplacedHistory(before: Db, db: Db, key: StreamKey, after: Db, other: StreamKey)
    requires EventsExact(before.streams, before.events) && EventsExact(db.streams, db.events) && key in db.streams
    requires Replaced(before.events, db, key, after.events) && after.streams == before.streams[key := db.streams[key]]
    requires EventsExact(after.streams, after.events)
    ensures History(after, other) == if other == key then History(db, key) else History(before, other)
  {
    var h := if other == key then History(db, key) else History(before, other);
    forall i | 0 <= i < |h| ensures h[i].id in after.events && after.events[h[i].id] == EventRow(other, i + 1, h[i]) {
      HistoryHasRow(if other == key then db else before, other, i + 1);
    }
    HistoryIs(after, other, h);
  }

  /** A rebuilt stream shows the source's history; every other stream shows what it did. */
  lemma RebuildShowsHistory(index: Index, db: Db, key: StreamKey, record: bool, other: StreamKey)
    requires Exact(index) && EventsExact(db.streams, db.events) && Rebuilt(index, db, key, record).Ok?
    ensures var after := Rebuilt(index, db, key, record).value;
            && Exact(after) && after.generation > index.generation
            && Shown(after, other) == if other == key then History(db, key) else Shown(index, other)
  {
    var after := Rebuilt(index, db, key, record).value;
    RebuiltRows(index.timeline, db, key, after.timeline);
    ReplacedExact(index.chats, index.timeline, db, key, after.timeline);
    ReplacedHistory(View(index), db, key, View(after), other);
  }

  /** A rebuild records how far it read and in which generation, for its own stream only, and
      never conceals a full rebuild that was interrupted. */
  lemma RebuildRecords(index: Index, db: Db, key: StreamKey, record: bool)
    requires EventsExact(db.streams, db.events) && Rebuilt(index, db, key, record).Ok?
    ensures var after := Rebuilt(index, db, key, record).value;
            && after.generation == index.generation + 1 && after.chats == index.chats[key := db.streams[key]]
            && key in after.cursors && after.cursors[key].generation == after.generation
            && after.cursors[key].sequence == |History(db, key)|
            && (forall other :: other != key ==> (other in after.cursors <==> other in index.cursors))
            && (forall other :: other != key && other in index.cursors ==> after.cursors[other] == index.cursors[other])
            && (index.health.Some? ==> after.health == index.health)
            && (index.health.None? ==> after.health == if record then Some(Healthy) else None)
  {
  }

  // ------------------------------------------------------------------------ paging

  datatype Cursor = Cursor(generation: nat, position: nat)
  datatype Page = Page(items: seq<Event>, next: Option<Cursor>)

  /** `finish_page`, for rows that follow one position. */
  function FinishPage(fetched: seq<Event>, limit: nat, generation: nat, position: nat): (page: Page) {
    var items := fetched[..Min(limit, |fetched|)];
    Page(items, if |fetched| > limit && items != [] then Some(Cursor(generation, position + |items|)) else None)
  }

  function Position(cursor: Option<Cursor>): nat {
    match cursor
    case None => 0
    case Some(c) => c.position
  }

  /** `timeline_page`: `page_query` clamps what it fetches, but the page is finished
      with the caller's own limit. */
  ghost function PageOf(index: Index, key: StreamKey, cursor: Option<Cursor>, limit: nat): (r: Result<Page>)
    requires Exact(index)
  {
    var h, position := Shown(index, key), Position(cursor);
    :- Need(cursor.Some? ==> cursor.value.generation == index.generation, StaleProjectionCursor);
    var fetched := h[Min(position, |h|)..Min(position + Clamp(limit) + 1, |h|)];
    Ok(FinishPage(fetched, limit, index.generation, position))
  }

  /** A page under a limit in range holds the next rows, and a cursor exactly when rows are left. */
  lemma PageIsNext(index: Index, key: StreamKey, cursor: Option<Cursor>, limit: nat)
    requires Exact(index) && 1 <= limit <= MAX_PAGE_SIZE && Position(cursor) <= |Shown(index, key)|
    requires cursor.Some? ==> cursor.value.generation == index.generation
    ensures var h, position := Shown(index, key), Position(cursor);
            var end := Min(position + limit, |h|);
            PageOf(index, key, cursor, limit)
            == Ok(Page(h[position..end], if end < |h| then Some(Cursor(index.generation, end)) else None))
  {
    var h, position := Shown(index, key), Position(cursor);
    var fetched := h[position..Min(position + limit + 1, |h|)];
    assert fetched[..Min(limit, |fetched|)] == h[position..Min(position + limit, |h|)];
  }

  // ------------------------------------------------------- a walk among other calls

  datatype Touch = Rebuild(db: Db, key: StreamKey, record: bool) | Evict | BeginFullRebuild | FinishFullRebuild

  /** `evict` and `begin_full_rebuild` empty the index and differ in the health they record. */
  function Emptied(index: Index, health: Health): Index {
    Index(map[], map[], map[], index.generation + 1, Some(health))
  }

  ghost function Touched(index: Index, touch: Touch): (after: Index)
    requires touch.Rebuild? ==> EventsExact(touch.db.streams, touch.db.events)
  {
    match touch
    case Rebuild(db, key, record) =>
      var r := Rebuilt(index, db, key, record);
      if r.Ok? then r.value else index
    case Evict => Emptied(index, Healthy)
    case BeginFullRebuild => Emptied(index, Rebuilding)
    case FinishFullRebuild => index.(health := Some(Healthy))
  }

  /** Whatever changes a row also moves the generation on. */
  lemma TouchKeepsExact(index: Index, touch: Touch, key: StreamKey)
    requires Exact(index) && (touch.Rebuild? ==> EventsExact(touch.db.streams, touch.db.events))
    ensures var after := Touched(index, touch);
            && Exact(after) && after.generation >= index.generation
            && (after.generation == index.generation ==> Shown(after, key) == Shown(index, key))
  {
    match touch
    case Rebuild(db, k, record) =>
      if Rebuilt(index, db, k, record).Ok? {
        RebuildShowsHistory(index, db, k, record, key);
      }
    case _ =>
  }

  datatype Phase = Unstarted | Paging(cursor: Cursor) | Finished | Stale

  /** One walk over a stream, and the index it walks. */
  datatype Walk = Walk(index: Index, phase: Phase, items: seq<Event>)

  datatype Move = Other(touch: Touch) | Fetch(limit: nat)

  ghost function Moved(walk: Walk, key: StreamKey, move: Move): (after: Walk)
    requires Exact(walk.index)
    requires move.Other? && move.touch.Rebuild? ==> EventsExact(move.touch.db.streams, move.touch.db.events)
  {
    match move
    case Other(touch) => walk.(index := Touched(walk.index, touch))
    case Fetch(limit) =>
      if walk.phase.Finished? || walk.phase.Stale? then walk
      else
        match PageOf(walk.index, key, if walk.phase.Paging? then Some(walk.phase.cursor) else None, limit)
        case Err(_) => walk.(phase := Stale)
        case Ok(Page(items, None)) => walk.(phase := Finished, items := walk.items + items)
        case Ok(Page(items, Some(next))) => walk.(phase := Paging(next), items := walk.items + items)
  }

  /** While the generation stands, the walk has returned exactly the rows before its cursor. */
  ghost predicate OnTrack(walk: Walk, key: StreamKey) {
    && Exact(walk.index)
    && match walk.phase
       case Unstarted => walk.items == []
       case Paging(cursor) =>
         && cursor.generation <= walk.index.generation
         && (cursor.generation == walk.index.generation ==>
               && cursor.position <= |Shown(walk.index, key)|
               && walk.items == Shown(walk.index, key)[..cursor.position])
       case _ => true
  }

  ghost predicate LimitInRange(move: Move) {
    move.Fetch? ==> 1 <= move.limit <= MAX_PAGE_SIZE
  }

  ghost predicate SourceExact(move: Move) {
    move.Other? && move.touch.Rebuild? ==> EventsExact(move.touch.db.streams, move.touch.db.events)
  }

  /** A step keeps the walk on track, and a step that finishes it has returned
      exactly the rows the index shows at that moment. */
  lemma MoveOnTrack(walk: Walk, key: StreamKey, move: Move)
    requires OnTrack(walk, key) && LimitInRange(move) && SourceExact(move)
    ensures OnTrack(Moved(walk, key, move), key)
    ensures !walk.phase.Finished? && Moved(walk, key, move).phase.Finished? ==>
              Moved(walk, key, move).items == Shown(walk.index, key)
  {
    match move
    case Other(touch) => TouchKeepsExact(walk.index, touch, key);
    case Fetch(limit) =>
      var cursor := if walk.phase.Paging? then Some(walk.phase.cursor) else None;
      if !walk.phase.Finished? && !walk.phase.Stale? && PageOf(walk.index, key, cursor, limit).Ok? {
        PageIsNext(walk.index, key, cursor, limit);
        var h, position := Shown(walk.index, key), Position(cursor);
        var end := Min(position + limit, |h|);
        assert walk.items == h[..position];
        assert h[..position] + h[position..end] == h[..end];
      }
  }

  ghost predicate WalkRun(walks: seq<Walk>, key: StreamKey, moves: seq<Move>) {
    && |walks| == |moves| + 1
    && forall i: nat :: i < |moves| ==> MovesAt(walks, key, moves, i)
  }

  ghost predicate MovesAt(walks: seq<Walk>, key: StreamKey, moves: seq<Move>, i: nat)
    requires |walks| == |moves| + 1 && i < |moves|
  {
    && LimitInRange(moves[i]) && SourceExact(moves[i]) && Exact(walks[i].index)
    && walks[i + 1] == Moved(walks[i], key, moves[i])
  }

  lemma {:induction false} WalkStaysOnTrack(walks: seq<Walk>, key: StreamKey, moves: seq<Move>, i: nat)
    requires WalkRun(walks, key, moves) && i < |walks|
    requires Exact(walks[0].index) && walks[0].phase == Unstarted && walks[0].items == []
    ensures OnTrack(walks[i], key)
  {
    if i > 0 {
      WalkStaysOnTrack(walks, key, moves, i - 1);
      assert MovesAt(walks, key, moves, i - 1);
      MoveOnTrack(walks[i - 1], key, moves[i - 1]);
    }
  }

  /** However rebuilds and evictions interleave with a walk, and whatever page sizes
      from 1 to 512 it uses: if it finishes, it has returned every row of the stream
      exactly once and in order. */
  lemma FinishedWalkIsComplete(walks: seq<Walk>, key: StreamKey, moves: seq<Move>, i: nat)
    requires WalkRun(walks, key, moves) && i < |moves|
    requires Exact(walks[0].index) && walks[0].phase == Unstarted && walks[0].items == []
    requires !walks[i].phase.Finished? && walks[i + 1].phase.Finished?
    ensures Exact(walks[i].index) && walks[i + 1].items == Shown(walks[i].index, key)
  {
    WalkStaysOnTrack(walks, key, moves, i);
    assert MovesAt(walks, key, moves, i);
    MoveOnTrack(walks[i], key, moves[i]);
  }

  // ------------------------------------------------------------- limits out of range

  /** The rows a walk still has before it. */
  ghost function Ahead(index: Index, key: StreamKey, cursor: Option<Cursor>): seq<Event>
    requires Exact(index)
  {
    var h := Shown(index, key);
    h[Min(Position(cursor), |h|)..]
  }

  /** A page under a current cursor says it is the last one but drops rows exactly when
      the limit is 0 and rows are left, or it is over 512 and more than 513 are left. */
  lemma PageLosesRowsExactly(index: Index, key: StreamKey, cursor: Option<Cursor>, limit: nat)
    requires Exact(index) && (cursor.Some? ==> cursor.value.generation == index.generation)
    ensures var page, rest := PageOf(index, key, cursor, limit).value, Ahead(index, key, cursor);
            page.next.None? && page.items != rest
            <==> (limit == 0 && rest != []) || (limit > MAX_PAGE_SIZE && |rest| > MAX_PAGE_SIZE + 1)
  {
    var h, position, rest := Shown(index, key), Position(cursor), Ahead(index, key, cursor);
    var fetched := h[Min(position, |h|)..Min(position + Clamp(limit) + 1, |h|)];
    assert fetched == rest[..Min(Clamp(limit) + 1, |rest|)];
    assert fetched[..Min(limit, |fetched|)] == rest[..Min(limit, |fetched|)];
    assert |fetched| == |rest| ==> rest[..|fetched|] == rest;
  }

  /** An index whose one stream has n rows, each named by its number of letters. */
  function Sample(key: StreamKey, n: nat): Index {
    Index(map i | 0 <= i < n :: SampleEvent(i).id := EventRow(key, i + 1, SampleEvent(i)),
          map[key := Stream("run", n, n)], map[], 0, None)
  }

  function SampleEvent(i: nat): (e: Event)
    ensures |e.id| == i
  {
    Event(seq(i, _ => 'e'), 1, "note", Payload("{}", false))
  }

  lemma SampleRow(key: StreamKey, n: nat, i: nat)
    requires i < n
    ensures SampleEvent(i).id in Sample(key, n).timeline
    ensures Sample(key, n).timeline[SampleEvent(i).id] == EventRow(key, i + 1, SampleEvent(i))
  {
  }

  lemma SampleKey(key: StreamKey, n: nat, id: Id)
    requires id in Sample(key, n).timeline
    ensures |id| < n && id == SampleEvent(|id|).id
  {
    var i :| 0 <= i < n && SampleEvent(i).id == id;
  }

  lemma SampleExact(key: StreamKey, n: nat)
    ensures Exact(Sample(key, n))
  {
    var index := Sample(key, n);
    forall id | id in index.timeline ensures |id| < n && index.timeline[id] == EventRow(key, |id| + 1, SampleEvent(|id|))
                                             && SampleEvent(|id|).id == id
    {
      SampleKey(key, n, id);
      SampleRow(key, n, |id|);
    }
    forall k, m: nat | k in index.chats && 1 <= m <= index.chats[k].head ensures HasEvent(index.timeline, k, m) {
      SampleRow(key, n, m - 1);
    }
  }

  function SampleEvents(n: nat): (h: seq<Event>)
    ensures |h| == n
  {
    seq(n, i requires 0 <= i < n => SampleEvent(i))
  }

  lemma SampleShows(key: StreamKey, n: nat)
    ensures Exact(Sample(key, n)) && Shown(Sample(key, n), key) == SampleEvents(n)
  {
    SampleExact(key, n);
    var h := SampleEvents(n);
    forall i | 0 <= i < n ensures h[i].id in Sample(key, n).timeline
                                  && Sample(key, n).timeline[h[i].id] == EventRow(key, i + 1, h[i])
    {
      SampleRow(key, n, i);
    }
    HistoryIs(View(Sample(key, n)), key, h);
  }

  /** Both failures happen: one row under limit 0, and 514 rows under limit 513. */
  lemma PagesLoseRows(key: StreamKey)
    ensures Exact(Sample(key, 1)) && PageOf(Sample(key, 1), key, None, 0) == Ok(Page([], None))
    ensures Shown(Sample(key, 1), key) == [SampleEvent(0)]
    ensures Exact(Sample(key, 514)) && |Shown(Sample(key, 514), key)| == 514
    ensures var page := PageOf(Sample(key, 514), key, None, 513); page.Ok? && page.value.next == None && |page.value.items| == 513
  {
    SampleShows(key, 1);
    SampleShows(key, 514);
  }

  // --------------------------------------------------------------------- the store

  /** The loop of `rebuild_chat_inner`: the source is read in pages of 256 and every row inserted in turn. */
  method Republish(indexed: map<Id, EventRow>, source: Db, key: StreamKey) returns (r: Option<map<Id, EventRow>>)
    requires EventsExact(source.streams, source.events)
    ensures r == Republished(indexed, source, key)
  {
    ghost var h := History(source, key);
    var timeline := Without(indexed, key);
    var cursor: nat, more := 0, true;
    FromStart(timeline, key, h);
    while more
      invariant cursor <= |h| && (!more ==> cursor == |h|)
      invariant InsertedFrom(timeline, key, h, cursor) == Republished(indexed, source, key)
      decreases more, |h| - cursor
    {
      var fetched := FetchRows(source, key, cursor, REBUILD_PAGE_SIZE);
      var inserted := InsertRows(timeline, EventIds(fetched), EventRows(key, cursor, fetched), SameSequence);
      PageInserted(timeline, key, h, cursor, fetched);
      if inserted.None? { return None; }
      timeline := inserted.value;
      cursor := cursor + |fetched|;
      more := |fetched| == REBUILD_PAGE_SIZE;
    }
    assert InsertedFrom(timeline, key, h, |h|) == Some(timeline);
    return Some(timeline);
  }

  class ProjectionStore {
    var index: Index

    constructor ()
      ensures index == Index(map[], map[], map[], 0, None) && Exact(index)
    {
      index := Index(map[], map[], map[], 0, None);
    }

    /** `rebuild_chat_inner`. */
    method RebuildChat(source: Db, key: StreamKey, record: bool) returns (r: Check)
      requires Exact(index) && EventsExact(source.streams, source.events)
      modifies this
      ensures Exact(index)
      ensures match old(Rebuilt(index, source, key, record))
              case Ok(after) => r == Pass && index == after
              case Err(error) => r == Fail(error) && index == old(index)
    {
      if key !in source.streams { return Fail(UnknownHistoryStream); }
      if old(Rebuilt(index, source, key, record)).Ok? {
        RebuildShowsHistory(index, source, key, record, key);
      }
      var timeline := Republish(index.timeline, source, key);
      if timeline.None? { return Fail(Sql); }
      index := Published(index, key, source.streams[key], timeline.value, record);
      return Pass;
    }

    /** `evict`: nothing is shown any more, the index counts as healthy, and every
        cursor handed out before is refused from now on. */
    method EvictAll()
      modifies this
      ensures Exact(index) && index.health == Some(Healthy)
      ensures forall key :: Shown(index, key) == []
      ensures forall key, cursor: Cursor, limit ::
                cursor.generation <= old(index).generation ==>
                  PageOf(index, key, Some(cursor), limit) == Err(StaleProjectionCursor)
    {
      index := Emptied(index, Healthy);
    }

    /** `rebuild_all`: from a valid source it always succeeds, and then the index
        agrees with the source on every stream and says that it is healthy. */
    method RebuildAll(source: Db) returns (r: Check)
      requires EventsExact(source.streams, source.events)
      modifies this
      ensures r == Pass && Exact(index)
      ensures index.chats == source.streams && index.timeline == source.events
      ensures index.health == Some(Healthy)
    {
      index := Emptied(index, Rebuilding);
      var done: set<StreamKey>, rest := {}, source.streams.Keys;
      while rest != {}
        invariant done + rest == source.streams.Keys && done !! rest
        invariant Exact(index) && index.health == Some(Rebuilding) && Agrees(index, source, done)
      {
        var key :| key in rest;
        RebuildAgrees(index, source, done, key);
        r := RebuildChat(source, key, false);
        done, rest := done + {key}, rest - {key};
      }
      AgreesOnAll(index, source, done);
      index := index.(health := Some(Healthy));
      r := Pass;
    }

    /** `timeline_page`. */
    method TimelinePage(key: StreamKey, cursor: Option<Cursor>, limit: nat) returns (r: Result<Page>)
      requires Exact(index)
      ensures r == PageOf(index, key, cursor, limit)
    {
      if cursor.Some? && cursor.value.generation != index.generation { return Err(StaleProjectionCursor); }
      var fetched := FetchRows(View(index), key, Position(cursor), Clamp(limit) + 1);
      return Ok(FinishPage(fetched, limit, index.generation, Position(cursor)));
    }

    /** `timeline`: the whole stream, page by page. */
    method Timeline(key: StreamKey) returns (entries: seq<Event>)
      requires Exact(index)
      ensures entries == Shown(index, key)
    {
      ghost var h := Shown(index, key);
      var cursor: Option<Cursor> := None;
      entries := [];
      var more := true;
      while more
        invariant Position(cursor) <= |h|
        invariant cursor.Some? ==> cursor.value.generation == index.generation
        invariant entries == if more then h[..Position(cursor)] else h
        decreases more, |h| - Position(cursor)
      {
        var page := TimelinePage(key, cursor, MAX_PAGE_SIZE);
        PageIsNext(index, key, cursor, MAX_PAGE_SIZE);
        entries := entries + page.value.items;
        if page.value.next.None? {
          more := false;
        } else {
          cursor := page.value.next;
        }
      }
    }
  }

  /** The table once the rest of the history is in it. */
  ghost function InsertedFrom(timeline: map<Id, EventRow>, key: StreamKey, h: seq<Event>, cursor: nat): Option<map<Id, EventRow>>
    requires cursor <= |h|
  {
    Inserted(timeline, EventIds(h)[cursor..], EventRows(key, 0, h)[cursor..], SameSequence)
  }

  lemma FromStart(timeline: map<Id, EventRow>, key: StreamKey, h: seq<Event>)
    ensures InsertedFrom(timeline, key, h, 0) == Inserted(timeline, EventIds(h), EventRows(key, 0, h), SameSequence)
  {
    assert EventIds(h)[0..] == EventIds(h) && EventRows(key, 0, h)[0..] == EventRows(key, 0, h);
  }

  lemma PageInserted(timeline: map<Id, EventRow>, key: StreamKey, h: seq<Event>, cursor: nat, fetched: seq<Event>)
    requires cursor + |fetched| <= |h| && fetched == h[cursor..cursor + |fetched|]
    ensures var inserted := Inserted(timeline, EventIds(fetched), EventRows(key, cursor, fetched), SameSequence);
            InsertedFrom(timeline, key, h, cursor)
            == if inserted.None? then None else InsertedFrom(inserted.value, key, h, cursor + |fetched|)
  {
    var ids, rows := EventIds(h), EventRows(key, 0, h);
    assert EventIds(fetched) == ids[cursor..cursor + |fetched|];
    assert EventRows(key, cursor, fetched) == rows[cursor..cursor + |fetched|];
    InsertedAppend(timeline, ids[cursor..cursor + |fetched|], rows[cursor..cursor + |fetched|],
                   ids[cursor + |fetched|..], rows[cursor + |fetched|..], SameSequence);
    assert ids[cursor..] == ids[cursor..cursor + |fetched|] + ids[cursor + |fetched|..];
    assert rows[cursor..] == rows[cursor..cursor + |fetched|] + rows[cursor + |fetched|..];
  }

  /** The index holds exactly the given streams of the source. */
  ghost predicate Agrees(index: Index, source: Db, done: set<StreamKey>) {
    && index.chats.Keys == done
    && (forall k :: k in done ==> k in source.streams && index.chats[k] == source.streams[k])
    && (forall id :: id in index.timeline <==> id in source.events && source.events[id].stream in done)
    && (forall id :: id in index.timeline ==> index.timeline[id] == source.events[id])
  }

  lemma NoneElsewhere(index: Index, source: Db, done: set<StreamKey>, key: StreamKey)
    requires Agrees(index, source, done)
    ensures !HeldElsewhere(index, source, key)
  {
  }

  /** Rebuilding one more stream cannot fail, and adds just that stream. */
  lemma RebuildAgrees(index: Index, source: Db, done: set<StreamKey>, key: StreamKey)
    requires Agrees(index, source, done) && EventsExact(source.streams, source.events)
    requires key in source.streams && key !in done
    ensures Rebuilt(index, source, key, false).Ok?
    ensures var after := Rebuilt(index, source, key, false).value;
            Agrees(after, source, done + {key}) && after.health == index.health
  {
    NoneElsewhere(index, source, done, key);
    RebuildSucceedsExactly(index, source, key, false);
    RebuiltRows(index.timeline, source, key, Rebuilt(index, source, key, false).value.timeline);
  }

  lemma AgreesOnAll(index: Index, source: Db, done: set<StreamKey>)
    requires done == source.streams.Keys && Agrees(index, source, done) && EventsExact(source.streams, source.events)
    ensures index.chats == source.streams && index.timeline == source.events
  {
  }
}
