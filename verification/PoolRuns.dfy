/**
 * The buffer pool is invisible: whatever is fetched, flushed or evicted, every page reads as
 * what was last put into it.  The one hole is a dirty page that loses its mark, or its place,
 * without having been flushed.
 */
module PoolRuns {
  import opened BufferPool
  import opened Codecs
  import opened Common
  import opened Records
  import opened Slots
  import opened Tables

  // ---------------------------------------------------------------------------
  //  Single steps
  // ---------------------------------------------------------------------------

  /** The page is sound, and reads in `now` as it did in `was`. */
  ghost predicate Same(h: Home, was: Pool, now: Pool, table: string, id: nat) {
    PageOk(h, now, table, id) && View(h, now, table, id) == View(h, was, table, id)
  }

  ghost predicate AllSame(h: Home, was: Pool, now: Pool) {
    forall table, id :: Same(h, was, now, table, id)
  }

  lemma AllSameMeans(h: Home, was: Pool, now: Pool)
    requires PoolOk(h, was) && AllSame(h, was, now)
    ensures PoolOk(h, now)
    ensures forall table, id :: View(h, now, table, id) == View(h, was, table, id)
  {
    hide PageOk, View, Codec.Lawful;
    forall table, id
      ensures PageOk(h, now, table, id) && View(h, now, table, id) == View(h, was, table, id)
    {
      assert Same(h, was, now, table, id);
    }
  }

  /** A page whose cache entry and saved records are the same is the same. */
  lemma SameEntry(h: Home, was: Pool, now: Pool, table: string, id: nat)
    requires h.codec.Lawful() && PageOk(h, was, table, id)
    requires var key := CacheKey(table, id);
      (key in was.cache <==> key in now.cache) && (key in was.cache ==> was.cache[key] == now.cache[key])
    requires forall rs :: Saved(h, was, table, id, rs) ==> Saved(h, now, table, id, rs)
    ensures Same(h, was, now, table, id)
  {
    hide Saved, Writable, Live, CacheKey, DiskView, Codec.Lawful;
    if CacheKey(table, id) !in was.cache {
      var rs :| Saved(h, was, table, id, rs);
      SavedReads(h, was, table, id, rs);
      SavedReads(h, now, table, id, rs);
    }
  }

  /** A write of a page to its slot, in whatever way it goes, touches no other page. */
  lemma OthersSame(h: Home, was: Pool, now: Pool, table: string, page: PageVal, io: Io, table': string, id': nat)
    requires h.codec.Lawful() && PageOk(h, was, table', id')
    requires (table, page.id) != (table', id')
    requires now.files == PageWritten(h, was, table, page, io).files
    requires var key := CacheKey(table', id');
      (key in was.cache <==> key in now.cache) && (key in was.cache ==> was.cache[key] == now.cache[key])
    ensures Same(h, was, now, table', id')
  {
    hide PageOk, Holding, PageWritten, Live, CacheKey, Codec.Lawful, Same;
    forall rs | Saved(h, was, table', id', rs)
      ensures Saved(h, now, table', id', rs)
    {
      OtherPageStaysSaved(h, was, table, page, io, table', id', rs);
      assert FileOf(h, now, table') == FileOf(h, PageWritten(h, was, table, page, io), table');
    }
    SameEntry(h, was, now, table', id');
  }

  lemma KeyOfOther(table: string, id: nat, table': string, id': nat)
    requires (table, id) != (table', id')
    ensures CacheKey(table, id) != CacheKey(table', id')
  {
    if CacheKey(table, id) == CacheKey(table', id') {
      CacheKeyInjective(table, id, table', id');
    }
  }

  /** A flushed page: clean and saved, or as dirty as before. */
  lemma FlushedPage(h: Home, pool: Pool, table: string, id: nat, io: Io)
    requires PoolOk(h, pool)
    ensures Same(h, pool, Flushed(h, pool, table, id, io).1, table, id)
  {
    hide Live, CacheKey, WriteStatus, PageWritten, Saved, DiskView, Codec.Lawful;
    var key := CacheKey(table, id);
    var (status, now) := Flushed(h, pool, table, id, io);
    assert PageOk(h, pool, table, id);
    if key in pool.cache && pool.cache[key].dirty {
      var page := pool.cache[key].page;
      FlushChangesFiles(h, pool, table, page, io);
      if status == OK {
        assert Done == io by { StatusOk(h, page, io); }
        WrittenPageIsSaved(h, pool, table, page);
        SavedIsOfFiles(h, PageWritten(h, pool, table, page, io), now, table, id, Some(Live(page.records)));
      }
    }
  }

  lemma StatusOk(h: Home, page: PageVal, io: Io)
    ensures WriteStatus(h, page, io) == OK ==> io == Done
  {
  }

  lemma FlushChangesFiles(h: Home, pool: Pool, table: string, page: PageVal, io: Io)
    ensures PageWritten(h, pool, table, page, io).cache == pool.cache
  {
  }

  lemma SavedIsOfFiles(h: Home, a: Pool, b: Pool, table: string, id: nat, rs: Option<seq<Record>>)
    requires a.files == b.files
    ensures Saved(h, a, table, id, rs) == Saved(h, b, table, id, rs)
    ensures DiskView(h, a, table, id) == DiskView(h, b, table, id)
  {
    hide Holding, Live, PageText, Writable;
  }

  /**
   * Flushing changes no page's view, whether the write is done, cut short at any byte, or
   * refused because the page is too large.
   */
  lemma FlushKeepsViews(h: Home, pool: Pool, table: string, id: nat, io: Io)
    requires PoolOk(h, pool)
    ensures PoolOk(h, Flushed(h, pool, table, id, io).1)
    ensures forall t, i: nat :: View(h, Flushed(h, pool, table, id, io).1, t, i) == View(h, pool, t, i)
  {
    hide Live, CacheKey, WriteStatus, PageWritten, View, Codec.Lawful, Same;
    var key := CacheKey(table, id);
    var now := Flushed(h, pool, table, id, io).1;
    forall t, i: nat
      ensures Same(h, pool, now, t, i)
    {
      assert PageOk(h, pool, t, i) && PageOk(h, pool, table, id);
      hide PageOk;
      if (t, i) == (table, id) {
        FlushedPage(h, pool, table, id, io);
      } else if key in pool.cache && pool.cache[key].dirty {
        var page := pool.cache[key].page;
        CachedId(h, pool, table, id);
        KeyOfOther(table, id, t, i);
        FlushChangesFiles(h, pool, table, page, io);
        OthersSame(h, pool, now, table, page, io, t, i);
      } else {
        SameEntry(h, pool, now, t, i);
      }
    }
    AllSameMeans(h, pool, now);
  }

  lemma CachedId(h: Home, pool: Pool, table: string, id: nat)
    requires PageOk(h, pool, table, id) && CacheKey(table, id) in pool.cache
    ensures pool.cache[CacheKey(table, id)].page.id == id
  {
  }

  /** Dropping a clean entry changes no page's view: the disk has it. */
  lemma DropKeepsViews(h: Home, pool: Pool, key: string)
    requires PoolOk(h, pool)
    requires key in pool.cache ==> !pool.cache[key].dirty
    ensures PoolOk(h, Dropped(pool, key))
    ensures forall t, i: nat :: View(h, Dropped(pool, key), t, i) == View(h, pool, t, i)
  {
    hide Live, CacheKey, Codec.Lawful, Writable, DiskView, Saved;
    var now := Dropped(pool, key);
    forall t, i: nat
      ensures Same(h, pool, now, t, i)
    {
      assert PageOk(h, pool, t, i);
      forall rs
        ensures Saved(h, pool, t, i, rs) == Saved(h, now, t, i, rs)
      {
        SavedIsOfFiles(h, pool, now, t, i, rs);
      }
      var k := CacheKey(t, i);
      if k == key && k in pool.cache {
        var rs := Some(Live(pool.cache[k].page.records));
        assert Saved(h, now, t, i, rs);
        SavedReads(h, now, t, i, rs);
      } else {
        SameEntry(h, pool, now, t, i);
      }
    }
    AllSameMeans(h, pool, now);
  }

  /** After a flush that returned OK the entry is clean. */
  lemma FlushedIsClean(h: Home, pool: Pool, table: string, id: nat, io: Io)
    requires Flushed(h, pool, table, id, io).0 == OK
    ensures var key := CacheKey(table, id);
      key in pool.cache && key in Flushed(h, pool, table, id, io).1.cache && !Flushed(h, pool, table, id, io).1.cache[key].dirty
  {
  }

  /** A flush that did not return OK leaves the page cached, and dirty if it was. */
  lemma FailedFlushKeepsThePage(h: Home, pool: Pool, table: string, id: nat, io: Io)
    requires Flushed(h, pool, table, id, io).0 != OK
    ensures Flushed(h, pool, table, id, io).1.cache == pool.cache
    ensures Evicted(h, pool, table, id, io).1.cache == pool.cache
  {
  }

  lemma EvictKeepsViews(h: Home, pool: Pool, table: string, id: nat, io: Io)
    requires PoolOk(h, pool)
    ensures PoolOk(h, Evicted(h, pool, table, id, io).1)
    ensures forall t, i: nat :: View(h, Evicted(h, pool, table, id, io).1, t, i) == View(h, pool, t, i)
    ensures Evicted(h, pool, table, id, io).0 == OK ==> CacheKey(table, id) !in Evicted(h, pool, table, id, io).1.cache
  {
    hide PoolOk, View;
    EvictedIs(h, pool, table, id, io);
    hide Evicted, Flushed;
    FlushKeepsViews(h, pool, table, id, io);
    var (status, flushed) := Flushed(h, pool, table, id, io);
    if status == OK {
      FlushedIsClean(h, pool, table, id, io);
      DropKeepsViews(h, flushed, CacheKey(table, id));
    }
  }

  lemma EvictedIs(h: Home, pool: Pool, table: string, id: nat, io: Io)
    ensures var (status, flushed), (r, now) := Flushed(h, pool, table, id, io), Evicted(h, pool, table, id, io);
      && now == (if status == OK then Dropped(flushed, CacheKey(table, id)) else flushed)
      && (r == OK <==> status == OK || status == NOT_FOUND)
      && (status == NOT_FOUND ==> CacheKey(table, id) !in flushed.cache)
  {
  }

  /** Giving a page an entry that is dirty or saved sets its view, and no other. */
  lemma EntrySet(h: Home, pool: Pool, table: string, id: nat, c: CachedPage)
    requires PoolOk(h, pool)
    requires Writable(c.page, id) && (c.dirty || Saved(h, pool, table, id, Some(Live(c.page.records))))
    ensures var now := pool.(cache := pool.cache[CacheKey(table, id) := c]);
      && PoolOk(h, now)
      && View(h, now, table, id) == Some(Live(c.page.records))
      && forall t, i: nat :: (t, i) != (table, id) ==> View(h, now, t, i) == View(h, pool, t, i)
  {
    hide Live, CacheKey, Codec.Lawful, Writable, DiskView, Saved;
    var now := pool.(cache := pool.cache[CacheKey(table, id) := c]);
    SavedIsOfFiles(h, pool, now, table, id, Some(Live(c.page.records)));
    forall t, i: nat
      ensures PageOk(h, now, t, i)
      ensures (t, i) != (table, id) ==> View(h, now, t, i) == View(h, pool, t, i)
    {
      if (t, i) != (table, id) {
        assert PageOk(h, pool, t, i);
        KeyOfOther(table, id, t, i);
        forall rs
          ensures Saved(h, pool, t, i, rs) == Saved(h, now, t, i, rs)
        {
          SavedIsOfFiles(h, pool, now, t, i, rs);
        }
        SameEntry(h, pool, now, t, i);
      }
    }
  }

  /** The entry that an insertion forces out is clean. */
  predicate RoomIsClean(pool: Pool, key: string, victim: string) {
    NeedsRoom(pool, key) ==> victim in pool.cache && !pool.cache[victim].dirty
  }

  /** Fetching changes no page's view, and returns the page's live records. */
  lemma FetchKeepsViews(h: Home, pool: Pool, table: string, id: nat, fails: bool, victim: string)
    requires PoolOk(h, pool) && RoomIsClean(pool, CacheKey(table, id), victim)
    ensures var (found, now) := Fetched(h, pool, table, id, fails, victim);
      && PoolOk(h, now)
      && (forall t, i: nat :: View(h, now, t, i) == View(h, pool, t, i))
      && (found.Some? ==> View(h, pool, table, id) == Some(Live(found.value.records)))
      && (found.None? ==> fails || View(h, pool, table, id) == None)
  {
    hide Live, CacheKey, Codec.Lawful, Writable, Saved, PoolOk;
    var key := CacheKey(table, id);
    var (found, now) := Fetched(h, pool, table, id, fails, victim);
    if key !in pool.cache {
      var rs := SavedRecords(h, pool, table, id);
      SavedReads(h, pool, table, id, rs);
      if found.Some? {
        var room := if NeedsRoom(pool, key) then Dropped(pool, victim) else pool;
        if NeedsRoom(pool, key) {
          DropKeepsViews(h, pool, victim);
        }
        SavedIsOfFiles(h, pool, room, table, id, rs);
        SavedMeans(h, room, table, id, rs.value);
        assert found.value == PageVal(id, rs.value) && Some(Live(found.value.records)) == rs;
        EntrySet(h, room, table, id, CachedPage(found.value, false));
      }
    }
  }

  lemma SavedMeans(h: Home, pool: Pool, table: string, id: nat, rs: seq<Record>)
    requires Saved(h, pool, table, id, Some(rs))
    ensures Writable(PageVal(id, rs), id) && Live(rs) == rs
  {
  }

  lemma SavedRecords(h: Home, pool: Pool, table: string, id: nat) returns (rs: Option<seq<Record>>)
    requires PoolOk(h, pool) && CacheKey(table, id) !in pool.cache
    ensures h.codec.Lawful() && Saved(h, pool, table, id, rs)
  {
    hide Saved, CacheKey, Codec.Lawful, Writable;
    assert PageOk(h, pool, table, id);
    rs :| Saved(h, pool, table, id, rs);
  }

  // ---------------------------------------------------------------------------
  //  Updates that are lost
  // ---------------------------------------------------------------------------

  /**
   * Compacting a cached page takes its dirty mark away.  Evicted then, it is dropped with status
   * OK and without a write: it reads as the disk has it.
   */
  lemma CompactThenEvictDrops(h: Home, pool: Pool, table: string, id: nat, io: Io)
    requires CacheKey(table, id) in pool.cache
    ensures var key := CacheKey(table, id);
      var compacted := pool.(cache := pool.cache[key := PageExec(pool.cache[key], CompactPage).1]);
      var (status, now) := Evicted(h, compacted, table, id, io);
      && status == OK && now.files == pool.files
      && View(h, now, table, id) == DiskView(h, pool, table, id)
  {
    hide Live, CacheKey;
    var key := CacheKey(table, id);
    var compacted := pool.(cache := pool.cache[key := PageExec(pool.cache[key], CompactPage).1]);
    SavedIsOfFiles(h, pool, Evicted(h, compacted, table, id, io).1, table, id, None);
  }

  /** Such a loss, from nothing: a page with one new record is compacted and evicted, and is gone. */
  lemma LostUpdate(h: Home, table: string, r: Record)
    requires !r.deleted
    ensures var key, page := CacheKey(table, 0), CachedPage(PageVal(0, [r]), true);
      var pool := Pool(map[], map[key := page]);
      var compacted := pool.(cache := pool.cache[key := PageExec(page, CompactPage).1]);
      && View(h, pool, table, 0) == Some([r])
      && Evicted(h, compacted, table, 0, Done).0 == OK
      && View(h, Evicted(h, compacted, table, 0, Done).1, table, 0) == None
  {
    hide CacheKey, DiskView, Evicted, PageExec, Live;
    var key, page := CacheKey(table, 0), CachedPage(PageVal(0, [r]), true);
    OneLiveRecord(r);
    EmptyDisk(h, Pool(map[], map[key := page]), table, 0);
    CompactThenEvictDrops(h, Pool(map[], map[key := page]), table, 0, Done);
  }

  lemma EmptyDisk(h: Home, pool: Pool, table: string, id: nat)
    requires pool.files == map[]
    ensures DiskView(h, pool, table, id) == None
  {
    hide SlotOffset, PageFilePath;
  }

  // ---------------------------------------------------------------------------
  //  Changing a cached page
  // ---------------------------------------------------------------------------

  /** The page operations on the list of live records. */
  function ListExec(ls: seq<Record>, op: PageOp): seq<Record> {
    match op
    case AddRecord(r) => ls + [Record(r.id, r.data, false)]
    case UpdateRecord(r) => WithData(ls, r.id, r.data)
    case DeleteRecord(id) => var i := Slot(ls, id); if i < |ls| then ls[..i] + ls[i + 1..] else ls
    case CompactPage => ls
  }

  lemma {:induction false} LiveRecords(rs: seq<Record>)
    ensures forall r <- Live(rs) :: !r.deleted && r in rs
    ensures forall r <- rs :: !r.deleted ==> r in Live(rs)
    decreases |rs|
  {
    if rs != [] {
      LiveRecords(rs[..|rs| - 1]);
      assert rs == rs[..|rs| - 1] + [rs[|rs| - 1]];
    }
  }

  lemma LiveAround(a: seq<Record>, r: Record, b: seq<Record>)
    ensures Live(a + [r] + b) == Live(a) + (if r.deleted then [] else [r]) + Live(b)
  {
    LiveConcat(a + [r], b);
    LiveConcat(a, [r]);
    assert [r][..0] == [];
  }

  /** The first slot of an id is the first place of the id among the live records. */
  lemma SlotInLive(rs: seq<Record>, id: nat)
    ensures var i := Slot(rs, id);
      if i < |rs| then Slot(Live(rs), id) == |Live(rs[..i])| && |Live(rs[..i])| < |Live(rs)|
      else Slot(Live(rs), id) == |Live(rs)|
  {
    var i, ls := Slot(rs, id), Live(rs);
    if i < |rs| {
      var a := Live(rs[..i]);
      assert rs == rs[..i] + [rs[i]] + rs[i + 1..];
      LiveAround(rs[..i], rs[i], rs[i + 1..]);
      LiveRecords(rs[..i]);
      assert ls[|a|] == rs[i];
      forall j | 0 <= j < |a|
        ensures ls[j].id != id
      {
        assert ls[j] == a[j] && a[j] in rs[..i];
      }
    } else {
      LiveRecords(rs);
      forall j | 0 <= j < |ls|
        ensures ls[j].id != id
      {
        assert ls[j] in rs;
      }
    }
  }

  lemma SlotReplaced(rs: seq<Record>, id: nat, r: Record)
    requires Slot(rs, id) < |rs|
    ensures var i, k := Slot(rs, id), Slot(Live(rs), id);
      && k < |Live(rs)| && Live(rs)[k] == rs[i]
      && Live(rs[i := r]) == Live(rs)[..k] + (if r.deleted then [] else [r]) + Live(rs)[k + 1..]
  {
    hide Live, Slot;
    var i := Slot(rs, id);
    SlotInLive(rs, id);
    LiveAround(rs[..i], rs[i], rs[i + 1..]);
    LiveAround(rs[..i], r, rs[i + 1..]);
    assert rs == rs[..i] + [rs[i]] + rs[i + 1..];
    assert rs[i := r] == rs[..i] + [r] + rs[i + 1..];
  }

  /**
   * What an operation on a page does to its live records; it fails only on a full page or on
   * an id that no live record has.
   */
  lemma PageExecOnLive(c: CachedPage, op: PageOp)
    ensures var (status, c'), ls := PageExec(c, op), Live(c.page.records);
      && c'.page.id == c.page.id
      && Live(c'.page.records) == (if status == OK then ListExec(ls, op) else ls)
      && (status == OUT_OF_MEMORY <==> op.AddRecord? && c.page.IsFull())
      && (status == NOT_FOUND <==>
            || (op.UpdateRecord? && forall r <- ls :: r.id != op.r.id)
            || (op.DeleteRecord? && forall r <- ls :: r.id != op.id))
  {
    var rs := c.page.records;
    LiveRecords(rs);
    match op {
      case AddRecord(r) =>
        LiveAround(rs, Record(r.id, r.data, false), []);
        assert rs + [Record(r.id, r.data, false)] + [] == rs + [Record(r.id, r.data, false)];
      case UpdateRecord(r) =>
        UpdatedLive(rs, r.id, r.data);
        NotLive(rs, r.id);
      case DeleteRecord(id) =>
        DeletedLive(rs, id);
        NotLive(rs, id);
      case CompactPage => LiveTwice(rs);
    }
  }

  /** The page operations, told on the live records: which one changes, and what becomes of the mark. */
  lemma PageOperationsDo(c: CachedPage, op: PageOp)
    ensures var (status, c'), ls := PageExec(c, op), Live(c.page.records);
      var now := Live(c'.page.records);
      && (status != OK ==> c' == c)
      && (status == OK ==> c'.dirty == !op.CompactPage?)
      && (op.AddRecord? ==> (status == OK <==> |c.page.records| != 64))
      && (op.AddRecord? && status == OK ==> now == ls + [Record(op.r.id, op.r.data, false)])
      && (op.UpdateRecord? && status == OK ==>
            exists i :: 0 <= i < |ls| && ls[i].id == op.r.id && (forall j :: 0 <= j < i ==> ls[j].id != op.r.id)
                        && now == ls[i := Record(op.r.id, op.r.data, false)])
      && (op.DeleteRecord? && status == OK ==>
            exists i :: 0 <= i < |ls| && ls[i].id == op.id && (forall j :: 0 <= j < i ==> ls[j].id != op.id)
                        && now == ls[..i] + ls[i + 1..])
      && (op.CompactPage? ==> status == OK && now == ls && c'.page.records == ls)
  {
    hide Live;
    PageExecOnLive(c, op);
    var ls := Live(c.page.records);
    AllLive(c.page.records);
    match op {
      case UpdateRecord(r) =>
        if PageExec(c, op).0 == OK {
          FirstOfId(ls, r.id);
        }
      case DeleteRecord(id) =>
        if PageExec(c, op).0 == OK {
          FirstOfId(ls, id);
        }
      case _ =>
    }
  }

  lemma AllLive(rs: seq<Record>)
    ensures forall i :: 0 <= i < |Live(rs)| ==> !Live(rs)[i].deleted
  {
    hide Live;
    LiveRecords(rs);
    assert forall i :: 0 <= i < |Live(rs)| ==> Live(rs)[i] in Live(rs);
  }

  /** Among live records the slot of an id is the first that has it. */
  lemma FirstOfId(ls: seq<Record>, id: nat)
    requires forall i :: 0 <= i < |ls| ==> !ls[i].deleted
    requires exists r :: r in ls && r.id == id
    ensures var i := Slot(ls, id); i < |ls| && ls[i].id == id && forall j :: 0 <= j < i ==> ls[j].id != id
  {
    hide Slot;
    var k :| 0 <= k < |ls| && ls[k].id == id;
  }

  lemma UpdatedLive(rs: seq<Record>, id: nat, data: Json)
    ensures Live(WithData(rs, id, data)) == WithData(Live(rs), id, data)
  {
    hide Live, Slot;
    var i := Slot(rs, id);
    if i < |rs| {
      SlotReplaced(rs, id, rs[i].(data := data));
    } else {
      SlotInLive(rs, id);
    }
  }

  lemma DeletedLive(rs: seq<Record>, id: nat)
    ensures Live(WithDeleted(rs, id)) == ListExec(Live(rs), DeleteRecord(id))
  {
    hide Live, Slot;
    var i, ls := Slot(rs, id), Live(rs);
    if i < |rs| {
      SlotReplaced(rs, id, rs[i].(deleted := true));
      var k := Slot(ls, id);
      assert ls[..k] + [] + ls[k + 1..] == ls[..k] + ls[k + 1..];
    } else {
      SlotInLive(rs, id);
    }
  }

  lemma NotLive(rs: seq<Record>, id: nat)
    ensures Slot(rs, id) == |rs| <==> forall r <- Live(rs) :: r.id != id
  {
    LiveRecords(rs);
    var i := Slot(rs, id);
    if i < |rs| {
      assert rs[i] in rs;
    }
  }

  // ---------------------------------------------------------------------------
  //  Runs
  // ---------------------------------------------------------------------------

  datatype Event =
    | Fetch(table: string, id: nat, fails: bool, victim: string)
    | Adopt(table: string, page: PageVal, dirty: bool, victim: string)
    | Change(table: string, id: nat, op: PageOp)
    | Flush(table: string, id: nat, io: Io)
    | Evict(table: string, id: nat, io: Io)
  {
    function Page(): (string, nat) {
      if Adopt? then (table, page.id) else (table, this.id)
    }

    function Key(): string {
      CacheKey(Page().0, Page().1)
    }
  }

  function Step(h: Home, pool: Pool, e: Event): (Status, Pool) {
    match e
    case Fetch(table, id, fails, victim) =>
      var (found, now) := Fetched(h, pool, table, id, fails, victim);
      (if found.Some? then OK else NOT_FOUND, now)
    case Adopt(_, page, dirty, victim) => (OK, Put(pool, e.Key(), CachedPage(page, dirty), victim))
    case Change(_, _, op) =>
      if e.Key() !in pool.cache then (NOT_FOUND, pool)
      else
        var (status, c) := PageExec(pool.cache[e.Key()], op);
        (status, pool.(cache := pool.cache[e.Key() := c]))
    case Flush(table, id, io) => Flushed(h, pool, table, id, io)
    case Evict(table, id, io) => Evicted(h, pool, table, id, io)
  }

  /** What the pool stands for: pages by table and id, each a list of live records. */
  type Store = map<(string, nat), seq<Record>>

  function Lookup(store: Store, page: (string, nat)): Option<seq<Record>> {
    if page in store then Some(store[page]) else None
  }

  /** Only adopting and changing pages does anything to the store. */
  function StoreStep(store: Store, e: Event, status: Status): Store {
    match e
    case Adopt(_, page, _, _) => store[e.Page() := Live(page.records)]
    case Change(_, _, op) =>
      if status == OK && e.Page() in store then store[e.Page() := ListExec(store[e.Page()], op)] else store
    case _ => store
  }

  /**
   * The caller's side: pages are adopted dirty, only cached pages are changed, ids stay small,
   * and no dirty page is compacted.
   */
  ghost predicate Mindful(pool: Pool, e: Event) {
    match e
    case Adopt(_, page, dirty, _) => dirty && Writable(page, page.id)
    case Change(_, _, op) =>
      e.Key() in pool.cache ==>
        && Writable(PageExec(pool.cache[e.Key()], op).1.page, e.id)
        && (op.CompactPage? ==> !pool.cache[e.Key()].dirty)
    case _ => true
  }

  /** The cache's side: no dirty page is forced out. */
  predicate RoomOk(pool: Pool, e: Event) {
    e.Fetch? || e.Adopt? ==> RoomIsClean(pool, e.Key(), e.victim)
  }

  ghost predicate Shows(h: Home, pool: Pool, store: Store) {
    forall t, i: nat :: View(h, pool, t, i) == Lookup(store, (t, i))
  }

  /** A change of a page that is not cached does nothing, in the pool and in the store. */
  lemma ChangeShows(h: Home, pool: Pool, store: Store, e: Event)
    requires e.Change? && PoolOk(h, pool) && Shows(h, pool, store) && Mindful(pool, e)
    ensures PoolOk(h, Step(h, pool, e).1)
    ensures Shows(h, Step(h, pool, e).1, StoreStep(store, e, Step(h, pool, e).0))
  {
    hide Live, CacheKey, Codec.Lawful, Writable, Saved, PageExec, ListExec, DiskView;
    var key := e.Key();
    if key in pool.cache {
      var was := pool.cache[key];
      var c := PageExec(was, e.op).1;
      PageExecOnLive(was, e.op);
      assert View(h, pool, e.table, e.id) == Some(Live(was.page.records));
      assert PageOk(h, pool, e.table, e.id);
      CleanOnlyIfUnchanged(was, e.op);
      EntrySet(h, pool, e.table, e.id, c);
    }
  }

  lemma CleanOnlyIfUnchanged(c: CachedPage, op: PageOp)
    requires op.CompactPage? ==> !c.dirty
    ensures var c' := PageExec(c, op).1;
      !c'.dirty ==> !c.dirty && Live(c'.page.records) == Live(c.page.records)
  {
    LiveTwice(c.page.records);
  }

  lemma AdoptShows(h: Home, pool: Pool, store: Store, e: Event)
    requires e.Adopt? && PoolOk(h, pool) && Shows(h, pool, store) && Mindful(pool, e) && RoomOk(pool, e)
    ensures PoolOk(h, Step(h, pool, e).1)
    ensures Shows(h, Step(h, pool, e).1, StoreStep(store, e, Step(h, pool, e).0))
  {
    hide Live, CacheKey, Codec.Lawful, Writable, Saved, PoolOk, View;
    if NeedsRoom(pool, e.Key()) {
      DropKeepsViews(h, pool, e.victim);
      EntrySet(h, Dropped(pool, e.victim), e.table, e.page.id, CachedPage(e.page, e.dirty));
    } else {
      EntrySet(h, pool, e.table, e.page.id, CachedPage(e.page, e.dirty));
    }
  }

  /** Every step of a mindful caller keeps the pool sound, and shows the store's step. */
  lemma StepShows(h: Home, pool: Pool, store: Store, e: Event)
    requires PoolOk(h, pool) && Shows(h, pool, store) && Mindful(pool, e) && RoomOk(pool, e)
    ensures PoolOk(h, Step(h, pool, e).1)
    ensures Shows(h, Step(h, pool, e).1, StoreStep(store, e, Step(h, pool, e).0))
  {
    hide PoolOk, View, CacheKey, Flushed, Evicted, Fetched, Put, RoomIsClean;
    match e {
      case Fetch(table, id, fails, victim) => FetchKeepsViews(h, pool, table, id, fails, victim);
      case Adopt(_, _, _, _) => AdoptShows(h, pool, store, e);
      case Change(_, _, _) => ChangeShows(h, pool, store, e);
      case Flush(table, id, io) => FlushKeepsViews(h, pool, table, id, io);
      case Evict(table, id, io) => EvictKeepsViews(h, pool, table, id, io);
    }
  }

  /** The run of a pool, and of the store it stands for. */
  function Run(h: Home, pool: Pool, store: Store, es: seq<Event>): (Pool, Store)
    decreases |es|
  {
    if es == [] then (pool, store)
    else
      var (p, s), e := Run(h, pool, store, es[..|es| - 1]), es[|es| - 1];
      var (status, now) := Step(h, p, e);
      (now, StoreStep(s, e, status))
  }

  ghost predicate MindfulRun(h: Home, pool: Pool, store: Store, es: seq<Event>)
    decreases |es|
  {
    es == [] || (
      && MindfulRun(h, pool, store, es[..|es| - 1])
      && Mindful(Run(h, pool, store, es[..|es| - 1]).0, es[|es| - 1]))
  }

  ghost predicate RoomyRun(h: Home, pool: Pool, store: Store, es: seq<Event>)
    decreases |es|
  {
    es == [] || (
      && RoomyRun(h, pool, store, es[..|es| - 1])
      && RoomOk(Run(h, pool, store, es[..|es| - 1]).0, es[|es| - 1]))
  }

  /**
   * Coherence: after any run in which no dirty page is forced out, whatever reads and writes
   * failed, every page reads as what was last put into it.
   */
  lemma {:induction false} Coherence(h: Home, pool: Pool, store: Store, es: seq<Event>)
    requires PoolOk(h, pool) && Shows(h, pool, store)
    requires MindfulRun(h, pool, store, es) && RoomyRun(h, pool, store, es)
    ensures PoolOk(h, Run(h, pool, store, es).0) && Shows(h, Run(h, pool, store, es).0, Run(h, pool, store, es).1)
    decreases |es|
  {
    hide PoolOk, Shows, Mindful, RoomOk, Step, StoreStep;
    if es != [] {
      var n := |es| - 1;
      Coherence(h, pool, store, es[..n]);
      var (p, s) := Run(h, pool, store, es[..n]);
      StepShows(h, p, s, es[n]);
    }
  }

  /** With at most as many pages in play as the cache holds, nothing is ever forced out. */
  lemma {:induction false} FewPages(h: Home, pool: Pool, store: Store, es: seq<Event>, keys: set<string>)
    requires |keys| <= 128 && pool.cache.Keys <= keys
    requires forall e <- es :: e.Key() in keys
    ensures RoomyRun(h, pool, store, es)
    ensures Run(h, pool, store, es).0.cache.Keys <= keys
    decreases |es|
  {
    hide Step, StoreStep, RoomOk, CacheKey;
    if es != [] {
      var n := |es| - 1;
      assert forall e <- es[..n] :: e in es;
      assert es[n] in es;
      FewPages(h, pool, store, es[..n], keys);
      StepKeys(h, Run(h, pool, store, es[..n]).0, es[n], keys);
    }
  }

  lemma StepKeys(h: Home, pool: Pool, e: Event, keys: set<string>)
    requires |keys| <= CACHE_CAPACITY && pool.cache.Keys <= keys && e.Key() in keys
    ensures RoomOk(pool, e)
    ensures Step(h, pool, e).1.cache.Keys <= keys
  {
    hide Step, CacheKey;
    if e.Key() !in pool.cache {
      SubsetIsSmaller(pool.cache.Keys + {e.Key()}, keys);
      assert |pool.cache| == |pool.cache.Keys| < CACHE_CAPACITY;
    }
    StepCaches(h, pool, e);
  }

  /** A step takes no page into the cache but its own. */
  lemma StepCaches(h: Home, pool: Pool, e: Event)
    ensures Step(h, pool, e).1.cache.Keys <= pool.cache.Keys + {e.Key()}
  {
    hide CacheKey, PageExec, PageWritten, WriteStatus, DiskPage, NeedsRoom;
    match e {
      case Flush(table, id, io) => FlushCaches(h, pool, table, id, io);
      case Evict(table, id, io) => FlushCaches(h, pool, table, id, io);
      case _ =>
    }
  }

  lemma FlushCaches(h: Home, pool: Pool, table: string, id: nat, io: Io)
    ensures Flushed(h, pool, table, id, io).1.cache.Keys <= pool.cache.Keys
  {
    hide CacheKey, PageWritten, WriteStatus;
    if CacheKey(table, id) in pool.cache {
      FlushChangesFiles(h, pool, table, pool.cache[CacheKey(table, id)].page, io);
    }
  }

  lemma SubsetIsSmaller<T>(a: set<T>, b: set<T>)
    requires a <= b
    ensures |a| <= |b|
  {
    assert b == a + (b - a);
  }

  /**
   * From an empty directory, with at most 128 pages in play: a fetch that does not fail
   * returns exactly the live records last put into that page, or nothing if none were.
   */
  lemma FetchReturnsWhatWasPut(h: Home, es: seq<Event>, keys: set<string>, table: string, id: nat)
    requires h.codec.Lawful() && |keys| <= 128
    requires (forall e <- es :: e.Key() in keys) && CacheKey(table, id) in keys
    requires MindfulRun(h, Pool(map[], map[]), map[], es)
    ensures var (pool, store) := Run(h, Pool(map[], map[]), map[], es);
      var found := Fetched(h, pool, table, id, false, []).0;
      (if found.Some? then Some(Live(found.value.records)) else None) == Lookup(store, (table, id))
  {
    hide PoolOk, Shows, Run, View, Lookup, MindfulRun, RoomyRun, CacheKey, Fetched, Codec.Lawful;
    var empty := Pool(map[], map[]);
    EmptyPool(h);
    FewPages(h, empty, map[], es, keys);
    Coherence(h, empty, map[], es);
    var (pool, store) := Run(h, empty, map[], es);
    StepKeys(h, pool, Fetch(table, id, false, []), keys);
    FetchKeepsViews(h, pool, table, id, false, []);
    ShownView(h, pool, store, table, id);
  }

  lemma ShownView(h: Home, pool: Pool, store: Store, table: string, id: nat)
    requires Shows(h, pool, store)
    ensures View(h, pool, table, id) == Lookup(store, (table, id))
  {
  }

  lemma EmptyPool(h: Home)
    requires h.codec.Lawful()
    ensures PoolOk(h, Pool(map[], map[])) && Shows(h, Pool(map[], map[]), map[])
  {
    hide CacheKey, SlotOffset, PageFilePath, Codec.Lawful;
    var empty := Pool(map[], map[]);
    forall t, i: nat
      ensures PageOk(h, empty, t, i) && View(h, empty, t, i) == None
    {
      assert Saved(h, empty, t, i, None);
      SavedReads(h, empty, t, i, None);
    }
  }
}
