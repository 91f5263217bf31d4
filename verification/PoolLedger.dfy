/**
 * What becomes of a page that leaves the cache unflushed.  A ledger keeps, for every page, the
 * records last put into it, those of its last successful write, and the mark of its cache entry;
 * it is kept from events and statuses alone, and it says what every page reads as over any run.
 */
module PoolLedger {
  import opened BufferPool
  import opened Codecs
  import opened Common
  import opened JsonForms
  import opened PoolRuns
  import opened Records
  import opened Slots
  import opened Tables

  type PageName = (string, nat)

  /**
   * `marks` has the cached pages; `torn` those whose last write stopped half-way.  A cached page
   * that the store does not have was read from a torn slot, and can hold anything.
   */
  datatype Ledger = Ledger(
    store: map<PageName, seq<Record>>,
    durable: map<PageName, seq<Record>>,
    marks: map<PageName, bool>,
    torn: set<PageName>)

  const BLANK := Ledger(map[], map[], map[], {})

  /** The marks once there is room for `p`. */
  function Room(marks: map<PageName, bool>, p: PageName, victim: string): map<PageName, bool> {
    if p !in marks && |marks| >= CACHE_CAPACITY then map q | q in marks && CacheKey(q.0, q.1) != victim :: marks[q]
    else marks
  }

  function Flushing(l: Ledger, p: PageName, io: Io, status: Status): Ledger {
    if p !in l.marks || !l.marks[p] then l
    else if status == OK then
      if p in l.store then Ledger(l.store, l.durable[p := l.store[p]], l.marks[p := false], l.torn - {p})
      else l.(marks := l.marks[p := false])
    else if status == IO_ERROR && io.FailedAfter? && io.m > 0 then l.(torn := l.torn + {p})
    else l
  }

  function LedgerStep(l: Ledger, e: Event, status: Status): Ledger {
    var p := e.Page();
    match e
    case Fetch(_, _, fails, victim) =>
      if p in l.marks || status != OK then l
      else
        var marks := Room(l.marks, p, victim)[p := false];
        if p !in l.torn && p in l.durable then l.(store := l.store[p := l.durable[p]], marks := marks)
        else l.(store := l.store - {p}, marks := marks)
    case Adopt(_, page, dirty, victim) =>
      l.(store := l.store[p := Live(page.records)], marks := Room(l.marks, p, victim)[p := dirty])
    case Change(_, _, op) =>
      if p !in l.marks || status != OK then l
      else
        var marked := l.(marks := l.marks[p := !op.CompactPage?]);
        if p in l.store then marked.(store := l.store[p := ListExec(l.store[p], op)]) else marked
    case Flush(_, _, io) => Flushing(l, p, io, status)
    case Evict(_, _, io) =>
      if status != OK then Flushing(l, p, io, status)
      else
        var flushed := Flushing(l, p, io, status);
        flushed.(marks := flushed.marks - {p})
  }

  // ---------------------------------------------------------------------------
  //  The ledger and the pool
  // ---------------------------------------------------------------------------

  /** The ledger tells the mark of an entry and, if it is known at all, what is in it. */
  ghost predicate EntryTold(l: Ledger, p: PageName, c: CachedPage) {
    && p in l.marks && l.marks[p] == c.dirty
    && c.page.id == p.1
    && (if p in l.store then Writable(c.page, p.1) && Live(c.page.records) == l.store[p] else p in l.torn)
  }

  ghost predicate PageTracked(h: Home, pool: Pool, l: Ledger, table: string, id: nat) {
    var p, key := (table, id), CacheKey(table, id);
    && (key in pool.cache <==> p in l.marks)
    && (p in l.marks ==> EntryTold(l, p, pool.cache[key]))
    && (p !in l.torn ==> Saved(h, pool, table, id, Lookup(l.durable, p)))
  }

  /** Cache entries and marks are the same in number, and every entry is some page's. */
  ghost predicate KeysTracked(pool: Pool, l: Ledger) {
    && |pool.cache| == |l.marks|
    && forall key <- pool.cache :: exists p :: p in l.marks && CacheKey(p.0, p.1) == key
  }

  ghost predicate Tracks(h: Home, pool: Pool, l: Ledger) {
    && h.codec.Lawful()
    && KeysTracked(pool, l)
    && forall table, id: nat :: PageTracked(h, pool, l, table, id)
  }

  /**
   * What is asked of a step: ids fit the form's integers, the cache drops one of its own
   * entries, and a slot with the remains of a failed write is not taken for another page's.
   */
  ghost predicate Sane(h: Home, pool: Pool, l: Ledger, e: Event) {
    match e
    case Fetch(table, id, fails, victim) =>
      && (NeedsRoom(pool, e.Key()) ==> victim in pool.cache)
      && (e.Page() in l.torn && DiskPage(h, pool, table, id).Loaded? ==> DiskPage(h, pool, table, id).value.id == id)
    case Adopt(_, page, _, victim) =>
      Writable(page, page.id) && (NeedsRoom(pool, e.Key()) ==> victim in pool.cache)
    case Change(_, _, op) =>
      e.Key() in pool.cache && e.Page() in l.store ==> Writable(PageExec(pool.cache[e.Key()], op).1.page, e.id)
    case _ => true
  }

  /** What a page reads as: the store while it is cached, its last successful write otherwise. */
  lemma TrackedView(h: Home, pool: Pool, l: Ledger, table: string, id: nat)
    requires h.codec.Lawful() && PageTracked(h, pool, l, table, id)
    ensures var p := (table, id);
      && (p in l.marks && p in l.store ==> View(h, pool, table, id) == Some(l.store[p]))
      && (p !in l.marks && p !in l.torn ==> View(h, pool, table, id) == Lookup(l.durable, p))
      && (p !in l.torn ==> DiskView(h, pool, table, id) == Lookup(l.durable, p))
  {
    hide Saved, Writable, Live, CacheKey, DiskView, Codec.Lawful;
    if (table, id) !in l.torn {
      SavedReads(h, pool, table, id, Lookup(l.durable, (table, id)));
    }
  }

  // ---------------------------------------------------------------------------
  //  Room in the cache
  // ---------------------------------------------------------------------------

  /** Dropping an entry takes its page's mark, and no other. */
  lemma DropTracked(h: Home, pool: Pool, l: Ledger, victim: string) returns (v: PageName)
    requires Tracks(h, pool, l) && victim in pool.cache
    ensures v in l.marks && CacheKey(v.0, v.1) == victim
    ensures (map q | q in l.marks && CacheKey(q.0, q.1) != victim :: l.marks[q]) == l.marks - {v}
    ensures Tracks(h, Dropped(pool, victim), l.(marks := l.marks - {v}))
  {
    hide Saved, Writable, Live, CacheKey, Codec.Lawful, KeysTracked;
    v := DropKeys(pool, l, victim);
    var now, l' := Dropped(pool, victim), l.(marks := l.marks - {v});
    forall t, i: nat
      ensures PageTracked(h, now, l', t, i)
    {
      assert PageTracked(h, pool, l, t, i);
      if (t, i) != v {
        KeyOfOther(t, i, v.0, v.1);
      }
      SavedIsOfFiles(h, pool, now, t, i, Lookup(l.durable, (t, i)));
    }
  }

  lemma DropKeys(pool: Pool, l: Ledger, victim: string) returns (v: PageName)
    requires KeysTracked(pool, l) && victim in pool.cache
    ensures v in l.marks && CacheKey(v.0, v.1) == victim
    ensures (map q | q in l.marks && CacheKey(q.0, q.1) != victim :: l.marks[q]) == l.marks - {v}
    ensures KeysTracked(Dropped(pool, victim), l.(marks := l.marks - {v}))
  {
    hide CacheKey;
    v :| v in l.marks && CacheKey(v.0, v.1) == victim;
    var now, marks := Dropped(pool, victim), l.marks - {v};
    forall q | q in l.marks && q != v
      ensures CacheKey(q.0, q.1) != victim
    {
      KeyOfOther(q.0, q.1, v.0, v.1);
    }
    forall key | key in now.cache
      ensures exists p :: p in marks && CacheKey(p.0, p.1) == key
    {
      var p :| p in l.marks && CacheKey(p.0, p.1) == key;
      assert p in marks;
    }
  }

  /** Only what is said of one page differs, and that is what the entry has. */
  ghost predicate EntryChanges(l: Ledger, l': Ledger, p: PageName, c: CachedPage) {
    && EntryTold(l', p, c)
    && l'.durable == l.durable && l'.torn == l.torn
    && (forall q :: q != p ==> Lookup(l'.store, q) == Lookup(l.store, q))
  }

  /** Setting a page's entry. */
  lemma SetTracked(h: Home, pool: Pool, l: Ledger, l': Ledger, p: PageName, c: CachedPage)
    requires Tracks(h, pool, l)
    requires EntryChanges(l, l', p, c) && l'.marks == l.marks[p := c.dirty]
    ensures Tracks(h, pool.(cache := pool.cache[CacheKey(p.0, p.1) := c]), l')
  {
    hide Saved, Writable, Live, CacheKey, Codec.Lawful, KeysTracked, EntryTold;
    var key := CacheKey(p.0, p.1);
    var now := pool.(cache := pool.cache[key := c]);
    forall t, i: nat
      ensures PageTracked(h, now, l', t, i)
    {
      assert PageTracked(h, pool, l, t, i);
      SavedIsOfFiles(h, pool, now, t, i, Lookup(l.durable, (t, i)));
      if (t, i) != p {
        KeyOfOther(t, i, p.0, p.1);
        if (t, i) in l.marks {
          StillTold(l, l', (t, i), pool.cache[CacheKey(t, i)]);
        }
      }
    }
    EntryIffMark(h, pool, l, p);
    SetKeys(pool, l, p, c, l');
  }

  lemma StillTold(l: Ledger, l': Ledger, q: PageName, c: CachedPage)
    requires Lookup(l'.store, q) == Lookup(l.store, q) && (q in l.torn <==> q in l'.torn)
    requires (q in l.marks <==> q in l'.marks) && (q in l.marks ==> l.marks[q] == l'.marks[q])
    ensures EntryTold(l, q, c) == EntryTold(l', q, c)
  {
    hide Writable, Live;
  }

  lemma SetKeys(pool: Pool, l: Ledger, p: PageName, c: CachedPage, l': Ledger)
    requires KeysTracked(pool, l) && l'.marks == l.marks[p := c.dirty]
    requires CacheKey(p.0, p.1) in pool.cache <==> p in l.marks
    ensures KeysTracked(pool.(cache := pool.cache[CacheKey(p.0, p.1) := c]), l')
  {
    hide CacheKey;
    var now := pool.cache[CacheKey(p.0, p.1) := c];
    forall k | k in now
      ensures exists q :: q in l'.marks && CacheKey(q.0, q.1) == k
    {
      if k == CacheKey(p.0, p.1) {
        assert p in l'.marks;
      } else {
        var q :| q in l.marks && CacheKey(q.0, q.1) == k;
        assert q in l'.marks;
      }
    }
  }

  /** An insertion, with or without something forced out. */
  lemma PutTracked(h: Home, pool: Pool, l: Ledger, l': Ledger, p: PageName, c: CachedPage, victim: string)
    requires Tracks(h, pool, l)
    requires EntryChanges(l, l', p, c) && l'.marks == Room(l.marks, p, victim)[p := c.dirty]
    requires NeedsRoom(pool, CacheKey(p.0, p.1)) ==> victim in pool.cache
    ensures Tracks(h, Put(pool, CacheKey(p.0, p.1), c, victim), l')
  {
    hide PageTracked, Writable, Live, CacheKey, Codec.Lawful, EntryTold;
    EntryIffMark(h, pool, l, p);
    if NeedsRoom(pool, CacheKey(p.0, p.1)) {
      var v := DropTracked(h, pool, l, victim);
      SetTracked(h, Dropped(pool, victim), l.(marks := l.marks - {v}), l', p, c);
    } else {
      SetTracked(h, pool, l, l', p, c);
    }
  }

  lemma EntryIffMark(h: Home, pool: Pool, l: Ledger, p: PageName)
    requires Tracks(h, pool, l)
    ensures CacheKey(p.0, p.1) in pool.cache <==> p in l.marks
    ensures |pool.cache| == |l.marks|
  {
    hide Saved, Writable, Live, CacheKey;
    assert PageTracked(h, pool, l, p.0, p.1);
  }

  // ---------------------------------------------------------------------------
  //  Steps
  // ---------------------------------------------------------------------------

  /** What a fetch puts into the cache, and what the ledger then says of it. */
  lemma FetchedEntry(h: Home, pool: Pool, l: Ledger, p: PageName, victim: string)
    requires h.codec.Lawful() && PageTracked(h, pool, l, p.0, p.1) && p !in l.marks
    requires var found := DiskPage(h, pool, p.0, p.1);
      found.Loaded? && (p in l.torn ==> found.value.id == p.1)
    ensures var c := CachedPage(DiskPage(h, pool, p.0, p.1).value, false);
      EntryChanges(l, LedgerStep(l, Fetch(p.0, p.1, false, victim), OK), p, c)
  {
    hide Saved, Live, CacheKey, Codec.Lawful, Writable, DiskPage, Room;
    if p !in l.torn {
      var rs := Lookup(l.durable, p);
      SavedReads(h, pool, p.0, p.1, rs);
      SavedMeans(h, pool, p.0, p.1, rs.value);
    }
  }

  /** A fetch that finds its page on disk, by its parts. */
  lemma FetchPuts(h: Home, pool: Pool, l: Ledger, e: Event)
    requires e.Fetch? && e.Key() !in pool.cache && e.Page() !in l.marks
    ensures var (status, now) := Step(h, pool, e);
      if status != OK then now == pool && LedgerStep(l, e, status) == l
      else
        var found := DiskPage(h, pool, e.table, e.id);
        && found.Loaded? && now == Put(pool, e.Key(), CachedPage(found.value, false), e.victim)
        && LedgerStep(l, e, OK) == LedgerStep(l, Fetch(e.table, e.id, false, e.victim), OK)
        && LedgerStep(l, e, OK).marks == Room(l.marks, e.Page(), e.victim)[e.Page() := false]
  {
    hide CacheKey, DiskPage, Put, Room;
  }

  lemma FetchTracked(h: Home, pool: Pool, l: Ledger, e: Event)
    requires e.Fetch? && Tracks(h, pool, l) && Sane(h, pool, l, e)
    ensures Tracks(h, Step(h, pool, e).1, LedgerStep(l, e, Step(h, pool, e).0))
  {
    hide PageTracked, CacheKey, Codec.Lawful, DiskPage, Put, Room, KeysTracked, LedgerStep, EntryChanges, NeedsRoom;
    var p := e.Page();
    EntryIffMark(h, pool, l, p);
    if p !in l.marks {
      FetchPuts(h, pool, l, e);
      if Step(h, pool, e).0 == OK {
        assert PageTracked(h, pool, l, p.0, p.1);
        FetchedEntry(h, pool, l, p, e.victim);
        PutTracked(h, pool, l, LedgerStep(l, e, OK), p, CachedPage(DiskPage(h, pool, p.0, p.1).value, false), e.victim);
      }
    } else {
      FetchCached(h, pool, l, e);
    }
  }

  lemma FetchCached(h: Home, pool: Pool, l: Ledger, e: Event)
    requires e.Fetch? && e.Key() in pool.cache && e.Page() in l.marks
    ensures Step(h, pool, e).1 == pool && LedgerStep(l, e, Step(h, pool, e).0) == l
  {
    hide CacheKey, DiskPage, Put, Room;
  }

  lemma ChangeTracked(h: Home, pool: Pool, l: Ledger, e: Event)
    requires e.Change? && Tracks(h, pool, l) && Sane(h, pool, l, e)
    ensures Tracks(h, Step(h, pool, e).1, LedgerStep(l, e, Step(h, pool, e).0))
  {
    hide Saved, Live, CacheKey, Codec.Lawful, Writable, ListExec, PageExec, KeysTracked;
    var p := e.Page();
    assert PageTracked(h, pool, l, p.0, p.1);
    if p in l.marks {
      var was := pool.cache[e.Key()];
      PageExecOnLive(was, e.op);
      MarkAfter(was, e.op);
      var l' := LedgerStep(l, e, PageExec(was, e.op).0);
      assert l'.marks == l.marks[p := PageExec(was, e.op).1.dirty];
      SetTracked(h, pool, l, l', p, PageExec(was, e.op).1);
    }
  }

  lemma MarkAfter(c: CachedPage, op: PageOp)
    ensures PageExec(c, op).0 == OK ==> PageExec(c, op).1.dirty == !op.CompactPage?
    ensures PageExec(c, op).0 != OK ==> PageExec(c, op).1 == c
  {
  }

  /** A write of a page to its slot: saved, torn, or as before; every other slot as before. */
  lemma WriteTracked(h: Home, pool: Pool, l: Ledger, p: PageName, io: Io, t: string, i: nat)
    requires Tracks(h, pool, l) && p in l.marks
    requires CacheKey(p.0, p.1) in pool.cache
    ensures var page := pool.cache[CacheKey(p.0, p.1)].page;
      var status, now := WriteStatus(h, page, io), PageWritten(h, pool, p.0, page, io);
      && ((t, i) != p && (t, i) !in l.torn ==> Saved(h, now, t, i, Lookup(l.durable, (t, i))))
      && ((t, i) == p && status == OK && p in l.store ==> Saved(h, now, t, i, Some(l.store[p])))
      && ((t, i) == p && status != OK && !(io.FailedAfter? && io.m > 0 && status == IO_ERROR) && p !in l.torn ==>
            Saved(h, now, t, i, Lookup(l.durable, p)))
  {
    hide Saved, Writable, Live, CacheKey, PageWritten, WriteStatus, Codec.Lawful, KeysTracked;
    assert PageTracked(h, pool, l, p.0, p.1) && PageTracked(h, pool, l, t, i);
    var page := pool.cache[CacheKey(p.0, p.1)].page;
    if (t, i) != p {
      if (t, i) !in l.torn {
        OtherPageStaysSaved(h, pool, p.0, page, io, t, i, Lookup(l.durable, (t, i)));
      }
    } else if WriteStatus(h, page, io) == OK {
      if p in l.store {
        StatusOk(h, page, io);
        WritableId(page, p.1);
        WrittenPageIsSaved(h, pool, p.0, page);
      }
    } else if !(io.FailedAfter? && io.m > 0 && WriteStatus(h, page, io) == IO_ERROR) {
      NothingReached(h, pool, p.0, page, io);
      if p !in l.torn {
        SavedIsOfFile(h, pool, PageWritten(h, pool, p.0, page, io), t, i, Lookup(l.durable, p));
      }
    }
  }

  lemma WritableId(page: PageVal, id: nat)
    requires Writable(page, id)
    ensures page.id == id && Writable(page, page.id)
  {
  }

  /** A write that stopped before its first byte leaves the file as it was. */
  lemma NothingReached(h: Home, pool: Pool, table: string, page: PageVal, io: Io)
    requires WriteStatus(h, page, io) != OK
    requires !(io.FailedAfter? && io.m > 0 && WriteStatus(h, page, io) == IO_ERROR)
    ensures FileOf(h, PageWritten(h, pool, table, page, io), table) == FileOf(h, pool, table)
  {
    hide PageFilePath, PageText, SlotOffset, SlotImage;
  }

  lemma SavedIsOfFile(h: Home, a: Pool, b: Pool, table: string, id: nat, rs: Option<seq<Record>>)
    requires FileOf(h, a, table) == FileOf(h, b, table)
    ensures Saved(h, a, table, id, rs) == Saved(h, b, table, id, rs)
  {
    hide Holding, PageText, Writable, Live, FileOf;
  }

  lemma FlushTracked(h: Home, pool: Pool, l: Ledger, p: PageName, io: Io)
    requires Tracks(h, pool, l)
    ensures var (status, now) := Flushed(h, pool, p.0, p.1, io);
      && Tracks(h, now, Flushing(l, p, io, status))
      && (p in l.marks <==> status != NOT_FOUND)
  {
    hide Saved, Writable, Live, CacheKey, PageWritten, WriteStatus, Codec.Lawful;
    var key := CacheKey(p.0, p.1);
    var (status, now) := Flushed(h, pool, p.0, p.1, io);
    var l' := Flushing(l, p, io, status);
    EntryIffMark(h, pool, l, p);
    assert PageTracked(h, pool, l, p.0, p.1);
    if p in l.marks && l.marks[p] {
      FlushChangesFiles(h, pool, p.0, pool.cache[key].page, io);
      NotNotFound(h, pool.cache[key].page, io);
      forall t, i: nat
        ensures PageTracked(h, now, l', t, i)
      {
        FlushedTracked(h, pool, l, p, io, t, i);
      }
      KeysAfterFlush(pool, now, l, l');
    }
  }

  lemma FlushedTracked(h: Home, pool: Pool, l: Ledger, p: PageName, io: Io, t: string, i: nat)
    requires Tracks(h, pool, l) && p in l.marks && l.marks[p]
    ensures var (status, now) := Flushed(h, pool, p.0, p.1, io);
      PageTracked(h, now, Flushing(l, p, io, status), t, i)
  {
    hide Saved, Writable, Live, CacheKey, PageWritten, WriteStatus, Codec.Lawful, KeysTracked;
    var (status, now) := Flushed(h, pool, p.0, p.1, io);
    var l' := Flushing(l, p, io, status);
    assert PageTracked(h, pool, l, p.0, p.1) && PageTracked(h, pool, l, t, i);
    var page := pool.cache[CacheKey(p.0, p.1)].page;
    FlushChangesFiles(h, pool, p.0, page, io);
    WriteTracked(h, pool, l, p, io, t, i);
    SavedIsOfFiles(h, PageWritten(h, pool, p.0, page, io), now, t, i, Lookup(l'.durable, (t, i)));
    if (t, i) != p {
      KeyOfOther(t, i, p.0, p.1);
    }
  }

  lemma NotNotFound(h: Home, page: PageVal, io: Io)
    ensures WriteStatus(h, page, io) != NOT_FOUND
  {
  }

  lemma KeysAfterFlush(pool: Pool, now: Pool, l: Ledger, l': Ledger)
    requires KeysTracked(pool, l)
    requires now.cache.Keys == pool.cache.Keys && l'.marks.Keys == l.marks.Keys
    ensures KeysTracked(now, l')
  {
    hide CacheKey;
    assert |now.cache| == |now.cache.Keys| && |l'.marks| == |l'.marks.Keys|;
    assert |pool.cache| == |pool.cache.Keys| && |l.marks| == |l.marks.Keys|;
    forall key | key in now.cache
      ensures exists p :: p in l'.marks && CacheKey(p.0, p.1) == key
    {
      assert key in pool.cache.Keys;
      var p :| p in l.marks && CacheKey(p.0, p.1) == key;
      assert p in l'.marks.Keys;
    }
  }

  lemma EvictTracked(h: Home, pool: Pool, l: Ledger, e: Event)
    requires e.Evict? && Tracks(h, pool, l)
    ensures Tracks(h, Step(h, pool, e).1, LedgerStep(l, e, Step(h, pool, e).0))
  {
    hide Tracks, CacheKey, Flushed, Flushing, Codec.Lawful;
    var p := e.Page();
    EntryIffMark(h, pool, l, p);
    FlushTracked(h, pool, l, p, e.io);
    var (status, now) := Flushed(h, pool, p.0, p.1, e.io);
    var flushed := Flushing(l, p, e.io, status);
    if status == OK {
      EntryIffMark(h, now, flushed, p);
      FlushKeepsMarks(l, p, e.io, status);
      var v := DropTracked(h, now, flushed, CacheKey(p.0, p.1));
      SameKeySamePage(v, p);
    } else {
      FlushKeepsMarks(l, p, e.io, status);
    }
  }

  lemma SameKeySamePage(p: PageName, q: PageName)
    requires CacheKey(p.0, p.1) == CacheKey(q.0, q.1)
    ensures p == q
  {
    CacheKeyInjective(p.0, p.1, q.0, q.1);
  }

  lemma FlushKeepsMarks(l: Ledger, p: PageName, io: Io, status: Status)
    ensures Flushing(l, p, io, status).marks.Keys == l.marks.Keys
    ensures p !in l.marks ==> Flushing(l, p, io, OK) == l == l.(marks := l.marks - {p}) == Flushing(l, p, io, status)
  {
    assert p !in l.marks ==> l.marks - {p} == l.marks;
  }

  /** Every step keeps the ledger true, dirty pages compacted or forced out included. */
  lemma StepTracked(h: Home, pool: Pool, l: Ledger, e: Event)
    requires Tracks(h, pool, l) && Sane(h, pool, l, e)
    ensures Tracks(h, Step(h, pool, e).1, LedgerStep(l, e, Step(h, pool, e).0))
  {
    match e {
      case Fetch(_, _, _, _) => FetchTracked(h, pool, l, e);
      case Adopt(table, page, dirty, victim) =>
        hide Tracks, CacheKey, Live, Put, Room;
        PutTracked(h, pool, l, LedgerStep(l, e, OK), e.Page(), CachedPage(page, dirty), victim);
      case Change(_, _, _) => ChangeTracked(h, pool, l, e);
      case Flush(_, _, io) =>
        hide Tracks, CacheKey, Flushed, Flushing;
        FlushTracked(h, pool, l, e.Page(), io);
      case Evict(_, _, _) => EvictTracked(h, pool, l, e);
    }
  }

  // ---------------------------------------------------------------------------
  //  Runs
  // ---------------------------------------------------------------------------

  function LedgerRun(h: Home, pool: Pool, l: Ledger, es: seq<Event>): (Pool, Ledger)
    decreases |es|
  {
    if es == [] then (pool, l)
    else
      var (p, before), e := LedgerRun(h, pool, l, es[..|es| - 1]), es[|es| - 1];
      var (status, now) := Step(h, p, e);
      (now, LedgerStep(before, e, status))
  }

  ghost predicate SaneRun(h: Home, pool: Pool, l: Ledger, es: seq<Event>)
    decreases |es|
  {
    if es == [] then true
    else
      var (p, before) := LedgerRun(h, pool, l, es[..|es| - 1]);
      SaneRun(h, pool, l, es[..|es| - 1]) && Sane(h, p, before, es[|es| - 1])
  }

  /** The page reads as something the ledger knows: its entry is in the store, or its slot is whole. */
  predicate Known(l: Ledger, p: PageName) {
    if p in l.marks then p in l.store else p !in l.torn
  }

  function Reads(l: Ledger, p: PageName): Option<seq<Record>> {
    if p in l.marks then Lookup(l.store, p) else Lookup(l.durable, p)
  }

  /**
   * Over any run, with dirty pages compacted and any page forced out, with failing reads and
   * writes: every cached page reads as what was last put into it, every other one as its last
   * successful write.  Nothing is said of a page only if its last write stopped half-way and it
   * has left the cache since; every other page's reading is told in spite of it.
   */
  lemma {:induction false} LedgerTellsAll(h: Home, pool: Pool, l: Ledger, es: seq<Event>)
    requires Tracks(h, pool, l) && SaneRun(h, pool, l, es)
    ensures var (now, l') := LedgerRun(h, pool, l, es);
      && Tracks(h, now, l')
      && forall t, i: nat :: Known(l', (t, i)) ==> View(h, now, t, i) == Reads(l', (t, i))
    decreases |es|
  {
    hide Tracks, Step, LedgerStep, Sane, Known, View, Reads;
    if es != [] {
      var n := |es| - 1;
      LedgerTellsAll(h, pool, l, es[..n]);
      var (p, before) := LedgerRun(h, pool, l, es[..n]);
      StepTracked(h, p, before, es[n]);
    }
    var (now, l') := LedgerRun(h, pool, l, es);
    forall t, i: nat | Known(l', (t, i))
      ensures View(h, now, t, i) == Reads(l', (t, i))
    {
      KnownView(h, now, l', t, i);
    }
  }

  lemma KnownView(h: Home, pool: Pool, l: Ledger, t: string, i: nat)
    requires Tracks(h, pool, l) && Known(l, (t, i))
    ensures View(h, pool, t, i) == Reads(l, (t, i))
  {
    hide PageTracked, View, Codec.Lawful;
    assert PageTracked(h, pool, l, t, i);
    TrackedView(h, pool, l, t, i);
  }

  /** From nothing, every page reads as what was last put into it exactly if it is cached or that was written. */
  lemma ReadsLastPutIff(h: Home, es: seq<Event>, t: string, i: nat)
    requires h.codec.Lawful() && SaneRun(h, Pool(map[], map[]), BLANK, es)
    requires Known(LedgerRun(h, Pool(map[], map[]), BLANK, es).1, (t, i))
    ensures var (pool, l) := LedgerRun(h, Pool(map[], map[]), BLANK, es);
      (View(h, pool, t, i) == Lookup(l.store, (t, i)))
        <==> ((t, i) in l.marks || Lookup(l.durable, (t, i)) == Lookup(l.store, (t, i)))
  {
    hide Tracks, View, LedgerRun, SaneRun, Known, Codec.Lawful;
    BlankTracks(h);
    LedgerTellsAll(h, Pool(map[], map[]), BLANK, es);
  }

  lemma BlankTracks(h: Home)
    requires h.codec.Lawful()
    ensures Tracks(h, Pool(map[], map[]), BLANK)
  {
    hide CacheKey, SlotOffset, PageFilePath, Codec.Lawful;
  }

  // ---------------------------------------------------------------------------
  //  Leaving the cache
  // ---------------------------------------------------------------------------

  /**
   * An eviction that returns OK leaves the page reading as before exactly if it was marked, and
   * so was written, or if its last successful write had what is in it.
   */
  lemma EvictedViewIff(h: Home, pool: Pool, l: Ledger, p: PageName, io: Io)
    requires Tracks(h, pool, l) && p in l.marks && p in l.store && (l.marks[p] || p !in l.torn)
    requires Evicted(h, pool, p.0, p.1, io).0 == OK
    ensures View(h, Evicted(h, pool, p.0, p.1, io).1, p.0, p.1) == View(h, pool, p.0, p.1)
      <==> l.marks[p] || Lookup(l.durable, p) == Some(l.store[p])
  {
    hide Tracks, View, Evicted;
    var e := Evict(p.0, p.1, io);
    StepTracked(h, pool, l, e);
    var now, l' := Step(h, pool, e).1, LedgerStep(l, e, OK);
    KnownView(h, pool, l, p.0, p.1);
    KnownView(h, now, l', p.0, p.1);
  }

  lemma Stored(h: Home, pool: Pool, l: Ledger, p: PageName)
    requires Tracks(h, pool, l)
    ensures p in l.marks && p !in l.torn ==> p in l.store
  {
    assert PageTracked(h, pool, l, p.0, p.1);
  }

  /**
   * A fetch or an adoption in a full cache forces some page out, and that page reads as before
   * exactly if its last successful write had what is in it.  No other page's reading changes.
   */
  lemma ForcedOutViewIff(h: Home, pool: Pool, l: Ledger, e: Event, v: PageName)
    requires Tracks(h, pool, l) && Sane(h, pool, l, e) && NeedsRoom(pool, e.Key())
    requires e.Adopt? || (e.Fetch? && Step(h, pool, e).0 == OK)
    requires v in l.marks && CacheKey(v.0, v.1) == e.victim && v !in l.torn
    ensures var now := Step(h, pool, e).1;
      && v in l.store
      && e.victim !in now.cache
      && (View(h, now, v.0, v.1) == View(h, pool, v.0, v.1) <==> Lookup(l.durable, v) == Some(l.store[v]))
      && forall t, i: nat :: (t, i) != v && (t, i) != e.Page() && Known(l, (t, i)) ==>
           View(h, now, t, i) == View(h, pool, t, i)
  {
    hide Tracks, View, Put, Live, NeedsRoom, CacheKey, Step;
    var now, l' := Step(h, pool, e).1, LedgerStep(l, e, Step(h, pool, e).0);
    Stored(h, pool, l, v);
    StepTracked(h, pool, l, e);
    ForcedMarks(h, pool, l, e, v);
    EntryIffMark(h, now, l', v);
    KnownView(h, pool, l, v.0, v.1);
    KnownView(h, now, l', v.0, v.1);
    forall t, i: nat | (t, i) != v && (t, i) != e.Page() && Known(l, (t, i))
      ensures View(h, now, t, i) == View(h, pool, t, i)
    {
      KnownView(h, pool, l, t, i);
      KnownView(h, now, l', t, i);
    }
  }

  lemma ForcedMarks(h: Home, pool: Pool, l: Ledger, e: Event, v: PageName)
    requires Tracks(h, pool, l) && NeedsRoom(pool, e.Key())
    requires e.Adopt? || (e.Fetch? && Step(h, pool, e).0 == OK)
    requires v in l.marks && CacheKey(v.0, v.1) == e.victim
    ensures var l' := LedgerStep(l, e, Step(h, pool, e).0);
      && e.Page() !in l.marks && e.Page() != v
      && l'.marks.Keys == l.marks.Keys - {v} + {e.Page()}
      && l'.durable == l.durable && l'.torn == l.torn
      && forall q :: q != e.Page() ==> Lookup(l'.store, q) == Lookup(l.store, q)
  {
    hide PageTracked, CacheKey, Step, Live;
    EntryIffMark(h, pool, l, e.Page());
    forall q | q in l.marks
      ensures CacheKey(q.0, q.1) != e.victim <==> q != v
    {
      if q != v {
        KeyOfOther(q.0, q.1, v.0, v.1);
      }
    }
  }

  /**
   * Compacting a page and evicting it returns OK and writes nothing; the page reads as before
   * exactly if its last successful write had what is in it.
   */
  lemma CompactThenEvictIff(h: Home, pool: Pool, l: Ledger, p: PageName, io: Io)
    requires Tracks(h, pool, l) && p in l.marks && p !in l.torn
    ensures p in l.store
    ensures var compacted := Step(h, pool, Change(p.0, p.1, CompactPage)).1;
      var (status, now) := Evicted(h, compacted, p.0, p.1, io);
      && status == OK && now.files == pool.files
      && (View(h, now, p.0, p.1) == View(h, pool, p.0, p.1) <==> Lookup(l.durable, p) == Some(l.store[p]))
  {
    hide CacheKey, View, DiskView, PageExec, Evicted, Live, Codec.Lawful;
    assert PageTracked(h, pool, l, p.0, p.1);
    CompactThenEvictDrops(h, pool, p.0, p.1, io);
    TrackedView(h, pool, l, p.0, p.1);
  }

  // ---- One page too many

  /** So many pages of one record each, adopted dirty one after the other; whenever there is no room, page 0 goes. */
  function Adoptions(table: string, r: Record, n: nat): (es: seq<Event>)
    ensures |es| == n
  {
    seq(n, i requires 0 <= i < n => Adopt(table, PageVal(i, [r]), true, CacheKey(table, 0)))
  }

  /** The ledger after the first adoptions, while there is room. */
  function Adopted(table: string, r: Record, n: nat): (l: Ledger)
    ensures |l.marks| == n
    ensures forall i: nat :: (table, i) in l.marks <==> i < n
    ensures forall i: nat | i < n :: Lookup(l.store, (table, i)) == Some([r])
    ensures l.durable == map[] && l.torn == {}
    decreases n, table
  {
    if n == 0 then BLANK
    else
      var l, p := Adopted(table, r, n - 1), (table, n - 1);
      Ledger(l.store[p := [r]], map[], l.marks[p := true], {})
  }

  lemma {:induction false} AdoptionsFill(h: Home, table: string, r: Record, n: nat)
    requires h.codec.Lawful() && !r.deleted && r.id < INT_LIMIT && n <= CACHE_CAPACITY
    ensures SaneRun(h, Pool(map[], map[]), BLANK, Adoptions(table, r, n))
    ensures LedgerRun(h, Pool(map[], map[]), BLANK, Adoptions(table, r, n)).1 == Adopted(table, r, n)
    ensures LedgerRun(h, Pool(map[], map[]), BLANK, Adoptions(table, r, n)).0.files == map[]
    decreases n
  {
    hide CacheKey, Codec.Lawful, Live, Put;
    var empty := Pool(map[], map[]);
    if n == 0 {
    } else {
      AdoptionsFill(h, table, r, n - 1);
      assert Adoptions(table, r, n)[..n - 1] == Adoptions(table, r, n - 1);
      NextAdoption(h, table, r, n - 1);
    }
  }

  lemma NextAdoption(h: Home, table: string, r: Record, n: nat)
    requires h.codec.Lawful() && !r.deleted && r.id < INT_LIMIT && n <= CACHE_CAPACITY
    requires SaneRun(h, Pool(map[], map[]), BLANK, Adoptions(table, r, n))
    requires LedgerRun(h, Pool(map[], map[]), BLANK, Adoptions(table, r, n)).1 == Adopted(table, r, n)
    ensures var (pool, l) := LedgerRun(h, Pool(map[], map[]), BLANK, Adoptions(table, r, n));
      var e := Adopt(table, PageVal(n, [r]), true, CacheKey(table, 0));
      && Sane(h, pool, l, e)
      && (n < CACHE_CAPACITY ==> LedgerStep(l, e, OK) == Adopted(table, r, n + 1))
      && (n == CACHE_CAPACITY ==> NeedsRoom(pool, e.Key()))
      && Step(h, pool, e).0 == OK && Step(h, pool, e).1.files == pool.files
  {
    hide CacheKey, Codec.Lawful, Live, LedgerRun, SaneRun, Tracks, Adopted, LedgerStep, View, Reads, Known;
    var (pool, l) := LedgerRun(h, Pool(map[], map[]), BLANK, Adoptions(table, r, n));
    BlankTracks(h);
    LedgerTellsAll(h, Pool(map[], map[]), BLANK, Adoptions(table, r, n));
    OneLiveRecord(r);
    EntryIffMark(h, pool, l, (table, n));
    EntryIffMark(h, pool, l, (table, 0));
    if n < CACHE_CAPACITY {
      AdoptedStep(table, r, n);
    }
  }

  lemma AdoptedStep(table: string, r: Record, n: nat)
    requires !r.deleted && n < CACHE_CAPACITY
    ensures LedgerStep(Adopted(table, r, n), Adopt(table, PageVal(n, [r]), true, CacheKey(table, 0)), OK)
         == Adopted(table, r, n + 1)
  {
    hide CacheKey, Live;
    OneLiveRecord(r);
  }

  /** The 129th dirty page forces the first one out: every call returned OK, and its record is gone. */
  lemma OnePageTooMany(h: Home, table: string, r: Record)
    requires h.codec.Lawful() && !r.deleted && r.id < INT_LIMIT
    ensures var es := Adoptions(table, r, 129);
      var (pool, l) := LedgerRun(h, Pool(map[], map[]), BLANK, es);
      && SaneRun(h, Pool(map[], map[]), BLANK, es)
      && Lookup(l.store, (table, 0)) == Some([r])
      && View(h, pool, table, 0) == None
  {
    hide CacheKey, Codec.Lawful, Live, View, Step, Sane, Tracks, Adopted, LedgerStep, NeedsRoom;
    var n, empty := CACHE_CAPACITY, Pool(map[], map[]);
    var es := Adoptions(table, r, n + 1);
    AdoptionsFill(h, table, r, n);
    NextAdoption(h, table, r, n);
    assert es[..n] == Adoptions(table, r, n);
    var (pool, l) := LedgerRun(h, empty, BLANK, es[..n]);
    BlankTracks(h);
    LedgerTellsAll(h, empty, BLANK, es[..n]);
    ForcedMarks(h, pool, l, es[n], (table, 0));
    LedgerTellsAll(h, empty, BLANK, es);
    KnownView(h, LedgerRun(h, empty, BLANK, es).0, LedgerRun(h, empty, BLANK, es).1, table, 0);
  }
}
