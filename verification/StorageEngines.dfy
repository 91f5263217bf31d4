/** The storage engine: page files behind a cache of pages, proved against the pool's operations. */
module StorageEngines {
  import opened BufferPool
  import opened Bytes
  import opened Common
  import opened Files
  import opened JsonForms
  import opened PoolRuns
  import opened Slots
  import opened Tables
  import opened TableStore

  class StorageEngine {
    const home: Home
    const reliable: bool   // no file operation fails
    var files: map<string, seq<byte>>
    var cache: map<string, CachedPage>

    ghost predicate Valid()
      reads this
    {
      forall path <- files :: |files[path]| <= MAX_FILE_SIZE
    }

    ghost function State(): Pool
      reads this
    {
      Pool(files, cache)
    }

    constructor (home: Home, files: map<string, seq<byte>>, reliable: bool)
      requires forall path <- files :: |files[path]| <= MAX_FILE_SIZE
      ensures Valid() && this.home == home && this.reliable == reliable && State() == Pool(files, map[])
    {
      this.home, this.reliable := home, reliable;
      this.files := files;
      this.cache := map[];
    }

    method WritePage(table: string, page: PageVal) returns (status: Status)
      requires Valid()
      modifies `files
      ensures Valid()
      ensures exists io ::
        && status == WriteStatus(home, page, io) && State() == PageWritten(home, old(State()), table, page, io)
        && (reliable && SlotFits(page.id, PAGE_SIZE) ==> io == Done)
    {
      hide SlotImage, SlotOffset, Spliced, Holding, PageText, PageFilePath, Slots.Written;
      var path, text := PageFilePath(home.directory, table), PageText(home, page);
      if |text| + 4 > PAGE_SIZE {
        assert PageWritten(home, State(), table, page, Done) == State();
        return OUT_OF_MEMORY;
      }
      ghost var was := State();
      var file := new File(if path in files then files[path] else [], reliable);
      status := WriteSlot(file, page.id, PAGE_SIZE, text);
      files := files[path := file.bytes];
      if status == OK {
        assert State() == PageWritten(home, was, table, page, Done);
      } else {
        ghost var m :| file.bytes == Slots.Written(FileOf(home, was, table), PAGE_SIZE, FailedWrite(page.id, text, m));
        assert State() == PageWritten(home, was, table, page, FailedAfter(m));
      }
    }

    /** What the slot says, or, if the file fails, that there is no such page or an error. */
    method ReadPageFromDisk(table: string, id: nat) returns (r: Parsed<PageVal>)
      requires Valid()
      ensures r == DiskPage(home, State(), table, id) || r == Rejected(NOT_FOUND) || r == Rejected(IO_ERROR)
      ensures reliable ==> r == DiskPage(home, State(), table, id)
    {
      hide SlotContents, PageOfText, PageFilePath;
      var path := PageFilePath(home.directory, table);
      var file := new File(if path in files then files[path] else [], reliable);
      var status, text := ReadSlot(file, id, PAGE_SIZE);
      r := if status != OK then Rejected(status) else PageOfText(home, text);
    }

    method PutPage(key: string, c: CachedPage) returns (ghost victim: string)
      modifies `cache
      ensures NeedsRoom(old(State()), key) ==> victim in old(cache)
      ensures State() == Put(old(State()), key, c, victim)
      ensures key in cache && cache[key] == c && |cache| <= if |old(cache)| > 128 then |old(cache)| else 128
      ensures forall k <- old(cache) :: k != key && k != victim ==> k in cache && cache[k] == old(cache)[k]
    {
      victim := [];
      if key !in cache && |cache| >= CACHE_CAPACITY {
        assert cache.Keys != {};
        var oldest :| oldest in cache.Keys;
        victim := oldest;
        cache := cache - {oldest};
      }
      cache := cache[key := c];
    }

    method FetchPage(table: string, id: nat) returns (found: Option<PageVal>)
      requires Valid()
      modifies `cache
      ensures Valid()
      ensures exists fails, victim ::
        && (NeedsRoom(old(State()), CacheKey(table, id)) ==> victim in old(cache))
        && (found, State()) == Fetched(home, old(State()), table, id, fails, victim)
        && (reliable ==> !fails)
      ensures var key := CacheKey(table, id);
        && (key in old(cache) ==> found == Some(old(cache)[key].page) && cache == old(cache))
        && (found.Some? ==> key in cache && cache[key].page == found.value)
        && (found.Some? && key !in old(cache) ==> !cache[key].dirty)
        && (found.None? ==> cache == old(cache))
    {
      hide CacheKey, DiskPage, Put;
      ghost var was := State();
      var key := CacheKey(table, id);
      if key in cache {
        ghost var any: string := if NeedsRoom(was, key) then key else [];
        assert (Some(cache[key].page), State()) == Fetched(home, was, table, id, false, any);
        return Some(cache[key].page);
      }
      var loaded := ReadPageFromDisk(table, id);
      ghost var fails := loaded != DiskPage(home, was, table, id);
      if !loaded.Loaded? {
        ghost var any := SomeEntry(was);
        assert (None, State()) == Fetched(home, was, table, id, fails, any);
        return None;
      }
      ghost var victim := PutPage(key, CachedPage(loaded.value, false));
      found := Some(loaded.value);
      assert (found, State()) == Fetched(home, was, table, id, false, victim);
    }

    method CachePage(table: string, page: PageVal, dirty: bool)
      requires Valid()
      modifies `cache
      ensures Valid()
      ensures exists victim ::
        && (NeedsRoom(old(State()), CacheKey(table, page.id)) ==> victim in old(cache))
        && State() == Step(home, old(State()), Adopt(table, page, dirty, victim)).1
      ensures CacheKey(table, page.id) in cache && cache[CacheKey(table, page.id)] == CachedPage(page, dirty)
    {
      hide CacheKey, Put;
      ghost var was := State();
      ghost var victim := PutPage(CacheKey(table, page.id), CachedPage(page, dirty));
      assert State() == Step(home, was, Adopt(table, page, dirty, victim)).1;
    }

    /**
     * What a holder of the cached page does through its pointer, by the page's own methods: its
     * live records change as a list does, and no other page reads differently.
     */
    method ChangePage(table: string, id: nat, op: PageOp) returns (status: Status)
      requires Valid()
      modifies `cache
      ensures Valid()
      ensures (status, State()) == Step(home, old(State()), Change(table, id, op))
      ensures var key := CacheKey(table, id);
        && (key !in old(cache) ==> status == NOT_FOUND && State() == old(State()))
        && (key in old(cache) ==>
              var live := Live(old(cache)[key].page.records);
              View(home, State(), table, id) == Some(if status == OK then ListExec(live, op) else live))
      ensures forall t, i: nat :: (t, i) != (table, id) ==> View(home, State(), t, i) == View(home, old(State()), t, i)
    {
      hide CacheKey, PageExec, Live, Slot, ListExec, DiskView;
      var key := CacheKey(table, id);
      if key !in cache {
        return NOT_FOUND;
      }
      ghost var was, c := State(), cache[key];
      var page := new Page(cache[key].page.id);
      page.records, page.dirty := cache[key].page.records, cache[key].dirty;
      status := ApplyTo(page, op, c);
      cache := cache[key := CachedPage(page.Value(), page.dirty)];
      PageExecOnLive(c, op);
      forall t, i: nat | (t, i) != (table, id)
        ensures View(home, State(), t, i) == View(home, was, t, i)
      {
        KeyOfOther(table, id, t, i);
        SavedIsOfFiles(home, was, State(), t, i, None);
      }
    }

    method IsCached(table: string, id: nat) returns (cached: bool)
      ensures cached <==> Flushed(home, State(), table, id, Done).0 != NOT_FOUND
      ensures cached ==> forall fails, victim ::
        Fetched(home, State(), table, id, fails, victim).0.Some? && Fetched(home, State(), table, id, fails, victim).1 == State()
      ensures !cached ==> forall io :: Evicted(home, State(), table, id, io) == (OK, State())
    {
      hide CacheKey;
      cached := CacheKey(table, id) in cache;
    }

    method FlushPage(table: string, id: nat) returns (status: Status)
      requires Valid()
      modifies this
      ensures Valid()
      ensures exists io ::
        && (status, State()) == Flushed(home, old(State()), table, id, io)
        && (reliable && CachedFits(old(State()), CacheKey(table, id)) ==> io == Done)
      ensures var key := CacheKey(table, id);
        && (status == NOT_FOUND <==> key !in old(cache))
        && (status == OK ==> key in old(cache) && cache == old(cache)[key := old(cache)[key].(dirty := false)])
        && (status != OK ==> cache == old(cache))
        && (key !in old(cache) ==> files == old(files))
        && (key in old(cache) && !old(cache)[key].dirty ==> status == OK && files == old(files))
    {
      hide CacheKey, PageWritten, WriteStatus;
      ghost var was := State();
      var key := CacheKey(table, id);
      if key !in cache {
        assert (NOT_FOUND, State()) == Flushed(home, was, table, id, Done);
        return NOT_FOUND;
      }
      if !cache[key].dirty {
        assert (OK, State()) == Flushed(home, was, table, id, Done);
        return OK;
      }
      status := WritePage(table, cache[key].page);
      assert status != NOT_FOUND by {
        NotNotFound(home, was.cache[key].page);
      }
      ghost var io :| status == WriteStatus(home, was.cache[key].page, io)
                      && State() == PageWritten(home, was, table, was.cache[key].page, io)
                      && (reliable && SlotFits(was.cache[key].page.id, PAGE_SIZE) ==> io == Done);
      if status == OK {
        cache := cache[key := cache[key].(dirty := false)];
      }
      assert (status, State()) == Flushed(home, was, table, id, io);
    }

    method EvictPage(table: string, id: nat) returns (status: Status)
      requires Valid()
      modifies this
      ensures Valid()
      ensures exists io ::
        && (status, State()) == Evicted(home, old(State()), table, id, io)
        && (reliable && CachedFits(old(State()), CacheKey(table, id)) ==> io == Done)
      ensures var key := CacheKey(table, id);
        && (key !in old(cache) ==> status == OK)
        && (status == OK ==> cache == old(cache) - {key})
        && (status != OK ==> cache == old(cache))
        && (key !in old(cache) || !old(cache)[key].dirty ==> status == OK && files == old(files))
    {
      hide CacheKey, Flushed;
      ghost var was := State();
      var flushed := FlushPage(table, id);
      ghost var io :| (flushed, State()) == Flushed(home, was, table, id, io)
                      && (reliable && CachedFits(was, CacheKey(table, id)) ==> io == Done);
      if flushed == OK {
        cache := cache - {CacheKey(table, id)};
      }
      assert flushed == OK ==> cache == was.cache - {CacheKey(table, id)};
      assert CacheKey(table, id) !in was.cache ==> was.cache - {CacheKey(table, id)} == was.cache;
      status := if flushed == NOT_FOUND then OK else flushed;
      assert (status, State()) == Evicted(home, was, table, id, io);
    }
  }

  lemma NotNotFound(h: Home, page: PageVal)
    ensures forall io :: WriteStatus(h, page, io) != NOT_FOUND
  {
  }

  /** The page's methods do what `PageExec` says. */
  method ApplyTo(page: Page, op: PageOp, ghost c: CachedPage) returns (status: Status)
    requires CachedPage(page.Value(), page.dirty) == c
    modifies page
    ensures (status, CachedPage(page.Value(), page.dirty)) == PageExec(c, op)
  {
    hide Live;
    match op {
      case AddRecord(r) => status := page.AddRecord(r);
      case UpdateRecord(r) => status := page.UpdateRecord(r);
      case DeleteRecord(id) => status := page.DeleteRecord(id);
      case CompactPage =>
        page.Compact();
        status := OK;
    }
  }

  ghost predicate CachedFits(pool: Pool, key: string) {
    key in pool.cache ==> SlotFits(pool.cache[key].page.id, PAGE_SIZE)
  }

  ghost function SomeEntry(pool: Pool): (key: string)
    ensures |pool.cache| >= CACHE_CAPACITY ==> key in pool.cache
  {
    if pool.cache == map[] then [] else var key :| key in pool.cache; key
  }
}
