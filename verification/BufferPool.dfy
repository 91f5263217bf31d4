/**
 * The buffer pool on values: a page cache in front of slot files, one file per table.
 *
 * What a page is worth to its readers, `View`, is its cached live records if it is cached
 * and its disk slot otherwise.
 */
module BufferPool {
  import opened Bytes
  import opened Codecs
  import opened Common
  import opened Files
  import opened JsonForms
  import opened Records
  import opened Slots
  import opened Tables

  const PAGE_SIZE := 4096
  const CACHE_CAPACITY := 128

  // ---------------------------------------------------------------------------
  //  Keys and paths
  // ---------------------------------------------------------------------------

  function Digit(n: nat): char
    requires n < 10
  {
    "0123456789"[n]
  }

  function ToDecimal(n: nat): (s: string)
    ensures s != []
  {
    if n < 10 then [Digit(n)] else ToDecimal(n / 10) + [Digit(n % 10)]
  }

  function CacheKey(table: string, id: nat): string {
    table + "#" + ToDecimal(id)
  }

  function PageFilePath(directory: string, table: string): string {
    directory + "/" + table + ".pages"
  }

  lemma DigitInjective(m: nat, n: nat)
    requires m < 10 && n < 10 && Digit(m) == Digit(n)
    ensures m == n
  {
  }

  lemma {:induction false} DecimalHasNoHash(n: nat)
    ensures '#' !in ToDecimal(n)
  {
    if n >= 10 {
      DecimalHasNoHash(n / 10);
    }
  }

  lemma DecimalLength(n: nat)
    ensures n < 10 <==> |ToDecimal(n)| == 1
  {
  }

  lemma {:induction false} DecimalInjective(m: nat, n: nat)
    requires ToDecimal(m) == ToDecimal(n)
    ensures m == n
  {
    var s := ToDecimal(m);
    DecimalLength(m);
    DecimalLength(n);
    if m < 10 {
      DigitInjective(m, n);
    } else {
      assert s[..|s| - 1] == ToDecimal(m / 10) == ToDecimal(n / 10);
      assert s[|s| - 1] == Digit(m % 10) == Digit(n % 10);
      DecimalInjective(m / 10, n / 10);
      DigitInjective(m % 10, n % 10);
    }
  }

  lemma HashPlace(a: string, x: string)
    requires '#' !in x
    ensures var s := a + "#" + x; s[|a|] == '#' && forall k :: |a| < k < |s| ==> s[k] != '#'
  {
    var s := a + "#" + x;
    forall k | |a| < k < |s|
      ensures s[k] != '#'
    {
      assert s[k] == x[k - |a| - 1];
    }
  }

  lemma LastHash(a: string, x: string, b: string, y: string)
    requires a + "#" + x == b + "#" + y
    requires '#' !in x && '#' !in y
    ensures a == b && x == y
  {
    var s := a + "#" + x;
    HashPlace(a, x);
    HashPlace(b, y);
    assert |a| == |b|;
    assert a == s[..|a|] == b;
    assert x == s[|a| + 1..] == y;
  }

  /** Different pages have different keys, whatever characters table names contain. */
  lemma CacheKeyInjective(table: string, id: nat, table': string, id': nat)
    requires CacheKey(table, id) == CacheKey(table', id')
    ensures table == table' && id == id'
  {
    DecimalHasNoHash(id);
    DecimalHasNoHash(id');
    LastHash(table, ToDecimal(id), table', ToDecimal(id'));
    DecimalInjective(id, id');
  }

  lemma PathInjective(directory: string, table: string, table': string)
    requires PageFilePath(directory, table) == PageFilePath(directory, table')
    ensures table == table'
  {
    var p, n := PageFilePath(directory, table), |directory| + 1;
    assert table == p[n..|p| - 6];
    assert table' == p[n..|p| - 6];
  }

  // ---------------------------------------------------------------------------
  //  The pool
  // ---------------------------------------------------------------------------

  datatype CachedPage = CachedPage(page: PageVal, dirty: bool)

  datatype Pool = Pool(files: map<string, seq<byte>>, cache: map<string, CachedPage>)

  /** A pool's fixed surroundings. */
  datatype Home = Home(directory: string, codec: Codec)

  function FileOf(h: Home, pool: Pool, table: string): seq<byte> {
    var path := PageFilePath(h.directory, table);
    if path in pool.files then pool.files[path] else []
  }

  /** What reading the page's slot gives. */
  function DiskPage(h: Home, pool: Pool, table: string, id: nat): Parsed<PageVal> {
    var (status, text) := SlotContents(FileOf(h, pool, table), id, PAGE_SIZE);
    if status == OK then PageOfText(h, text) else Rejected(status)
  }

  /** The page in a text; an exception on the way is a parse error. */
  function PageOfText(h: Home, text: seq<byte>): Parsed<PageVal> {
    match h.codec.parse(text)
    case None => Rejected(PARSE_ERROR)
    case Some(j) => if PageFromJson(j).Thrown? then Rejected(PARSE_ERROR) else PageFromJson(j)
  }

  function PageText(h: Home, page: PageVal): seq<byte> {
    h.codec.dump(PageToJson(page))
  }

  function DiskView(h: Home, pool: Pool, table: string, id: nat): Option<seq<Record>> {
    match DiskPage(h, pool, table, id) case Loaded(page) => Some(Live(page.records)) case _ => None
  }

  /** The live records that a reader of the page finds. */
  function View(h: Home, pool: Pool, table: string, id: nat): Option<seq<Record>> {
    var key := CacheKey(table, id);
    if key in pool.cache then Some(Live(pool.cache[key].page.records)) else DiskView(h, pool, table, id)
  }

  /** The page can be written out and read back: its ids fit the form's integers. */
  ghost predicate Writable(page: PageVal, id: nat) {
    page.id == id && id < INT_LIMIT && |page.records| <= MAX_RECORDS_PAGE && SmallIds(Live(page.records))
  }

  /** The slot of the page holds these live records, or nothing. */
  ghost predicate Saved(h: Home, pool: Pool, table: string, id: nat, rs: Option<seq<Record>>) {
    && (rs.Some? ==> Writable(PageVal(id, rs.value), id) && Live(rs.value) == rs.value)
    && Holding(FileOf(h, pool, table), PAGE_SIZE, SlotOffset(id, PAGE_SIZE),
               if rs.Some? then Some(PageText(h, PageVal(id, rs.value))) else None)
  }

  /** Not cached: the slot is whole.  Cached clean: the slot holds the page's live records. */
  ghost predicate PageOk(h: Home, pool: Pool, table: string, id: nat) {
    var key := CacheKey(table, id);
    if key !in pool.cache then exists rs :: Saved(h, pool, table, id, rs)
    else
      var c := pool.cache[key];
      Writable(c.page, id) && (c.dirty || Saved(h, pool, table, id, Some(Live(c.page.records))))
  }

  /** What the pool keeps; only a dirty page may have the remains of a failed write in its slot. */
  ghost predicate PoolOk(h: Home, pool: Pool) {
    && h.codec.Lawful()
    && (forall table, id :: PageOk(h, pool, table, id))
  }

  // ---------------------------------------------------------------------------
  //  Operations
  // ---------------------------------------------------------------------------

  /** How a write went: done, or failed after `m` bytes, none if the file could not be opened. */
  datatype Io = Done | FailedAfter(m: nat)

  function WriteOpOf(h: Home, page: PageVal, io: Io): WriteOp {
    match io
    case Done => Write(page.id, PageText(h, page))
    case FailedAfter(m) => FailedWrite(page.id, PageText(h, page), m)
  }

  /** Writing a page to its slot. */
  function PageWritten(h: Home, pool: Pool, table: string, page: PageVal, io: Io): Pool {
    if WriteStatus(h, page, io) == OUT_OF_MEMORY then pool
    else pool.(files := pool.files[PageFilePath(h.directory, table) :=
                              Written(FileOf(h, pool, table), PAGE_SIZE, WriteOpOf(h, page, io))])
  }

  function WriteStatus(h: Home, page: PageVal, io: Io): Status {
    if |PageText(h, page)| + 4 > PAGE_SIZE then OUT_OF_MEMORY else if io.Done? then OK else IO_ERROR
  }

  function Flushed(h: Home, pool: Pool, table: string, id: nat, io: Io): (Status, Pool) {
    var key := CacheKey(table, id);
    if key !in pool.cache then (NOT_FOUND, pool)
    else
      var c := pool.cache[key];
      if !c.dirty then (OK, pool)
      else
        var status, written := WriteStatus(h, c.page, io), PageWritten(h, pool, table, c.page, io);
        (status, if status == OK then written.(cache := pool.cache[key := CachedPage(c.page, false)]) else written)
  }

  function Dropped(pool: Pool, key: string): Pool {
    pool.(cache := pool.cache - {key})
  }

  function Evicted(h: Home, pool: Pool, table: string, id: nat, io: Io): (Status, Pool) {
    var (status, flushed) := Flushed(h, pool, table, id, io);
    if status == NOT_FOUND then (OK, flushed)
    else if status != OK then (status, flushed)
    else (OK, Dropped(flushed, CacheKey(table, id)))
  }

  /** The new entry does not fit: the cache drops one of its own choice, without flushing it. */
  predicate NeedsRoom(pool: Pool, key: string) {
    key !in pool.cache && |pool.cache| >= CACHE_CAPACITY
  }

  function Put(pool: Pool, key: string, c: CachedPage, victim: string): Pool {
    var room := if NeedsRoom(pool, key) then Dropped(pool, victim) else pool;
    room.(cache := room.cache[key := c])
  }

  /** A read that fails finds no page. */
  function Fetched(h: Home, pool: Pool, table: string, id: nat, fails: bool, victim: string): (Option<PageVal>, Pool) {
    var key := CacheKey(table, id);
    if key in pool.cache then (Some(pool.cache[key].page), pool)
    else if fails || !DiskPage(h, pool, table, id).Loaded? then (None, pool)
    else
      var page := DiskPage(h, pool, table, id).value;
      (Some(page), Put(pool, key, CachedPage(page, false), victim))
  }

  /** What the holder of a cached page may do to it. */
  datatype PageOp = AddRecord(r: Record) | UpdateRecord(r: Record) | DeleteRecord(id: nat) | CompactPage

  function PageExec(c: CachedPage, op: PageOp): (Status, CachedPage) {
    var rs := c.page.records;
    match op
    case AddRecord(r) =>
      if c.page.IsFull() then (OUT_OF_MEMORY, c)
      else (OK, CachedPage(PageVal(c.page.id, rs + [Record(r.id, r.data, false)]), true))
    case UpdateRecord(r) =>
      if Slot(rs, r.id) == |rs| then (NOT_FOUND, c)
      else (OK, CachedPage(PageVal(c.page.id, WithData(rs, r.id, r.data)), true))
    case DeleteRecord(id) =>
      if Slot(rs, id) == |rs| then (NOT_FOUND, c)
      else (OK, CachedPage(PageVal(c.page.id, WithDeleted(rs, id)), true))
    case CompactPage => (OK, CachedPage(PageVal(c.page.id, Live(rs)), false))
  }

  /**
   * A page on disk: page `id` of a table lies in the table's own file, 4096 bytes to a page, and a
   * text of more than 4092 bytes is refused.
   */
  lemma PageOnDisk(h: Home, pool: Pool, table: string, page: PageVal)
    ensures var status, now := WriteStatus(h, page, Done), PageWritten(h, pool, table, page, Done);
      && status == (if |PageText(h, page)| > 4092 then OUT_OF_MEMORY else OK)
      && (status == OUT_OF_MEMORY ==> now == pool)
      && now.cache == pool.cache
      && var path := h.directory + "/" + table + ".pages";
         && (forall p :: p != path ==> (p in now.files <==> p in pool.files))
         && (forall p <- pool.files :: p != path ==> now.files[p] == pool.files[p])
         && (status == OK ==>
               && path in now.files
               && now.files[path] ==
                    Written(if path in pool.files then pool.files[path] else [], 4096, Write(page.id, PageText(h, page))))
  {
    hide PageText, Written;
  }

  // ---------------------------------------------------------------------------
  //  Slots of pages
  // ---------------------------------------------------------------------------

  lemma {:induction false} LiveTwice(rs: seq<Record>)
    ensures Live(Live(rs)) == Live(rs)
    decreases |rs|
  {
    if rs != [] {
      var n := |rs| - 1;
      LiveTwice(rs[..n]);
      if !rs[n].deleted {
        assert Live(rs)[..|Live(rs)| - 1] == Live(rs[..n]);
      }
    }
  }

  /** The text of a page is that of its compaction. */
  lemma TextIsOfLive(h: Home, page: PageVal)
    ensures PageText(h, page) == PageText(h, PageVal(page.id, Live(page.records)))
  {
    LiveTwice(page.records);
  }

  /** A saved page reads back as exactly the records saved. */
  lemma SavedReads(h: Home, pool: Pool, table: string, id: nat, rs: Option<seq<Record>>)
    requires h.codec.Lawful() && Saved(h, pool, table, id, rs)
    ensures DiskPage(h, pool, table, id) == if rs.Some? then Loaded(PageVal(id, rs.value)) else Rejected(NOT_FOUND)
    ensures DiskView(h, pool, table, id) == rs
  {
    hide PageToJson, PageFromJson, SlotOffset, Holding, Live, SmallIds, ContentsAt, PageFilePath;
    var v := if rs.Some? then Some(PageText(h, PageVal(id, rs.value))) else None;
    ReadHolding(FileOf(h, pool, table), PAGE_SIZE, SlotOffset(id, PAGE_SIZE), v);
    if rs.Some? {
      PageRoundTrip(PageVal(id, rs.value));
    }
  }

  /** A page written in full is saved. */
  lemma WrittenPageIsSaved(h: Home, pool: Pool, table: string, page: PageVal)
    requires h.codec.Lawful() && Writable(page, page.id)
    requires WriteStatus(h, page, Done) == OK
    ensures Saved(h, PageWritten(h, pool, table, page, Done), table, page.id, Some(Live(page.records)))
  {
    hide PageToJson, SlotOffset, Spliced, SlotImage, Holding, Live, SmallIds, PageFilePath;
    var file := FileOf(h, pool, table);
    LiveTwice(page.records);
    LiveIsShorter(page.records);
    TextIsOfLive(h, page);
    WrittenSlotHolds(file, PAGE_SIZE, SlotOffset(page.id, PAGE_SIZE), PageText(h, page));
  }

  /** Writing one page, in whatever way it goes, leaves what is saved of every other page. */
  lemma OtherPageStaysSaved(h: Home, pool: Pool, table: string, page: PageVal, io: Io,
                            table': string, id': nat, rs: Option<seq<Record>>)
    requires (table, page.id) != (table', id')
    requires Saved(h, pool, table', id', rs)
    ensures Saved(h, PageWritten(h, pool, table, page, io), table', id', rs)
  {
    hide SlotOffset, Spliced, SlotImage, Holding, PageText, PageFilePath, Live, Writable, Written;
    var now := PageWritten(h, pool, table, page, io);
    var v := if rs.Some? then Some(PageText(h, PageVal(id', rs.value))) else None;
    if now == pool {
    } else if table == table' {
      OtherSlotKeeps(FileOf(h, pool, table), PAGE_SIZE, WriteOpOf(h, page, io), id', v);
    } else {
      if PageFilePath(h.directory, table) == PageFilePath(h.directory, table') {
        PathInjective(h.directory, table, table');
      }
      assert FileOf(h, now, table') == FileOf(h, pool, table');
    }
  }
}
