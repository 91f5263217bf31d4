/**
 * The JSON form of records, pages, tables and databases, and its reading back.
 *
 * Ids are written through a cast to a 32-bit int and read back through a cast to an
 * unsigned type; reading a value of the wrong kind throws.
 */
module JsonForms {
  import opened Common
  import opened Records
  import opened Tables

  /** What reading a form does: a value, an error status, an exception, or an undefined cast. */
  datatype Parsed<+T> = Loaded(value: T) | Rejected(status: Status) | Thrown | Undefined {
    predicate IsFailure() {
      !Loaded?
    }

    function PropagateFailure<U>(): Parsed<U>
      requires !Loaded?
    {
      match this
      case Rejected(s) => Rejected(s)
      case Thrown => Thrown
      case Undefined => Undefined
    }

    function Extract(): T
      requires Loaded?
    {
      value
    }
  }

  const INT_LIMIT := 0x8000_0000
  const UINT32_LIMIT := 0x1_0000_0000
  const UINT64_LIMIT := 0x1_0000_0000_0000_0000

  /** The cast of an unsigned id to a 32-bit int. */
  function ToInt(id: nat): int {
    var low := id % UINT32_LIMIT;
    if low < INT_LIMIT then low else low - UINT32_LIMIT
  }

  /** The cast of a floating-point number to an unsigned type of this range. */
  function ToUnsigned(r: real, limit: nat): Parsed<nat> {
    if -1.0 < r < limit as real then Loaded(if r < 0.0 then 0 else r.Floor) else Undefined
  }

  /** The cast keeps the low 32 bits, read with a sign. */
  lemma CastToInt(id: nat)
    ensures -0x8000_0000 <= ToInt(id) < 0x8000_0000 && (id - ToInt(id)) % 0x1_0000_0000 == 0
  {
  }

  /** The cast cuts a fraction off towards zero, and is defined where the result has room. */
  lemma CastToUnsigned(r: real, limit: nat)
    ensures ToUnsigned(r, limit).Loaded? <==> -1.0 < r < limit as real
    ensures !ToUnsigned(r, limit).Loaded? ==> ToUnsigned(r, limit) == Undefined
    ensures ToUnsigned(r, limit).Loaded? ==>
      var n := ToUnsigned(r, limit).value; if r < 0.0 then n == 0 else n as real <= r < n as real + 1.0
  {
  }

  /** An id comes back from its form exactly when it is below 2^31. */
  lemma IdRoundTripIff(id: nat, limit: nat)
    requires id < limit && limit >= INT_LIMIT
    ensures ToUnsigned(ToInt(id) as real, limit) == Loaded(id) <==> id < INT_LIMIT
  {
  }

  function AsNumber(j: Json): Parsed<real> {
    if j.Number? then Loaded(j.r) else Thrown
  }

  function AsString(j: Json): Parsed<string> {
    if j.Str? then Loaded(j.s) else Thrown
  }

  function AsBool(j: Json): Parsed<bool> {
    if j.Bool? then Loaded(j.b) else Thrown
  }

  function AsArray(j: Json): Parsed<seq<Json>> {
    if j.Array? then Loaded(j.elems) else Thrown
  }

  function IdOf(j: Json, limit: nat): Parsed<nat> {
    var r :- AsNumber(j);
    ToUnsigned(r, limit)
  }

  // ---------------------------------------------------------------------------
  //  Records and pages
  // ---------------------------------------------------------------------------

  function RecordToJson(r: Record): Json {
    Object(map["__id__" := Number(Whole(ToInt(r.id))), "__deleted__" := Bool(r.deleted), "data" := r.data])
  }

  function RecordFromJson(j: Json): Parsed<Record> {
    if j.Null? then Rejected(PARSE_ERROR)
    else
      var id :- IdOf(j.Get("__id__"), UINT64_LIMIT);
      var deleted :- AsBool(j.Get("__deleted__"));
      Loaded(Record(id, j.Get("data"), deleted))
  }

  function RecordsToJson(rs: seq<Record>): (js: seq<Json>)
    ensures |js| == |rs|
  {
    if rs == [] then [] else RecordsToJson(rs[..|rs| - 1]) + [RecordToJson(rs[|rs| - 1])]
  }

  /** The records of a page's form, one after the other; the pool holds a page's worth of them. */
  function RecordsFromJson(js: seq<Json>): (r: Parsed<seq<Record>>)
    ensures r != Rejected(OK)
    decreases |js|
  {
    if js == [] then Loaded([])
    else
      var before :- RecordsFromJson(js[..|js| - 1]);
      if |before| == MAX_RECORDS_PAGE then Rejected(OUT_OF_MEMORY)
      else
        var r :- RecordFromJson(js[|js| - 1]);
        Loaded(before + [r])
  }

  /** A page's form has room for 64 records; the one behind them is refused. */
  lemma {:induction false} SixtyFourRecords(js: seq<Json>, j: Json)
    ensures RecordsFromJson(js).Loaded? ==> |RecordsFromJson(js).value| == |js| <= 64
    ensures RecordsFromJson(js).Loaded? && |js| == 64 ==> RecordsFromJson(js + [j]) == Rejected(OUT_OF_MEMORY)
    decreases |js|
  {
    hide RecordFromJson;
    if js != [] {
      SixtyFourRecords(js[..|js| - 1], js[|js| - 1]);
    }
    assert (js + [j])[..|js|] == js;
  }

  function PageToJson(page: PageVal): Json {
    Object(map["__page_id__" := Number(Whole(ToInt(page.id))), "records" := Array(RecordsToJson(Live(page.records)))])
  }

  function PageFromJson(j: Json): Parsed<PageVal> {
    if j.Null? then Rejected(PARSE_ERROR)
    else
      var id :- IdOf(j.Get("__page_id__"), UINT32_LIMIT);
      var js :- AsArray(j.Get("records"));
      var rs :- RecordsFromJson(js);
      Loaded(PageVal(id, rs))
  }

  predicate SmallIds(rs: seq<Record>) {
    forall r <- rs :: r.id < INT_LIMIT
  }

  lemma RecordForm(r: Record)
    ensures RecordToJson(r).Object? && RecordToJson(r).fields.Keys == {"__id__", "__deleted__", "data"}
    ensures RecordToJson(r).Get("__id__") == Number(Whole(ToInt(r.id)))
    ensures RecordToJson(r).Get("__deleted__") == Bool(r.deleted)
    ensures RecordToJson(r).Get("data") == r.data
  {
    hide ToInt;
    var a, b, c := "__id__", "__deleted__", "data";
    assert |a| == 6 && |b| == 11 && |c| == 4;
  }

  lemma PageForm(page: PageVal)
    ensures PageToJson(page).Object? && PageToJson(page).fields.Keys == {"__page_id__", "records"}
    ensures PageToJson(page).Get("__page_id__") == Number(Whole(ToInt(page.id)))
    ensures PageToJson(page).Get("records").Array?
    ensures var js, rs := PageToJson(page).Get("records").elems, Live(page.records);
      |js| == |rs| && forall i :: 0 <= i < |rs| ==> js[i] == RecordToJson(rs[i])
  {
    hide ToInt, RecordsToJson, Live;
    RecordsFormed(Live(page.records));
  }

  lemma {:induction false} RecordsFormed(rs: seq<Record>)
    ensures forall i :: 0 <= i < |rs| ==> RecordsToJson(rs)[i] == RecordToJson(rs[i])
    decreases |rs|
  {
    hide RecordToJson;
    if rs != [] {
      RecordsFormed(rs[..|rs| - 1]);
      assert forall i :: 0 <= i < |rs| - 1 ==> rs[..|rs| - 1][i] == rs[i];
    }
  }

  lemma RecordRoundTrip(r: Record)
    requires r.id < INT_LIMIT
    ensures RecordFromJson(RecordToJson(r)) == Loaded(r)
  {
    hide ToInt, ToUnsigned;
    RecordForm(r);
    IdRoundTripIff(r.id, UINT64_LIMIT);
  }

  lemma SmallPrefix(rs: seq<Record>)
    requires rs != [] && SmallIds(rs)
    ensures SmallIds(rs[..|rs| - 1]) && rs[|rs| - 1].id < INT_LIMIT
  {
    assert rs[|rs| - 1] in rs && forall r <- rs[..|rs| - 1] :: r in rs;
  }

  lemma {:induction false} RecordsRoundTrip(rs: seq<Record>)
    requires |rs| <= MAX_RECORDS_PAGE && SmallIds(rs)
    ensures RecordsFromJson(RecordsToJson(rs)) == Loaded(rs)
    decreases |rs|
  {
    hide RecordToJson, RecordFromJson, SmallIds;
    if rs != [] {
      var n := |rs| - 1;
      SmallPrefix(rs);
      RecordsRoundTrip(rs[..n]);
      RecordRoundTrip(rs[n]);
      assert RecordsToJson(rs)[..n] == RecordsToJson(rs[..n]);
      assert rs == rs[..n] + [rs[n]];
    }
  }

  /** A page comes back from its form as its compaction. */
  lemma PageRoundTrip(page: PageVal)
    requires page.id < INT_LIMIT && |page.records| <= MAX_RECORDS_PAGE && SmallIds(Live(page.records))
    ensures PageFromJson(PageToJson(page)) == Loaded(PageVal(page.id, Live(page.records)))
  {
    hide Live, RecordsToJson, RecordsFromJson;
    IdRoundTripIff(page.id, UINT32_LIMIT);
    LiveIsShorter(page.records);
    RecordsRoundTrip(Live(page.records));
  }

  lemma LiveIsShorter(rs: seq<Record>)
    ensures |Live(rs)| <= |rs|
  {
  }

  // ---------------------------------------------------------------------------
  //  Tables
  // ---------------------------------------------------------------------------

  /** A table with its name, id and schema. */
  datatype NamedTable = NamedTable(name: string, id: nat, schema: seq<ColumnDef>, table: TableVal)

  function TypeNumber(t: ColumnType): int {
    match t
    case INT => 0
    case DOUBLE => 1
    case STRING => 2
    case BOOL => 3
    case OTHER(n) => n
  }

  /** The cast of a floating-point number to a 32-bit int, towards zero. */
  function ToSigned(r: real): Parsed<int> {
    if -2147483649.0 < r < 2147483648.0 then Loaded(if r < 0.0 then -((-r).Floor) else r.Floor) else Undefined
  }

  /** The type with this number; a number past the four names none of them. */
  function TypeOf(r: real): Parsed<ColumnType> {
    var n :- ToSigned(r);
    Loaded(if n == 0 then INT else if n == 1 then DOUBLE else if n == 2 then STRING else if n == 3 then BOOL else OTHER(n))
  }

  function ColumnToJson(col: ColumnDef): Json {
    Object(map["name" := Str(col.name), "type" := Number(Whole(TypeNumber(col.columnType))),
               "nullable" := Bool(col.nullable)])
  }

  function ColumnFromJson(j: Json): Parsed<ColumnDef> {
    var name :- AsString(j.Get("name"));
    var number :- AsNumber(j.Get("type"));
    var columnType :- TypeOf(number);
    var nullable :- AsBool(j.Get("nullable"));
    Loaded(ColumnDef(name, columnType, nullable))
  }

  function SchemaToJson(cols: seq<ColumnDef>): (js: seq<Json>)
    ensures |js| == |cols|
  {
    if cols == [] then [] else SchemaToJson(cols[..|cols| - 1]) + [ColumnToJson(cols[|cols| - 1])]
  }

  function SchemaFromJson(js: seq<Json>): (r: Parsed<seq<ColumnDef>>)
    ensures r != Rejected(OK)
    decreases |js|
  {
    if js == [] then Loaded([])
    else
      var before :- SchemaFromJson(js[..|js| - 1]);
      var col :- ColumnFromJson(js[|js| - 1]);
      Loaded(before + [col])
  }

  function PagesToJson(ps: seq<PageVal>): (js: seq<Json>)
    ensures |js| == |ps|
  {
    if ps == [] then [] else PagesToJson(ps[..|ps| - 1]) + [PageToJson(ps[|ps| - 1])]
  }

  function PagesFromJson(js: seq<Json>): (r: Parsed<seq<PageVal>>)
    ensures r != Rejected(OK)
    decreases |js|
  {
    if js == [] then Loaded([])
    else
      var before :- PagesFromJson(js[..|js| - 1]);
      var page :- PageFromJson(js[|js| - 1]);
      Loaded(before + [page])
  }

  function MaxPageId(ps: seq<PageVal>): (m: nat)
    ensures forall p <- ps :: p.id <= m
    ensures m > 0 ==> exists p :: p in ps && p.id == m
    decreases |ps|
  {
    if ps == [] then 0
    else
      var m, last := MaxPageId(ps[..|ps| - 1]), ps[|ps| - 1].id;
      assert ps == ps[..|ps| - 1] + [ps[|ps| - 1]];
      if last > m then last else m
  }

  function TableToJson(t: NamedTable): Json {
    Object(map["__table_id___" := Number(Whole(ToInt(t.id))), "__name__" := Str(t.name),
               "schema" := Array(SchemaToJson(t.schema)), "page" := Array(PagesToJson(t.table.pages))])
  }

  /** The counter resumes above every loaded page id. */
  function LoadedTable(ps: seq<PageVal>): TableVal {
    TableVal(ps, IndexOf(ps), if ps == [] then 0 else (MaxPageId(ps) + 1) % PAGE_ID_LIMIT)
  }

  function TableFromJson(j: Json): Parsed<NamedTable> {
    if j.Null? then Rejected(PARSE_ERROR)
    else
      var id :- IdOf(j.Get("__table_id___"), UINT32_LIMIT);
      var name :- AsString(j.Get("__name__"));
      var cols :- AsArray(j.Get("schema"));
      var schema :- SchemaFromJson(cols);
      var js :- AsArray(j.Get("page"));
      var ps :- PagesFromJson(js);
      Loaded(NamedTable(name, id, schema, LoadedTable(ps)))
  }

  // ---- Round trip

  /** A column's form; the types are numbered 0 to 3. */
  lemma ColumnForm(col: ColumnDef)
    ensures ColumnToJson(col).Object? && ColumnToJson(col).fields.Keys == {"name", "type", "nullable"}
    ensures ColumnToJson(col).Get("name") == Str(col.name)
    ensures ColumnToJson(col).Get("nullable") == Bool(col.nullable)
    ensures ColumnToJson(col).Get("type").Number?
    ensures ColumnToJson(col).Get("type").r ==
      match col.columnType case INT => 0.0 case DOUBLE => 1.0 case STRING => 2.0 case BOOL => 3.0 case OTHER(n) => n as real
  {
    var a, b, c := "name", "type", "nullable";
    assert a[0] != b[0] && |c| == 8;
  }

  lemma ColumnRoundTrip(col: ColumnDef)
    ensures ColumnFromJson(ColumnToJson(col)) == Loaded(col)
  {
    var a, b, c := "name", "type", "nullable";
    assert a[0] != b[0] && |c| == 8;
    var form := ColumnToJson(col);
    assert form.Get(a) == Str(col.name) && form.Get(c) == Bool(col.nullable);
  }

  lemma SchemaSnoc(cols: seq<ColumnDef>, col: ColumnDef, js: seq<Json>, j: Json)
    ensures SchemaToJson(cols + [col]) == SchemaToJson(cols) + [ColumnToJson(col)]
    ensures SchemaFromJson(js).Loaded? && ColumnFromJson(j).Loaded? ==>
      SchemaFromJson(js + [j]) == Loaded(SchemaFromJson(js).value + [ColumnFromJson(j).value])
  {
    hide ColumnToJson, ColumnFromJson;
    assert (cols + [col])[..|cols|] == cols;
    assert (js + [j])[..|js|] == js;
  }

  lemma NoColumns()
    ensures SchemaFromJson(SchemaToJson([])) == Loaded([])
  {
  }

  lemma {:induction false} SchemaRoundTrip(cols: seq<ColumnDef>)
    ensures SchemaFromJson(SchemaToJson(cols)) == Loaded(cols)
    decreases |cols|
  {
    hide ColumnToJson, ColumnFromJson, SchemaToJson, SchemaFromJson;
    if cols == [] {
      NoColumns();
    } else {
      var n := |cols| - 1;
      SchemaRoundTrip(cols[..n]);
      ColumnRoundTrip(cols[n]);
      SchemaSnoc(cols[..n], cols[n], SchemaToJson(cols[..n]), ColumnToJson(cols[n]));
      assert cols == cols[..n] + [cols[n]];
    }
  }

  /** All ids that the forms carry are below 2^31. */
  ghost predicate Portable(ps: seq<PageVal>) {
    forall p <- ps :: p.id < INT_LIMIT && |p.records| <= MAX_RECORDS_PAGE && SmallIds(Live(p.records))
  }

  lemma {:induction false} CompactedSnoc(ps: seq<PageVal>, last: PageVal)
    ensures Compacted(ps + [last]) == Compacted(ps) + [PageVal(last.id, Live(last.records))]
    decreases |ps|
  {
    hide Live;
    if ps == [] {
      assert ps + [last] == [last] && [last][1..] == [];
    } else {
      assert (ps + [last])[1..] == ps[1..] + [last];
      CompactedSnoc(ps[1..], last);
    }
  }

  lemma PagesSnoc(ps: seq<PageVal>, page: PageVal, js: seq<Json>, j: Json)
    ensures PagesToJson(ps + [page]) == PagesToJson(ps) + [PageToJson(page)]
    ensures PagesFromJson(js).Loaded? && PageFromJson(j).Loaded? ==>
      PagesFromJson(js + [j]) == Loaded(PagesFromJson(js).value + [PageFromJson(j).value])
  {
    hide PageToJson, PageFromJson;
    assert (ps + [page])[..|ps|] == ps;
    assert (js + [j])[..|js|] == js;
  }

  lemma PortablePrefix(ps: seq<PageVal>)
    requires ps != [] && Portable(ps)
    ensures Portable(ps[..|ps| - 1])
    ensures var page := ps[|ps| - 1];
      page.id < INT_LIMIT && |page.records| <= MAX_RECORDS_PAGE && SmallIds(Live(page.records))
  {
    hide SmallIds, Live;
    assert ps[|ps| - 1] in ps && forall p <- ps[..|ps| - 1] :: p in ps;
  }

  lemma NoPages()
    ensures PagesToJson([]) == [] && PagesFromJson([]) == Loaded([]) && Compacted([]) == []
  {
  }

  lemma {:induction false} PagesRoundTrip(ps: seq<PageVal>)
    requires Portable(ps)
    ensures PagesFromJson(PagesToJson(ps)) == Loaded(Compacted(ps))
    decreases |ps|
  {
    hide PageToJson, PageFromJson, SmallIds, Compacted, Live, Portable, PagesToJson, PagesFromJson;
    if ps == [] {
      NoPages();
    } else {
      var n := |ps| - 1;
      var page, js := ps[n], PagesToJson(ps[..n]);
      PortablePrefix(ps);
      PagesRoundTrip(ps[..n]);
      PageRoundTrip(page);
      assert ps == ps[..n] + [page];
      CompactedSnoc(ps[..n], page);
      PagesSnoc(ps[..n], page, js, PageToJson(page));
    }
  }

  lemma MaxPageIdBounds(ps: seq<PageVal>, limit: nat)
    requires limit > 0 && forall i :: 0 <= i < |ps| ==> ps[i].id < limit
    ensures MaxPageId(ps) < limit
    ensures forall i :: 0 <= i < |ps| ==> ps[i].id <= MaxPageId(ps)
  {
    forall i | 0 <= i < |ps|
      ensures ps[i].id <= MaxPageId(ps)
    {
      assert ps[i] in ps;
    }
  }

  /** The counter of a loaded table is above every page id. */
  lemma CompactedPages(ps: seq<PageVal>, nextPageId: nat)
    requires PagesOk(ps, nextPageId)
    requires forall p <- ps :: p.id < INT_LIMIT
    ensures var t := LoadedTable(Compacted(ps));
      PagesOk(t.pages, t.nextPageId) && t.nextPageId <= INT_LIMIT
  {
    hide Live, IndexOf, MaxPageId, Compacted;
    var qs := Compacted(ps);
    forall i | 0 <= i < |qs|
      ensures qs[i].id < INT_LIMIT && |qs[i].records| <= MAX_RECORDS_PAGE
    {
      assert ps[i] in ps;
      LiveIsShorter(ps[i].records);
    }
    MaxPageIdBounds(qs, INT_LIMIT);
  }

  /**
   * A table comes back from its form with its name, id, schema, contents and scan order; its
   * deleted slots are gone, its index is the same, and the page counter is above every page.
   */
  lemma TableRoundTrip(t: NamedTable)
    requires TableOk(t.schema, t.table) && Portable(t.table.pages) && t.id < INT_LIMIT
    ensures TableFromJson(TableToJson(t)) == Loaded(t.(table := LoadedTable(Compacted(t.table.pages))))
    ensures var loaded := LoadedTable(Compacted(t.table.pages));
      && TableOk(t.schema, loaded)
      && Rows(loaded.pages) == Rows(t.table.pages)
      && loaded.index == t.table.index
      && Contents(loaded) == Contents(t.table)
  {
    hide Rows, RowMap, DistinctIds, AllValid, TableToJson, TableFromJson, Compacted, PagesOk, SmallIds, Live;
    var ps := t.table.pages;
    TableFormRoundTrip(t);
    CompactedRows(ps);
    assert forall p <- ps :: p.id < INT_LIMIT;
    CompactedPages(ps, t.table.nextPageId);
    IndexOfIs(Compacted(ps));
  }

  lemma TableForm(t: NamedTable)
    ensures var form := TableToJson(t);
      && form.Object? && form.fields.Keys == {"__table_id___", "__name__", "schema", "page"}
      && form.Get("__table_id___") == Number(Whole(ToInt(t.id)))
      && form.Get("__name__") == Str(t.name)
      && form.Get("schema") == Array(SchemaToJson(t.schema))
      && form.Get("page") == Array(PagesToJson(t.table.pages))
  {
    hide ToInt, SchemaToJson, PagesToJson;
    var a, b, c, d := "__table_id___", "__name__", "schema", "page";
    assert |a| == 13 && |b| == 8 && |c| == 6 && |d| == 4;
  }

  lemma TableFormRoundTrip(t: NamedTable)
    requires Portable(t.table.pages) && t.id < INT_LIMIT
    ensures TableFromJson(TableToJson(t)) == Loaded(t.(table := LoadedTable(Compacted(t.table.pages))))
  {
    hide ToInt, ToUnsigned, SchemaToJson, SchemaFromJson, PagesToJson, PagesFromJson, TableToJson,
         LoadedTable, Compacted, Portable;
    TableForm(t);
    TableIsObject(t);
    IdRoundTripIff(t.id, UINT32_LIMIT);
    SchemaRoundTrip(t.schema);
    PagesRoundTrip(t.table.pages);
  }

  lemma TableIsObject(t: NamedTable)
    ensures TableToJson(t).Object?
  {
  }

  // ---------------------------------------------------------------------------
  //  What loading does not check
  // ---------------------------------------------------------------------------

  ghost predicate DistinctPages(ps: seq<PageVal>) {
    forall p, q :: 0 <= p < q < |ps| ==> ps[p].id != ps[q].id
  }

  /** No page is overfull. */
  ghost predicate PagesFit(ps: seq<PageVal>) {
    forall p :: 0 <= p < |ps| ==> |ps[p].records| <= MAX_RECORDS_PAGE
  }

  /** Page ids of 32 bits, as the cast to them gives. */
  ghost predicate ShortPageIds(ps: seq<PageVal>) {
    forall p <- ps :: p.id < PAGE_ID_LIMIT
  }

  lemma LoadedPagesOkIff(ps: seq<PageVal>)
    requires ShortPageIds(ps)
    ensures PagesOk(ps, LoadedTable(ps).nextPageId)
      <==> DistinctPages(ps) && PagesFit(ps) && (ps == [] || MaxPageId(ps) + 1 < PAGE_ID_LIMIT)
  {
    hide MaxPageId, IndexOf;
    if ps != [] {
      MaxPageIdBounds(ps, PAGE_ID_LIMIT);
      if MaxPageId(ps) + 1 >= PAGE_ID_LIMIT {
        assert LoadedTable(ps).nextPageId == 0 && ps[0].id >= 0;
      }
    }
  }

  /**
   * Loading validates nothing.  The loaded table is well-formed exactly when the form's page ids
   * and record ids are distinct, no page is overfull, its counter does not wrap, and its live
   * records are all valid.
   */
  lemma LoadedTableOkIff(schema: seq<ColumnDef>, ps: seq<PageVal>)
    requires ShortPageIds(ps)
    ensures TableOk(schema, LoadedTable(ps)) <==>
      && DistinctPages(ps) && PagesFit(ps) && (ps == [] || MaxPageId(ps) + 1 < PAGE_ID_LIMIT)
      && DistinctIds(Rows(ps)) && AllValid(schema, Rows(ps))
  {
    hide PagesFit, ShortPageIds, PagesOk, DistinctIds, AllValid, Rows, RowMap, DistinctPages, MaxPageId, IndexOf;
    LoadedPagesOkIff(ps);
    IndexOfIs(ps);
  }

  /** A form with one record that the form's own schema forbids loads with status OK. */
  lemma InvalidRecordLoads(r: Record)
    requires r.id < INT_LIMIT && !r.deleted && !r.data.Has("n")
    ensures var t := NamedTable("t", 0, [ColumnDef("n", INT, false)], LoadedTable([PageVal(0, [r])]));
      && TableFromJson(TableToJson(t)) == Loaded(t)
      && Validation(t.schema, r.data) == INVALID_SCHEMA
      && !TableOk(t.schema, t.table)
  {
    hide TableFromJson, TableToJson, RowMap, DistinctIds, PagesOk, LoadedTable;
    var ps := [PageVal(0, [r])];
    var t := NamedTable("t", 0, [ColumnDef("n", INT, false)], LoadedTable(ps));
    LoadedPages(ps);
    OneLiveRecord(r);
    assert Compacted(ps) == ps;
    TableFormRoundTrip(t);
    OneLiveRow(r, 0);
    assert Row(r.id, r.data, 0) in Rows(ps);
  }

  lemma LoadedPages(ps: seq<PageVal>)
    ensures LoadedTable(ps).pages == ps
  {
  }
}
