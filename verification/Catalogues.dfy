/**
 * The catalogue of a database, on values: its tables by name and by id, creation and removal,
 * and the form that is saved and loaded.
 */
module Catalogues {
  import opened Common
  import opened JsonForms
  import opened Records
  import opened Tables

  const MAX_TABLES := 256
  const TABLE_ID_LIMIT := 0x1_0000_0000

  datatype Catalogue = Catalogue(name: string, tables: seq<NamedTable>, nextTableId: nat)

  /** The third operation is what the holder of a table does to its contents. */
  datatype CatalogueOp =
    | CreateTable(name: string, schema: seq<ColumnDef>)
    | DropTable(name: string)
    | ChangeTable(name: string, table: TableVal)

  /** The place of the table with this name, or the number of tables. */
  function Find(ts: seq<NamedTable>, name: string): (i: nat)
    ensures i <= |ts|
    ensures i < |ts| ==> ts[i].name == name
    ensures forall j :: 0 <= j < i ==> ts[j].name != name
    decreases |ts|
  {
    if ts == [] || ts[0].name == name then 0 else 1 + Find(ts[1..], name)
  }

  function CatalogueExec(c: Catalogue, op: CatalogueOp): (Status, Catalogue) {
    var ts, i := c.tables, Find(c.tables, op.name);
    match op
    case CreateTable(name, schema) =>
      if |ts| >= MAX_TABLES then (OUT_OF_MEMORY, c)
      else if i < |ts| then (TABLE_ALREADY_EXISTS, c)
      else (OK, Catalogue(c.name, ts + [NamedTable(name, c.nextTableId, schema, EMPTY_TABLE)],
                          (c.nextTableId + 1) % TABLE_ID_LIMIT))
    case DropTable(_) =>
      if i == |ts| then (TABLE_NOT_FOUND, c) else (OK, c.(tables := ts[..i] + ts[i + 1..]))
    case ChangeTable(_, table) =>
      if i == |ts| then (TABLE_NOT_FOUND, c) else (OK, c.(tables := ts[i := ts[i].(table := table)]))
  }

  ghost predicate DistinctNames(ts: seq<NamedTable>) {
    forall i, j :: 0 <= i < j < |ts| ==> ts[i].name != ts[j].name
  }

  ghost predicate DistinctTableIds(ts: seq<NamedTable>) {
    forall i, j :: 0 <= i < j < |ts| ==> ts[i].id != ts[j].id
  }

  ghost predicate IdsBelow(ts: seq<NamedTable>, limit: nat) {
    forall i :: 0 <= i < |ts| ==> ts[i].id < limit
  }

  /** Names and ids are distinct, and the counter is above every id. */
  ghost predicate CatalogueOk(c: Catalogue) {
    |c.tables| <= MAX_TABLES && IdsBelow(c.tables, c.nextTableId) && DistinctTableIds(c.tables) && DistinctNames(c.tables)
  }

  // ---------------------------------------------------------------------------
  //  A catalogue refines a map
  // ---------------------------------------------------------------------------

  function ByName(ts: seq<NamedTable>): map<string, NamedTable>
    decreases |ts|
  {
    if ts == [] then map[]
    else
      var last := ts[|ts| - 1];
      ByName(ts[..|ts| - 1])[last.name := last]
  }

  /** The tables by name, and how many have ever been created. */
  datatype Directory = Directory(tables: map<string, NamedTable>, created: nat)

  function DirectoryExec(d: Directory, op: CatalogueOp): (Status, Directory) {
    var n := op.name;
    match op
    case CreateTable(_, schema) =>
      if |d.tables| >= MAX_TABLES then (OUT_OF_MEMORY, d)
      else if n in d.tables then (TABLE_ALREADY_EXISTS, d)
      else (OK, Directory(d.tables[n := NamedTable(n, d.created, schema, EMPTY_TABLE)], d.created + 1))
    case DropTable(_) =>
      if n !in d.tables then (TABLE_NOT_FOUND, d) else (OK, d.(tables := d.tables - {n}))
    case ChangeTable(_, table) =>
      if n !in d.tables then (TABLE_NOT_FOUND, d)
      else (OK, d.(tables := d.tables[n := d.tables[n].(table := table)]))
  }

  function DirectoryOf(c: Catalogue): Directory {
    Directory(ByName(c.tables), c.nextTableId)
  }

  lemma {:induction false} HolderOf(ts: seq<NamedTable>, name: string) returns (i: nat)
    requires name in ByName(ts)
    ensures i < |ts| && ts[i].name == name && ByName(ts)[name] == ts[i]
    decreases |ts|
  {
    var n := |ts| - 1;
    if ts[n].name == name {
      i := n;
    } else {
      i := HolderOf(ts[..n], name);
    }
  }

  lemma {:induction false} IsByName(ts: seq<NamedTable>, i: nat)
    requires i < |ts|
    ensures ts[i].name in ByName(ts)
    decreases |ts|
  {
    var n := |ts| - 1;
    if i < n {
      IsByName(ts[..n], i);
    }
  }

  /** Under its name, and under no other, a table is found. */
  lemma FoundIffNamed(ts: seq<NamedTable>, name: string)
    requires DistinctNames(ts)
    ensures name in ByName(ts) <==> Find(ts, name) < |ts|
    ensures name in ByName(ts) ==> ByName(ts)[name] == ts[Find(ts, name)]
  {
    hide ByName;
    var k := Find(ts, name);
    if k < |ts| {
      IsByName(ts, k);
    }
    if name in ByName(ts) {
      var i := HolderOf(ts, name);
    }
  }

  lemma {:induction false} NoneNamed(ts: seq<NamedTable>, name: string)
    requires forall t <- ts :: t.name != name
    ensures name !in ByName(ts)
    decreases |ts|
  {
    if ts != [] {
      var n := |ts| - 1;
      assert ts[n] in ts && forall t <- ts[..n] :: t in ts;
      NoneNamed(ts[..n], name);
    }
  }

  lemma {:induction false} ByNameMiddle(a: seq<NamedTable>, t: NamedTable, b: seq<NamedTable>)
    requires forall u <- b :: u.name != t.name
    ensures ByName(a + [t] + b) == ByName(a + b)[t.name := t]
    decreases |b|
  {
    hide ByName;
    if b == [] {
      assert a + b == a && a + [t] + b == a + [t];
      ByNameSnoc(a, t);
    } else {
      var c, last := b[..|b| - 1], b[|b| - 1];
      assert last in b && forall u <- c :: u in b;
      ByNameMiddle(a, t, c);
      assert a + [t] + b == (a + [t] + c) + [last];
      ByNameSnoc(a + [t] + c, last);
      assert a + b == (a + c) + [last];
      ByNameSnoc(a + c, last);
    }
  }

  lemma PrefixDistinct(ts: seq<NamedTable>)
    requires ts != [] && DistinctNames(ts)
    ensures DistinctNames(ts[..|ts| - 1]) && forall t <- ts[..|ts| - 1] :: t.name != ts[|ts| - 1].name
  {
  }

  lemma {:induction false} AsManyNames(ts: seq<NamedTable>)
    requires DistinctNames(ts)
    ensures |ByName(ts)| == |ts|
    decreases |ts|
  {
    hide DistinctNames;
    if ts != [] {
      PrefixDistinct(ts);
      AsManyNames(ts[..|ts| - 1]);
      NoneNamed(ts[..|ts| - 1], ts[|ts| - 1].name);
    }
  }

  lemma ByNameSnoc(ts: seq<NamedTable>, t: NamedTable)
    ensures ByName(ts + [t]) == ByName(ts)[t.name := t]
  {
    assert (ts + [t])[..|ts|] == ts;
  }

  lemma OneAdded(ts: seq<NamedTable>, t: NamedTable)
    requires IdsBelow(ts, t.id) && DistinctTableIds(ts) && DistinctNames(ts)
    requires Find(ts, t.name) == |ts|
    ensures var now := ts + [t]; IdsBelow(now, t.id + 1) && DistinctTableIds(now) && DistinctNames(now)
  {
    var now, n := ts + [t], |ts|;
    forall i, j | 0 <= i < j < |now|
      ensures now[i].name != now[j].name && now[i].id != now[j].id
    {
      assert now[i] == ts[i];
      assert j < n ==> now[j] == ts[j];
    }
  }

  /** Taking one table out, in pieces: no other table has its name or its id. */
  lemma OneOut(ts: seq<NamedTable>, i: nat)
    requires i < |ts| && DistinctTableIds(ts) && DistinctNames(ts)
    ensures ts == ts[..i] + [ts[i]] + ts[i + 1..]
    ensures DistinctTableIds(ts[..i] + ts[i + 1..]) && DistinctNames(ts[..i] + ts[i + 1..])
    ensures forall t <- ts[..i] + ts[i + 1..] :: t.name != ts[i].name && t.id != ts[i].id
  {
    var rest := ts[..i] + ts[i + 1..];
    forall j, k | 0 <= j < k < |rest|
      ensures rest[j].name != rest[k].name && rest[j].id != rest[k].id
    {
      assert rest[j] == ts[if j < i then j else j + 1];
      assert rest[k] == ts[if k < i then k else k + 1];
    }
    forall t | t in rest
      ensures t.name != ts[i].name && t.id != ts[i].id
    {
      var j :| 0 <= j < |rest| && rest[j] == t;
      assert rest[j] == ts[if j < i then j else j + 1];
    }
  }

  lemma OneRemoved(ts: seq<NamedTable>, i: nat)
    requires i < |ts| && DistinctTableIds(ts) && DistinctNames(ts)
    ensures ByName(ts[..i] + ts[i + 1..]) == ByName(ts) - {ts[i].name}
  {
    hide ByName, DistinctNames, DistinctTableIds;
    var a, b := ts[..i], ts[i + 1..];
    OneOut(ts, i);
    assert forall t <- b :: t in a + b;
    ByNameMiddle(a, ts[i], b);
    NoneNamed(a + b, ts[i].name);
  }

  lemma ReplacedIsDistinct(ts: seq<NamedTable>, i: nat, t: NamedTable)
    requires i < |ts| && DistinctTableIds(ts) && DistinctNames(ts)
    requires t.name == ts[i].name && t.id == ts[i].id
    ensures DistinctTableIds(ts[i := t]) && DistinctNames(ts[i := t])
  {
  }

  lemma OneReplaced(ts: seq<NamedTable>, i: nat, t: NamedTable)
    requires i < |ts| && DistinctTableIds(ts) && DistinctNames(ts)
    requires t.name == ts[i].name && t.id == ts[i].id
    ensures DistinctTableIds(ts[i := t]) && DistinctNames(ts[i := t])
    ensures ByName(ts[i := t]) == ByName(ts)[t.name := t]
  {
    hide ByName, DistinctTableIds, DistinctNames;
    var a, b := ts[..i], ts[i + 1..];
    ReplacedIsDistinct(ts, i, t);
    OneOut(ts, i);
    assert forall u <- b :: u in a + b;
    ByNameMiddle(a, ts[i], b);
    ByNameMiddle(a, t, b);
    assert ts[i := t] == a + [t] + b;
  }

  lemma CreateStep(c: Catalogue, name: string, schema: seq<ColumnDef>)
    requires CatalogueOk(c) && |c.tables| < MAX_TABLES && Find(c.tables, name) == |c.tables|
    ensures var t := NamedTable(name, c.nextTableId, schema, EMPTY_TABLE);
      && ByName(c.tables + [t]) == ByName(c.tables)[name := t]
      && CatalogueOk(Catalogue(c.name, c.tables + [t], c.nextTableId + 1))
  {
    hide ByName, DistinctNames, DistinctTableIds;
    var t := NamedTable(name, c.nextTableId, schema, EMPTY_TABLE);
    OneAdded(c.tables, t);
    ByNameSnoc(c.tables, t);
  }

  lemma DropStep(c: Catalogue, i: nat)
    requires CatalogueOk(c) && i < |c.tables|
    ensures var rest := c.tables[..i] + c.tables[i + 1..];
      && ByName(rest) == ByName(c.tables) - {c.tables[i].name}
      && CatalogueOk(c.(tables := rest))
  {
    hide ByName, DistinctNames, DistinctTableIds;
    OneOut(c.tables, i);
    OneRemoved(c.tables, i);
  }

  lemma ChangeStep(c: Catalogue, i: nat, table: TableVal)
    requires CatalogueOk(c) && i < |c.tables|
    ensures var t := c.tables[i].(table := table);
      && ByName(c.tables[i := t]) == ByName(c.tables)[t.name := t]
      && CatalogueOk(c.(tables := c.tables[i := t]))
  {
    hide ByName, DistinctNames, DistinctTableIds;
    OneReplaced(c.tables, i, c.tables[i].(table := table));
  }

  /** Every operation keeps names and ids distinct, and does to the tables what it does to a map. */
  lemma CatalogueStep(c: Catalogue, op: CatalogueOp)
    requires CatalogueOk(c)
    ensures var (status, now), (s, d) := CatalogueExec(c, op), DirectoryExec(DirectoryOf(c), op);
      && status == s && DirectoryOf(now).tables == d.tables
      && now.nextTableId <= c.nextTableId + 1
      && (!op.CreateTable? || status != OK || c.nextTableId + 1 < TABLE_ID_LIMIT ==>
            CatalogueOk(now) && DirectoryOf(now) == d)
  {
    hide ByName, DistinctNames, DistinctTableIds, IdsBelow;
    var ts, i := c.tables, Find(c.tables, op.name);
    FoundIffNamed(ts, op.name);
    AsManyNames(ts);
    if CatalogueExec(c, op).0 == OK {
      match op {
        case CreateTable(name, schema) => CreateStep(c, name, schema);
        case DropTable(_) => DropStep(c, i);
        case ChangeTable(_, table) => ChangeStep(c, i, table);
      }
    }
  }

  /** The statuses of the catalogue's operations, told from the names that are there. */
  lemma CatalogueStatuses(c: Catalogue, op: CatalogueOp)
    ensures var status, taken := CatalogueExec(c, op).0, exists i :: 0 <= i < |c.tables| && c.tables[i].name == op.name;
      && (op.CreateTable? ==>
            status == if |c.tables| >= 256 then OUT_OF_MEMORY else if taken then TABLE_ALREADY_EXISTS else OK)
      && (!op.CreateTable? ==> status == if taken then OK else TABLE_NOT_FOUND)
      && (status != OK ==> CatalogueExec(c, op).1 == c)
  {
    hide Find;
    var i := Find(c.tables, op.name);
  }

  /** A new table comes last, empty, under the next id; a dropped one leaves the others in their order. */
  lemma CatalogueChanges(c: Catalogue, op: CatalogueOp)
    requires CatalogueExec(c, op).0 == OK
    ensures var now := CatalogueExec(c, op).1;
      && now.name == c.name
      && (op.CreateTable? ==>
            && now.tables == c.tables + [NamedTable(op.name, c.nextTableId, op.schema, TableVal([], map[], 0))]
            && now.nextTableId == if c.nextTableId == 0xFFFF_FFFF then 0 else (c.nextTableId + 1) % 0x1_0000_0000)
      && (!op.CreateTable? ==> now.nextTableId == c.nextTableId)
      && (op.DropTable? ==>
            exists i :: 0 <= i < |c.tables| && c.tables[i].name == op.name && now.tables == c.tables[..i] + c.tables[i + 1..])
      && (op.ChangeTable? ==>
            exists i :: 0 <= i < |c.tables| && c.tables[i].name == op.name
                        && now.tables == c.tables[i := c.tables[i].(table := op.table)])
  {
    hide Find;
    var i := Find(c.tables, op.name);
  }

  function CatalogueRun(c: Catalogue, ops: seq<CatalogueOp>): (seq<Status>, Catalogue)
    decreases |ops|
  {
    if ops == [] then ([], c)
    else
      var (ss, before) := CatalogueRun(c, ops[..|ops| - 1]);
      var (s, now) := CatalogueExec(before, ops[|ops| - 1]);
      (ss + [s], now)
  }

  function DirectoryRun(d: Directory, ops: seq<CatalogueOp>): (seq<Status>, Directory)
    decreases |ops|
  {
    if ops == [] then ([], d)
    else
      var (ss, before) := DirectoryRun(d, ops[..|ops| - 1]);
      var (s, now) := DirectoryExec(before, ops[|ops| - 1]);
      (ss + [s], now)
  }

  /** Over any run, a catalogue is a map from names to tables: the table found is the table created. */
  lemma {:induction false} CatalogueRefinesMap(name: string, ops: seq<CatalogueOp>)
    requires |ops| + 1 < TABLE_ID_LIMIT
    ensures var (ss, c) := CatalogueRun(Catalogue(name, [], 0), ops);
      && CatalogueOk(c)
      && c.nextTableId <= |ops|
      && (ss, DirectoryOf(c)) == DirectoryRun(Directory(map[], 0), ops)
    decreases |ops|
  {
    hide CatalogueExec, DirectoryExec;
    if ops != [] {
      var n := |ops| - 1;
      CatalogueRefinesMap(name, ops[..n]);
      hide CatalogueOk, DirectoryOf;
      CatalogueStep(CatalogueRun(Catalogue(name, [], 0), ops[..n]).1, ops[n]);
    }
  }

  /** The ids given to tables over a run, in order. */
  function Issued(c: Catalogue, ops: seq<CatalogueOp>): seq<nat>
    decreases |ops|
  {
    if ops == [] then []
    else
      var before, op := CatalogueRun(c, ops[..|ops| - 1]).1, ops[|ops| - 1];
      Issued(c, ops[..|ops| - 1])
      + (if op.CreateTable? && CatalogueExec(before, op).0 == OK then [before.nextTableId] else [])
  }

  lemma CounterMoves(c: Catalogue, op: CatalogueOp)
    requires c.nextTableId + 1 < TABLE_ID_LIMIT
    ensures var (status, now) := CatalogueExec(c, op);
      now.nextTableId == if op.CreateTable? && status == OK then c.nextTableId + 1 else c.nextTableId
  {
  }

  /** Creating a table keeps the ids below the counter exactly when the counter does not wrap. */
  lemma CreatedIdIff(c: Catalogue, name: string, schema: seq<ColumnDef>)
    requires CatalogueOk(c) && c.nextTableId < TABLE_ID_LIMIT
    requires CatalogueExec(c, CreateTable(name, schema)).0 == OK
    ensures CatalogueOk(CatalogueExec(c, CreateTable(name, schema)).1) <==> c.nextTableId + 1 < TABLE_ID_LIMIT
  {
    var now := CatalogueExec(c, CreateTable(name, schema)).1;
    if c.nextTableId + 1 < TABLE_ID_LIMIT {
      CatalogueStep(c, CreateTable(name, schema));
    } else {
      assert now.tables[|c.tables|].id == c.nextTableId && now.nextTableId == 0;
    }
  }

  /** No id is issued twice over a run, dropped tables or not. */
  lemma {:induction false} IdsAreNeverReused(c: Catalogue, ops: seq<CatalogueOp>)
    requires c.nextTableId + |ops| < TABLE_ID_LIMIT
    ensures CatalogueRun(c, ops).1.nextTableId == c.nextTableId + |Issued(c, ops)|
    ensures |Issued(c, ops)| <= |ops|
    ensures forall i :: 0 <= i < |Issued(c, ops)| ==> Issued(c, ops)[i] == c.nextTableId + i
    decreases |ops|
  {
    hide CatalogueExec;
    if ops != [] {
      var n := |ops| - 1;
      IdsAreNeverReused(c, ops[..n]);
      CounterMoves(CatalogueRun(c, ops[..n]).1, ops[n]);
    }
  }

  // ---------------------------------------------------------------------------
  //  Saving and loading
  // ---------------------------------------------------------------------------

  function TablesToJson(ts: seq<NamedTable>): (js: seq<Json>)
    ensures |js| == |ts|
  {
    if ts == [] then [] else TablesToJson(ts[..|ts| - 1]) + [TableToJson(ts[|ts| - 1])]
  }

  function TablesFromJson(js: seq<Json>): (r: Parsed<seq<NamedTable>>)
    ensures r != Rejected(OK)
    decreases |js|
  {
    if js == [] then Loaded([])
    else
      var before :- TablesFromJson(js[..|js| - 1]);
      var t :- TableFromJson(js[|js| - 1]);
      Loaded(before + [t])
  }

  function CatalogueToJson(c: Catalogue): Json {
    Object(map["__db_name__" := Str(c.name), "tables" := Array(TablesToJson(c.tables))])
  }

  function MaxTableId(ts: seq<NamedTable>): (m: nat)
    ensures forall i :: 0 <= i < |ts| ==> ts[i].id <= m
    ensures m > 0 ==> exists i :: 0 <= i < |ts| && ts[i].id == m
    decreases |ts|
  {
    if ts == [] then 0
    else
      var n := |ts| - 1;
      var m := MaxTableId(ts[..n]);
      assert m > 0 ==> exists i :: 0 <= i < n && ts[..n][i].id == m && ts[i].id == m;
      if ts[n].id > m then ts[n].id else m
  }

  function LoadedCatalogue(name: string, ts: seq<NamedTable>): Catalogue {
    Catalogue(name, ts, if ts == [] then 0 else (MaxTableId(ts) + 1) % TABLE_ID_LIMIT)
  }

  /** The tables of a form, before the database's own are touched. */
  function ScratchTables(j: Json): Parsed<seq<NamedTable>> {
    if j.Null? then Rejected(PARSE_ERROR)
    else
      var js :- AsArray(j.Get("tables"));
      if |js| > MAX_TABLES then Rejected(OUT_OF_MEMORY) else TablesFromJson(js)
  }

  function CatalogueFromJson(j: Json): Parsed<Catalogue> {
    var ts :- ScratchTables(j);
    var name :- AsString(j.Get("__db_name__"));
    Loaded(LoadedCatalogue(name, ts))
  }

  /** The one way for a load to fail after the old tables are gone: all tables parse, the name does not. */
  predicate FailsTooLate(j: Json) {
    ScratchTables(j).Loaded? && !j.Get("__db_name__").Str?
  }

  /** Such a form: no tables, and no name.  Loading it deletes every table there was, and fails. */
  lemma NamelessFormFailsTooLate()
    ensures var j := Object(map["tables" := Array([])]);
      FailsTooLate(j) && CatalogueFromJson(j) == Thrown
  {
    var a, b := "__db_name__", "tables";
    assert |a| == 11 && |b| == 6;
  }

  /** How a form fails as a whole: null, too many tables, no list of tables. */
  lemma FormStatuses(j: Json)
    ensures j == Null ==> CatalogueFromJson(j) == Rejected(PARSE_ERROR)
    ensures j != Null && !(j.Object? && "tables" in j.fields && j.fields["tables"].Array?) ==> CatalogueFromJson(j) == Thrown
    ensures j.Object? && "tables" in j.fields && j.fields["tables"].Array? && |j.fields["tables"].elems| > 256 ==>
      CatalogueFromJson(j) == Rejected(OUT_OF_MEMORY)
  {
    hide TablesFromJson;
  }

  lemma CatalogueForm(c: Catalogue)
    ensures CatalogueToJson(c).Object? && CatalogueToJson(c).fields.Keys == {"__db_name__", "tables"}
    ensures CatalogueToJson(c).Get("__db_name__") == Str(c.name)
    ensures CatalogueToJson(c).Get("tables") == Array(TablesToJson(c.tables))
  {
    var a, b := "__db_name__", "tables";
    assert |a| == 11 && |b| == 6;
  }

  /** The ids of the table and of everything in it are below 2^31. */
  ghost predicate PortableTable(t: NamedTable) {
    TableOk(t.schema, t.table) && Portable(t.table.pages) && t.id < INT_LIMIT
  }

  /** A table as it comes back from its form. */
  function Reloaded(t: NamedTable): NamedTable {
    t.(table := LoadedTable(Compacted(t.table.pages)))
  }

  lemma TablesSnoc(ts: seq<NamedTable>, t: NamedTable, js: seq<Json>, j: Json)
    ensures TablesToJson(ts + [t]) == TablesToJson(ts) + [TableToJson(t)]
    ensures TablesFromJson(js).Loaded? && TableFromJson(j).Loaded? ==>
      TablesFromJson(js + [j]) == Loaded(TablesFromJson(js).value + [TableFromJson(j).value])
  {
    hide TableToJson, TableFromJson;
    assert (ts + [t])[..|ts|] == ts;
    assert (js + [j])[..|js|] == js;
  }

  lemma NoTables()
    ensures TablesToJson([]) == [] && TablesFromJson([]) == Loaded([])
  {
  }

  lemma {:induction false} TablesRoundTrip(ts: seq<NamedTable>)
    requires forall t <- ts :: PortableTable(t)
    ensures TablesFromJson(TablesToJson(ts)).Loaded?
    ensures var back := TablesFromJson(TablesToJson(ts)).value;
      && |back| == |ts|
      && forall i :: 0 <= i < |ts| ==> back[i] == Reloaded(ts[i])
    decreases |ts|
  {
    hide TableToJson, TableFromJson, Reloaded, PortableTable, TablesToJson, TablesFromJson;
    if ts == [] {
      NoTables();
    } else {
      var n := |ts| - 1;
      assert forall t <- ts[..n] :: t in ts;
      TablesRoundTrip(ts[..n]);
      assert ts == ts[..n] + [ts[n]] && ts[n] in ts;
      TableBack(ts[n]);
      TablesSnoc(ts[..n], ts[n], TablesToJson(ts[..n]), TableToJson(ts[n]));
    }
  }

  lemma TableBack(t: NamedTable)
    requires PortableTable(t)
    ensures TableFromJson(TableToJson(t)) == Loaded(Reloaded(t))
    ensures Reloaded(t).name == t.name && Reloaded(t).id == t.id && Reloaded(t).schema == t.schema
    ensures TableOk(t.schema, Reloaded(t).table)
    ensures Rows(Reloaded(t).table.pages) == Rows(t.table.pages)
    ensures Contents(Reloaded(t).table) == Contents(t.table)
  {
    hide TableToJson, TableFromJson, Compacted, LoadedTable, Rows, RowMap, DistinctIds, AllValid, PagesOk, Portable;
    TableRoundTrip(t);
  }

  /**
   * A saved database loads with its name, its tables in order with their names, ids, schemas,
   * contents and scan order, and a counter above every id.  The counter is the old one exactly
   * when the table created last is still there: an id above all surviving ones is issued again.
   */
  lemma CatalogueRoundTrip(c: Catalogue)
    requires CatalogueOk(c) && forall t <- c.tables :: PortableTable(t)
    ensures CatalogueFromJson(CatalogueToJson(c)).Loaded?
    ensures var back := CatalogueFromJson(CatalogueToJson(c)).value;
      && CatalogueOk(back)
      && back.name == c.name
      && |back.tables| == |c.tables|
      && (forall i :: 0 <= i < |c.tables| ==> SameTable(c.tables[i], back.tables[i]))
      && back.nextTableId <= c.nextTableId
      && (back.nextTableId == c.nextTableId
          <==> c.nextTableId == 0 || exists i :: 0 <= i < |c.tables| && c.tables[i].id == c.nextTableId - 1)
  {
    hide TablesToJson, TablesFromJson, CatalogueToJson, Reloaded, SameTable, CatalogueOk;
    CatalogueForm(c);
    TablesRoundTrip(c.tables);
    var ts, back := c.tables, TablesFromJson(TablesToJson(c.tables)).value;
    forall i | 0 <= i < |ts|
      ensures SameTable(ts[i], back[i]) && back[i].id == ts[i].id < INT_LIMIT && back[i].name == ts[i].name
    {
      assert ts[i] in ts;
      TableIsSame(ts[i]);
    }
    CatalogueIsObject(c);
    LoadedIsOk(c, back);
  }

  lemma CatalogueIsObject(c: Catalogue)
    ensures CatalogueToJson(c).Object?
    ensures CatalogueOk(c) ==> |c.tables| <= MAX_TABLES
  {
  }

  lemma LoadedIsOk(c: Catalogue, back: seq<NamedTable>)
    requires CatalogueOk(c) && |back| == |c.tables|
    requires forall i :: 0 <= i < |back| ==>
      back[i].id == c.tables[i].id < INT_LIMIT && back[i].name == c.tables[i].name
    ensures var now := LoadedCatalogue(c.name, back);
      && CatalogueOk(now)
      && now.nextTableId <= c.nextTableId
      && (now.nextTableId == c.nextTableId
          <==> c.nextTableId == 0 || exists i :: 0 <= i < |back| && c.tables[i].id == c.nextTableId - 1)
  {
    hide MaxTableId;
    var m := MaxTableId(back);
    assert m < INT_LIMIT;
    if back != [] {
      assert back[0].id == c.tables[0].id;
      var i: nat := if m > 0 then var i :| 0 <= i < |back| && back[i].id == m; i else 0;
      assert back[i].id == c.tables[i].id == m;
    }
  }

  ghost predicate SameTable(was: NamedTable, now: NamedTable) {
    && now.name == was.name
    && now.id == was.id
    && now.schema == was.schema
    && TableOk(now.schema, now.table)
    && Rows(now.table.pages) == Rows(was.table.pages)
    && Contents(now.table) == Contents(was.table)
  }

  lemma TableIsSame(t: NamedTable)
    requires PortableTable(t)
    ensures SameTable(t, Reloaded(t)) && Reloaded(t).id == t.id < INT_LIMIT && Reloaded(t).name == t.name
  {
    hide TableOk, Rows, Contents, LoadedTable, Compacted, Portable;
    TableBack(t);
  }

  /**
   * Nor does loading a database check names, ids or their number: the loaded catalogue is well-formed
   * exactly when the form's are distinct and not too many, and the counter does not wrap.
   */
  lemma LoadedCatalogueOkIff(name: string, ts: seq<NamedTable>)
    requires IdsBelow(ts, TABLE_ID_LIMIT)   // as the cast to ids gives them
    ensures CatalogueOk(LoadedCatalogue(name, ts)) <==>
      && |ts| <= MAX_TABLES && DistinctTableIds(ts) && DistinctNames(ts)
      && (ts == [] || MaxTableId(ts) + 1 < TABLE_ID_LIMIT)
  {
    hide DistinctTableIds, DistinctNames, MaxTableId;
    if ts != [] {
      assert ts[0].id <= MaxTableId(ts);
      var i: nat := if MaxTableId(ts) > 0 then var i :| 0 <= i < |ts| && ts[i].id == MaxTableId(ts); i else 0;
      assert ts[i].id == MaxTableId(ts) < TABLE_ID_LIMIT;
      if MaxTableId(ts) + 1 >= TABLE_ID_LIMIT {
        assert LoadedCatalogue(name, ts).nextTableId == 0;
      }
    }
  }

  /** A form with the same table twice loads with status OK into a catalogue that is not well-formed. */
  lemma SameTableTwiceLoads(name: string, t: NamedTable)
    requires PortableTable(t)
    ensures var c := Catalogue(name, [t, t], 0);
      && CatalogueFromJson(CatalogueToJson(c)) == Loaded(LoadedCatalogue(name, [Reloaded(t), Reloaded(t)]))
      && !CatalogueOk(LoadedCatalogue(name, [Reloaded(t), Reloaded(t)]))
  {
    hide TablesToJson, TablesFromJson, CatalogueToJson, Reloaded, PortableTable;
    var c := Catalogue(name, [t, t], 0);
    CatalogueForm(c);
    CatalogueIsObject(c);
    TablesRoundTrip(c.tables);
    assert TablesFromJson(TablesToJson(c.tables)).value == [Reloaded(t), Reloaded(t)];
    var ts := [Reloaded(t), Reloaded(t)];
    assert ts[0].id == ts[1].id;
  }
}
