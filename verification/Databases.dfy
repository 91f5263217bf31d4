/**
 * The database in memory: tables, two indexes and a counter, and the load that builds aside
 * and then replaces them.  A table is a cell that holds its value; deleting it clears `alive`.
 */
module Databases {
  import opened Bytes
  import opened Catalogues
  import opened Codecs
  import opened Common
  import opened JsonForms
  import opened Records
  import opened Tables

  class TableCell {
    var value: NamedTable
    var alive: bool

    constructor (value: NamedTable)
      ensures this.value == value && alive
    {
      this.value := value;
      alive := true;
    }
  }

  ghost function CellValues(cells: seq<TableCell>): (ts: seq<NamedTable>)
    reads cells
    ensures |ts| == |cells|
    ensures forall i :: 0 <= i < |cells| ==> ts[i] == cells[i].value
  {
    seq(|cells|, i requires 0 <= i < |cells| reads cells => cells[i].value)
  }

  ghost predicate DistinctCells(cells: seq<TableCell>) {
    forall i, j :: 0 <= i < j < |cells| ==> cells[i] != cells[j]
  }

  ghost predicate AllAlive(cells: seq<TableCell>)
    reads cells
  {
    forall c <- cells :: c.alive
  }

  /** The place of the table with this id, or the number of tables. */
  ghost function FindId(ts: seq<NamedTable>, id: nat): (i: nat)
    ensures i <= |ts|
    ensures i < |ts| ==> ts[i].id == id
    ensures forall j :: 0 <= j < i ==> ts[j].id != id
    decreases |ts|
  {
    if ts == [] || ts[0].id == id then 0 else 1 + FindId(ts[1..], id)
  }

  /** The name index holds exactly the names, with the ids of their tables. */
  ghost predicate NamesIndexed(ts: seq<NamedTable>, index: map<string, nat>) {
    forall name ::
      && (name in index <==> Find(ts, name) < |ts|)
      && (name in index ==> index[name] == ts[Find(ts, name)].id)
  }

  /** The id index holds exactly the ids, with the cells of their tables. */
  ghost predicate IdsIndexed(cells: seq<TableCell>, ts: seq<NamedTable>, tableIndex: map<nat, TableCell>) {
    && |ts| == |cells|
    && forall id: nat ::
      && (id in tableIndex <==> FindId(ts, id) < |ts|)
      && (id in tableIndex ==> tableIndex[id] == cells[FindId(ts, id)])
  }

  class Database {
    var name: string
    var tables: seq<TableCell>
    var index: map<string, nat>
    var tableIndex: map<nat, TableCell>
    var nextTableId: nat
    var dirty: bool

    ghost function State(): Catalogue
      reads this, tables
    {
      Catalogue(name, CellValues(tables), nextTableId)
    }

    ghost predicate Valid()
      reads this, tables
    {
      && DistinctCells(tables)
      && AllAlive(tables)
      && CatalogueOk(State())
      && NamesIndexed(State().tables, index)
      && IdsIndexed(tables, State().tables, tableIndex)
    }

    constructor (name: string)
      ensures Valid() && State() == Catalogue(name, [], 0)
    {
      this.name := name;
      tables, index, tableIndex, nextTableId, dirty := [], map[], map[], 0, false;
    }

    method HasTable(name: string) returns (has: bool)
      requires Valid()
      ensures has <==> Find(State().tables, name) < |tables|
    {
      hide CatalogueOk, IdsIndexed, DistinctCells, AllAlive, Find;
      return name in index;
    }

    /** The cell that both indexes lead to. */
    method GetTable(name: string) returns (found: Option<TableCell>)
      requires Valid()
      ensures var i := Find(State().tables, name);
        found == if i < |tables| then Some(tables[i]) else None
      ensures found.Some? ==> found.value.alive && found.value.value.name == name
    {
      hide CatalogueOk, DistinctCells, Find, FindId;
      var has := HasTable(name);
      if !has {
        return None;
      }
      OnlyHolder(State(), Find(State().tables, name));
      var tid := index[name];
      return Some(tableIndex[tid]);
    }

    /** Adds an empty table under a name not in use. */
    method AddTable(name: string, schema: seq<ColumnDef>)
      requires Valid() && |tables| < MAX_TABLES
      requires Find(State().tables, name) == |tables|
      modifies this
      ensures DistinctCells(tables) && AllAlive(tables)
      ensures NamesIndexed(State().tables, index) && IdsIndexed(tables, State().tables, tableIndex)
      ensures State() == Catalogue(old(this.name),
                                   old(State().tables) + [NamedTable(name, old(nextTableId), schema, EMPTY_TABLE)],
                                   (old(nextTableId) + 1) % TABLE_ID_LIMIT)
      ensures dirty
    {
      hide CatalogueOk, DistinctCells, NamesIndexed, IdsIndexed, CellValues, Find, AllAlive, FindId;
      ghost var ts := State().tables;
      NewId(State());
      var tid := nextTableId;
      nextTableId := (nextTableId + 1) % TABLE_ID_LIMIT;
      var cell := new TableCell(NamedTable(name, tid, schema, EMPTY_TABLE));
      CellJoins(tables, cell);
      IndexesGrow(ts, index, tableIndex, tables, cell, cell.value);
      tables := tables + [cell];
      index := index[name := tid];
      tableIndex := tableIndex[tid := cell];
      dirty := true;
    }

    method CreateTable(name: string, schema: seq<ColumnDef>) returns (status: Status)
      requires Valid()
      modifies this
      ensures status != OK || old(nextTableId) + 1 < TABLE_ID_LIMIT ==> Valid()
      ensures DistinctCells(tables) && AllAlive(tables)
      ensures NamesIndexed(State().tables, index) && IdsIndexed(tables, State().tables, tableIndex)
      ensures (status, State()) == CatalogueExec(old(State()), CatalogueOp.CreateTable(name, schema))
      ensures status ==
        if old(|tables|) >= 256 then OUT_OF_MEMORY
        else if old(exists i :: 0 <= i < |tables| && tables[i].value.name == name) then TABLE_ALREADY_EXISTS else OK
      ensures dirty == (old(dirty) || status == OK)
    {
      hide CatalogueOk, DistinctCells, NamesIndexed, IdsIndexed, CellValues, Find, AllAlive;
      if |tables| >= MAX_TABLES {
        return OUT_OF_MEMORY;
      }
      var has := HasTable(name);
      if has {
        return TABLE_ALREADY_EXISTS;
      }
      CatalogueStep(State(), CatalogueOp.CreateTable(name, schema));
      AddTable(name, schema);
      return OK;
    }

    /** Deletes the table with this id and takes it out of the list; the others keep their order. */
    method RemoveWithId(tid: nat)
      requires Valid() && FindId(State().tables, tid) < |tables|
      modifies this`tables, tables
      ensures var i := FindId(old(State().tables), tid);
        && tables == old(tables[..i] + tables[i + 1..])
        && !old(tables[i]).alive
      ensures AllAlive(tables)
      ensures forall c <- old(tables) :: c.value == old(c.value)
    {
      hide NamesIndexed, IdsIndexed, FindId, Find, CatalogueOk, CellValues, KeptCells, DistinctCells;
      ghost var c, cells, i := State(), tables, FindId(State().tables, tid);
      CellsApart(tables, i);
      AllKept(tables, i);
      var kept: seq<TableCell>, k := [], 0;
      while k < |tables|
        invariant 0 <= k <= |tables| && tables == cells
        invariant kept == KeptCells(cells, i, k)
        invariant forall j :: 0 <= j < |tables| ==> tables[j].value == c.tables[j]
        invariant forall j :: 0 <= j < |tables| ==> (tables[j].alive <==> !(j == i && k > i))
      {
        OnlyHolder(c, k);
        KeptOneMore(cells, i, k);
        if tables[k].value.id == tid {
          tables[k].alive := false;
        } else {
          kept := kept + [tables[k]];
        }
        k := k + 1;
      }
      tables := kept;
    }

    method DropTable(name: string) returns (status: Status)
      requires Valid()
      modifies this, tables
      ensures Valid()
      ensures (status, State()) == CatalogueExec(old(State()), CatalogueOp.DropTable(name))
      ensures status == OK ==> !old(tables[Find(State().tables, name)]).alive
      ensures status == if old(exists i :: 0 <= i < |tables| && tables[i].value.name == name) then OK else TABLE_NOT_FOUND
      ensures dirty == (old(dirty) || status == OK)
    {
      hide CatalogueOk, DistinctCells, NamesIndexed, IdsIndexed, CellValues, Find, AllAlive, FindId, CatalogueExec;
      DropIs(State(), name);
      var has := HasTable(name);
      if !has {
        return TABLE_NOT_FOUND;
      }
      RemoveTable(name);
      return OK;
    }

    method RemoveTable(name: string)
      requires Valid() && Find(State().tables, name) < |tables|
      modifies this, tables
      ensures DistinctCells(tables) && AllAlive(tables)
      ensures NamesIndexed(State().tables, index) && IdsIndexed(tables, State().tables, tableIndex)
      ensures var c, i := old(State()), Find(old(State().tables), name);
        && State() == c.(tables := c.tables[..i] + c.tables[i + 1..])
        && !old(tables[i]).alive
      ensures dirty
    {
      hide CatalogueOk, DistinctCells, NamesIndexed, IdsIndexed, CellValues, Find, AllAlive, FindId;
      ghost var c, cells, i := State(), tables, Find(State().tables, name);
      OnlyHolder(c, i);
      IndexedId(c.tables, index, name);
      var tid := index[name];
      RemoveWithId(tid);
      CellLeaves(cells, c.tables, i);
      IndexesShrink(c, index, tableIndex, cells, i);
      index := index - {name};
      tableIndex := tableIndex - {tid};
      dirty := true;
    }

    /** Builds the tables of the form aside; a failure leaves nothing behind. */
    method BuildTables(js: seq<Json>)
      returns (r: Parsed<()>, cells: seq<TableCell>, names: map<string, nat>, ids: map<nat, TableCell>, maxId: nat)
      ensures Built(TablesFromJson(js), r, cells, names, ids, maxId)
      ensures fresh(cells)
    {
      hide TableFromJson, NamesIndexed, IdsIndexed, CellValues, DistinctCells, AllAlive, TablesFromJson, MaxTableId,
           DistinctNames, DistinctTableIds;
      cells, names, ids, maxId := [], map[], map[], 0;
      ghost var ts: seq<NamedTable> := [];
      NothingBuilt();
      for k := 0 to |js|
        invariant TablesFromJson(js[..k]) == Loaded(ts)
        invariant fresh(cells)
        invariant DistinctCells(cells) && AllAlive(cells) && CellValues(cells) == ts
        invariant maxId == MaxTableId(ts)
        invariant DistinctNames(ts) && DistinctTableIds(ts) ==> NamesIndexed(ts, names) && IdsIndexed(cells, ts, ids)
      {
        var parsed := TableFromJson(js[k]);
        NextTable(js, k);
        if !parsed.Loaded? {
          FailureStays(js, k + 1);
          return FailureOf(parsed), [], map[], map[], 0;
        }
        var t := parsed.value;
        var cell := new TableCell(t);
        CellJoins(cells, cell);
        OneMoreBuilt(ts, names, ids, cells, cell, t);
        maxId := if t.id > maxId then t.id else maxId;
        names := names[t.name := t.id];
        ids := ids[t.id := cell];
        cells := cells + [cell];
        ts := ts + [t];
      }
      assert js[..|js|] == js;
      r := Loaded(());
    }

    /**
     * Replaces the database by the one in the form.  The old tables are deleted before the
     * name is read.
     */
    method FromJson(j: Json) returns (r: Parsed<()>)
      modifies this, tables
      ensures r.Loaded? <==> CatalogueFromJson(j).Loaded?
      ensures r.Rejected? ==> CatalogueFromJson(j) == Rejected(r.status)
      ensures r.Thrown? <==> CatalogueFromJson(j).Thrown?
      ensures r.Undefined? <==> CatalogueFromJson(j).Undefined?
      ensures r.Loaded? ==>
        && State() == CatalogueFromJson(j).value
        && fresh(tables) && !dirty
        && DistinctCells(tables) && AllAlive(tables)
        && (CatalogueOk(State()) ==> Valid())
      ensures r.Rejected? || r.Thrown? ==> unchanged(this)
      ensures (r.Rejected? || r.Thrown?) && !FailsTooLate(j) ==> unchanged(tables)
      ensures r.Loaded? || FailsTooLate(j) ==> forall c <- old(tables) :: !c.alive
    {
      hide Valid, State, Built, CellValues, DistinctCells, CatalogueOk, CatalogueFromJson, FailsTooLate,
           ScratchTables, LoadedCatalogue;
      FormCases(j);
      var cells, names, ids, maxId;
      r, cells, names, ids, maxId := BuildScratch(j);
      BuiltOrFailed(ScratchTables(j), r, cells, names, ids, maxId);
      if !r.Loaded? {
        return;
      }
      DeleteAll();
      var newName := AsString(j.Get("__db_name__"));
      if !newName.Loaded? {
        return FailureOf(newName);
      }
      Install(newName.value, cells, names, ids, maxId, ScratchTables(j).value);
    }

    /** Puts what was built aside in the place of what there was. */
    method Install(newName: string, cells: seq<TableCell>, names: map<string, nat>, ids: map<nat, TableCell>,
                   maxId: nat, ghost ts: seq<NamedTable>)
      requires Built(Loaded(ts), Loaded(()), cells, names, ids, maxId)
      modifies this
      ensures State() == LoadedCatalogue(newName, ts) && tables == cells && !dirty
      ensures DistinctCells(tables) && AllAlive(tables) && (CatalogueOk(State()) ==> Valid())
    {
      hide NamesIndexed, IdsIndexed, CellValues, DistinctCells, MaxTableId, CatalogueOk;
      name := newName;
      tables, index, tableIndex := cells, names, ids;
      nextTableId := if tables == [] then 0 else (maxId + 1) % TABLE_ID_LIMIT;
      dirty := false;
      OkIsDistinct(State());
    }

    method BuildScratch(j: Json)
      returns (r: Parsed<()>, cells: seq<TableCell>, names: map<string, nat>, ids: map<nat, TableCell>, maxId: nat)
      ensures Built(ScratchTables(j), r, cells, names, ids, maxId)
      ensures fresh(cells)
    {
      hide TablesFromJson, Built;
      if j.Null? {
        FailedBuild(ScratchTables(j));
        return Rejected(PARSE_ERROR), [], map[], map[], 0;
      }
      var arr := AsArray(j.Get("tables"));
      if !arr.Loaded? {
        FailedBuild(ScratchTables(j));
        return FailureOf(arr), [], map[], map[], 0;
      }
      if |arr.value| > MAX_TABLES {
        FailedBuild(ScratchTables(j));
        return Rejected(OUT_OF_MEMORY), [], map[], map[], 0;
      }
      r, cells, names, ids, maxId := BuildTables(arr.value);
    }

    method DeleteAll()
      modifies tables
      ensures forall c <- tables :: !c.alive && c.value == old(c.value)
    {
      for k := 0 to |tables|
        invariant forall c <- tables :: c.value == old(c.value)
        invariant forall j :: 0 <= j < k ==> !tables[j].alive
      {
        tables[k].alive := false;
      }
    }

    /** Loading a file's text, or failing to read it; exceptions become PARSE_ERROR. */
    method Load(raw: Option<seq<byte>>, codec: Codec) returns (status: Status)
      modifies this, tables
      ensures raw.None? ==> status == IO_ERROR
      ensures var parsed := if raw.Some? then codec.parse(raw.value) else None;
        parsed.None? || !CatalogueFromJson(parsed.value).Undefined? ==>
        && (status == OK ==> parsed.Some? && CatalogueFromJson(parsed.value) == Loaded(State()) && AllAlive(tables)
                             && (CatalogueOk(State()) ==> Valid()))
        && (parsed.Some? && CatalogueFromJson(parsed.value).Loaded? ==> status == OK)
        && (status != OK ==> unchanged(this))
        && (status != OK ==> (if parsed.Some? && FailsTooLate(parsed.value) then forall c <- tables :: !c.alive
                              else unchanged(tables)))
    {
      hide CatalogueFromJson, FailsTooLate, CatalogueOk, NamesIndexed, IdsIndexed, CellValues, DistinctCells;
      if raw.None? {
        return IO_ERROR;
      }
      var parsed := codec.parse(raw.value);
      if parsed.None? {
        return PARSE_ERROR;
      }
      NullFails(parsed.value);
      if parsed.value.Null? {
        return PARSE_ERROR;
      }
      var r := FromJson(parsed.value);
      if r.Loaded? {
        return OK;
      }
      RejectionIsNotOk(parsed.value);
      return if r.Rejected? then r.status else PARSE_ERROR;   // for an undefined cast, anything
    }
  }

  /** The same failure, of a value of another type. */
  function FailureOf<T, U>(p: Parsed<T>): (r: Parsed<U>)
    requires !p.Loaded?
    ensures !r.Loaded?
  {
    p.PropagateFailure()
  }

  /** Either all tables are in cells and indexes, or the failure is reported. */
  ghost predicate Built(p: Parsed<seq<NamedTable>>, r: Parsed<()>, cells: seq<TableCell>,
                        names: map<string, nat>, ids: map<nat, TableCell>, maxId: nat)
    reads cells
  {
    match p
    case Loaded(ts) =>
      && r.Loaded? && DistinctCells(cells) && AllAlive(cells) && CellValues(cells) == ts
      && maxId == MaxTableId(ts)
      && (DistinctNames(ts) && DistinctTableIds(ts) ==> NamesIndexed(ts, names) && IdsIndexed(cells, ts, ids))
    case _ => r == FailureOf(p)
  }

  lemma FailedBuild(p: Parsed<seq<NamedTable>>)
    requires !p.Loaded?
    ensures Built(p, FailureOf(p), [], map[], map[], 0)
  {
  }

  lemma BuiltOrFailed(p: Parsed<seq<NamedTable>>, r: Parsed<()>, cells: seq<TableCell>,
                      names: map<string, nat>, ids: map<nat, TableCell>, maxId: nat)
    requires Built(p, r, cells, names, ids, maxId)
    ensures if p.Loaded? then r == Loaded(()) else r == FailureOf(p)
  {
    if p.Loaded? {
      assert r.value == ();
    }
  }

  lemma FormCases(j: Json)
    ensures !ScratchTables(j).Loaded? ==> CatalogueFromJson(j) == FailureOf(ScratchTables(j)) && !FailsTooLate(j)
    ensures ScratchTables(j).Loaded? ==>
      if j.Get("__db_name__").Str? then
        CatalogueFromJson(j) == Loaded(LoadedCatalogue(j.Get("__db_name__").s, ScratchTables(j).value)) && !FailsTooLate(j)
      else CatalogueFromJson(j) == Thrown && FailsTooLate(j)
  {
    hide TablesFromJson;
  }

  lemma NextTable(js: seq<Json>, k: nat)
    requires k < |js|
    ensures TablesFromJson(js[..k]).Loaded? ==>
      TablesFromJson(js[..k + 1]) ==
        match TableFromJson(js[k])
        case Loaded(t) => Loaded(TablesFromJson(js[..k]).value + [t])
        case _ => FailureOf(TableFromJson(js[k]))
  {
    hide TableFromJson;
    assert js[..k + 1][..k] == js[..k];
  }

  lemma {:induction false} FailureStays(js: seq<Json>, k: nat)
    requires k <= |js| && !TablesFromJson(js[..k]).Loaded?
    ensures TablesFromJson(js) == TablesFromJson(js[..k])
    decreases |js|
  {
    hide TableFromJson;
    if k < |js| {
      var n := |js| - 1;
      assert js[..n][..k] == js[..k];
      FailureStays(js[..n], k);
    } else {
      assert js[..k] == js;
    }
  }

  lemma NothingBuilt()
    ensures TablesFromJson([]) == Loaded([]) && MaxTableId([]) == 0
    ensures DistinctCells([]) && AllAlive([]) && CellValues([]) == []
    ensures NamesIndexed([], map[]) && IdsIndexed([], [], map[])
  {
  }

  lemma OneMoreBuilt(ts: seq<NamedTable>, names: map<string, nat>, ids: map<nat, TableCell>,
                     cells: seq<TableCell>, cell: TableCell, t: NamedTable)
    requires DistinctNames(ts) && DistinctTableIds(ts) ==> NamesIndexed(ts, names) && IdsIndexed(cells, ts, ids)
    ensures MaxTableId(ts + [t]) == if t.id > MaxTableId(ts) then t.id else MaxTableId(ts)
    ensures DistinctNames(ts + [t]) && DistinctTableIds(ts + [t]) ==>
      NamesIndexed(ts + [t], names[t.name := t.id]) && IdsIndexed(cells + [cell], ts + [t], ids[t.id := cell])
  {
    hide NamesIndexed, IdsIndexed;
    assert (ts + [t])[..|ts|] == ts;
    if DistinctNames(ts + [t]) && DistinctTableIds(ts + [t]) {
      LastIsNew(ts, t);
      IndexesGrow(ts, names, ids, cells, cell, t);
    }
  }

  lemma LastIsNew(ts: seq<NamedTable>, t: NamedTable)
    requires DistinctNames(ts + [t]) && DistinctTableIds(ts + [t])
    ensures DistinctNames(ts) && DistinctTableIds(ts)
    ensures Find(ts, t.name) == |ts| && FindId(ts, t.id) == |ts|
  {
    var now := ts + [t];
    assert forall i :: 0 <= i < |ts| ==> now[i] == ts[i];
    assert now[|ts|] == t;
  }

  lemma OkIsDistinct(c: Catalogue)
    ensures CatalogueOk(c) ==> DistinctNames(c.tables) && DistinctTableIds(c.tables)
  {
  }

  lemma NullFails(j: Json)
    ensures j.Null? ==> CatalogueFromJson(j) == Rejected(PARSE_ERROR) && !FailsTooLate(j)
  {
  }

  lemma RejectionIsNotOk(j: Json)
    ensures CatalogueFromJson(j) != Rejected(OK)
  {
  }

  /** The cells among the first `k` other than cell `i`. */
  ghost function KeptCells(cells: seq<TableCell>, i: nat, k: nat): seq<TableCell>
    requires k <= |cells|
  {
    if k <= i then cells[..k] else cells[..i] + cells[i + 1..k]
  }

  lemma KeptOneMore(cells: seq<TableCell>, i: nat, k: nat)
    requires k < |cells|
    ensures KeptCells(cells, i, k + 1) == KeptCells(cells, i, k) + if k == i then [] else [cells[k]]
  {
  }

  lemma AllKept(cells: seq<TableCell>, i: nat)
    requires i < |cells|
    ensures KeptCells(cells, i, 0) == [] && KeptCells(cells, i, |cells|) == cells[..i] + cells[i + 1..]
    ensures forall c <- KeptCells(cells, i, |cells|) :: exists j :: 0 <= j < |cells| && j != i && cells[j] == c
  {
    forall c | c in KeptCells(cells, i, |cells|)
      ensures exists j :: 0 <= j < |cells| && j != i && cells[j] == c
    {
      var rest := KeptCells(cells, i, |cells|);
      var k :| 0 <= k < |rest| && rest[k] == c;
      assert cells[if k < i then k else k + 1] == c;
    }
  }

  lemma CellsApart(cells: seq<TableCell>, i: nat)
    requires DistinctCells(cells) && i < |cells|
    ensures forall j :: 0 <= j < |cells| && j != i ==> cells[j] != cells[i]
  {
  }

  lemma IndexedId(ts: seq<NamedTable>, index: map<string, nat>, name: string)
    requires NamesIndexed(ts, index) && Find(ts, name) < |ts|
    ensures name in index && index[name] == ts[Find(ts, name)].id
  {
  }

  lemma DropIs(c: Catalogue, name: string)
    requires CatalogueOk(c)
    ensures var ts, i := c.tables, Find(c.tables, name);
      && CatalogueExec(c, CatalogueOp.DropTable(name)) ==
           (if i == |ts| then (TABLE_NOT_FOUND, c) else (OK, c.(tables := ts[..i] + ts[i + 1..])))
      && CatalogueOk(CatalogueExec(c, CatalogueOp.DropTable(name)).1)
  {
    hide CatalogueOk;
    CatalogueStep(c, CatalogueOp.DropTable(name));
  }

  lemma NewId(c: Catalogue)
    requires CatalogueOk(c)
    ensures FindId(c.tables, c.nextTableId) == |c.tables|
  {
  }

  lemma OnlyHolder(c: Catalogue, i: nat)
    requires CatalogueOk(c) && i < |c.tables|
    ensures FindId(c.tables, c.tables[i].id) == i
    ensures Find(c.tables, c.tables[i].name) == i
  {
  }

  lemma CellJoins(cells: seq<TableCell>, cell: TableCell)
    requires DistinctCells(cells) && AllAlive(cells) && cell !in cells && cell.alive
    ensures DistinctCells(cells + [cell]) && AllAlive(cells + [cell])
    ensures CellValues(cells + [cell]) == CellValues(cells) + [cell.value]
  {
  }

  lemma {:induction false} FindConcat(a: seq<NamedTable>, b: seq<NamedTable>, name: string)
    ensures Find(a + b, name) == if Find(a, name) < |a| then Find(a, name) else |a| + Find(b, name)
    decreases |a|
  {
    if a == [] {
      assert a + b == b;
    } else {
      assert (a + b)[1..] == a[1..] + b;
      FindConcat(a[1..], b, name);
    }
  }

  lemma {:induction false} FindIdConcat(a: seq<NamedTable>, b: seq<NamedTable>, id: nat)
    ensures FindId(a + b, id) == if FindId(a, id) < |a| then FindId(a, id) else |a| + FindId(b, id)
    decreases |a|
  {
    if a == [] {
      assert a + b == b;
    } else {
      assert (a + b)[1..] == a[1..] + b;
      FindIdConcat(a[1..], b, id);
    }
  }

  lemma FindOne(t: NamedTable, name: string, id: nat)
    ensures Find([t], name) == (if t.name == name then 0 else 1)
    ensures FindId([t], id) == (if t.id == id then 0 else 1)
  {
  }

  /** A table with a new name and a new id joins both indexes. */
  lemma IndexesGrow(ts: seq<NamedTable>, index: map<string, nat>, tableIndex: map<nat, TableCell>,
                    cells: seq<TableCell>, cell: TableCell, t: NamedTable)
    requires NamesIndexed(ts, index) && IdsIndexed(cells, ts, tableIndex)
    requires Find(ts, t.name) == |ts| && FindId(ts, t.id) == |ts|
    ensures NamesIndexed(ts + [t], index[t.name := t.id])
    ensures IdsIndexed(cells + [cell], ts + [t], tableIndex[t.id := cell])
  {
    NamesGrow(ts, index, t);
    IdsGrow(ts, tableIndex, cells, cell, t);
  }

  lemma NamesGrow(ts: seq<NamedTable>, index: map<string, nat>, t: NamedTable)
    requires NamesIndexed(ts, index) && Find(ts, t.name) == |ts|
    ensures NamesIndexed(ts + [t], index[t.name := t.id])
  {
    hide Find, FindId;
    var now := index[t.name := t.id];
    forall name
      ensures name in now <==> Find(ts + [t], name) < |ts| + 1
      ensures name in now ==> now[name] == (ts + [t])[Find(ts + [t], name)].id
    {
      FindConcat(ts, [t], name);
      FindOne(t, name, 0);
    }
  }

  lemma IdsGrow(ts: seq<NamedTable>, tableIndex: map<nat, TableCell>, cells: seq<TableCell>, cell: TableCell, t: NamedTable)
    requires IdsIndexed(cells, ts, tableIndex) && FindId(ts, t.id) == |ts|
    ensures IdsIndexed(cells + [cell], ts + [t], tableIndex[t.id := cell])
  {
    hide Find, FindId;
    var now := tableIndex[t.id := cell];
    forall id: nat
      ensures id in now <==> FindId(ts + [t], id) < |ts| + 1
      ensures id in now ==> now[id] == (cells + [cell])[FindId(ts + [t], id)]
    {
      FindIdConcat(ts, [t], id);
      FindOne(t, t.name, id);
    }
  }

  lemma CellLeaves(cells: seq<TableCell>, ts: seq<NamedTable>, i: nat)
    requires DistinctCells(cells) && i < |cells| == |ts|
    requires forall j :: 0 <= j < |cells| ==> cells[j].value == ts[j]
    ensures DistinctCells(cells[..i] + cells[i + 1..])
    ensures CellValues(cells[..i] + cells[i + 1..]) == ts[..i] + ts[i + 1..]
  {
  }

  /** Where a table is found once table `i` is gone. */
  function Moved(j: nat, i: nat, n: nat): nat
    requires i < n
  {
    if j < i then j else if j == i then n - 1 else j - 1
  }

  lemma FoundInRest(c: Catalogue, i: nat, name: string, id: nat)
    requires CatalogueOk(c) && i < |c.tables|
    ensures var ts := c.tables;
      var rest := ts[..i] + ts[i + 1..];
      Find(rest, name) == Moved(Find(ts, name), i, |ts|) && FindId(rest, id) == Moved(FindId(ts, id), i, |ts|)
  {
    hide Find, FindId, CatalogueOk, DistinctNames, DistinctTableIds;
    var ts, a, b := c.tables, c.tables[..i], c.tables[i + 1..];
    NotBehind(c, i);
    assert ts == a + [ts[i]] + b;
    FindConcat(a + [ts[i]], b, name);
    FindConcat(a, [ts[i]], name);
    FindConcat(a, b, name);
    FindIdConcat(a + [ts[i]], b, id);
    FindIdConcat(a, [ts[i]], id);
    FindIdConcat(a, b, id);
    FindOne(ts[i], name, id);
  }

  lemma NotBehind(c: Catalogue, i: nat)
    requires CatalogueOk(c) && i < |c.tables|
    ensures Find(c.tables[i + 1..], c.tables[i].name) == |c.tables| - i - 1
    ensures FindId(c.tables[i + 1..], c.tables[i].id) == |c.tables| - i - 1
  {
  }

  lemma NameShrinks(c: Catalogue, index: map<string, nat>, i: nat, name: string)
    requires CatalogueOk(c) && NamesIndexed(c.tables, index) && i < |c.tables|
    ensures var rest, now := c.tables[..i] + c.tables[i + 1..], index - {c.tables[i].name};
      && (name in now <==> Find(rest, name) < |rest|)
      && (name in now ==> now[name] == rest[Find(rest, name)].id)
  {
    hide Find, FindId, CatalogueOk;
    OnlyHolder(c, i);
    FoundInRest(c, i, name, 0);
    var j := Find(c.tables, name);
    assert name in index <==> j < |c.tables|;
  }

  lemma IdShrinks(c: Catalogue, tableIndex: map<nat, TableCell>, cells: seq<TableCell>, i: nat, id: nat)
    requires CatalogueOk(c) && IdsIndexed(cells, c.tables, tableIndex) && i < |c.tables|
    ensures var rest, now := c.tables[..i] + c.tables[i + 1..], tableIndex - {c.tables[i].id};
      && (id in now <==> FindId(rest, id) < |rest|)
      && (id in now ==> now[id] == (cells[..i] + cells[i + 1..])[FindId(rest, id)])
  {
    hide Find, FindId, CatalogueOk;
    OnlyHolder(c, i);
    FoundInRest(c, i, "", id);
    var j := FindId(c.tables, id);
    assert id in tableIndex <==> j < |c.tables|;
  }

  lemma IndexesShrink(c: Catalogue, index: map<string, nat>, tableIndex: map<nat, TableCell>, cells: seq<TableCell>, i: nat)
    requires CatalogueOk(c) && NamesIndexed(c.tables, index) && IdsIndexed(cells, c.tables, tableIndex)
    requires i < |c.tables|
    ensures var rest := c.tables[..i] + c.tables[i + 1..];
      && NamesIndexed(rest, index - {c.tables[i].name})
      && IdsIndexed(cells[..i] + cells[i + 1..], rest, tableIndex - {c.tables[i].id})
  {
    hide Find, FindId, CatalogueOk;
    var rest := c.tables[..i] + c.tables[i + 1..];
    assert NamesIndexed(rest, index - {c.tables[i].name}) by {
      forall name
        ensures var now := index - {c.tables[i].name};
          (name in now <==> Find(rest, name) < |rest|) && (name in now ==> now[name] == rest[Find(rest, name)].id)
      {
        NameShrinks(c, index, i, name);
      }
    }
    forall id: nat
      ensures var now := tableIndex - {c.tables[i].id};
        && (id in now <==> FindId(rest, id) < |rest|)
        && (id in now ==> now[id] == (cells[..i] + cells[i + 1..])[FindId(rest, id)])
    {
      IdShrinks(c, tableIndex, cells, i, id);
    }
  }
}
