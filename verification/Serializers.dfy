/** Export of a table to a list of JSON objects, and import of such a list into a table. */
module Serializers {
  import opened Common
  import opened JsonForms
  import opened Records
  import opened Tables
  import opened TableStore

  // ---------------------------------------------------------------------------
  //  Entries
  // ---------------------------------------------------------------------------

  /** An exported record: its data, with the id in an extra field. */
  function EntryOf(id: nat, data: Json): Json
    requires data.Object?
  {
    Object(data.fields["id" := Number(Whole(ToInt(id)))])
  }

  /** The record that entry number `k` of a list stands for. */
  function EntryRecord(entry: Json, k: nat): Parsed<Record> {
    if entry.Has("id") && entry.Get("id").Number? then
      var id :- ToUnsigned(entry.Get("id").r, UINT64_LIMIT);
      Loaded(Record(id, Object(entry.fields - {"id"}), false))
    else Loaded(Record(k, entry, false))
  }

  /** An exported record comes back exactly when its id is below 2^31 and it has no "id" of its own. */
  lemma EntryRoundTripIff(id: nat, data: Json, k: nat)
    requires data.Object? && id < UINT64_LIMIT
    ensures EntryRecord(EntryOf(id, data), k) == Loaded(Record(id, data, false))
      <==> id < INT_LIMIT && "id" !in data.fields
  {
    hide ToInt, ToUnsigned;
    IdRoundTripIff(id, UINT64_LIMIT);
    var entry := EntryOf(id, data);
    if "id" !in data.fields {
      assert entry.fields - {"id"} == data.fields;
    } else {
      assert "id" !in entry.fields - {"id"};
    }
  }

  // ---------------------------------------------------------------------------
  //  Export
  // ---------------------------------------------------------------------------

  predicate Exportable(rows: seq<Row>) {
    forall row <- rows :: row.data.Object?
  }

  function Exported(rows: seq<Row>): (js: seq<Json>)
    requires Exportable(rows)
    ensures |js| == |rows|
    ensures forall i :: 0 <= i < |rows| ==> rows[i].data.Object? && js[i] == EntryOf(rows[i].id, rows[i].data)
  {
    seq(|rows|, i requires 0 <= i < |rows| => assert rows[i] in rows; EntryOf(rows[i].id, rows[i].data))
  }

  /** What the JSON library makes of assigning a member to a value that is not an object. */
  type Assign = (Json, Json) -> Parsed<Json>

  function ExportEntry(id: nat, data: Json, other: Assign): Parsed<Json> {
    if data.Object? then Loaded(EntryOf(id, data)) else other(data, Number(Whole(ToInt(id))))
  }

  /** The export of any rows; the first entry that cannot be made ends it. */
  function ExportedAny(rows: seq<Row>, other: Assign): Parsed<seq<Json>>
    decreases |rows|
  {
    if rows == [] then Loaded([])
    else
      var before :- ExportedAny(rows[..|rows| - 1], other);
      var entry :- ExportEntry(rows[|rows| - 1].id, rows[|rows| - 1].data, other);
      Loaded(before + [entry])
  }

  /** Objects export as entries with their ids, whatever the library does with other values. */
  lemma {:induction false} ExportedObjects(rows: seq<Row>, other: Assign)
    ensures Exportable(rows) ==> ExportedAny(rows, other) == Loaded(Exported(rows))
    decreases |rows|
  {
    hide EntryOf;
    if Exportable(rows) && rows != [] {
      var n := |rows| - 1;
      assert rows[n] in rows && forall row <- rows[..n] :: row in rows;
      ExportedObjects(rows[..n], other);
      assert Exported(rows) == Exported(rows[..n]) + [EntryOf(rows[n].id, rows[n].data)];
    }
  }

  // ---------------------------------------------------------------------------
  //  Import
  // ---------------------------------------------------------------------------

  /** Every id in the list is one that its cast is defined for. */
  predicate DefinedEntries(js: seq<Json>) {
    forall i :: 0 <= i < |js| ==> EntryRecord(js[i], i).Loaded?
  }

  function InsertOf(js: seq<Json>, i: nat): Op
    requires DefinedEntries(js) && i < |js|
  {
    Insert(EntryRecord(js[i], i).value)
  }

  /** Inserts entry after entry, until one is refused. */
  function Imported(schema: seq<ColumnDef>, t: TableVal, js: seq<Json>): (Status, TableVal)
    requires DefinedEntries(js)
    decreases |js|
  {
    if js == [] then (OK, t)
    else
      var n := |js| - 1;
      var (status, before) := Imported(schema, t, js[..n]);
      if status != OK then (status, before) else Exec(schema, before, InsertOf(js, n))
  }

  /** No insert of the import wraps the page counter. */
  predicate ImportFits(schema: seq<ColumnDef>, t: TableVal, js: seq<Json>)
    requires DefinedEntries(js)
    decreases |js|
  {
    if js == [] then true
    else
      var n := |js| - 1;
      ImportFits(schema, t, js[..n]) && (Imported(schema, t, js).0 == OK ==> NoWrap(Imported(schema, t, js[..n]).1))
  }

  /** Lists too short to use up the page ids fit. */
  lemma {:induction false} ShortListsFit(schema: seq<ColumnDef>, t: TableVal, js: seq<Json>)
    requires DefinedEntries(js) && t.nextPageId + |js| < PAGE_ID_LIMIT
    ensures ImportFits(schema, t, js) && Imported(schema, t, js).1.nextPageId <= t.nextPageId + |js|
    decreases |js|
  {
    hide Exec, EntryRecord;
    if js != [] {
      var n := |js| - 1;
      ShortListsFit(schema, t, js[..n]);
      CounterGrowsByOne(schema, Imported(schema, t, js[..n]).1, EntryRecord(js[n], n).value);
    }
  }

  /** The map that the first entries of a list make of another. */
  function WithEntries(m: map<nat, Json>, js: seq<Json>): map<nat, Json>
    requires DefinedEntries(js)
    decreases |js|
  {
    if js == [] then m
    else
      var r := EntryRecord(js[|js| - 1], |js| - 1).value;
      WithEntries(m, js[..|js| - 1])[r.id := r.data]
  }

  /**
   * An import keeps the table well-formed.  Some number of entries went in, and the table holds
   * exactly what it held and those; that is all of them if the status is OK, and otherwise the
   * next entry is one that the table refuses with this status.
   */
  lemma {:induction false} ImportStopsAtFirstRefusal(schema: seq<ColumnDef>, t: TableVal, js: seq<Json>) returns (n: nat)
    requires TableOk(schema, t) && DefinedEntries(js) && ImportFits(schema, t, js)
    ensures n <= |js|
    ensures var (status, now) := Imported(schema, t, js);
      && TableOk(schema, now)
      && Contents(now) == WithEntries(Contents(t), js[..n])
      && (status == OK ==> n == |js|)
      && (status != OK ==> n < |js| && status == Exec(schema, now, InsertOf(js, n)).0
                           && status == MapExec(schema, Contents(now), InsertOf(js, n)).0)
    decreases |js|
  {
    hide TableOk, Contents, Exec, MapExec, EntryRecord;
    if js == [] {
      n := 0;
    } else {
      var k := |js| - 1;
      n := ImportStopsAtFirstRefusal(schema, t, js[..k]);
      var (status, before) := Imported(schema, t, js[..k]);
      assert js[..k][..n] == js[..n];
      if status == OK {
        ExecRefines(schema, before, InsertOf(js, k));
        InsertOutcome(schema, before, EntryRecord(js[k], k).value);
        if Imported(schema, t, js).0 == OK {
          assert js[..k + 1] == js && js[..k] == js[..n];
          n := k + 1;
        }
      }
    }
  }

  lemma InsertOutcome(schema: seq<ColumnDef>, t: TableVal, r: Record)
    ensures Exec(schema, t, Insert(r)).0 != OK ==> Exec(schema, t, Insert(r)).1 == t
    ensures MapExec(schema, Contents(t), Insert(r)).0 == OK ==>
      MapExec(schema, Contents(t), Insert(r)).1 == Contents(t)[r.id := r.data]
  {
    hide Contents, Inserted, Validation;
  }

  /** An entry with a numeric "id" has that id, cut to a whole number, and loses the member; any other has its position. */
  lemma EntryIs(entry: Json, k: nat)
    ensures !(entry.Object? && "id" in entry.fields && entry.fields["id"].Number?) ==>
      EntryRecord(entry, k) == Loaded(Record(k, entry, false))
    ensures entry.Object? && "id" in entry.fields && entry.fields["id"].Number? ==>
      var x, r := entry.fields["id"].r, EntryRecord(entry, k);
      && (r.Loaded? <==> -1.0 < x < 18446744073709551616.0)
      && (r.Loaded? ==>
            && (if x < 0.0 then r.value.id == 0 else r.value.id as real <= x < r.value.id as real + 1.0)
            && r.value.data == Object(entry.fields - {"id"}) && !r.value.deleted)
  {
  }

  /** The map `found` is `was` and the first `n` pairs, which have ids of their own. */
  ghost predicate Took(was: map<nat, Json>, found: map<nat, Json>, ids: seq<nat>, datas: seq<Json>, n: nat) {
    && n <= |ids| == |datas|
    && (forall i :: 0 <= i < n ==> ids[i] !in was && ids[i] in found && found[ids[i]] == datas[i])
    && (forall i, j :: 0 <= i < j < n ==> ids[i] != ids[j])
    && (forall id <- was :: id in found && found[id] == was[id])
    && (forall id <- found :: id in was || exists i :: 0 <= i < n && ids[i] == id)
  }

  lemma TookOne(was: map<nat, Json>, before: map<nat, Json>, ids: seq<nat>, datas: seq<Json>, k: nat)
    requires k < |ids| == |datas| && Took(was, before, ids[..k], datas[..k], k) && ids[k] !in before
    ensures Took(was, before[ids[k] := datas[k]], ids, datas, k + 1)
  {
    var found := before[ids[k] := datas[k]];
    forall i | 0 <= i < k
      ensures ids[i] != ids[k] && ids[i] !in was && ids[i] in found && found[ids[i]] == datas[i]
    {
      assert ids[..k][i] == ids[i] && datas[..k][i] == datas[i];
    }
    forall i, j | 0 <= i < j < k
      ensures ids[i] != ids[j]
    {
      assert ids[..k][i] == ids[i] && ids[..k][j] == ids[j];
    }
    forall id | id in found && id !in was
      ensures exists i :: 0 <= i < k + 1 && ids[i] == id
    {
      if id != ids[k] {
        var i :| 0 <= i < k && ids[..k][i] == id;
        assert ids[i] == id;
      }
    }
  }

  lemma TookNoMore(was: map<nat, Json>, found: map<nat, Json>, ids: seq<nat>, datas: seq<Json>, k: nat, n: nat)
    requires k <= |ids| == |datas| && Took(was, found, ids[..k], datas[..k], n)
    ensures Took(was, found, ids, datas, n)
  {
    forall i | 0 <= i < n
      ensures ids[..k][i] == ids[i] && datas[..k][i] == datas[i]
    {
    }
    forall id | id in found && id !in was
      ensures exists i :: 0 <= i < n && ids[i] == id
    {
      var i :| 0 <= i < n && ids[..k][i] == id;
      assert ids[i] == id;
    }
  }

  lemma NothingTook(was: map<nat, Json>, ids: seq<nat>, datas: seq<Json>)
    requires |ids| == |datas|
    ensures Took(was, was, ids, datas, 0)
  {
  }

  lemma TakenBefore(was: map<nat, Json>, found: map<nat, Json>, ids: seq<nat>, datas: seq<Json>, n: nat)
    requires n < |ids| && Took(was, found, ids, datas, n) && ids[n] in found
    ensures ids[n] in was || exists i :: 0 <= i < n && ids[i] == ids[n]
  {
  }

  lemma {:induction false} EntriesTaken(schema: seq<ColumnDef>, t: TableVal, js: seq<Json>, ids: seq<nat>, datas: seq<Json>)
    returns (n: nat)
    requires TableOk(schema, t) && |ids| == |datas| == |js|
    requires forall i :: 0 <= i < |js| ==>
      EntryRecord(js[i], i) == Loaded(Record(ids[i], datas[i], false)) && Validation(schema, datas[i]) == OK
    ensures DefinedEntries(js) && n <= |js|
    ensures ImportFits(schema, t, js) ==>
      var (status, now), was := Imported(schema, t, js), Contents(t);
      && TableOk(schema, now)
      && status == (if n == |js| then OK else DUPLICATE_KEY)
      && Took(was, Contents(now), ids, datas, n)
      && (n < |js| ==> ids[n] in was || exists i :: 0 <= i < n && ids[i] == ids[n])
    decreases |js|
  {
    hide TableOk, Contents, Exec, Validation, EntryRecord, NoWrap, Took;
    if js == [] {
      n := 0;
      NothingTook(Contents(t), ids, datas);
    } else {
      var k := |js| - 1;
      n := EntriesTaken(schema, t, js[..k], ids[..k], datas[..k]);
      if ImportFits(schema, t, js) {
        var was := Contents(t);
        var (status, before) := Imported(schema, t, js[..k]);
        TookNoMore(was, Contents(before), ids, datas, k, n);
        if status == OK {
          InsertEntry(schema, before, ids[k], datas[k]);
          if ids[k] in Contents(before) {
            TakenBefore(was, Contents(before), ids, datas, k);
          } else {
            TookOne(was, Contents(before), ids, datas, k);
            n := k + 1;
          }
        } else {
          TakenInPrefix(was, ids, k, n);
        }
      }
    }
  }

  lemma TakenInPrefix(was: map<nat, Json>, ids: seq<nat>, k: nat, n: nat)
    requires n < k <= |ids|
    ensures (ids[..k][n] in was || exists i :: 0 <= i < n && ids[..k][i] == ids[..k][n]) ==>
      ids[n] in was || exists i :: 0 <= i < n && ids[i] == ids[n]
  {
    if i :| 0 <= i < n && ids[..k][i] == ids[..k][n] {
      assert ids[i] == ids[n];
    }
  }

  lemma InsertEntry(schema: seq<ColumnDef>, t: TableVal, id: nat, data: Json)
    requires TableOk(schema, t) && Validation(schema, data) == OK
    ensures var (status, now) := Exec(schema, t, Insert(Record(id, data, false)));
      && status == (if id in Contents(t) then DUPLICATE_KEY else OK)
      && Contents(now) == (if id in Contents(t) then Contents(t) else Contents(t)[id := data])
      && (status != OK ==> now == t)
      && (status == OK && NoWrap(t) ==> TableOk(schema, now))
  {
    hide TableOk, Contents, Exec, Validation, NoWrap;
    WhatOperationsDo(schema, t, Insert(Record(id, data, false)));
    ExecRefines(schema, t, Insert(Record(id, data, false)));
  }

  /**
   * An import, told by the entries alone.  They go in one after the other, under their ids, up to
   * the first whose id is taken, by the table or by an entry before it; then the status is DUPLICATE_KEY.
   */
  lemma {:induction false} ImportTakesIds(schema: seq<ColumnDef>, t: TableVal, js: seq<Json>, ids: seq<nat>, datas: seq<Json>)
    returns (n: nat)
    requires TableOk(schema, t) && |ids| == |datas| == |js|
    requires forall i :: 0 <= i < |js| ==>
      if js[i].Object? && "id" in js[i].fields && js[i].fields["id"].Number? then
        var x := js[i].fields["id"].r;
        && -1.0 < x < 18446744073709551616.0
        && (if x < 0.0 then ids[i] == 0 else ids[i] as real <= x < ids[i] as real + 1.0)
        && datas[i] == Object(js[i].fields - {"id"})
      else ids[i] == i && datas[i] == js[i]
    requires forall i :: 0 <= i < |js| ==> Validation(schema, datas[i]) == OK
    ensures DefinedEntries(js) && n <= |js|
    ensures ImportFits(schema, t, js) ==>
      var (status, now), was := Imported(schema, t, js), Contents(t);
      && TableOk(schema, now)
      && status == (if n == |js| then OK else DUPLICATE_KEY)
      && (n < |js| ==> ids[n] in was || exists i :: 0 <= i < n && ids[i] == ids[n])
      && (forall i :: 0 <= i < n ==> ids[i] !in was && ids[i] in Contents(now) && Contents(now)[ids[i]] == datas[i])
      && (forall i, j :: 0 <= i < j < n ==> ids[i] != ids[j])
      && (forall id <- was :: id in Contents(now) && Contents(now)[id] == was[id])
      && (forall id <- Contents(now) :: id in was || exists i :: 0 <= i < n && ids[i] == id)
    decreases |js|
  {
    hide TableOk, Contents, Imported, ImportFits, Validation, EntryRecord;
    forall i | 0 <= i < |js|
      ensures EntryRecord(js[i], i) == Loaded(Record(ids[i], datas[i], false))
    {
      EntryIs(js[i], i);
      if js[i].Object? && "id" in js[i].fields && js[i].fields["id"].Number? {
        SameWhole(js[i].fields["id"].r, EntryRecord(js[i], i).value.id, ids[i]);
      }
    }
    n := EntriesTaken(schema, t, js, ids, datas);
  }

  lemma SameWhole(x: real, m: nat, n: nat)
    requires if x < 0.0 then m == 0 && n == 0 else m as real <= x < m as real + 1.0 && n as real <= x < n as real + 1.0
    ensures m == n
  {
  }

  /** A list without numeric ids, into an empty table: the positions are the ids. */
  lemma ImportByPosition(schema: seq<ColumnDef>, js: seq<Json>)
    requires forall i :: 0 <= i < |js| ==>
      && !(js[i].Object? && "id" in js[i].fields && js[i].fields["id"].Number?)
      && Validation(schema, js[i]) == OK
    ensures DefinedEntries(js)
    ensures ImportFits(schema, EMPTY_TABLE, js) ==>
      var (status, now) := Imported(schema, EMPTY_TABLE, js);
      && status == OK
      && Contents(now) == map k: nat | k < |js| :: js[k]
  {
    hide TableOk, Contents, Validation, Imported, ImportFits, DefinedEntries;
    var ids: seq<nat> := seq(|js|, i requires 0 <= i < |js| => i);
    EmptyTable(schema);
    var n := ImportTakesIds(schema, EMPTY_TABLE, js, ids, js);
    if ImportFits(schema, EMPTY_TABLE, js) {
      var found := Contents(Imported(schema, EMPTY_TABLE, js).1);
      forall k: nat
        ensures k in found <==> k < |js|
        ensures k < |js| ==> found[k] == js[k]
      {
        if k < |js| {
          assert ids[k] == k;
        }
      }
    }
  }

  lemma EmptyTable(schema: seq<ColumnDef>)
    ensures TableOk(schema, EMPTY_TABLE) && Contents(EMPTY_TABLE) == map[]
  {
    assert Rows([]) == [] && RowMap([]) == map[];
  }

  // ---------------------------------------------------------------------------
  //  Round trip
  // ---------------------------------------------------------------------------

  /** The records of a scan without the pages that hold them. */
  function Pairs(rows: seq<Row>): (ps: seq<(nat, Json)>)
    ensures |ps| == |rows|
    ensures forall i :: 0 <= i < |rows| ==> ps[i] == (rows[i].id, rows[i].data)
  {
    seq(|rows|, i requires 0 <= i < |rows| => (rows[i].id, rows[i].data))
  }

  /** These records survive an export. */
  ghost predicate Tradable(rows: seq<Row>) {
    forall row <- rows :: row.data.Object? && "id" !in row.data.fields && row.id < INT_LIMIT
  }

  /** `n` slots on as few pages as hold them, with page ids counting up. */
  ghost predicate Packed(t: TableVal, n: nat) {
    && |t.pages| == t.nextPageId == (n + MAX_RECORDS_PAGE - 1) / MAX_RECORDS_PAGE
    && forall p :: 0 <= p < |t.pages| ==>
         t.pages[p].id == p && |t.pages[p].records| == Fill(p, n)
  }

  function Fill(p: nat, n: nat): int {
    if (p + 1) * MAX_RECORDS_PAGE <= n then MAX_RECORDS_PAGE else n - p * MAX_RECORDS_PAGE
  }

  lemma PackedRoom(t: TableVal, n: nat)
    requires Packed(t, n)
    ensures FirstWithRoom(t.pages) == n / MAX_RECORDS_PAGE
    ensures n / MAX_RECORDS_PAGE == if n % MAX_RECORDS_PAGE == 0 then |t.pages| else |t.pages| - 1
  {
    var k, f := n / MAX_RECORDS_PAGE, FirstWithRoom(t.pages);
    assert forall p :: 0 <= p < k ==> Fill(p, n) == MAX_RECORDS_PAGE && |t.pages[p].records| == Fill(p, n);
    assert k < |t.pages| ==> |t.pages[k].records| == Fill(k, n) < MAX_RECORDS_PAGE;
  }

  lemma PackedInsert(t: TableVal, n: nat, id: nat, data: Json)
    requires Packed(t, n) && t.nextPageId + 1 < PAGE_ID_LIMIT
    ensures Packed(Inserted(t, id, data), n + 1)
  {
    hide FirstWithRoom;
    PackedRoom(t, n);
    var now := Inserted(t, id, data);
    forall p | 0 <= p < |now.pages|
      ensures now.pages[p].id == p && |now.pages[p].records| == Fill(p, n + 1)
    {
    }
  }

  /** On packed pages a new record comes last in scan order. */
  lemma InsertedLast(t: TableVal, n: nat, id: nat, data: Json)
    requires Packed(t, n)
    ensures Pairs(Rows(Inserted(t, id, data).pages)) == Pairs(Rows(t.pages)) + [(id, data)]
  {
    hide Rows, LiveRows, FirstWithRoom, Packed;
    PackedRoom(t, n);
    var p, r := FirstWithRoom(t.pages), Record(id, data, false);
    if p < |t.pages| {
      var page := t.pages[p];
      RowsAround(t.pages, p, page);
      RowsAround(t.pages, p, PageVal(page.id, page.records + [r]));
      assert t.pages[p := page] == t.pages;
      LiveRowsConcat(page.records, [r], page.id);
      OneLiveRow(r, page.id);
      NoRows(t.pages[p + 1..]);
    } else {
      RowsConcat(t.pages, [PageVal(t.nextPageId, [r])]);
      OneLiveRow(r, t.nextPageId);
    }
  }

  lemma NoRows(ps: seq<PageVal>)
    ensures ps == [] ==> Rows(ps) == []
  {
  }

  lemma NotThere(t: TableVal, rows: seq<Row>, k: nat)
    requires k < |rows| && DistinctIds(rows)
    requires Pairs(Rows(t.pages)) == Pairs(rows[..k])
    ensures rows[k].id !in RowMap(Rows(t.pages))
  {
    hide Rows, RowMap, DistinctIds;
    var there := Rows(t.pages);
    forall i | 0 <= i < |there|
      ensures there[i].id != rows[k].id
    {
      assert Pairs(there)[i] == Pairs(rows[..k])[i];
      DistinctMeans(rows, i, k);
    }
    AbsentIff(there, rows[k].id);
  }

  lemma TradableEntries(rows: seq<Row>)
    requires Tradable(rows)
    ensures Exportable(rows) && DefinedEntries(Exported(rows))
    ensures forall i :: 0 <= i < |rows| ==>
      EntryRecord(Exported(rows)[i], i) == Loaded(Record(rows[i].id, rows[i].data, false))
  {
    hide EntryRecord, EntryOf;
    forall i | 0 <= i < |rows|
      ensures rows[i].data.Object?
      ensures EntryRecord(EntryOf(rows[i].id, rows[i].data), i) == Loaded(Record(rows[i].id, rows[i].data, false))
    {
      assert rows[i] in rows;
      EntryRoundTripIff(rows[i].id, rows[i].data, i);
    }
    assert Exportable(rows);
  }

  lemma PrefixOfRows(schema: seq<ColumnDef>, rows: seq<Row>)
    requires rows != [] && Tradable(rows) && AllValid(schema, rows) && DistinctIds(rows)
    ensures var k := |rows| - 1;
      && Tradable(rows[..k]) && AllValid(schema, rows[..k]) && DistinctIds(rows[..k])
      && Validation(schema, rows[k].data) == OK
  {
    hide Validation;
    var k := |rows| - 1;
    assert rows[k] in rows && forall row <- rows[..k] :: row in rows;
  }

  /** The outcome of importing these rows into an empty table. */
  ghost predicate Reproduced(schema: seq<ColumnDef>, rows: seq<Row>, status: Status, t: TableVal) {
    && status == OK
    && TableOk(schema, t)
    && Pairs(Rows(t.pages)) == Pairs(rows)
    && Packed(t, |rows|)
  }

  lemma NothingImported(schema: seq<ColumnDef>)
    ensures Reproduced(schema, [], OK, EMPTY_TABLE)
  {
    assert Rows([]) == [] && RowMap([]) == map[];
  }

  lemma OneMoreImported(schema: seq<ColumnDef>, t: TableVal, rows: seq<Row>)
    requires rows != [] && Tradable(rows) && AllValid(schema, rows) && DistinctIds(rows)
    requires Reproduced(schema, rows[..|rows| - 1], OK, t)
    requires t.nextPageId + 1 < PAGE_ID_LIMIT
    ensures var row := rows[|rows| - 1];
      var (status, now) := Exec(schema, t, Insert(Record(row.id, row.data, false)));
      Reproduced(schema, rows, status, now)
  {
    hide Validation, Inserted, Rows, RowMap, AllValid, DistinctIds, Packed, Tradable, PagesOk;
    var k := |rows| - 1;
    PrefixOfRows(schema, rows);
    NotThere(t, rows, k);
    InsertedOk(schema, t, rows[k].id, rows[k].data);
    InsertedLast(t, k, rows[k].id, rows[k].data);
    PackedInsert(t, k, rows[k].id, rows[k].data);
    assert Pairs(rows) == Pairs(rows[..k]) + [(rows[k].id, rows[k].data)];
  }

  lemma {:induction false} DistinctRowsCount(rows: seq<Row>)
    requires DistinctIds(rows)
    ensures |RowMap(rows)| == |rows| && |DataMap(RowMap(rows))| == |rows|
    decreases |rows|
  {
    if rows != [] {
      var n := |rows| - 1;
      DistinctRowsCount(rows[..n]);
      AbsentIff(rows[..n], rows[n].id);
      DataMapSnoc(rows);
    }
  }

  lemma {:induction false} AtMostSoMany(ids: set<nat>, n: nat)
    requires forall id <- ids :: id < n
    ensures |ids| <= n
    decreases n
  {
    if n == 0 {
      assert ids == {};
    } else {
      var fewer := ids - {n - 1};
      AtMostSoMany(fewer, n - 1);
      assert ids <= fewer + {n - 1};
      assert |ids| <= |fewer| + 1;
    }
  }

  /** Ids that survive an export are too few to use up the page ids. */
  lemma TradableIsShort(rows: seq<Row>)
    requires Tradable(rows) && DistinctIds(rows)
    ensures |rows| <= INT_LIMIT
  {
    hide RowMap, DistinctIds, DataMap;
    DistinctRowsCount(rows);
    var ids := RowMap(rows).Keys;
    forall id | id in ids
      ensures id < INT_LIMIT
    {
      var i := RowOfId(rows, id);
      assert rows[i] in rows;
    }
    AtMostSoMany(ids, INT_LIMIT);
    assert |RowMap(rows)| == |ids|;
  }

  lemma {:induction false} ImportOfExport(schema: seq<ColumnDef>, rows: seq<Row>)
    requires Tradable(rows) && AllValid(schema, rows) && DistinctIds(rows)
    ensures Exportable(rows) && DefinedEntries(Exported(rows))
    ensures var (status, now) := Imported(schema, EMPTY_TABLE, Exported(rows)); Reproduced(schema, rows, status, now)
    decreases |rows|
  {
    hide Exec, TableOk, Packed, Rows, Tradable, AllValid, DistinctIds, EntryRecord, EntryOf;
    TradableEntries(rows);
    if rows == [] {
      NothingImported(schema);
    } else {
      var k := |rows| - 1;
      PrefixOfRows(schema, rows);
      ImportOfExport(schema, rows[..k]);
      assert Exported(rows)[..k] == Exported(rows[..k]);
      var t := Imported(schema, EMPTY_TABLE, Exported(rows[..k])).1;
      PackedIsShort(schema, rows[..k], t);
      TradableIsShort(rows[..k]);
      OneMoreImported(schema, t, rows);
    }
  }

  lemma PackedIsShort(schema: seq<ColumnDef>, rows: seq<Row>, t: TableVal)
    requires Reproduced(schema, rows, OK, t)
    ensures t.nextPageId <= |rows|
  {
  }

  /**
   * Exporting a table and importing the list into an empty table with the same schema gives the
   * same contents in the same scan order, on as few pages as hold them, and exports as the same
   * list again.
   */
  lemma ExportImportRoundTrip(schema: seq<ColumnDef>, t: TableVal)
    requires TableOk(schema, t) && Tradable(Rows(t.pages))
    ensures Exportable(Rows(t.pages)) && DefinedEntries(Exported(Rows(t.pages)))
    ensures var (status, now) := Imported(schema, EMPTY_TABLE, Exported(Rows(t.pages)));
      && status == OK
      && TableOk(schema, now)
      && Contents(now) == Contents(t)
      && Pairs(Rows(now.pages)) == Pairs(Rows(t.pages))
      && |now.pages| == (|Rows(t.pages)| + 63) / 64
      && Exportable(Rows(now.pages)) && Exported(Rows(now.pages)) == Exported(Rows(t.pages))
  {
    hide Rows, DistinctIds, Tradable, AllValid, Imported, DefinedEntries, EntryOf, PagesOk, RowMap,
         DataMap, PageMap, Fill;
    ImportOfExport(schema, Rows(t.pages));
    var now := Imported(schema, EMPTY_TABLE, Exported(Rows(t.pages))).1;
    PairsDecide(Rows(now.pages), Rows(t.pages));
  }

  /** The contents and the export depend on the pairs only. */
  lemma PairsDecide(a: seq<Row>, b: seq<Row>)
    requires Pairs(a) == Pairs(b)
    ensures DataMap(RowMap(a)) == DataMap(RowMap(b))
    ensures Exportable(a) <==> Exportable(b)
    ensures Exportable(a) ==> Exported(a) == Exported(b)
  {
    hide EntryOf, RowMap, DataMap;
    PairsDecideContents(a, b);
    assert |a| == |b|;
    forall i | 0 <= i < |a|
      ensures a[i].id == b[i].id && a[i].data == b[i].data
    {
      assert Pairs(a)[i] == Pairs(b)[i];
    }
  }

  lemma {:induction false} PairsDecideContents(a: seq<Row>, b: seq<Row>)
    requires Pairs(a) == Pairs(b)
    ensures DataMap(RowMap(a)) == DataMap(RowMap(b))
    decreases |a|
  {
    hide RowMap, DataMap;
    assert |a| == |b|;
    if a == [] {
    } else {
      var n := |a| - 1;
      assert Pairs(a[..n]) == Pairs(a)[..n] == Pairs(b)[..n] == Pairs(b[..n]);
      assert Pairs(a)[n] == Pairs(b)[n];
      PairsDecideContents(a[..n], b[..n]);
      DataMapSnoc(a);
      DataMapSnoc(b);
    }
  }

  lemma DataMapSnoc(rows: seq<Row>)
    requires rows != []
    ensures var n := |rows| - 1;
      DataMap(RowMap(rows)) == DataMap(RowMap(rows[..n]))[rows[n].id := rows[n].data]
  {
  }

  // ---------------------------------------------------------------------------
  //  The loops
  // ---------------------------------------------------------------------------

  method ExportTable(table: Table, other: Assign) returns (r: Parsed<seq<Json>>)
    requires table.Valid()
    ensures r == ExportedAny(Rows(table.View().pages), other)
    ensures Exportable(Rows(table.View().pages)) ==> r == Loaded(Exported(Rows(table.View().pages)))
  {
    hide Table.Valid, Rows, ExportEntry, ExportedAny, Exportable, LiveRows;
    ghost var vs := Values(table.pages);
    ExportedObjects(Rows(vs), other);
    var js := [];
    NothingExported(other);
    for p := 0 to |table.pages|
      invariant ExportedAny(Rows(vs[..p]), other) == Loaded(js)
    {
      var page := table.pages[p];
      PageExports(vs, p, other);
      var part := ExportPage(page, other);
      if !part.Loaded? {
        return part;
      }
      js := js + part.value;
    }
    assert vs[..|table.pages|] == vs;
    return Loaded(js);
  }

  method ExportPage(page: Page, other: Assign) returns (r: Parsed<seq<Json>>)
    ensures r == ExportedAny(LiveRows(page.records, page.id), other)
  {
    hide ExportEntry, ExportedAny, LiveRows;
    var rs, js := page.records, [];
    NothingExported(other);
    for i := 0 to |rs|
      invariant ExportedAny(LiveRows(rs[..i], page.id), other) == Loaded(js)
    {
      SlotExports(rs, i, page.id, other);
      if !rs[i].deleted {
        var entry := ExportEntry(rs[i].id, rs[i].data, other);
        if !entry.Loaded? {
          return entry.PropagateFailure();
        }
        js := js + [entry.value];
      }
    }
    assert rs[..|rs|] == rs;
    return Loaded(js);
  }

  lemma NothingExported(other: Assign)
    ensures Rows([]) == [] && (forall page: nat :: LiveRows([], page) == []) && ExportedAny([], other) == Loaded([])
  {
  }

  /** An export in two parts. */
  lemma {:induction false} ExportedConcat(a: seq<Row>, b: seq<Row>, other: Assign)
    ensures ExportedAny(a + b, other) ==
      if !ExportedAny(a, other).Loaded? then ExportedAny(a, other)
      else if !ExportedAny(b, other).Loaded? then ExportedAny(b, other)
      else Loaded(ExportedAny(a, other).value + ExportedAny(b, other).value)
    decreases |b|
  {
    hide ExportEntry;
    if b == [] {
      assert a + b == a;
      if ExportedAny(a, other).Loaded? {
        assert ExportedAny(a, other).value + [] == ExportedAny(a, other).value;
      }
    } else {
      var n := |b| - 1;
      ExportedConcat(a, b[..n], other);
      assert (a + b)[..|a| + n] == a + b[..n];
      assert (a + b)[|a| + n] == b[n];
      var x, y, e := ExportedAny(a, other), ExportedAny(b[..n], other), ExportEntry(b[n].id, b[n].data, other);
      if x.Loaded? && y.Loaded? && e.Loaded? {
        assert (x.value + y.value) + [e.value] == x.value + (y.value + [e.value]);
      }
    }
  }

  lemma PageExports(vs: seq<PageVal>, p: nat, other: Assign)
    requires p < |vs|
    ensures var front, part := ExportedAny(Rows(vs[..p]), other), ExportedAny(LiveRows(vs[p].records, vs[p].id), other);
      front.Loaded? ==>
        && (part.Loaded? ==> ExportedAny(Rows(vs[..p + 1]), other) == Loaded(front.value + part.value))
        && (!part.Loaded? ==> ExportedAny(Rows(vs), other) == part)
  {
    hide LiveRows, ExportedAny;
    assert vs == vs[..p + 1] + vs[p + 1..];
    RowsConcat(vs[..p + 1], vs[p + 1..]);
    ExportedConcat(Rows(vs[..p + 1]), Rows(vs[p + 1..]), other);
    assert vs[..p + 1][..p] == vs[..p];
    ExportedConcat(Rows(vs[..p]), LiveRows(vs[p].records, vs[p].id), other);
  }

  lemma SlotExports(rs: seq<Record>, i: nat, page: nat, other: Assign)
    requires i < |rs|
    ensures var front, entry := ExportedAny(LiveRows(rs[..i], page), other), ExportEntry(rs[i].id, rs[i].data, other);
      front.Loaded? ==>
        && (rs[i].deleted ==> ExportedAny(LiveRows(rs[..i + 1], page), other) == front)
        && (!rs[i].deleted && entry.Loaded? ==>
              ExportedAny(LiveRows(rs[..i + 1], page), other) == Loaded(front.value + [entry.value]))
        && (!rs[i].deleted && !entry.Loaded? ==>
              ExportedAny(LiveRows(rs, page), other) == entry.PropagateFailure())
  {
    hide ExportEntry, ExportedAny;
    assert rs == rs[..i + 1] + rs[i + 1..];
    LiveRowsConcat(rs[..i + 1], rs[i + 1..], page);
    ExportedConcat(LiveRows(rs[..i + 1], page), LiveRows(rs[i + 1..], page), other);
    assert rs[..i + 1][..i] == rs[..i];
    if !rs[i].deleted {
      ExportedSnoc(LiveRows(rs[..i], page), Row(rs[i].id, rs[i].data, page), other);
    }
  }

  lemma ExportedSnoc(rows: seq<Row>, row: Row, other: Assign)
    ensures var front, entry := ExportedAny(rows, other), ExportEntry(row.id, row.data, other);
      front.Loaded? ==>
        (ExportedAny(rows + [row], other) ==
           if entry.Loaded? then Loaded(front.value + [entry.value]) else entry.PropagateFailure())
  {
    hide ExportEntry;
    assert (rows + [row])[..|rows|] == rows;
  }

  /** Imports a parsed form into the table. */
  method ImportTable(table: Table, parsed: Json) returns (status: Status)
    requires Distinct(table.pages)
    requires parsed.Array? ==> DefinedEntries(parsed.elems)
    modifies table, table.pages
    ensures Distinct(table.pages)
    ensures old(table.Valid()) && (parsed.Array? ==> ImportFits(table.schema, old(table.View()), parsed.elems)) ==>
      table.Valid()
    ensures if parsed.Array? then (status, table.View()) == Imported(table.schema, old(table.View()), parsed.elems)
            else status == PARSE_ERROR && table.View() == old(table.View())
  {
    if parsed.Null? {
      return PARSE_ERROR;
    }
    if !parsed.Array? {
      return PARSE_ERROR;
    }
    status := ImportEntries(table, parsed.elems);
  }

  method ImportEntries(table: Table, js: seq<Json>) returns (status: Status)
    requires Distinct(table.pages) && DefinedEntries(js)
    modifies table, table.pages
    ensures Distinct(table.pages)
    ensures old(table.Valid()) && ImportFits(table.schema, old(table.View()), js) ==> table.Valid()
    ensures (status, table.View()) == Imported(table.schema, old(table.View()), js)
  {
    hide Table.Valid, Table.View, DefinedEntries, Imported, Distinct, ImportFits;
    ghost var was := table.View();
    var nextId := 0;
    assert js[..0] == [];
    NoEntries(table.schema, was);
    while nextId < |js|
      invariant 0 <= nextId <= |js| && Distinct(table.pages)
      invariant forall q <- table.pages :: q in old(table.pages) || fresh(q)
      invariant DefinedEntries(js[..nextId])
      invariant (OK, table.View()) == Imported(table.schema, was, js[..nextId])
      invariant old(table.Valid()) && ImportFits(table.schema, was, js[..nextId]) ==> table.Valid()
    {
      FitsSoFar(table.schema, was, js, nextId);
      assert forall i :: 0 <= i < |table.pages| ==>
        table.pages[i] in table.pages && (table.pages[i] in old(table.pages) || fresh(table.pages[i]));
      status := ImportEntry(table, js, nextId, was);
      if status != OK {
        RefusalEnds(table.schema, was, js, nextId + 1);
        return;
      }
      nextId := nextId + 1;
    }
    assert js[..nextId] == js;
    return OK;
  }

  /** One round of the loop: the next entry goes in, or is refused. */
  method ImportEntry(table: Table, js: seq<Json>, nextId: nat, ghost was: TableVal) returns (status: Status)
    requires Distinct(table.pages) && DefinedEntries(js) && nextId < |js| && DefinedEntries(js[..nextId])
    requires (OK, table.View()) == Imported(table.schema, was, js[..nextId])
    modifies table, table.pages
    ensures Distinct(table.pages)
    ensures forall q <- table.pages :: q in old(table.pages) || fresh(q)
    ensures DefinedEntries(js[..nextId + 1])
    ensures (status, table.View()) == Imported(table.schema, was, js[..nextId + 1])
    ensures old(table.Valid()) && (status == OK ==> NoWrap(old(table.View()))) ==> table.Valid()
  {
    hide Table.Valid, EntryRecord, DefinedEntries, Imported, Exec, MapExec, Contents, Distinct, NoWrap;
    EntryDefined(js, nextId);
    ImportedOneMore(table.schema, was, js, nextId);
    status := table.InsertRecord(EntryRecord(js[nextId], nextId).value);
  }

  /** Whether an import fits is decided entry by entry. */
  lemma {:induction false} FitsSoFar(schema: seq<ColumnDef>, t: TableVal, js: seq<Json>, k: nat)
    requires DefinedEntries(js) && k < |js|
    ensures DefinedEntries(js[..k]) && DefinedEntries(js[..k + 1])
    ensures ImportFits(schema, t, js[..k + 1]) <==>
      && ImportFits(schema, t, js[..k])
      && (Imported(schema, t, js[..k + 1]).0 == OK ==> NoWrap(Imported(schema, t, js[..k]).1))
    ensures ImportFits(schema, t, js) ==> ImportFits(schema, t, js[..k + 1])
    decreases |js|
  {
    hide Exec, EntryRecord, NoWrap, Imported;
    assert js[..k + 1][..k] == js[..k];
    if k + 1 < |js| {
      FitsSoFar(schema, t, js[..|js| - 1], k);
      assert js[..|js| - 1][..k + 1] == js[..k + 1] && js[..|js| - 1][..k] == js[..k];
    } else {
      assert js[..k + 1] == js;
    }
  }

  lemma NoEntries(schema: seq<ColumnDef>, t: TableVal)
    ensures DefinedEntries([]) && Imported(schema, t, []) == (OK, t)
  {
  }

  lemma CounterGrowsByOne(schema: seq<ColumnDef>, t: TableVal, r: Record)
    ensures Exec(schema, t, Insert(r)).1.nextPageId <= t.nextPageId + 1
  {
    hide Validation;
  }

  lemma EntryDefined(js: seq<Json>, k: nat)
    requires DefinedEntries(js) && k < |js|
    ensures EntryRecord(js[k], k).Loaded? && DefinedEntries(js[..k + 1])
  {
  }

  lemma ImportedOneMore(schema: seq<ColumnDef>, t: TableVal, js: seq<Json>, k: nat)
    requires DefinedEntries(js) && k < |js|
    ensures DefinedEntries(js[..k]) && DefinedEntries(js[..k + 1]) && EntryRecord(js[k], k).Loaded?
    ensures Imported(schema, t, js[..k]).0 == OK ==>
      Imported(schema, t, js[..k + 1]) == Exec(schema, Imported(schema, t, js[..k]).1, Insert(EntryRecord(js[k], k).value))
  {
    hide Exec, EntryRecord;
    assert js[..k + 1][..k] == js[..k];
  }

  lemma {:induction false} RefusalEnds(schema: seq<ColumnDef>, t: TableVal, js: seq<Json>, k: nat)
    requires DefinedEntries(js) && k <= |js|
    requires DefinedEntries(js[..k]) && Imported(schema, t, js[..k]).0 != OK
    ensures Imported(schema, t, js) == Imported(schema, t, js[..k])
    decreases |js|
  {
    hide Exec, EntryRecord;
    if k < |js| {
      var n := |js| - 1;
      assert js[..n][..k] == js[..k];
      RefusalEnds(schema, t, js[..n], k);
    } else {
      assert js[..k] == js;
    }
  }
}
