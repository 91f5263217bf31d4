/** What does not depend on how a table's records are laid out on its pages, and what does. */
module Layouts {
  import opened Common
  import opened JsonForms
  import opened Queries
  import opened Records
  import opened Serializers
  import opened Tables

  // ---------------------------------------------------------------------------
  //  Slots
  // ---------------------------------------------------------------------------

  /** What `recordCount` counts: the taken slots of all pages. */
  function StoredCount(ps: seq<PageVal>): nat
    decreases |ps|
  {
    if ps == [] then 0 else StoredCount(ps[..|ps| - 1]) + |ps[|ps| - 1].records|
  }

  function DeletedIn(rs: seq<Record>): nat
    decreases |rs|
  {
    if rs == [] then 0
    else DeletedIn(rs[..|rs| - 1]) + if rs[|rs| - 1].deleted then 1 else 0
  }

  function DeletedCount(ps: seq<PageVal>): nat
    decreases |ps|
  {
    if ps == [] then 0 else DeletedCount(ps[..|ps| - 1]) + DeletedIn(ps[|ps| - 1].records)
  }

  lemma {:induction false} SlotsOfPage(rs: seq<Record>, page: nat)
    ensures |rs| == |LiveRows(rs, page)| + DeletedIn(rs)
    ensures DeletedIn(Live(rs)) == 0
    decreases |rs|
  {
    if rs != [] {
      var n := |rs| - 1;
      SlotsOfPage(rs[..n], page);
      if !rs[n].deleted {
        assert Live(rs)[..|Live(rs)| - 1] == Live(rs[..n]);
      }
    }
  }

  lemma {:induction false} SlotsOfPages(ps: seq<PageVal>)
    ensures StoredCount(ps) == |Rows(ps)| + DeletedCount(ps)
    ensures DeletedCount(Compacted(ps)) == 0
    decreases |ps|
  {
    hide LiveRows, Live, DeletedIn;
    if ps != [] {
      var n := |ps| - 1;
      SlotsOfPages(ps[..n]);
      SlotsOfPage(ps[n].records, ps[n].id);
      assert Compacted(ps)[..n] == Compacted(ps[..n]);
    }
  }

  /**
   * The stored slots are the records and the deleted ones; the table's record count is the
   * number of its records exactly when no slot is deleted, as it is after compaction.
   */
  lemma SlotsAddUp(schema: seq<ColumnDef>, t: TableVal)
    requires TableOk(schema, t)
    ensures StoredCount(t.pages) == |Contents(t)| + DeletedCount(t.pages)
    ensures StoredCount(t.pages) == |Contents(t)| <==> DeletedCount(t.pages) == 0
    ensures var now := Exec(schema, t, Compact).1;
      StoredCount(now.pages) == |Contents(t)| && DeletedCount(now.pages) == 0
  {
    hide Rows, StoredCount, DeletedCount, RowMap, DistinctIds, PagesOk, AllValid;
    SlotsOfPages(t.pages);
    DistinctRowsCount(Rows(t.pages));
    CompactedRows(t.pages);
    SlotsOfPages(Compacted(t.pages));
  }

  // ---- Slots over runs

  lemma {:induction false} OnePageReplaced(ps: seq<PageVal>, p: nat, page: PageVal)
    requires p < |ps|
    ensures StoredCount(ps[p := page]) == StoredCount(ps) - |ps[p].records| + |page.records|
    decreases |ps|
  {
    var n, now := |ps| - 1, ps[p := page];
    if p < n {
      OnePageReplaced(ps[..n], p, page);
      assert now[..n] == ps[..n][p := page];
    } else {
      assert now[..n] == ps[..n];
    }
  }

  lemma OnePageAdded(ps: seq<PageVal>, page: PageVal)
    ensures StoredCount(ps + [page]) == StoredCount(ps) + |page.records|
  {
    assert (ps + [page])[..|ps|] == ps;
  }

  /** Inserting takes a slot; no other operation takes one, and only compaction gives slots back. */
  lemma SlotsTaken(schema: seq<ColumnDef>, t: TableVal, op: Op)
    requires !op.Compact?
    ensures var (status, now) := Exec(schema, t, op);
      StoredCount(now.pages) == StoredCount(t.pages) + if op.Insert? && status == OK then 1 else 0
  {
    hide StoredCount, Validation, WithData, WithDeleted;
    if Exec(schema, t, op).0 == OK {
      match op {
        case Insert(r) => InsertTakesOne(t, r.id, r.data);
        case Update(r) =>
          var p := PageAt(t.pages, t.index[r.id]);
          if p < |t.pages| {
            OnePageReplaced(t.pages, p, PageVal(t.pages[p].id, WithData(t.pages[p].records, r.id, r.data)));
          }
        case Delete(id) =>
          var p := PageAt(t.pages, t.index[id]);
          if p < |t.pages| {
            OnePageReplaced(t.pages, p, PageVal(t.pages[p].id, WithDeleted(t.pages[p].records, id)));
          }
        case _ =>
      }
    }
  }

  lemma InsertTakesOne(t: TableVal, id: nat, data: Json)
    ensures StoredCount(Inserted(t, id, data).pages) == StoredCount(t.pages) + 1
  {
    hide StoredCount;
    var p, r := FirstWithRoom(t.pages), Record(id, data, false);
    if p < |t.pages| {
      OnePageReplaced(t.pages, p, PageVal(t.pages[p].id, t.pages[p].records + [r]));
    } else {
      OnePageAdded(t.pages, PageVal(t.nextPageId, [r]));
    }
  }

  /** The successful deletes of a run since its last compaction, told from the calls and their statuses. */
  function DeletesSinceCompaction(ops: seq<Op>, ss: seq<Status>): nat
    requires |ops| == |ss|
    decreases |ops|
  {
    if ops == [] then 0
    else
      var n := |ops| - 1;
      match ops[n]
      case Compact => 0
      case Delete(_) => DeletesSinceCompaction(ops[..n], ss[..n]) + if ss[n] == OK then 1 else 0
      case _ => DeletesSinceCompaction(ops[..n], ss[..n])
  }

  /** What an operation does to the number of deleted slots. */
  lemma DeletedSlotsStep(schema: seq<ColumnDef>, t: TableVal, op: Op)
    requires TableOk(schema, t) && TableOk(schema, Exec(schema, t, op).1)
    ensures var (status, now) := Exec(schema, t, op);
      DeletedCount(now.pages) ==
        if op.Compact? then 0 else DeletedCount(t.pages) + if op.Delete? && status == OK then 1 else 0
  {
    hide TableOk, Contents, Exec, StoredCount, DeletedCount, Validation;
    SlotsAddUp(schema, t);
    SlotsAddUp(schema, Exec(schema, t, op).1);
    if !op.Compact? {
      SlotsTaken(schema, t, op);
      ExecRefines(schema, t, op);
      MapSizes(schema, Contents(t), op);
    } else {
      assert op == Compact;
    }
  }

  lemma MapSizes(schema: seq<ColumnDef>, m: map<nat, Json>, op: Op)
    ensures var (status, now) := MapExec(schema, m, op);
      |now| == |m| + if status != OK then 0 else match op case Insert(_) => 1 case Delete(_) => -1 case _ => 0
  {
    hide Validation;
    match op {
      case Insert(r) => KeySet(m, r.id, r.data);
      case Update(r) => KeySet(m, r.id, r.data);
      case Delete(id) => KeyDropped(m, id);
      case _ =>
    }
  }

  lemma KeySet(m: map<nat, Json>, id: nat, data: Json)
    ensures |m[id := data]| == |m| + if id in m then 0 else 1
  {
    var now := m[id := data];
    assert |now| == |now.Keys| && |m| == |m.Keys| && now.Keys == m.Keys + {id};
  }

  lemma KeyDropped(m: map<nat, Json>, id: nat)
    ensures |m - {id}| == |m| - if id in m then 1 else 0
  {
    var now := m - {id};
    assert |now| == |now.Keys| && |m| == |m.Keys| && now.Keys == m.Keys - {id};
  }

  /**
   * After any run from the empty table the deleted slots are the successful deletes since the last
   * compaction, so the record count is the number of records exactly if there was none.
   */
  lemma {:induction false} DeletesAreCounted(schema: seq<ColumnDef>, ops: seq<Op>)
    requires |ops| + 1 < PAGE_ID_LIMIT
    ensures var (ss, t) := ExecAll(schema, EMPTY_TABLE, ops);
      && |ss| == |ops|
      && DeletedCount(t.pages) == DeletesSinceCompaction(ops, ss)
      && StoredCount(t.pages) == |Contents(t)| + DeletesSinceCompaction(ops, ss)
      && (StoredCount(t.pages) == |Contents(t)| <==> DeletesSinceCompaction(ops, ss) == 0)
    decreases |ops|
  {
    hide TableOk, Contents, Exec, StoredCount, Validation, MapExecAll;
    TableRefinesMap(schema, ops);
    var (ss, t) := ExecAll(schema, EMPTY_TABLE, ops);
    if ops != [] {
      var n := |ops| - 1;
      DeletesAreCounted(schema, ops[..n]);
      TableRefinesMap(schema, ops[..n]);
      var (before, u) := ExecAll(schema, EMPTY_TABLE, ops[..n]);
      assert ss[..n] == before;
      hide DeletedCount;
      DeletedSlotsStep(schema, u, ops[n]);
    }
    SlotsAddUp(schema, t);
  }

  /** A run of two operations, and what it leaves of a map. */
  lemma TwoOps(a: Op, b: Op)
    ensures var t := Exec([], Exec([], EMPTY_TABLE, a).1, b).1;
      && ExecAll([], EMPTY_TABLE, [a, b]).1 == t
      && TableOk([], t)
      && Contents(t) == MapExec([], MapExec([], map[], a).1, b).1
  {
    hide Exec, MapExec, TableOk, Contents;
    assert [a, b][..1] == [a] && [a][..0] == [];
    assert ExecAll([], EMPTY_TABLE, [a]).1 == Exec([], EMPTY_TABLE, a).1;
    assert MapExecAll([], map[], [a]).1 == MapExec([], map[], a).1;
    TableRefinesMap([], [a, b]);
  }

  /** One insert and one delete: nothing is left, and one slot is counted. */
  lemma DeletedSlotIsCounted(r: Record)
    ensures var t := ExecAll([], EMPTY_TABLE, [Insert(r), Delete(r.id)]).1;
      Contents(t) == map[] && StoredCount(t.pages) == 1
  {
    hide ExecAll, Contents, TableOk;
    TwoOps(Insert(r), Delete(r.id));
    var rec := Record(r.id, r.data, false);
    assert Exec([], EMPTY_TABLE, Insert(r)).1 == TableVal([PageVal(0, [rec])], map[r.id := 0], 1);
    var t := Exec([], Exec([], EMPTY_TABLE, Insert(r)).1, Delete(r.id)).1;
    assert t.pages == [PageVal(0, WithDeleted([rec], r.id))];
    assert t.pages[..0] == [];
  }

  // ---------------------------------------------------------------------------
  //  Queries
  // ---------------------------------------------------------------------------

  /** Two records queried with a limit of one: the count is one. */
  lemma LimitCutsTheCount(a: Record, b: Record)
    requires a.id != b.id
    ensures var t := ExecAll([], EMPTY_TABLE, [Insert(a), Insert(b)]).1;
      |Filtered(Scan(t.pages), [])| == 2 && |Collected(t.pages, [], 1)| == 1
  {
    hide ExecAll, Scan, Filtered, Rows, RowMap, DataMap, PagesOk, DistinctIds, AllValid;
    TwoOps(Insert(a), Insert(b));
    var t := ExecAll([], EMPTY_TABLE, [Insert(a), Insert(b)]).1;
    assert Contents(t) == map[a.id := a.data, b.id := b.data];
    DistinctRowsCount(Rows(t.pages));
    ScanIsRows(t.pages);
    FilterNothing(Scan(t.pages));
  }

  /** Equal scans: every query collects the same records in the same order, every aggregate the same numbers. */
  ghost predicate SameAnswers(ps: seq<PageVal>, qs: seq<PageVal>) {
    && Scan(ps) == Scan(qs)
    && (forall preds, limit :: Collected(ps, preds, limit) == Collected(qs, preds, limit))
    && (forall preds, field ::
          Numbers(Filtered(Scan(ps), preds), field) == Numbers(Filtered(Scan(qs), preds), field))
  }

  lemma SameRowsSameScan(ps: seq<PageVal>, qs: seq<PageVal>)
    requires Pairs(Rows(ps)) == Pairs(Rows(qs))
    ensures Scan(ps) == Scan(qs)
  {
    hide Rows, Scan;
    ScanIsRows(ps);
    ScanIsRows(qs);
    var a, b := Rows(ps), Rows(qs);
    assert |a| == |Pairs(a)| == |Pairs(b)| == |b|;
    forall i | 0 <= i < |a|
      ensures Scan(ps)[i] == Scan(qs)[i]
    {
      assert Pairs(a)[i] == Pairs(b)[i];
    }
  }

  lemma SameRowsSameAnswers(ps: seq<PageVal>, qs: seq<PageVal>)
    requires Pairs(Rows(ps)) == Pairs(Rows(qs))
    ensures SameAnswers(ps, qs)
  {
    hide Rows, Scan, Filtered, Numbers, Limited, Pairs;
    SameRowsSameScan(ps, qs);
  }

  /** Compaction, the way through the JSON form, and the way through an export do not show in any query. */
  lemma LayoutDoesNotShow(t: NamedTable)
    requires TableOk(t.schema, t.table)
    ensures SameAnswers(Exec(t.schema, t.table, Compact).1.pages, t.table.pages)
    ensures SameAnswers(Exec(t.schema, t.table, RebuildIndex).1.pages, t.table.pages)
    ensures Portable(t.table.pages) && t.id < INT_LIMIT ==>
      && TableFromJson(TableToJson(t)).Loaded?
      && SameAnswers(TableFromJson(TableToJson(t)).value.table.pages, t.table.pages)
    ensures Tradable(Rows(t.table.pages)) ==>
      && Exportable(Rows(t.table.pages)) && DefinedEntries(Exported(Rows(t.table.pages)))
      && SameAnswers(Imported(t.schema, EMPTY_TABLE, Exported(Rows(t.table.pages))).1.pages, t.table.pages)
  {
    hide TableOk, SameAnswers, Rows, Portable, Tradable, TableToJson, TableFromJson, Imported, Exportable, DefinedEntries,
         LoadedTable, Compacted, Exported, Contents;
    var ps := t.table.pages;
    CompactedRows(ps);
    SameRowsSameAnswers(Compacted(ps), ps);
    SameRowsSameAnswers(ps, ps);
    if Portable(ps) && t.id < INT_LIMIT {
      TableRoundTrip(t);
      SameRowsSameAnswers(LoadedTable(Compacted(ps)).pages, ps);
    }
    if Tradable(Rows(ps)) {
      ExportImportRoundTrip(t.schema, t.table);
      SameRowsSameAnswers(Imported(t.schema, EMPTY_TABLE, Exported(Rows(ps))).1.pages, ps);
    }
  }
}
