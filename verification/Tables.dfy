/**
 * What a table is worth, on values: pages of record slots with soft delete, and the index
 * from record id to page id.  `Exec` is what the table's operations do to it; the class
 * `Table` is proved against it.  The meaning of a table is a plain map from id to data.
 */
module Tables {
  import opened Common
  import opened Records

  const MAX_RECORDS_PAGE := 64
  const PAGE_ID_LIMIT := 0x1_0000_0000

  datatype PageVal = PageVal(id: nat, records: seq<Record>) {
    predicate IsFull() {
      |records| == MAX_RECORDS_PAGE
    }
  }

  datatype TableVal = TableVal(pages: seq<PageVal>, index: map<nat, nat>, nextPageId: nat)

  datatype Op =
    | Insert(r: Record)
    | Update(r: Record)
    | Delete(id: nat)
    | Compact
    | RebuildIndex

  // ---------------------------------------------------------------------------
  //  Pages
  // ---------------------------------------------------------------------------

  /** The slot of the first live record with this id, or the number of slots. */
  function Slot(rs: seq<Record>, id: nat): (i: nat)
    ensures i <= |rs|
    ensures i < |rs| ==> !rs[i].deleted && rs[i].id == id
    ensures forall j :: 0 <= j < i ==> rs[j].deleted || rs[j].id != id
    decreases |rs|
  {
    if rs == [] then 0
    else if !rs[0].deleted && rs[0].id == id then 0
    else 1 + Slot(rs[1..], id)
  }

  function Live(rs: seq<Record>): (ls: seq<Record>)
    ensures |ls| <= |rs|
    decreases |rs|
  {
    if rs == [] then []
    else if rs[|rs| - 1].deleted then Live(rs[..|rs| - 1])
    else Live(rs[..|rs| - 1]) + [rs[|rs| - 1]]
  }

  function WithData(rs: seq<Record>, id: nat, data: Json): (s: seq<Record>)
    ensures |s| == |rs|
  {
    var i := Slot(rs, id);
    if i < |rs| then rs[i := rs[i].(data := data)] else rs
  }

  function WithDeleted(rs: seq<Record>, id: nat): (s: seq<Record>)
    ensures |s| == |rs|
  {
    var i := Slot(rs, id);
    if i < |rs| then rs[i := rs[i].(deleted := true)] else rs
  }

  // ---------------------------------------------------------------------------
  //  Tables
  // ---------------------------------------------------------------------------

  function FirstWithRoom(ps: seq<PageVal>): (p: nat)
    ensures p <= |ps|
    ensures p < |ps| ==> !ps[p].IsFull()
    ensures forall q :: 0 <= q < p ==> ps[q].IsFull()
    decreases |ps|
  {
    if ps == [] || !ps[0].IsFull() then 0 else 1 + FirstWithRoom(ps[1..])
  }

  /** The position of the page with this id, or the number of pages. */
  function PageAt(ps: seq<PageVal>, id: nat): (p: nat)
    ensures p <= |ps|
    ensures p < |ps| ==> ps[p].id == id
    ensures forall q :: 0 <= q < p ==> ps[q].id != id
    decreases |ps|
  {
    if ps == [] || ps[0].id == id then 0 else 1 + PageAt(ps[1..], id)
  }

  function Inserted(t: TableVal, id: nat, data: Json): TableVal {
    var p := FirstWithRoom(t.pages);
    var r := Record(id, data, false);
    if p < |t.pages| then
      var page := t.pages[p];
      TableVal(t.pages[p := PageVal(page.id, page.records + [r])], t.index[id := page.id], t.nextPageId)
    else
      TableVal(t.pages + [PageVal(t.nextPageId, [r])], t.index[id := t.nextPageId],
               (t.nextPageId + 1) % PAGE_ID_LIMIT)
  }

  function Updated(t: TableVal, id: nat, data: Json): TableVal
    requires id in t.index
  {
    var p := PageAt(t.pages, t.index[id]);
    if p == |t.pages| then t
    else t.(pages := t.pages[p := PageVal(t.pages[p].id, WithData(t.pages[p].records, id, data))])
  }

  function Deleted(t: TableVal, id: nat): TableVal
    requires id in t.index
  {
    var p := PageAt(t.pages, t.index[id]);
    if p == |t.pages| then t
    else TableVal(t.pages[p := PageVal(t.pages[p].id, WithDeleted(t.pages[p].records, id))],
                  t.index - {id}, t.nextPageId)
  }

  function Compacted(ps: seq<PageVal>): (qs: seq<PageVal>)
    ensures |qs| == |ps|
    ensures forall p :: 0 <= p < |ps| ==> qs[p] == PageVal(ps[p].id, Live(ps[p].records))
    decreases |ps|
  {
    if ps == [] then [] else [PageVal(ps[0].id, Live(ps[0].records))] + Compacted(ps[1..])
  }

  /** The index entries of one page's slots, added slot by slot. */
  function IndexPage(m: map<nat, nat>, rs: seq<Record>, pageId: nat): map<nat, nat>
    decreases |rs|
  {
    if rs == [] then m
    else
      var before := IndexPage(m, rs[..|rs| - 1], pageId);
      var r := rs[|rs| - 1];
      if r.deleted then before else before[r.id := pageId]
  }

  /** The index that a scan of the pages computes. */
  function IndexOf(ps: seq<PageVal>): map<nat, nat>
    decreases |ps|
  {
    if ps == [] then map[]
    else
      var last := ps[|ps| - 1];
      IndexPage(IndexOf(ps[..|ps| - 1]), last.records, last.id)
  }

  /** One operation: its status, and the table after it. */
  function Exec(schema: seq<ColumnDef>, t: TableVal, op: Op): (Status, TableVal) {
    match op
    case Insert(r) =>
      var s := Validation(schema, r.data);
      if s != OK then (s, t)
      else if r.id in t.index then (DUPLICATE_KEY, t)
      else (OK, Inserted(t, r.id, r.data))
    case Update(r) =>
      var s := Validation(schema, r.data);
      if s != OK then (s, t)
      else if r.id !in t.index then (NOT_FOUND, t)
      else (OK, Updated(t, r.id, r.data))
    case Delete(id) =>
      if id !in t.index then (NOT_FOUND, t) else (OK, Deleted(t, id))
    case Compact => (OK, t.(pages := Compacted(t.pages)))
    case RebuildIndex => (OK, t.(index := IndexOf(t.pages)))
  }

  const EMPTY_TABLE := TableVal([], map[], 0)

  // ---------------------------------------------------------------------------
  //  The live rows, in scan order
  // ---------------------------------------------------------------------------

  /** A live record and the id of the page that holds it. */
  datatype Row = Row(id: nat, data: Json, page: nat)

  function LiveRows(rs: seq<Record>, page: nat): seq<Row>
    decreases |rs|
  {
    if rs == [] then []
    else
      var before, r := LiveRows(rs[..|rs| - 1], page), rs[|rs| - 1];
      if r.deleted then before else before + [Row(r.id, r.data, page)]
  }

  /** Every live record of the table, page by page and slot by slot. */
  function Rows(ps: seq<PageVal>): seq<Row>
    decreases |ps|
  {
    if ps == [] then []
    else
      var last := ps[|ps| - 1];
      Rows(ps[..|ps| - 1]) + LiveRows(last.records, last.id)
  }

  /** The rows by id. */
  function RowMap(rows: seq<Row>): map<nat, Row>
    decreases |rows|
  {
    if rows == [] then map[]
    else
      var last := rows[|rows| - 1];
      RowMap(rows[..|rows| - 1])[last.id := last]
  }

  function DataMap(m: map<nat, Row>): map<nat, Json> {
    map id | id in m :: m[id].data
  }

  function PageMap(m: map<nat, Row>): map<nat, nat> {
    map id | id in m :: m[id].page
  }

  /** The meaning of a table: the map from id to data. */
  function Contents(t: TableVal): map<nat, Json> {
    DataMap(RowMap(Rows(t.pages)))
  }

  ghost predicate Absent(rows: seq<Row>, id: nat) {
    forall row <- rows :: row.id != id
  }

  ghost predicate DistinctIds(rows: seq<Row>)
    decreases |rows|
  {
    rows == [] || (DistinctIds(rows[..|rows| - 1]) && Absent(rows[..|rows| - 1], rows[|rows| - 1].id))
  }

  ghost predicate AllValid(schema: seq<ColumnDef>, rows: seq<Row>) {
    forall row <- rows :: Validation(schema, row.data) == OK
  }

  /** Page ids are distinct and below the counter, and no page is overfull. */
  ghost predicate PagesOk(ps: seq<PageVal>, nextPageId: nat) {
    && (forall p :: 0 <= p < |ps| ==> ps[p].id < nextPageId && |ps[p].records| <= MAX_RECORDS_PAGE)
    && (forall p, q :: 0 <= p < q < |ps| ==> ps[p].id != ps[q].id)
  }

  /** What every table keeps: the index is exactly the map from live ids to their pages. */
  ghost predicate TableOk(schema: seq<ColumnDef>, t: TableVal) {
    && PagesOk(t.pages, t.nextPageId)
    && DistinctIds(Rows(t.pages))
    && t.index == PageMap(RowMap(Rows(t.pages)))
    && AllValid(schema, Rows(t.pages))
  }

  // ---- Maps of rows

  lemma {:induction false} RowMapIsExact(rows: seq<Row>)
    ensures forall id <- RowMap(rows) :: RowMap(rows)[id] in rows && RowMap(rows)[id].id == id
    ensures forall row <- rows :: row.id in RowMap(rows)
    decreases |rows|
  {
    if rows != [] {
      var n := |rows| - 1;
      RowMapIsExact(rows[..n]);
      assert rows == rows[..n] + [rows[n]];
    }
  }

  lemma RowOfId(rows: seq<Row>, id: nat) returns (i: nat)
    requires id in RowMap(rows)
    ensures i < |rows| && rows[i] == RowMap(rows)[id] && rows[i].id == id
  {
    RowMapIsExact(rows);
    i :| 0 <= i < |rows| && rows[i] == RowMap(rows)[id];
  }

  lemma AbsentIff(rows: seq<Row>, id: nat)
    ensures Absent(rows, id) <==> id !in RowMap(rows)
  {
    RowMapIsExact(rows);
  }

  lemma AbsentConcat(a: seq<Row>, b: seq<Row>, id: nat)
    ensures Absent(a + b, id) <==> Absent(a, id) && Absent(b, id)
  {
    assert forall r <- a :: r in a + b;
    assert forall r <- b :: r in a + b;
  }

  lemma DistinctSnoc(rows: seq<Row>, last: Row)
    ensures DistinctIds(rows + [last]) <==> DistinctIds(rows) && Absent(rows, last.id)
  {
    assert (rows + [last])[..|rows|] == rows;
  }

  lemma {:induction false} DistinctIff(a: seq<Row>, row: Row, b: seq<Row>)
    ensures DistinctIds(a + [row] + b) <==> DistinctIds(a + b) && Absent(a, row.id) && Absent(b, row.id)
    decreases |b|
  {
    if b == [] {
      assert a + [row] + b == a + [row] && a + b == a;
      DistinctSnoc(a, row);
    } else {
      hide DistinctIds, Absent;
      var c, last := b[..|b| - 1], b[|b| - 1];
      assert a + [row] + b == (a + [row] + c) + [last];
      assert a + b == (a + c) + [last];
      DistinctIff(a, row, c);
      DistinctSnoc(a + [row] + c, last);
      DistinctSnoc(a + c, last);
      AbsentConcat(a + [row], c, last.id);
      AbsentConcat(a, [row], last.id);
      AbsentConcat(a, c, last.id);
      assert b == c + [last];
      AbsentConcat(c, [last], row.id);
      OneRowAbsent(row, last.id);
      OneRowAbsent(last, row.id);
    }
  }

  lemma OneRowAbsent(row: Row, id: nat)
    ensures Absent([row], id) <==> row.id != id
  {
    assert row in [row];
  }

  lemma {:induction false} DistinctMeans(rows: seq<Row>, i: nat, j: nat)
    requires DistinctIds(rows) && i < j < |rows|
    ensures rows[i].id != rows[j].id
    decreases |rows|
  {
    if j < |rows| - 1 {
      DistinctMeans(rows[..|rows| - 1], i, j);
    } else {
      assert rows[..|rows| - 1][i] == rows[i];
    }
  }

  lemma RowMapSnoc(rows: seq<Row>, row: Row)
    ensures RowMap(rows + [row]) == RowMap(rows)[row.id := row]
  {
    assert (rows + [row])[..|rows|] == rows;
  }

  /** A row anywhere in the list stands in the map as if it had come last. */
  lemma {:induction false} RowMapMiddle(a: seq<Row>, row: Row, b: seq<Row>)
    requires Absent(b, row.id)
    ensures RowMap(a + [row] + b) == RowMap(a + b)[row.id := row]
    decreases |b|
  {
    hide RowMap;
    if b == [] {
      assert a + b == a && a + [row] + b == a + [row];
      RowMapSnoc(a, row);
    } else {
      var c, last := b[..|b| - 1], b[|b| - 1];
      assert last in b && forall r <- c :: r in b;
      RowMapMiddle(a, row, c);
      assert a + [row] + b == (a + [row] + c) + [last];
      RowMapSnoc(a + [row] + c, last);
      assert a + b == (a + c) + [last];
      RowMapSnoc(a + c, last);
    }
  }

  /** Three edits of a list of rows with distinct ids, as edits of its map. */
  lemma RowAdded(a: seq<Row>, row: Row, b: seq<Row>)
    requires DistinctIds(a + b) && row.id !in RowMap(a + b)
    ensures DistinctIds(a + [row] + b)
    ensures RowMap(a + [row] + b) == RowMap(a + b)[row.id := row]
  {
    AbsentIff(a + b, row.id);
    assert forall r <- a :: r in a + b;
    assert forall r <- b :: r in a + b;
    DistinctIff(a, row, b);
    RowMapMiddle(a, row, b);
  }

  lemma RowReplaced(a: seq<Row>, row: Row, b: seq<Row>, row': Row)
    requires DistinctIds(a + [row] + b) && row'.id == row.id
    ensures DistinctIds(a + [row'] + b)
    ensures RowMap(a + [row'] + b) == RowMap(a + [row] + b)[row.id := row']
  {
    DistinctIff(a, row, b);
    DistinctIff(a, row', b);
    RowMapMiddle(a, row, b);
    RowMapMiddle(a, row', b);
  }

  lemma RowRemoved(a: seq<Row>, row: Row, b: seq<Row>)
    requires DistinctIds(a + [row] + b)
    ensures DistinctIds(a + b)
    ensures RowMap(a + b) == RowMap(a + [row] + b) - {row.id}
  {
    DistinctIff(a, row, b);
    RowMapMiddle(a, row, b);
    assert Absent(a + b, row.id);
    AbsentIff(a + b, row.id);
  }

  // ---- Rows of edited pages

  lemma {:induction false} RowsConcat(ps: seq<PageVal>, qs: seq<PageVal>)
    ensures Rows(ps + qs) == Rows(ps) + Rows(qs)
    decreases |qs|
  {
    hide LiveRows;
    if qs == [] {
      assert ps + qs == ps;
    } else {
      var n := |qs| - 1;
      RowsConcat(ps, qs[..n]);
      assert (ps + qs)[..|ps| + n] == ps + qs[..n];
      assert (ps + qs)[|ps| + n] == qs[n];
      var rows := LiveRows(qs[n].records, qs[n].id);
      assert Rows(ps + qs) == Rows(ps + qs[..n]) + rows;
      assert Rows(qs) == Rows(qs[..n]) + rows;
    }
  }

  lemma {:induction false} LiveRowsConcat(rs: seq<Record>, ts: seq<Record>, page: nat)
    ensures LiveRows(rs + ts, page) == LiveRows(rs, page) + LiveRows(ts, page)
    decreases |ts|
  {
    if ts == [] {
      assert rs + ts == rs;
    } else {
      var n := |ts| - 1;
      LiveRowsConcat(rs, ts[..n], page);
      assert (rs + ts)[..|rs| + n] == rs + ts[..n];
      assert (rs + ts)[|rs| + n] == ts[n];
      var row := if ts[n].deleted then [] else [Row(ts[n].id, ts[n].data, page)];
      assert LiveRows(rs + ts, page) == LiveRows(rs + ts[..n], page) + row;
      assert LiveRows(ts, page) == LiveRows(ts[..n], page) + row;
    }
  }

  lemma {:induction false} LiveConcat(a: seq<Record>, b: seq<Record>)
    ensures Live(a + b) == Live(a) + Live(b)
    decreases |b|
  {
    if b == [] {
      assert a + b == a;
    } else {
      var n := |b| - 1;
      LiveConcat(a, b[..n]);
      assert (a + b)[..|a| + n] == a + b[..n];
      if !b[n].deleted {
        assert Live(a + b) == Live(a) + Live(b[..n]) + [b[n]];
      }
    }
  }

  lemma OneLiveRecord(r: Record)
    requires !r.deleted
    ensures Live([r]) == [r]
  {
    assert [r][..0] == [];
  }

  /** The rows before page `p`, the rows of page `p`, the rows behind it. */
  lemma RowsAround(ps: seq<PageVal>, p: nat, page: PageVal)
    requires p < |ps|
    ensures Rows(ps[p := page]) == Rows(ps[..p]) + LiveRows(page.records, page.id) + Rows(ps[p + 1..])
  {
    assert ps[p := page] == ps[..p] + [page] + ps[p + 1..];
    RowsConcat(ps[..p] + [page], ps[p + 1..]);
    RowsConcat(ps[..p], [page]);
    assert Rows([page]) == LiveRows(page.records, page.id) by {
      assert [page][..0] == [];
    }
  }

  lemma SlotAround(rs: seq<Record>, i: nat, r: Record, page: nat)
    requires i < |rs|
    ensures LiveRows(rs[i := r], page)
         == LiveRows(rs[..i], page) + (if r.deleted then [] else [Row(r.id, r.data, page)])
            + LiveRows(rs[i + 1..], page)
  {
    assert rs[i := r] == rs[..i] + [r] + rs[i + 1..];
    LiveRowsConcat(rs[..i] + [r], rs[i + 1..], page);
    LiveRowsConcat(rs[..i], [r], page);
    assert [r][..0] == [];
  }

  lemma RowInPages(ps: seq<PageVal>, row: Row) returns (p: nat)
    requires row in Rows(ps)
    ensures p < |ps| && row in LiveRows(ps[p].records, ps[p].id) && row.page == ps[p].id
    decreases |ps|
  {
    var n := |ps| - 1;
    if row in LiveRows(ps[n].records, ps[n].id) {
      p := n;
      var i := RowInSlots(ps[n].records, ps[n].id, row);
    } else {
      p := RowInPages(ps[..n], row);
    }
  }

  lemma {:induction false} RowInSlots(rs: seq<Record>, page: nat, row: Row) returns (i: nat)
    requires row in LiveRows(rs, page)
    ensures i < |rs| && !rs[i].deleted && row == Row(rs[i].id, rs[i].data, page)
    decreases |rs|
  {
    var n := |rs| - 1;
    if row in LiveRows(rs[..n], page) {
      i := RowInSlots(rs[..n], page, row);
    } else {
      i := n;
    }
  }

  // ---------------------------------------------------------------------------
  //  What each operation does
  // ---------------------------------------------------------------------------

  /** Replacing slot `i` of page `p` edits the scan order at one place. */
  lemma SlotEdited(ps: seq<PageVal>, p: nat, i: nat, r: Record) returns (a: seq<Row>, b: seq<Row>)
    requires p < |ps| && i < |ps[p].records| && !ps[p].records[i].deleted
    ensures var was, id := ps[p].records[i], ps[p].id;
      && Rows(ps) == a + [Row(was.id, was.data, id)] + b
      && Rows(ps[p := PageVal(id, ps[p].records[i := r])])
         == a + (if r.deleted then [] else [Row(r.id, r.data, id)]) + b
  {
    hide Rows, LiveRows;
    var rs, id := ps[p].records, ps[p].id;
    a := Rows(ps[..p]) + LiveRows(rs[..i], id);
    b := LiveRows(rs[i + 1..], id) + Rows(ps[p + 1..]);
    RowsAround(ps, p, ps[p]);
    RowsAround(ps, p, PageVal(id, rs[i := r]));
    SlotAround(rs, i, rs[i], id);
    SlotAround(rs, i, r, id);
    assert rs[i := rs[i]] == rs && ps[p := ps[p]] == ps;
  }

  lemma SlotEditKeepsPages(ps: seq<PageVal>, p: nat, rs: seq<Record>, nextPageId: nat)
    requires p < |ps| && PagesOk(ps, nextPageId) && |rs| <= MAX_RECORDS_PAGE
    ensures PagesOk(ps[p := PageVal(ps[p].id, rs)], nextPageId)
  {
  }

  lemma PageFound(ps: seq<PageVal>, p: nat, nextPageId: nat)
    requires p < |ps| && PagesOk(ps, nextPageId)
    ensures PageAt(ps, ps[p].id) == p
  {
  }

  /** Where the index sends a look-up, the record is: page, then slot. */
  lemma Located(schema: seq<ColumnDef>, t: TableVal, id: nat)
    requires TableOk(schema, t) && id in t.index
    ensures var p := PageAt(t.pages, t.index[id]);
      && p < |t.pages|
      && Slot(t.pages[p].records, id) < |t.pages[p].records|
      && id in Contents(t)
      && Contents(t)[id] == t.pages[p].records[Slot(t.pages[p].records, id)].data
      && RowMap(Rows(t.pages))[id] == Row(id, Contents(t)[id], t.pages[p].id)
  {
    hide Rows, LiveRows, RowMap, DistinctIds;
    var rows := Rows(t.pages);
    var k := RowOfId(rows, id);
    assert rows[k] in rows;
    var p := RowInPages(t.pages, rows[k]);
    var j := RowInSlots(t.pages[p].records, t.pages[p].id, rows[k]);
    PageFound(t.pages, p, t.nextPageId);
    var i := Slot(t.pages[p].records, id);
    var a, b := SlotEdited(t.pages, p, i, t.pages[p].records[i]);
    var row := Row(id, t.pages[p].records[i].data, t.pages[p].id);
    DistinctIff(a, row, b);
    RowMapMiddle(a, row, b);
  }

  lemma ValidConcat(schema: seq<ColumnDef>, a: seq<Row>, b: seq<Row>)
    ensures AllValid(schema, a + b) <==> AllValid(schema, a) && AllValid(schema, b)
  {
    assert forall r <- a :: r in a + b;
    assert forall r <- b :: r in a + b;
  }

  lemma ValidOne(schema: seq<ColumnDef>, row: Row)
    ensures AllValid(schema, [row]) <==> Validation(schema, row.data) == OK
  {
    assert row in [row];
  }

  /** An inserted record comes last on its page, or opens a new one. */
  lemma InsertedRow(t: TableVal, id: nat, data: Json) returns (a: seq<Row>, row: Row, b: seq<Row>)
    ensures Rows(t.pages) == a + b && Rows(Inserted(t, id, data).pages) == a + [row] + b
    ensures row.id == id && row.data == data
    ensures Inserted(t, id, data).index == t.index[id := row.page]
  {
    hide Rows, LiveRows;
    var p := FirstWithRoom(t.pages);
    var r := Record(id, data, false);
    var t' := Inserted(t, id, data);
    if p < |t.pages| {
      var page := t.pages[p];
      row := Row(id, data, page.id);
      a, b := Rows(t.pages[..p]) + LiveRows(page.records, page.id), Rows(t.pages[p + 1..]);
      RowsAround(t.pages, p, page);
      RowsAround(t.pages, p, t'.pages[p]);
      assert t.pages[p := page] == t.pages;
      LiveRowsConcat(page.records, [r], page.id);
      OneLiveRow(r, page.id);
    } else {
      row := Row(id, data, t.nextPageId);
      a, b := Rows(t.pages), [];
      RowsConcat(t.pages, [PageVal(t.nextPageId, [r])]);
      OneLiveRow(r, t.nextPageId);
    }
  }

  lemma OneLiveRow(r: Record, page: nat)
    requires !r.deleted
    ensures LiveRows([r], page) == [Row(r.id, r.data, page)]
    ensures Rows([PageVal(page, [r])]) == [Row(r.id, r.data, page)]
  {
    assert [r][..0] == [];
    assert [PageVal(page, [r])][..0] == [];
  }

  /** An insert does not wrap the page counter: a page has room, or the counter is not the last number. */
  predicate NoWrap(t: TableVal) {
    FirstWithRoom(t.pages) < |t.pages| || t.nextPageId + 1 < PAGE_ID_LIMIT
  }

  lemma InsertedPages(t: TableVal, id: nat, data: Json)
    requires PagesOk(t.pages, t.nextPageId) && NoWrap(t)
    ensures PagesOk(Inserted(t, id, data).pages, Inserted(t, id, data).nextPageId)
    ensures Inserted(t, id, data).nextPageId <= t.nextPageId + 1
  {
  }

  /** The page ids stay distinct and below the counter exactly when the counter does not have to wrap. */
  lemma InsertedPagesIff(t: TableVal, id: nat, data: Json)
    requires PagesOk(t.pages, t.nextPageId) && t.nextPageId < PAGE_ID_LIMIT
    ensures PagesOk(Inserted(t, id, data).pages, Inserted(t, id, data).nextPageId) <==> NoWrap(t)
  {
    var now, p := Inserted(t, id, data), FirstWithRoom(t.pages);
    if NoWrap(t) {
      InsertedPages(t, id, data);
    } else {
      assert now.pages[p].id == t.nextPageId && now.nextPageId == 0;
    }
  }

  /** An insert adds one binding, whatever the counter does, and keeps the table well-formed unless it wraps. */
  lemma InsertedOk(schema: seq<ColumnDef>, t: TableVal, id: nat, data: Json)
    requires TableOk(schema, t) && id !in t.index && Validation(schema, data) == OK
    ensures NoWrap(t) ==> TableOk(schema, Inserted(t, id, data))
    ensures Contents(Inserted(t, id, data)) == Contents(t)[id := data]
  {
    hide Rows, RowMap, DistinctIds, AllValid, PagesOk, Inserted, NoWrap;
    var a, row, b := InsertedRow(t, id, data);
    RowAdded(a, row, b);
    if NoWrap(t) {
      InsertedPages(t, id, data);
    }
    ValidConcat(schema, a, b);
    ValidConcat(schema, a + [row], b);
    ValidConcat(schema, a, [row]);
    ValidOne(schema, row);
  }

  lemma CounterMoves(t: TableVal, id: nat, data: Json)
    ensures Inserted(t, id, data).nextPageId <= t.nextPageId + 1
  {
  }

  lemma UpdatedOk(schema: seq<ColumnDef>, t: TableVal, id: nat, data: Json)
    requires TableOk(schema, t) && id in t.index && Validation(schema, data) == OK
    ensures TableOk(schema, Updated(t, id, data))
    ensures Contents(Updated(t, id, data)) == Contents(t)[id := data]
  {
    hide Rows, RowMap, DistinctIds, AllValid;
    Located(schema, t, id);
    var p := PageAt(t.pages, t.index[id]);
    var page := t.pages[p];
    var i := Slot(page.records, id);
    var a, b := SlotEdited(t.pages, p, i, page.records[i].(data := data));
    var row, row' := Row(id, page.records[i].data, page.id), Row(id, data, page.id);
    RowReplaced(a, row, b, row');
    SlotEditKeepsPages(t.pages, p, WithData(page.records, id, data), t.nextPageId);
    ValidConcat(schema, a + [row], b);
    ValidConcat(schema, a, [row]);
    ValidConcat(schema, a + [row'], b);
    ValidConcat(schema, a, [row']);
    ValidOne(schema, row');
  }

  lemma DeletedOk(schema: seq<ColumnDef>, t: TableVal, id: nat)
    requires TableOk(schema, t) && id in t.index
    ensures TableOk(schema, Deleted(t, id))
    ensures Contents(Deleted(t, id)) == Contents(t) - {id}
  {
    hide Rows, RowMap, DistinctIds, AllValid;
    Located(schema, t, id);
    var p := PageAt(t.pages, t.index[id]);
    var page := t.pages[p];
    var i := Slot(page.records, id);
    var a, b := SlotEdited(t.pages, p, i, page.records[i].(deleted := true));
    var row := Row(id, page.records[i].data, page.id);
    assert Rows(Deleted(t, id).pages) == a + b;
    RowRemoved(a, row, b);
    SlotEditKeepsPages(t.pages, p, WithDeleted(page.records, id), t.nextPageId);
    ValidConcat(schema, a + [row], b);
    ValidConcat(schema, a, [row]);
    ValidConcat(schema, a, b);
  }

  lemma {:induction false} LiveRowsOfLive(rs: seq<Record>, page: nat)
    ensures LiveRows(Live(rs), page) == LiveRows(rs, page)
    decreases |rs|
  {
    if rs != [] {
      var n := |rs| - 1;
      LiveRowsOfLive(rs[..n], page);
      if !rs[n].deleted {
        assert Live(rs)[..|Live(rs)| - 1] == Live(rs[..n]);
      }
    }
  }

  /** Compaction moves no row: the scan order is the same. */
  lemma {:induction false} CompactedRows(ps: seq<PageVal>)
    ensures Rows(Compacted(ps)) == Rows(ps)
    decreases |ps|
  {
    hide LiveRows;
    if ps != [] {
      var n := |ps| - 1;
      CompactedRows(ps[..n]);
      assert Compacted(ps)[..n] == Compacted(ps[..n]);
      LiveRowsOfLive(ps[n].records, ps[n].id);
    }
  }

  lemma CompactedOk(schema: seq<ColumnDef>, t: TableVal)
    requires TableOk(schema, t)
    ensures TableOk(schema, t.(pages := Compacted(t.pages)))
    ensures Contents(t.(pages := Compacted(t.pages))) == Contents(t)
  {
    hide Rows, RowMap, DistinctIds, AllValid;
    CompactedRows(t.pages);
  }

  lemma PageMapSnoc(rows: seq<Row>, row: Row)
    ensures PageMap(RowMap(rows + [row])) == PageMap(RowMap(rows))[row.id := row.page]
  {
    hide RowMap;
    RowMapSnoc(rows, row);
  }

  lemma {:induction false} IndexPageIs(rows: seq<Row>, rs: seq<Record>, page: nat)
    ensures IndexPage(PageMap(RowMap(rows)), rs, page) == PageMap(RowMap(rows + LiveRows(rs, page)))
    decreases |rs|
  {
    hide RowMap, PageMap;
    if rs == [] {
      assert rows + [] == rows;
    } else {
      var n := |rs| - 1;
      IndexPageIs(rows, rs[..n], page);
      if !rs[n].deleted {
        var before, row := rows + LiveRows(rs[..n], page), Row(rs[n].id, rs[n].data, page);
        assert rows + LiveRows(rs, page) == before + [row];
        PageMapSnoc(before, row);
      }
    }
  }

  /** A scan of the pages computes the map from the rows' ids to their pages. */
  lemma {:induction false} IndexOfIs(ps: seq<PageVal>)
    ensures IndexOf(ps) == PageMap(RowMap(Rows(ps)))
    decreases |ps|
  {
    hide LiveRows, IndexPage;
    if ps != [] {
      var n := |ps| - 1;
      IndexOfIs(ps[..n]);
      IndexPageIs(Rows(ps[..n]), ps[n].records, ps[n].id);
    }
  }

  // ---------------------------------------------------------------------------
  //  A table refines a map
  // ---------------------------------------------------------------------------

  /** The same operations on a plain map from id to data. */
  function MapExec(schema: seq<ColumnDef>, m: map<nat, Json>, op: Op): (Status, map<nat, Json>) {
    match op
    case Insert(r) =>
      var s := Validation(schema, r.data);
      if s != OK then (s, m) else if r.id in m then (DUPLICATE_KEY, m) else (OK, m[r.id := r.data])
    case Update(r) =>
      var s := Validation(schema, r.data);
      if s != OK then (s, m) else if r.id !in m then (NOT_FOUND, m) else (OK, m[r.id := r.data])
    case Delete(id) => if id !in m then (NOT_FOUND, m) else (OK, m - {id})
    case Compact => (OK, m)
    case RebuildIndex => (OK, m)
  }

  /** Every operation keeps the table well-formed and does to its contents what it does to a map. */
  lemma ExecRefines(schema: seq<ColumnDef>, t: TableVal, op: Op)
    requires TableOk(schema, t)
    ensures !op.Insert? || NoWrap(t) || Exec(schema, t, op).0 != OK ==> TableOk(schema, Exec(schema, t, op).1)
    ensures Exec(schema, t, op).0 == MapExec(schema, Contents(t), op).0
    ensures Contents(Exec(schema, t, op).1) == MapExec(schema, Contents(t), op).1
    ensures Exec(schema, t, op).1.nextPageId <= t.nextPageId + 1
  {
    hide Rows, RowMap, DistinctIds, AllValid, PagesOk, Inserted, Updated, Deleted, Validation, NoWrap;
    assert forall id :: id in t.index <==> id in Contents(t);
    match op {
      case Insert(r) =>
        if Exec(schema, t, op).0 == OK {
          InsertedOk(schema, t, r.id, r.data);
          CounterMoves(t, r.id, r.data);
        }
      case Update(r) =>
        if Exec(schema, t, op).0 == OK {
          UpdatedOk(schema, t, r.id, r.data);
          SameCounter(t, r.id, r.data);
        }
      case Delete(id) =>
        if Exec(schema, t, op).0 == OK {
          DeletedOk(schema, t, id);
          SameCounter(t, id, Null);
        }
      case Compact =>
        CompactedOk(schema, t);
      case RebuildIndex =>
        IndexOfIs(t.pages);
    }
  }

  lemma SameCounter(t: TableVal, id: nat, data: Json)
    requires id in t.index
    ensures Updated(t, id, data).nextPageId == Deleted(t, id).nextPageId == t.nextPageId
  {
  }

  /** The status of every operation and what it does to the contents, told outright. */
  lemma WhatOperationsDo(schema: seq<ColumnDef>, t: TableVal, op: Op)
    requires TableOk(schema, t)
    ensures var (status, now), was := Exec(schema, t, op), Contents(t);
      && (op.Insert? ==>
            && (Validation(schema, op.r.data) != OK ==> status == Validation(schema, op.r.data))
            && (Validation(schema, op.r.data) == OK && op.r.id in was ==> status == DUPLICATE_KEY)
            && (Validation(schema, op.r.data) == OK && op.r.id !in was ==>
                  status == OK && Contents(now) == was[op.r.id := op.r.data]))
      && (op.Update? ==>
            && (Validation(schema, op.r.data) != OK ==> status == Validation(schema, op.r.data))
            && (Validation(schema, op.r.data) == OK && op.r.id !in was ==> status == NOT_FOUND)
            && (Validation(schema, op.r.data) == OK && op.r.id in was ==>
                  status == OK && Contents(now) == was[op.r.id := op.r.data]))
      && (op.Delete? ==>
            && (op.id !in was ==> status == NOT_FOUND)
            && (op.id in was ==> status == OK && Contents(now) == was - {op.id}))
      && (op.Compact? || op.RebuildIndex? ==> status == OK && Contents(now) == was)
      && (status != OK ==> now == t)
  {
    hide Contents, TableOk, Validation, Inserted, Updated, Deleted, Compacted, IndexOf;
    ExecRefines(schema, t, op);
  }

  /** In a well-formed table every value in a column has the column's kind, and every required column its value. */
  lemma StoredKinds(schema: seq<ColumnDef>, t: TableVal, id: nat, col: ColumnDef)
    requires TableOk(schema, t) && id in Contents(t) && col in schema
    ensures var data := Contents(t)[id];
      && (!(data.Object? && col.name in data.fields) ==> col.nullable)
      && (data.Object? && col.name in data.fields ==>
            var v := data.fields[col.name];
            && (col.columnType == STRING ==> v.Str?)
            && (col.columnType == BOOL ==> v.Bool?)
            && (col.columnType == DOUBLE ==> v.Number?)
            && (col.columnType == INT ==>
                  v.Number? && exists n :: -0x8000_0000_0000_0000 <= n <= 0x8000_0000_0000_0000 && v.r == Whole(n))
            && !col.columnType.OTHER?)
  {
    hide Rows, RowMap, Validation, DistinctIds, PagesOk;
    var k := RowOfId(Rows(t.pages), id);
    assert Rows(t.pages)[k] in Rows(t.pages);
    ValidKinds(schema, Contents(t)[id], col);
  }

  /** Rebuilding the index of a table changes nothing: it recomputes the index kept all along. */
  lemma RebuildChangesNothing(schema: seq<ColumnDef>, t: TableVal)
    requires TableOk(schema, t)
    ensures Exec(schema, t, RebuildIndex) == (OK, t)
  {
    IndexOfIs(t.pages);
  }

  function ExecAll(schema: seq<ColumnDef>, t: TableVal, ops: seq<Op>): (seq<Status>, TableVal)
    decreases |ops|
  {
    if ops == [] then ([], t)
    else
      var (ss, t') := ExecAll(schema, t, ops[..|ops| - 1]);
      var (s, t'') := Exec(schema, t', ops[|ops| - 1]);
      (ss + [s], t'')
  }

  function MapExecAll(schema: seq<ColumnDef>, m: map<nat, Json>, ops: seq<Op>): (seq<Status>, map<nat, Json>)
    decreases |ops|
  {
    if ops == [] then ([], m)
    else
      var (ss, m') := MapExecAll(schema, m, ops[..|ops| - 1]);
      var (s, m'') := MapExec(schema, m', ops[|ops| - 1]);
      (ss + [s], m'')
  }

  /**
   * A table is a map.  Every run of operations from the empty table gives the statuses and
   * leaves the contents that the same run gives and leaves on a map.
   */
  lemma {:induction false} TableRefinesMap(schema: seq<ColumnDef>, ops: seq<Op>)
    requires |ops| + 1 < PAGE_ID_LIMIT   // so few operations cannot exhaust the page ids
    ensures var (ss, t) := ExecAll(schema, EMPTY_TABLE, ops);
      && TableOk(schema, t)
      && t.nextPageId <= |ops|
      && (ss, Contents(t)) == MapExecAll(schema, map[], ops)
    decreases |ops|
  {
    hide Exec, MapExec, Validation;
    if ops == [] {
      assert Rows([]) == [] && RowMap([]) == map[];
    } else {
      var n := |ops| - 1;
      TableRefinesMap(schema, ops[..n]);
      hide TableOk, Contents;
      ExecRefines(schema, ExecAll(schema, EMPTY_TABLE, ops[..n]).1, ops[n]);
    }
  }
}
