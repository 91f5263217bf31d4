/** Pages and tables in memory, proved against the operations on values of `Tables`. */
module TableStore {
  import opened Common
  import opened Records
  import opened Tables

  class Page {
    var id: nat
    var dirty: bool
    var records: seq<Record>

    function Value(): PageVal
      reads this
    {
      PageVal(id, records)
    }

    constructor (id: nat)
      ensures Value() == PageVal(id, []) && !dirty
    {
      this.id := id;
      dirty := false;
      records := [];
    }

    predicate IsFull()
      reads this
    {
      |records| == MAX_RECORDS_PAGE
    }

    /** Stores a copy of the record as a new live slot. */
    method AddRecord(r: Record) returns (status: Status)
      modifies this
      ensures status == if old(|records|) == 64 then OUT_OF_MEMORY else OK
      ensures Value() == if status == OK then PageVal(old(id), old(records) + [Record(r.id, r.data, false)])
                         else old(Value())
      ensures dirty == (old(dirty) || status == OK)
    {
      if IsFull() {
        return OUT_OF_MEMORY;
      }
      records := records + [Record(r.id, r.data, false)];
      dirty := true;
      return OK;
    }

    /** The slot of the live record with this id, or the number of slots. */
    method FindSlot(key: nat) returns (i: nat)
      ensures i == Slot(records, key)
    {
      i := 0;
      while i < |records|
        invariant i <= |records|
        invariant i + Slot(records[i..], key) == Slot(records, key)
      {
        if !records[i].deleted && records[i].id == key {
          return;
        }
        assert records[i..][1..] == records[i + 1..];
        i := i + 1;
      }
    }

    method UpdateRecord(r: Record) returns (status: Status)
      modifies this
      ensures status == if Slot(old(records), r.id) < |old(records)| then OK else NOT_FOUND
      ensures Value() == PageVal(old(id), WithData(old(records), r.id, r.data))
      ensures dirty == (old(dirty) || status == OK)
    {
      var i := FindSlot(r.id);
      if i == |records| {
        return NOT_FOUND;
      }
      records := records[i := records[i].(data := r.data)];
      dirty := true;
      return OK;
    }

    /** Soft delete: the slot stays taken. */
    method DeleteRecord(key: nat) returns (status: Status)
      modifies this
      ensures status == if Slot(old(records), key) < |old(records)| then OK else NOT_FOUND
      ensures Value() == PageVal(old(id), WithDeleted(old(records), key))
      ensures dirty == (old(dirty) || status == OK)
    {
      var i := FindSlot(key);
      if i == |records| {
        return NOT_FOUND;
      }
      records := records[i := records[i].(deleted := true)];
      dirty := true;
      return OK;
    }

    /** Drops the deleted slots and, whatever was unsaved, clears `dirty`. */
    method Compact()
      modifies this
      ensures Value() == PageVal(old(id), Live(old(records)))
      ensures !dirty
    {
      var live := [];
      for i := 0 to |records|
        invariant live == Live(records[..i])
      {
        assert records[..i + 1][..i] == records[..i];
        if !records[i].deleted {
          live := live + [records[i]];
        }
      }
      assert records[..|records|] == records;
      records := live;
      dirty := false;
    }
  }

  ghost function Values(ps: seq<Page>): (vs: seq<PageVal>)
    reads ps
    ensures |vs| == |ps|
    ensures forall i :: 0 <= i < |ps| ==> vs[i] == ps[i].Value()
  {
    seq(|ps|, i requires 0 <= i < |ps| reads ps => ps[i].Value())
  }

  ghost predicate Distinct(ps: seq<Page>) {
    forall i, j :: 0 <= i < j < |ps| ==> ps[i] != ps[j]
  }

  /** The page index holds exactly the pages, by the ids that they have. */
  ghost predicate Indexed(ps: seq<Page>, vs: seq<PageVal>, pageIndex: map<nat, Page>) {
    && |vs| == |ps|
    && (forall i :: 0 <= i < |ps| ==> vs[i].id in pageIndex && pageIndex[vs[i].id] == ps[i])
    && (forall key <- pageIndex :: exists i :: 0 <= i < |vs| && vs[i].id == key)
  }

  class Table {
    const schema: seq<ColumnDef>
    var pages: seq<Page>
    var index: map<nat, nat>
    var pageIndex: map<nat, Page>
    var nextPageId: nat
    var dirty: bool

    ghost function View(): TableVal
      reads this, pages
    {
      TableVal(Values(pages), index, nextPageId)
    }

    ghost predicate Valid()
      reads this, pages
    {
      && Distinct(pages)
      && Indexed(pages, Values(pages), pageIndex)
      && TableOk(schema, View())
    }

    constructor (schema: seq<ColumnDef>)
      ensures Valid() && View() == EMPTY_TABLE && this.schema == schema && pages == []
    {
      this.schema := schema;
      pages, index, pageIndex, nextPageId, dirty := [], map[], map[], 0, false;
      new;
      EmptyTableOk(schema);
    }

    /** The first page with a free slot, or a new page at the end. */
    method FindPageWithSlot() returns (page: Page)
      requires Distinct(pages)
      modifies this
      ensures Distinct(pages) && (old(Valid()) ==> Indexed(pages, Values(pages), pageIndex))
      ensures index == old(index) && dirty == old(dirty)
      ensures forall q <- pages :: q in old(pages) || fresh(q)
      ensures (Values(pages), nextPageId) == WithRoom(old(View()))
      ensures FirstWithRoom(old(View()).pages) < |pages| && page == pages[FirstWithRoom(old(View()).pages)]
    {
      hide TableOk, Distinct, Indexed, Values;
      ghost var values := Values(pages);
      for i := 0 to |pages|
        invariant i + FirstWithRoom(values[i..]) == FirstWithRoom(values)
      {
        assert values[i..][1..] == values[i + 1..];
        if !pages[i].IsFull() {
          return pages[i];
        }
      }
      ghost var valid := Valid();
      IdsBelowCounter(schema, View());
      page := new Page(nextPageId);
      PageJoins(pages, values, pageIndex, page, page.Value(), valid);
      ValuesSnoc(pages, page);
      nextPageId := (nextPageId + 1) % PAGE_ID_LIMIT;
      pages := pages + [page];
      pageIndex := pageIndex[page.id := page];
    }

    /** Adds the record to the page that has room for it. */
    method PlaceRecord(r: Record) returns (page: Page)
      requires Distinct(pages)
      modifies this, pages
      ensures Distinct(pages) && (old(Valid()) ==> Indexed(pages, Values(pages), pageIndex))
      ensures forall q <- pages :: q in old(pages) || fresh(q)
      ensures index == old(index) && dirty == old(dirty)
      ensures TableVal(Values(pages), index[r.id := page.id], nextPageId)
           == Inserted(old(View()), r.id, r.data)
    {
      hide TableOk, FirstWithRoom, Values, Inserted, WithRoom, Distinct, Indexed;
      ghost var t := View();
      page := FindPageWithSlot();
      ghost var was := Values(pages);
      assert page == pages[FirstWithRoom(t.pages)] && page in pages;
      var status := page.AddRecord(r);
      OneValueChanged(pages, was, FirstWithRoom(t.pages));
      if Indexed(pages, was, pageIndex) {
        IndexSeesIdsOnly(pages, was, Values(pages), pageIndex);
      }
      InsertedIs(t, r.id, r.data);
    }

    /** Works on any table, even after the page counter has wrapped; says more of a valid one. */
    method InsertRecord(r: Record) returns (status: Status)
      requires Distinct(pages)
      modifies this, pages
      ensures Distinct(pages)
      ensures old(Valid()) ==> Indexed(pages, Values(pages), pageIndex)
      ensures old(Valid()) && (status != OK || NoWrap(old(View()))) ==> Valid()
      ensures forall q <- pages :: q in old(pages) || fresh(q)
      ensures (status, View()) == Exec(schema, old(View()), Insert(r))
      ensures old(Valid()) ==> (status, Contents(View())) == MapExec(schema, old(Contents(View())), Insert(r))
      ensures dirty == (old(dirty) || status == OK)
    {
      hide TableOk, Validation, Contents, Inserted, Distinct, Indexed, Values, NoWrap;
      ghost var t := View();
      if Valid() {
        ExecRefines(schema, t, Insert(r));
      }
      status := Validate(schema, r.data);
      if status != OK {
        return;
      }
      if r.id in index {
        return DUPLICATE_KEY;
      }
      var page := PlaceRecord(r);
      ghost var placed := Values(pages);
      index := index[r.id := page.id];
      dirty := true;
      assert Values(pages) == placed;
    }

    /** The page that the index names for a live id; it is always there. */
    method FindPageOf(key: nat) returns (page: Page)
      requires Valid() && key in index
      ensures var p := PageAt(Values(pages), index[key]);
        && p < |pages| && page == pages[p]
        && Slot(page.records, key) < |page.records|
        && key in Contents(View())
        && Contents(View())[key] == page.records[Slot(page.records, key)].data
    {
      hide TableOk, Contents, Values;
      Located(schema, View(), key);
      ghost var p := PageAt(Values(pages), index[key]);
      assert pages[p].id == index[key];
      page := pageIndex[index[key]];
    }

    method GetRecord(key: nat) returns (status: Status, out: Record)
      requires Valid()
      ensures status == if key in Contents(View()) then OK else NOT_FOUND
      ensures status == OK ==> out == Record(key, Contents(View())[key], false)
    {
      hide TableOk, Contents, Values;
      IndexMatches(schema, View(), key);
      if key !in index {
        return NOT_FOUND, Record(0, Null, false);
      }
      var page := FindPageOf(key);
      var i := page.FindSlot(key);
      return OK, page.records[i];
    }

    method UpdateRecord(r: Record) returns (status: Status)
      requires Valid()
      modifies this, pages
      ensures Valid() && pages == old(pages)
      ensures (status, View()) == Exec(schema, old(View()), Update(r))
      ensures (status, Contents(View())) == MapExec(schema, old(Contents(View())), Update(r))
      ensures dirty == (old(dirty) || status == OK)
    {
      hide TableOk, Validation, Contents, Values, WithData, Distinct, Indexed, Updated;
      ghost var t := View();
      ExecRefines(schema, t, Update(r));
      status := Validate(schema, r.data);
      if status != OK {
        return;
      }
      if r.id !in index {
        return NOT_FOUND;
      }
      var page := FindPageOf(r.id);
      UpdatedIs(t, r.id, r.data);
      status := page.UpdateRecord(r);
      OnePageChanged(pages, t.pages, pageIndex, PageAt(t.pages, index[r.id]));
      dirty := true;
    }

    method DeleteRecord(key: nat) returns (status: Status)
      requires Valid()
      modifies this, pages
      ensures Valid() && pages == old(pages)
      ensures (status, View()) == Exec(schema, old(View()), Delete(key))
      ensures (status, Contents(View())) == MapExec(schema, old(Contents(View())), Delete(key))
      ensures dirty == (old(dirty) || status == OK)
    {
      hide TableOk, Contents, Values, WithDeleted, Distinct, Indexed, Deleted;
      ghost var t := View();
      ExecRefines(schema, t, Delete(key));
      if key !in index {
        return NOT_FOUND;
      }
      var page := FindPageOf(key);
      UpdatedIs(t, key, Null);
      status := page.DeleteRecord(key);
      OnePageChanged(pages, t.pages, pageIndex, PageAt(t.pages, index[key]));
      index := index - {key};
      dirty := true;
    }

    method CompactPage(i: nat)
      requires Distinct(pages) && Indexed(pages, Values(pages), pageIndex)
      requires i < |pages|
      modifies pages[i]
      ensures Indexed(pages, Values(pages), pageIndex)
      ensures var was := old(Values(pages));
        Values(pages) == was[i := PageVal(was[i].id, Live(was[i].records))]
    {
      hide Values, Live, Distinct, Indexed;
      ghost var was := Values(pages);
      pages[i].Compact();
      OnePageChanged(pages, was, pageIndex, i);
    }

    method CompactEachPage()
      requires Distinct(pages) && Indexed(pages, Values(pages), pageIndex)
      modifies pages
      ensures Indexed(pages, Values(pages), pageIndex)
      ensures Values(pages) == Compacted(old(Values(pages)))
    {
      hide Values, Live, Compacted, HalfCompacted, Distinct, Indexed;
      ghost var was := Values(pages);
      CompactionEnds(was);
      for i := 0 to |pages|
        invariant Indexed(pages, Values(pages), pageIndex)
        invariant Values(pages) == HalfCompacted(was, i)
      {
        CompactionStep(was, i);
        CompactPage(i);
      }
    }

    method CompactPages() returns (status: Status)
      requires Valid()
      modifies this, pages
      ensures Valid() && pages == old(pages)
      ensures (status, View()) == Exec(schema, old(View()), Compact)
      ensures Contents(View()) == old(Contents(View()))
      ensures !dirty
    {
      hide TableOk, Contents, Values, Compacted, Distinct, Indexed, Exec, MapExec;
      ghost var t := View();
      ExecRefines(schema, t, Compact);
      PageOperations(schema, t);
      CompactEachPage();
      ghost var compacted := Values(pages);
      dirty := false;
      assert Values(pages) == compacted;
      return OK;
    }

    /** Enters the live slots of one page into the index. */
    method IndexPageSlots(page: Page)
      modifies this`index
      ensures index == IndexPage(old(index), page.records, page.id)
    {
      for j := 0 to |page.records|
        invariant index == IndexPage(old(index), page.records[..j], page.id)
      {
        var r := page.records[j];
        assert page.records[..j + 1][..j] == page.records[..j];
        if !r.deleted {
          index := index[r.id := page.id];
        }
      }
      assert page.records[..|page.records|] == page.records;
    }

    method IndexEachPage()
      requires Indexed(pages, Values(pages), pageIndex)
      modifies this`index, this`pageIndex
      ensures index == IndexOf(Values(pages)) && pageIndex == old(pageIndex)
    {
      hide Values, Indexed, IndexPage, PartlyIndexed;
      ghost var vs := Values(pages);
      ghost var was := pageIndex;
      index, pageIndex := map[], map[];
      NothingIndexed(vs, was);
      for i := 0 to |pages|
        invariant Values(pages) == vs
        invariant index == IndexOf(vs[..i])
        invariant PartlyIndexed(vs, pageIndex, was, i)
      {
        OneMoreIndexed(pages, vs, pageIndex, was, i);
        pageIndex := pageIndex[pages[i].id := pages[i]];
        assert vs[..i + 1][..i] == vs[..i];
        IndexPageSlots(pages[i]);
      }
      assert vs[..|pages|] == vs;
      AllIndexed(pages, vs, pageIndex, was);
    }

    /** Rebuilds both indexes from the pages; on a valid table that changes neither. */
    method Reindex() returns (status: Status)
      requires Valid()
      modifies this
      ensures Valid() && pages == old(pages) && pageIndex == old(pageIndex)
      ensures (status, View()) == Exec(schema, old(View()), RebuildIndex)
      ensures View() == old(View()) && dirty == old(dirty)
    {
      hide TableOk, Contents, Values, Distinct, Indexed, IndexOf, Exec, MapExec;
      ghost var t := View();
      PageOperations(schema, t);
      RebuildChangesNothing(schema, t);
      IndexEachPage();
      assert Values(pages) == t.pages;
      return OK;
    }
  }

  /** The rebuilt page index agrees with the old one, and has the first `n` pages. */
  ghost predicate PartlyIndexed(vs: seq<PageVal>, now: map<nat, Page>, was: map<nat, Page>, n: nat) {
    && n <= |vs|
    && (forall key <- now :: key in was && now[key] == was[key])
    && (forall j :: 0 <= j < n ==> vs[j].id in now)
  }

  lemma NothingIndexed(vs: seq<PageVal>, was: map<nat, Page>)
    ensures PartlyIndexed(vs, map[], was, 0)
  {
  }

  lemma OneMoreIndexed(ps: seq<Page>, vs: seq<PageVal>, now: map<nat, Page>, was: map<nat, Page>, n: nat)
    requires Indexed(ps, vs, was) && n < |ps| && PartlyIndexed(vs, now, was, n)
    ensures PartlyIndexed(vs, now[vs[n].id := ps[n]], was, n + 1)
  {
  }

  lemma AllIndexed(ps: seq<Page>, vs: seq<PageVal>, now: map<nat, Page>, was: map<nat, Page>)
    requires Indexed(ps, vs, was) && PartlyIndexed(vs, now, was, |ps|)
    ensures now == was
  {
    forall key | key in was
      ensures key in now
    {
      var i :| 0 <= i < |vs| && vs[i].id == key;
    }
  }

  lemma OneValueChanged(ps: seq<Page>, was: seq<PageVal>, p: nat)
    requires Distinct(ps) && |was| == |ps|
    requires p < |ps|
    requires forall q :: 0 <= q < |ps| && ps[q] != ps[p] ==> ps[q].Value() == was[q]
    ensures Values(ps) == was[p := ps[p].Value()]
  {
    hide Values;
    var now := Values(ps);
    forall q | 0 <= q < |ps| && q != p
      ensures now[q] == was[q]
    {
      assert ps[q] != ps[p];
    }
  }

  lemma IndexSeesIdsOnly(ps: seq<Page>, was: seq<PageVal>, now: seq<PageVal>, pageIndex: map<nat, Page>)
    requires Indexed(ps, was, pageIndex)
    requires |now| == |was| && forall i :: 0 <= i < |was| ==> now[i].id == was[i].id
    ensures Indexed(ps, now, pageIndex)
  {
    forall key | key in pageIndex
      ensures exists i :: 0 <= i < |now| && now[i].id == key
    {
      var i :| 0 <= i < |was| && was[i].id == key;
      assert now[i].id == key;
    }
  }

  /** A change to the slots of one page shows at its place only, and no index notices. */
  lemma OnePageChanged(ps: seq<Page>, was: seq<PageVal>, pageIndex: map<nat, Page>, p: nat)
    requires Distinct(ps) && Indexed(ps, was, pageIndex) && |was| == |ps|
    requires p < |ps| && ps[p].id == was[p].id
    requires forall q :: 0 <= q < |ps| && ps[q] != ps[p] ==> ps[q].Value() == was[q]
    ensures Values(ps) == was[p := ps[p].Value()]
    ensures Indexed(ps, Values(ps), pageIndex)
  {
    hide Values, Distinct, Indexed;
    OneValueChanged(ps, was, p);
    IndexSeesIdsOnly(ps, was, Values(ps), pageIndex);
  }

  lemma PageOperations(schema: seq<ColumnDef>, t: TableVal)
    ensures Exec(schema, t, Compact) == (OK, t.(pages := Compacted(t.pages)))
    ensures MapExec(schema, Contents(t), Compact) == (OK, Contents(t))
    ensures Exec(schema, t, RebuildIndex) == (OK, t.(index := IndexOf(t.pages)))
  {
    hide Contents;
  }

  /** The pages while the first `i` of them are compacted. */
  ghost function HalfCompacted(was: seq<PageVal>, i: nat): (ps: seq<PageVal>)
    requires i <= |was|
    ensures |ps| == |was|
  {
    Compacted(was)[..i] + was[i..]
  }

  lemma CompactionStep(was: seq<PageVal>, i: nat)
    requires i < |was|
    ensures var ps := HalfCompacted(was, i);
      ps[i := PageVal(ps[i].id, Live(ps[i].records))] == HalfCompacted(was, i + 1)
  {
  }

  lemma CompactionEnds(was: seq<PageVal>)
    ensures HalfCompacted(was, 0) == was
    ensures HalfCompacted(was, |was|) == Compacted(was)
  {
  }

  lemma UpdatedIs(t: TableVal, id: nat, data: Json)
    requires id in t.index && PageAt(t.pages, t.index[id]) < |t.pages|
    ensures var p := PageAt(t.pages, t.index[id]);
      var page := t.pages[p];
      && Updated(t, id, data) == t.(pages := t.pages[p := PageVal(page.id, WithData(page.records, id, data))])
      && Deleted(t, id) == TableVal(t.pages[p := PageVal(page.id, WithDeleted(page.records, id))],
                                    t.index - {id}, t.nextPageId)
  {
  }

  lemma IndexMatches(schema: seq<ColumnDef>, t: TableVal, key: nat)
    requires TableOk(schema, t)
    ensures key in t.index <==> key in Contents(t)
  {
    hide Rows, RowMap;
  }

  /** The pages once there is room for one more record, and the page counter. */
  ghost function WithRoom(t: TableVal): (seq<PageVal>, nat) {
    if FirstWithRoom(t.pages) < |t.pages| then (t.pages, t.nextPageId)
    else (t.pages + [PageVal(t.nextPageId, [])], (t.nextPageId + 1) % PAGE_ID_LIMIT)
  }

  lemma InsertedIs(t: TableVal, id: nat, data: Json)
    ensures var (ps, next) := WithRoom(t);
      var p := FirstWithRoom(t.pages);
      && p < |ps| && !ps[p].IsFull()
      && Inserted(t, id, data) ==
           TableVal(ps[p := PageVal(ps[p].id, ps[p].records + [Record(id, data, false)])],
                    t.index[id := ps[p].id], next)
  {
    var p, r := FirstWithRoom(t.pages), Record(id, data, false);
    if p == |t.pages| {
      assert [] + [r] == [r];
      assert (t.pages + [PageVal(t.nextPageId, [])])[p := PageVal(t.nextPageId, [r])]
          == t.pages + [PageVal(t.nextPageId, [r])];
    }
  }

  lemma ValuesSnoc(ps: seq<Page>, page: Page)
    ensures Values(ps + [page]) == Values(ps) + [page.Value()]
  {
  }

  lemma IdsBelowCounter(schema: seq<ColumnDef>, t: TableVal)
    ensures TableOk(schema, t) ==> forall p :: 0 <= p < |t.pages| ==> t.pages[p].id < t.nextPageId
  {
  }

  /** A new page joins the pages and, if its id is new as well, their index. */
  lemma PageJoins(ps: seq<Page>, vs: seq<PageVal>, pageIndex: map<nat, Page>, page: Page, v: PageVal, isNew: bool)
    requires Distinct(ps) && page !in ps
    requires isNew ==> Indexed(ps, vs, pageIndex) && forall i :: 0 <= i < |vs| ==> vs[i].id != v.id
    ensures Distinct(ps + [page])
    ensures isNew ==> Indexed(ps + [page], vs + [v], pageIndex[v.id := page])
  {
    if isNew {
      IndexGrows(ps, vs, pageIndex, page, v);
    }
  }

  lemma IndexGrows(ps: seq<Page>, vs: seq<PageVal>, pageIndex: map<nat, Page>, page: Page, v: PageVal)
    requires Indexed(ps, vs, pageIndex) && forall i :: 0 <= i < |vs| ==> vs[i].id != v.id
    ensures Indexed(ps + [page], vs + [v], pageIndex[v.id := page])
  {
    var now := vs + [v];
    var joined := pageIndex[v.id := page];
    forall key | key in joined
      ensures exists i :: 0 <= i < |now| && now[i].id == key
    {
      if key == v.id {
        assert now[|vs|].id == key;
      } else {
        var i :| 0 <= i < |vs| && vs[i].id == key;
        assert now[i].id == key;
      }
    }
  }

  lemma EmptyTableOk(schema: seq<ColumnDef>)
    ensures TableOk(schema, EMPTY_TABLE)
  {
    assert Rows([]) == [] && RowMap([]) == map[];
  }
}
