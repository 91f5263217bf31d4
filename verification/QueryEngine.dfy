/** The query engine: full scans with filters, an optional sort and a limit, and aggregates. */
module QueryEngine {
  import opened Common
  import opened Queries
  import opened Records
  import opened Tables
  import opened TableStore

  // ---------------------------------------------------------------------------
  //  Progress of a scan
  // ---------------------------------------------------------------------------

  /** The live records before slot `i` of page `p`. */
  function ScanTo(ps: seq<PageVal>, p: nat, i: nat): seq<Record>
    requires p < |ps| && i <= |ps[p].records|
  {
    Scan(ps[..p]) + Live(ps[p].records[..i])
  }

  /** The matches before slot `i` of page `p`. */
  function MatchedTo(ps: seq<PageVal>, p: nat, i: nat, preds: seq<FilterPredicate>): seq<Record>
    requires p < |ps| && i <= |ps[p].records|
  {
    Filtered(ScanTo(ps, p, i), preds)
  }

  lemma FilteredSnoc(rs: seq<Record>, r: Record, preds: seq<FilterPredicate>)
    ensures Filtered(rs + [r], preds) == if MatchesAll(r, preds) then Filtered(rs, preds) + [r] else Filtered(rs, preds)
  {
    assert (rs + [r])[..|rs|] == rs;
  }

  lemma PageStarts(ps: seq<PageVal>, p: nat, preds: seq<FilterPredicate>)
    requires p < |ps|
    ensures MatchedTo(ps, p, 0, preds) == Filtered(Scan(ps[..p]), preds)
  {
    assert Live(ps[p].records[..0]) == [];
    assert Scan(ps[..p]) + [] == Scan(ps[..p]);
  }

  lemma SlotScanned(ps: seq<PageVal>, p: nat, i: nat, preds: seq<FilterPredicate>)
    requires p < |ps| && i < |ps[p].records|
    ensures var r := ps[p].records[i];
      MatchedTo(ps, p, i + 1, preds)
      == if !r.deleted && MatchesAll(r, preds) then MatchedTo(ps, p, i, preds) + [r] else MatchedTo(ps, p, i, preds)
  {
    hide Filtered, Scan, MatchesAll;
    var rs := ps[p].records;
    assert rs[..i + 1][..i] == rs[..i];
    if !rs[i].deleted {
      FilteredSnoc(ScanTo(ps, p, i), rs[i], preds);
      assert ScanTo(ps, p, i + 1) == ScanTo(ps, p, i) + [rs[i]];
    }
  }

  lemma PageScanned(ps: seq<PageVal>, p: nat, preds: seq<FilterPredicate>)
    requires p < |ps|
    ensures MatchedTo(ps, p, |ps[p].records|, preds) == Filtered(Scan(ps[..p + 1]), preds)
  {
    assert ps[p].records[..|ps[p].records|] == ps[p].records;
    assert ps[..p + 1][..p] == ps[..p];
  }

  /** What has been matched is the front of all that will be. */
  lemma MatchedIsPrefix(ps: seq<PageVal>, p: nat, i: nat, preds: seq<FilterPredicate>)
    requires p < |ps| && i <= |ps[p].records|
    ensures MatchedTo(ps, p, i, preds) <= Filtered(Scan(ps), preds)
  {
    hide Filtered, Scan, Live;
    var rs := ps[p].records;
    assert ps == ps[..p] + [ps[p]] + ps[p + 1..];
    ScanConcat(ps[..p] + [ps[p]], ps[p + 1..]);
    ScanConcat(ps[..p], [ps[p]]);
    OnePageScan(ps[p]);
    assert rs == rs[..i] + rs[i..];
    LiveConcat(rs[..i], rs[i..]);
    var rest := Live(rs[i..]) + Scan(ps[p + 1..]);
    assert Scan(ps) == ScanTo(ps, p, i) + rest;
    FilteredConcat(ScanTo(ps, p, i), rest, preds);
  }

  lemma OnePageScan(page: PageVal)
    ensures Scan([page]) == Live(page.records)
  {
    assert [page][..0] == [];
    assert Scan([page]) == [] + Live(page.records);
  }

  method EvaluateAll(r: Record, preds: seq<FilterPredicate>) returns (all: bool)
    ensures all == MatchesAll(r, preds)
  {
    for k := 0 to |preds|
      invariant forall j :: 0 <= j < k ==> Matches(r, preds[j])
    {
      if !Matches(r, preds[k]) {
        assert preds[k] in preds;
        return false;
      }
    }
    return true;
  }

  // ---------------------------------------------------------------------------
  //  Select
  // ---------------------------------------------------------------------------

  /** The records of the scan that match, up to the limit; the scan stops there. */
  method Collect(table: Table, preds: seq<FilterPredicate>, limit: nat) returns (records: seq<Record>)
    requires table.Valid()
    ensures records == Collected(Values(table.pages), preds, limit)
  {
    hide Filtered, Scan, MatchesAll, MatchedTo, Values, Table.Valid;
    ghost var ps := Values(table.pages);
    records := [];
    NothingScanned(ps, preds);
    for p := 0 to |table.pages|
      invariant records == Filtered(Scan(ps[..p]), preds)
      invariant limit > 0 ==> |records| < limit
    {
      PageStarts(ps, p, preds);
      var page := table.pages[p];
      assert ps[p].records == page.records;
      for i := 0 to |page.records|
        invariant records == MatchedTo(ps, p, i, preds)
        invariant limit > 0 ==> |records| < limit
      {
        SlotScanned(ps, p, i, preds);
        var r := page.records[i];
        if !r.deleted {
          var matches := EvaluateAll(r, preds);
          if matches {
            records := records + [r];
            if limit > 0 && |records| >= limit {
              MatchedIsPrefix(ps, p, i + 1, preds);
              return;
            }
          }
        }
      }
      PageScanned(ps, p, preds);
    }
    assert ps[..|ps|] == ps;
  }

  lemma NothingScanned(ps: seq<PageVal>, preds: seq<FilterPredicate>)
    ensures Filtered(Scan(ps[..0]), preds) == []
  {
  }

  method InsertInOrder(sorted: seq<Record>, r: Record, sort: SortCondition, ghost records: seq<Record>)
    returns (more: seq<Record>)
    requires Lawful(Keys(records, sort.field))
    requires r in records && forall q <- sorted :: q in records
    requires Sorted(sort, sorted)
    ensures Sorted(sort, more)
    ensures multiset(more) == multiset(sorted) + multiset{r}
  {
    hide Before, Lawful, Sorted;
    var i := |sorted|;
    while i > 0 && Before(sort, r, sorted[i - 1])
      invariant 0 <= i <= |sorted|
      invariant forall j :: i <= j < |sorted| ==> Before(sort, r, sorted[j])
    {
      i := i - 1;
    }
    InsertSorted(records, sort, sorted, i, r);
    assert sorted == sorted[..i] + sorted[i..];
    more := sorted[..i] + [r] + sorted[i..];
  }

  /**
   * The library sort, which promises a sorted permutation when the order is lawful and
   * nothing otherwise.  Insertion stands in for the library's algorithm.
   */
  method SortResults(records: seq<Record>, sort: SortCondition) returns (sorted: seq<Record>)
    requires Lawful(Keys(records, sort.field))
    ensures multiset(sorted) == multiset(records)
    ensures Sorted(sort, sorted)
  {
    hide Before, Lawful;
    sorted := [];
    for n := 0 to |records|
      invariant multiset(sorted) == multiset(records[..n])
      invariant Sorted(sort, sorted)
    {
      assert records[..n + 1] == records[..n] + [records[n]];
      forall q | q in sorted
        ensures q in records
      {
        assert q in multiset(sorted) && q in multiset(records[..n]);
      }
      sorted := InsertInOrder(sorted, records[n], sort, records);
    }
    assert records[..|records|] == records;
  }

  lemma LawfulBefore(records: seq<Record>, sort: SortCondition, a: Record, b: Record, c: Record)
    requires Lawful(Keys(records, sort.field))
    requires a in records && b in records && c in records
    ensures Before(sort, a, b) ==> !Before(sort, b, a)
    ensures Before(sort, a, b) && Before(sort, b, c) ==> Before(sort, a, c)
    ensures !Before(sort, b, a) && !Before(sort, c, b) ==> !Before(sort, c, a)
  {
    var ks := Keys(records, sort.field);
    var x, y, z := Key(a, sort.field), Key(b, sort.field), Key(c, sort.field);
    KeyIn(records, sort.field, a);
    KeyIn(records, sort.field, b);
    KeyIn(records, sort.field, c);
    hide Less;
    WeakOrder(ks, x, y, z);
    WeakOrder(ks, z, y, x);
  }

  lemma KeyIn(records: seq<Record>, field: string, r: Record)
    requires r in records
    ensures Key(r, field) in Keys(records, field)
  {
    var i :| 0 <= i < |records| && records[i] == r;
    assert Keys(records, field)[i] == Key(r, field);
  }

  lemma WeakOrder(ks: seq<Json>, x: Json, y: Json, z: Json)
    requires Lawful(ks) && x in ks && y in ks && z in ks
    ensures Less(x, y) ==> !Less(y, x)
    ensures Less(x, y) && Less(y, z) ==> Less(x, z)
    ensures !Less(y, x) && !Less(z, y) ==> !Less(z, x)
  {
    hide Less;
  }

  /** Inserting `r` where those before it need not come after it, and those behind it must. */
  lemma InsertSorted(records: seq<Record>, sort: SortCondition, s: seq<Record>, i: nat, r: Record)
    requires Lawful(Keys(records, sort.field))
    requires r in records && forall q <- s :: q in records
    requires Sorted(sort, s) && i <= |s|
    requires forall j :: i <= j < |s| ==> Before(sort, r, s[j])
    requires i > 0 ==> !Before(sort, r, s[i - 1])
    ensures Sorted(sort, s[..i] + [r] + s[i..])
  {
    hide Before, Lawful;
    forall a | 0 <= a < i
      ensures !Before(sort, r, s[a])
    {
      LawfulBefore(records, sort, s[a], s[i - 1], r);
    }
    forall b | i <= b < |s|
      ensures !Before(sort, s[b], r)
    {
      LawfulBefore(records, sort, r, s[b], r);
    }
    SortedAround(sort, s, i, r);
  }

  lemma SortedAround(sort: SortCondition, s: seq<Record>, i: nat, r: Record)
    requires Sorted(sort, s) && i <= |s|
    requires forall a :: 0 <= a < i ==> !Before(sort, r, s[a])
    requires forall b :: i <= b < |s| ==> !Before(sort, s[b], r)
    ensures Sorted(sort, s[..i] + [r] + s[i..])
  {
    hide Before;
    var t := s[..i] + [r] + s[i..];
    forall a, b | 0 <= a < b < |t|
      ensures !Before(sort, t[b], t[a])
    {
      assert t[a] == if a < i then s[a] else if a == i then r else s[a - 1];
      assert t[b] == if b < i then s[b] else if b == i then r else s[b - 1];
    }
  }

  /**
   * Filters, collects up to the limit, and sorts what was collected.  Sorting needs a lawful
   * order; `Queries.RequiredColumnSortsLawfully` says when a table guarantees one.
   */
  method Select(table: Table, preds: seq<FilterPredicate>, sort: Option<SortCondition>, limit: nat)
    returns (result: QueryResult)
    requires table.Valid()
    requires sort.Some? ==> Lawful(Keys(Collected(Values(table.pages), preds, limit), sort.value.field))
    ensures result.status == OK
    ensures var collected := Collected(Values(table.pages), preds, limit);
      && result.totalMatched == |collected|
      && multiset(result.records) == multiset(collected)
      && (sort.None? ==> result.records == collected)
      && (sort.Some? ==> Sorted(sort.value, result.records))
    ensures var matches := Filtered(Scan(Values(table.pages)), preds);
      && result.totalMatched == (if limit == 0 || |matches| <= limit then |matches| else limit)
      && multiset(result.records) == multiset(matches[..result.totalMatched])
  {
    hide Collected, Lawful, Before;
    CollectedIs(Values(table.pages), preds, limit);
    var records := Collect(table, preds, limit);
    var totalMatched := |records|;
    if sort.Some? && |records| > 1 {
      records := SortResults(records, sort.value);
    }
    return QueryResult(records, totalMatched, OK);
  }

  lemma CollectedIs(ps: seq<PageVal>, preds: seq<FilterPredicate>, limit: nat)
    ensures var matches, collected := Filtered(Scan(ps), preds), Collected(ps, preds, limit);
      && |collected| == (if limit == 0 || |matches| <= limit then |matches| else limit)
      && collected == matches[..|collected|]
  {
  }

  method SelectByID(table: Table, id: nat) returns (result: QueryResult)
    requires table.Valid()
    ensures result == if id in Contents(table.View())
                      then QueryResult([Record(id, Contents(table.View())[id], false)], 1, OK)
                      else QueryResult([], 0, NOT_FOUND)
  {
    hide Contents;
    var status, out := table.GetRecord(id);
    if status != OK {
      return QueryResult([], 0, status);
    }
    return QueryResult([out], 1, OK);
  }

  // ---------------------------------------------------------------------------
  //  Aggregates
  // ---------------------------------------------------------------------------

  method Count(table: Table, preds: seq<FilterPredicate>) returns (total: nat)
    requires table.Valid()
    ensures total == |Filtered(Scan(Values(table.pages)), preds)|
  {
    hide Filtered, Scan, MatchesAll, MatchedTo, Values, Table.Valid;
    ghost var ps := Values(table.pages);
    total := 0;
    NothingScanned(ps, preds);
    for p := 0 to |table.pages|
      invariant total == |Filtered(Scan(ps[..p]), preds)|
    {
      PageStarts(ps, p, preds);
      var page := table.pages[p];
      assert ps[p].records == page.records;
      for i := 0 to |page.records|
        invariant total == |MatchedTo(ps, p, i, preds)|
      {
        SlotScanned(ps, p, i, preds);
        var r := page.records[i];
        if !r.deleted {
          var matches := EvaluateAll(r, preds);
          if matches {
            total := total + 1;
          }
        }
      }
      PageScanned(ps, p, preds);
    }
    assert ps[..|ps|] == ps;
  }

  /** The numbers of a field before slot `i` of page `p`, among the matches. */
  function NumbersTo(ps: seq<PageVal>, p: nat, i: nat, preds: seq<FilterPredicate>, field: string): seq<real>
    requires p < |ps| && i <= |ps[p].records|
  {
    Numbers(MatchedTo(ps, p, i, preds), field)
  }

  lemma NumberScanned(ps: seq<PageVal>, p: nat, i: nat, preds: seq<FilterPredicate>, field: string)
    requires p < |ps| && i < |ps[p].records|
    ensures var r := ps[p].records[i];
      NumbersTo(ps, p, i + 1, preds, field)
      == NumbersTo(ps, p, i, preds, field)
         + if !r.deleted && MatchesAll(r, preds) && r.data.Has(field) && Key(r, field).Number?
           then [Key(r, field).r] else []
  {
    hide Filtered, Scan, MatchesAll, MatchedTo;
    var r := ps[p].records[i];
    var before := MatchedTo(ps, p, i, preds);
    SlotScanned(ps, p, i, preds);
    if !r.deleted && MatchesAll(r, preds) {
      assert (before + [r])[..|before|] == before;
    }
  }

  lemma SumSnoc(xs: seq<real>, x: real)
    ensures Sum(xs + [x]) == Sum(xs) + x
  {
    assert (xs + [x])[..|xs|] == xs;
  }

  method SumOf(table: Table, field: string, preds: seq<FilterPredicate>) returns (total: real)
    requires table.Valid()
    ensures total == Sum(Numbers(Filtered(Scan(Values(table.pages)), preds), field))
  {
    hide Filtered, Scan, MatchesAll, MatchedTo, Values, Table.Valid, Numbers, NumbersTo, Sum;
    ghost var ps := Values(table.pages);
    total := 0.0;
    NothingScanned(ps, preds);
    NoNumbers(field);
    for p := 0 to |table.pages|
      invariant total == Sum(Numbers(Filtered(Scan(ps[..p]), preds), field))
    {
      PageStartsNumbers(ps, p, preds, field);
      var page := table.pages[p];
      assert ps[p].records == page.records;
      for i := 0 to |page.records|
        invariant total == Sum(NumbersTo(ps, p, i, preds, field))
      {
        NumberScanned(ps, p, i, preds, field);
        var r := page.records[i];
        var matches := EvaluateAll(r, preds);
        if !r.deleted && matches && r.data.Has(field) && Key(r, field).Number? {
          SumSnoc(NumbersTo(ps, p, i, preds, field), Key(r, field).r);
          total := total + Key(r, field).r;
        } else {
          assert NumbersTo(ps, p, i, preds, field) + [] == NumbersTo(ps, p, i, preds, field);
        }
      }
      PageScannedNumbers(ps, p, preds, field);
    }
    assert ps[..|ps|] == ps;
  }

  lemma NoNumbers(field: string)
    ensures Numbers([], field) == [] && Sum([]) == 0.0
  {
  }

  lemma PageStartsNumbers(ps: seq<PageVal>, p: nat, preds: seq<FilterPredicate>, field: string)
    requires p < |ps|
    ensures NumbersTo(ps, p, 0, preds, field) == Numbers(Filtered(Scan(ps[..p]), preds), field)
  {
    PageStarts(ps, p, preds);
  }

  lemma PageScannedNumbers(ps: seq<PageVal>, p: nat, preds: seq<FilterPredicate>, field: string)
    requires p < |ps|
    ensures NumbersTo(ps, p, |ps[p].records|, preds, field) == Numbers(Filtered(Scan(ps[..p + 1]), preds), field)
  {
    PageScanned(ps, p, preds);
  }

  method Avg(table: Table, field: string, preds: seq<FilterPredicate>) returns (average: real)
    requires table.Valid()
    ensures var xs := Numbers(Filtered(Scan(Values(table.pages)), preds), field);
      average == if xs == [] then 0.0 else Sum(xs) / |xs| as real
  {
    hide Filtered, Scan, MatchesAll, MatchedTo, Values, Table.Valid, Numbers, NumbersTo, Sum;
    ghost var ps := Values(table.pages);
    var total, count := 0.0, 0;
    NothingScanned(ps, preds);
    NoNumbers(field);
    for p := 0 to |table.pages|
      invariant total == Sum(Numbers(Filtered(Scan(ps[..p]), preds), field)) && count == |Numbers(Filtered(Scan(ps[..p]), preds), field)|
    {
      PageStartsNumbers(ps, p, preds, field);
      var page := table.pages[p];
      assert ps[p].records == page.records;
      for i := 0 to |page.records|
        invariant total == Sum(NumbersTo(ps, p, i, preds, field)) && count == |NumbersTo(ps, p, i, preds, field)|
      {
        NumberScanned(ps, p, i, preds, field);
        ghost var xs := NumbersTo(ps, p, i, preds, field);
        var r := page.records[i];
        var matches := EvaluateAll(r, preds);
        if !r.deleted && matches && r.data.Has(field) && Key(r, field).Number? {
          var num := Key(r, field).r;
          SumSnoc(xs, num);
          total, count := total + num, count + 1;
        } else {
          assert xs + [] == xs;
        }
      }
      PageScannedNumbers(ps, p, preds, field);
    }
    assert ps[..|ps|] == ps;
    average := if count > 0 then total / count as real else 0.0;
  }

  lemma ExtremeSnoc(xs: seq<real>, m: real, x: real)
    ensures IsMax(m, xs) ==> IsMax(if xs == [] || x > m then x else m, xs + [x])
    ensures IsMin(m, xs) ==> IsMin(if xs == [] || x < m then x else m, xs + [x])
  {
    assert x in xs + [x];
    assert forall y <- xs :: y in xs + [x];
  }

  method Max(table: Table, field: string, preds: seq<FilterPredicate>) returns (result: real)
    requires table.Valid()
    ensures var xs := Numbers(Filtered(Scan(Values(table.pages)), preds), field);
      if xs == [] then result == 0.0 else result in xs && forall x <- xs :: x <= result
  {
    hide Filtered, Scan, MatchesAll, MatchedTo, Values, Table.Valid, Numbers, NumbersTo, IsMax;
    ghost var ps := Values(table.pages);
    result := 0.0;
    var found := false;
    NoExtreme();
    NothingScanned(ps, preds);
    NoNumbers(field);
    for p := 0 to |table.pages|
      invariant found == (Numbers(Filtered(Scan(ps[..p]), preds), field) != []) && IsMax(result, Numbers(Filtered(Scan(ps[..p]), preds), field))
    {
      PageStartsNumbers(ps, p, preds, field);
      var page := table.pages[p];
      assert ps[p].records == page.records;
      for i := 0 to |page.records|
        invariant found == (NumbersTo(ps, p, i, preds, field) != []) && IsMax(result, NumbersTo(ps, p, i, preds, field))
      {
        NumberScanned(ps, p, i, preds, field);
        ghost var xs := NumbersTo(ps, p, i, preds, field);
        var r := page.records[i];
        var matches := EvaluateAll(r, preds);
        if !r.deleted && matches && r.data.Has(field) && Key(r, field).Number? {
          var num := Key(r, field).r;
          ExtremeSnoc(xs, result, num);
          if !found || num > result {
            result, found := num, true;
          }
        } else {
          assert xs + [] == xs;
        }
      }
      PageScannedNumbers(ps, p, preds, field);
    }
    assert ps[..|ps|] == ps;
    ExtremeMeans(result, Numbers(Filtered(Scan(ps), preds), field));
  }

  lemma ExtremeMeans(m: real, xs: seq<real>)
    ensures IsMax(m, xs) <==> if xs == [] then m == 0.0 else m in xs && forall x <- xs :: x <= m
    ensures IsMin(m, xs) <==> if xs == [] then m == 0.0 else m in xs && forall x <- xs :: x >= m
  {
  }

  lemma NoExtreme()
    ensures IsMax(0.0, []) && IsMin(0.0, [])
  {
  }

  method Min(table: Table, field: string, preds: seq<FilterPredicate>) returns (result: real)
    requires table.Valid()
    ensures var xs := Numbers(Filtered(Scan(Values(table.pages)), preds), field);
      if xs == [] then result == 0.0 else result in xs && forall x <- xs :: x >= result
  {
    hide Filtered, Scan, MatchesAll, MatchedTo, Values, Table.Valid, Numbers, NumbersTo, IsMin;
    ghost var ps := Values(table.pages);
    result := 0.0;
    var found := false;
    NoExtreme();
    NothingScanned(ps, preds);
    NoNumbers(field);
    for p := 0 to |table.pages|
      invariant found == (Numbers(Filtered(Scan(ps[..p]), preds), field) != []) && IsMin(result, Numbers(Filtered(Scan(ps[..p]), preds), field))
    {
      PageStartsNumbers(ps, p, preds, field);
      var page := table.pages[p];
      assert ps[p].records == page.records;
      for i := 0 to |page.records|
        invariant found == (NumbersTo(ps, p, i, preds, field) != []) && IsMin(result, NumbersTo(ps, p, i, preds, field))
      {
        NumberScanned(ps, p, i, preds, field);
        ghost var xs := NumbersTo(ps, p, i, preds, field);
        var r := page.records[i];
        var matches := EvaluateAll(r, preds);
        if !r.deleted && matches && r.data.Has(field) && Key(r, field).Number? {
          var num := Key(r, field).r;
          ExtremeSnoc(xs, result, num);
          if !found || num < result {
            result, found := num, true;
          }
        } else {
          assert xs + [] == xs;
        }
      }
      PageScannedNumbers(ps, p, preds, field);
    }
    assert ps[..|ps|] == ps;
    ExtremeMeans(result, Numbers(Filtered(Scan(ps), preds), field));
  }
}
