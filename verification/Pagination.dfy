/** Keyset pagination over a table, as its users write it: filter by `key > last`, sort, limit. */
module Pagination {
  import opened Common
  import opened Queries
  import opened QueryEngine
  import opened Records
  import opened TableStore

  function After(field: string, last: Json): FilterPredicate {
    FilterPredicate(field, GT, last)
  }

  function ByKey(field: string): SortCondition {
    SortCondition(field, true)
  }

  function LastKey(page: seq<Record>, field: string): Json
    requires page != []
  {
    Key(page[|page| - 1], field)
  }

  /** A page: some sorted arrangement of the first `limit` matches in scan order. */
  ghost predicate IsPage(rs: seq<Record>, field: string, limit: nat, preds: seq<FilterPredicate>, page: seq<Record>) {
    && multiset(page) == multiset(Limited(Filtered(rs, preds), limit))
    && Sorted(ByKey(field), page)
  }

  /** The pages of a whole visit: each asks for what comes after the last key, until one is short. */
  ghost predicate PageRun(rs: seq<Record>, field: string, limit: nat, preds: seq<FilterPredicate>, pages: seq<seq<Record>>)
    requires limit > 0
    decreases |pages|
  {
    && pages != []
    && IsPage(rs, field, limit, preds, pages[0])
    && if |pages[0]| < limit then |pages| == 1
       else PageRun(rs, field, limit, [After(field, LastKey(pages[0], field))], pages[1..])
  }

  function Flatten(pages: seq<seq<Record>>): seq<Record>
    decreases |pages|
  {
    if pages == [] then [] else pages[0] + Flatten(pages[1..])
  }

  /** Cut into blocks of `limit`, every key of a block lies below every key of the later blocks. */
  ghost predicate BlocksAscend(rs: seq<Record>, field: string, limit: nat)
    requires limit > 0
    decreases |rs|
  {
    |rs| < limit || (
      && Below(rs[..limit], rs[limit..], field)
      && BlocksAscend(rs[limit..], field, limit))
  }

  ghost predicate Below(a: seq<Record>, b: seq<Record>, field: string) {
    forall x <- a, y <- b :: Less(Key(x, field), Key(y, field))
  }

  // ---------------------------------------------------------------------------
  //  Pages and keys
  // ---------------------------------------------------------------------------

  lemma MatchesAfter(r: Record, field: string, last: Json)
    ensures MatchesAll(r, [After(field, last)]) <==> Less(last, Key(r, field))
  {
    assert MatchesAll(r, [After(field, last)]) <==> Matches(r, After(field, last));
  }

  lemma MatchesNothing(r: Record)
    ensures MatchesAll(r, [])
  {
  }

  /** The records of a page are among the matches, and none has a key above its last one. */
  lemma PageKeys(rs: seq<Record>, field: string, limit: nat, preds: seq<FilterPredicate>, page: seq<Record>)
    requires IsPage(rs, field, limit, preds, page)
    ensures forall r <- page :: r in rs && MatchesAll(r, preds)
    ensures page != [] ==> forall r <- page :: !Less(LastKey(page, field), Key(r, field))
    ensures |page| == |Limited(Filtered(rs, preds), limit)|
  {
    hide MatchesAll, Less, Key, Filtered;
    var first := Limited(Filtered(rs, preds), limit);
    assert |page| == |multiset(page)| == |multiset(first)| == |first|;
    forall r | r in page
      ensures r in rs && MatchesAll(r, preds)
    {
      assert r in multiset(page) && r in first && r in Filtered(rs, preds);
    }
    if page != [] {
      forall r | r in page
        ensures !Less(LastKey(page, field), Key(r, field))
      {
        var i :| 0 <= i < |page| && page[i] == r;
        LessIsStrict(Key(r, field), Key(r, field), Key(r, field));
        assert i < |page| - 1 ==> !Before(ByKey(field), page[|page| - 1], page[i]);
      }
    }
  }

  /** Whatever a visit that starts behind a key finds has a greater key. */
  lemma {:induction false} FoundBehind(rs: seq<Record>, field: string, limit: nat, last: Json, pages: seq<seq<Record>>)
    requires limit > 0 && PageRun(rs, field, limit, [After(field, last)], pages)
    ensures forall r <- Flatten(pages) :: r in rs && Less(last, Key(r, field))
    decreases |pages|
  {
    hide IsPage, MatchesAll, Less, Key;
    var page := pages[0];
    PageKeys(rs, field, limit, [After(field, last)], page);
    forall r | r in page
      ensures Less(last, Key(r, field))
    {
      MatchesAfter(r, field, last);
    }
    if |page| >= limit {
      var next := LastKey(page, field);
      FoundBehind(rs, field, limit, next, pages[1..]);
      assert page[|page| - 1] in page;
      forall r | r in Flatten(pages[1..])
        ensures Less(last, Key(r, field))
      {
        LessIsStrict(last, next, Key(r, field));
      }
    } else {
      assert Flatten(pages[1..]) == [];
    }
  }

  /** Records whose keys are not above the last one might as well not be there. */
  lemma {:induction false} FrontIsOut(a: seq<Record>, b: seq<Record>, field: string, limit: nat, last: Json, pages: seq<seq<Record>>)
    requires limit > 0 && PageRun(a + b, field, limit, [After(field, last)], pages)
    requires forall r <- a :: !Less(last, Key(r, field))
    ensures PageRun(b, field, limit, [After(field, last)], pages)
    decreases |pages|
  {
    hide MatchesAll, Less, Key, IsPage, LastKey;
    var preds, page := [After(field, last)], pages[0];
    FrontIsNotCollected(a, b, field, limit, last, page);
    if |page| >= limit {
      var next := LastKey(page, field);
      NextIsAbove(b, field, limit, last, page);
      forall r | r in a
        ensures !Less(next, Key(r, field))
      {
        LessIsStrict(last, next, Key(r, field));
      }
      FrontIsOut(a, b, field, limit, next, pages[1..]);
    }
  }

  lemma FrontIsNotCollected(a: seq<Record>, b: seq<Record>, field: string, limit: nat, last: Json, page: seq<Record>)
    requires forall r <- a :: !Less(last, Key(r, field))
    ensures IsPage(a + b, field, limit, [After(field, last)], page) == IsPage(b, field, limit, [After(field, last)], page)
  {
    hide Less, Key, Filtered, Sorted;
    FilteredConcat(a, b, [After(field, last)]);
    NoneAfter(a, field, last);
    assert Filtered(a + b, [After(field, last)]) == Filtered(b, [After(field, last)]);
  }

  lemma NextIsAbove(rs: seq<Record>, field: string, limit: nat, last: Json, page: seq<Record>)
    requires page != [] && IsPage(rs, field, limit, [After(field, last)], page)
    ensures Less(last, LastKey(page, field))
  {
    hide MatchesAll, Less, Key, Filtered;
    PageKeys(rs, field, limit, [After(field, last)], page);
    assert page[|page| - 1] in page;
    MatchesAfter(page[|page| - 1], field, last);
  }

  lemma FilterEmpty(ps: seq<FilterPredicate>)
    ensures Filtered([], ps) == []
  {
  }

  lemma {:induction false} NoneAfter(rs: seq<Record>, field: string, last: Json)
    requires forall r <- rs :: !Less(last, Key(r, field))
    ensures Filtered(rs, [After(field, last)]) == []
    decreases |rs|
  {
    hide MatchesAll, Less, Key, Filtered;
    FilterEmpty([After(field, last)]);
    if rs != [] {
      var n := |rs| - 1;
      assert rs[n] in rs && forall r <- rs[..n] :: r in rs;
      NoneAfter(rs[..n], field, last);
      MatchesAfter(rs[n], field, last);
      FilteredSnoc(rs[..n], rs[n], [After(field, last)]);
      assert rs == rs[..n] + [rs[n]];
    }
  }

  lemma {:induction false} AllAfter(rs: seq<Record>, field: string, last: Json)
    requires forall r <- rs :: Less(last, Key(r, field))
    ensures Filtered(rs, [After(field, last)]) == rs
    decreases |rs|
  {
    hide MatchesAll, Less, Key, Filtered;
    FilterEmpty([After(field, last)]);
    if rs != [] {
      var n := |rs| - 1;
      assert rs[n] in rs && forall r <- rs[..n] :: r in rs;
      AllAfter(rs[..n], field, last);
      MatchesAfter(rs[n], field, last);
      FilteredSnoc(rs[..n], rs[n], [After(field, last)]);
      assert rs == rs[..n] + [rs[n]];
    }
  }

  /** With everything behind the first block above it, the rest of the visit is a visit of the rest. */
  lemma VisitOfRest(rs: seq<Record>, field: string, limit: nat, pages: seq<seq<Record>>)
    requires 0 < limit <= |rs| && PageRun(rs, field, limit, [], pages)
    ensures |pages[0]| == limit && multiset(pages[0]) == multiset(rs[..limit])
    ensures forall r <- rs[..limit] :: !Less(LastKey(pages[0], field), Key(r, field))
    ensures (forall r <- rs[limit..] :: Less(LastKey(pages[0], field), Key(r, field))) ==>
      PageRun(rs[limit..], field, limit, [], pages[1..])
  {
    hide MatchesAll, Less, Key, Filtered;
    FilterNothing(rs);
    PageKeys(rs, field, limit, [], pages[0]);
    assert |Limited(rs, limit)| == limit && Limited(rs, limit) == rs[..limit];
    var last, rest := LastKey(pages[0], field), rs[limit..];
    forall r | r in rs[..limit]
      ensures !Less(last, Key(r, field))
    {
      assert r in multiset(rs[..limit]) && r in multiset(pages[0]);
    }
    if forall r <- rest :: Less(last, Key(r, field)) {
      assert rs == rs[..limit] + rest;
      FrontIsOut(rs[..limit], rest, field, limit, last, pages[1..]);
      AllAfter(rest, field, last);
      FilterNothing(rest);
    }
  }

  lemma LawfulPart(rs: seq<Record>, field: string, from: nat)
    requires from <= |rs| && Lawful(Keys(rs, field))
    ensures Lawful(Keys(rs[from..], field))
  {
    hide Less, Key;
    KeysPart(rs[from..], rs, field);
  }

  lemma KeysPart(a: seq<Record>, b: seq<Record>, field: string)
    requires forall r <- a :: r in b
    ensures forall k <- Keys(a, field) :: k in Keys(b, field)
  {
    forall k | k in Keys(a, field)
      ensures k in Keys(b, field)
    {
      var i :| 0 <= i < |a| && Keys(a, field)[i] == k;
      KeyIn(b, field, a[i]);
    }
  }

  // ---------------------------------------------------------------------------
  //  What a visit visits
  // ---------------------------------------------------------------------------

  /** Above the greatest key of a block means above the block. */
  lemma BelowIff(rs: seq<Record>, field: string, limit: nat, page: seq<Record>)
    requires 0 < limit <= |rs| && Lawful(Keys(rs, field))
    requires page != [] && multiset(page) == multiset(rs[..limit])
    requires forall r <- rs[..limit] :: !Less(LastKey(page, field), Key(r, field))
    ensures Below(rs[..limit], rs[limit..], field) <==> forall r <- rs[limit..] :: Less(LastKey(page, field), Key(r, field))
  {
    hide Less, Key, Lawful;
    var last := page[|page| - 1];
    assert last in multiset(page) && last in multiset(rs[..limit]);
    if forall r <- rs[limit..] :: Less(LastKey(page, field), Key(r, field)) {
      forall x, y | x in rs[..limit] && y in rs[limit..]
        ensures Less(Key(x, field), Key(y, field))
      {
        KeyIn(rs, field, x);
        KeyIn(rs, field, y);
        KeyIn(rs, field, last);
        WeakOrder(Keys(rs, field), Key(y, field), Key(x, field), Key(last, field));
      }
    }
  }

  /** A list shorter than a page is visited on one page. */
  lemma ShortVisit(rs: seq<Record>, field: string, limit: nat, pages: seq<seq<Record>>)
    requires |rs| < limit && PageRun(rs, field, limit, [], pages)
    ensures Sorted(ByKey(field), pages[0]) && multiset(pages[0]) == multiset(rs) && Flatten(pages) == pages[0]
  {
    hide Less, Key, Filtered;
    FilterNothing(rs);
    PageKeys(rs, field, limit, [], pages[0]);
    assert Flatten(pages[1..]) == [];
  }

  /** A record that is not above the first page's last key, behind the first block, is not visited. */
  lemma NotVisited(rs: seq<Record>, field: string, limit: nat, pages: seq<seq<Record>>, r: Record)
    requires 0 < limit <= |rs| && PageRun(rs, field, limit, [], pages)
    requires |pages[0]| == limit && multiset(pages[0]) == multiset(rs[..limit])
    requires r in rs[limit..] && !Less(LastKey(pages[0], field), Key(r, field))
    ensures multiset(Flatten(pages)) != multiset(rs)
  {
    hide Less, Key, Filtered, IsPage, LastKey;
    FoundBehind(rs, field, limit, LastKey(pages[0], field), pages[1..]);
    assert rs == rs[..limit] + rs[limit..];
    assert r in multiset(rs[limit..]) && r !in multiset(Flatten(pages[1..]));
    assert multiset(Flatten(pages))[r] == multiset(rs[..limit])[r] < multiset(rs)[r];
  }

  /**
   * For any page size: a visit by pages meets every record exactly once if and only if, in scan
   * order, every key of a page-sized block lies below every key of the later blocks.
   */
  lemma {:induction false} PagesCoverIff(rs: seq<Record>, field: string, limit: nat, pages: seq<seq<Record>>)
    requires limit > 0 && Lawful(Keys(rs, field)) && PageRun(rs, field, limit, [], pages)
    ensures multiset(Flatten(pages)) == multiset(rs) <==> BlocksAscend(rs, field, limit)
    decreases |rs|
  {
    hide Less, Key, Filtered, Lawful, Below, LastKey, IsPage, PageRun;
    if |rs| < limit {
      ShortVisit(rs, field, limit, pages);
    } else {
      var block, rest := rs[..limit], rs[limit..];
      RunHasPages(rs, field, limit, pages);
      VisitOfRest(rs, field, limit, pages);
      BelowIff(rs, field, limit, pages[0]);
      assert rs == block + rest;
      if Below(block, rest, field) {
        LawfulPart(rs, field, limit);
        PagesCoverIff(rest, field, limit, pages[1..]);
        SameFront(multiset(block), multiset(Flatten(pages[1..])), multiset(rest));
      } else {
        var r :| r in rest && !Less(LastKey(pages[0], field), Key(r, field));
        NotVisited(rs, field, limit, pages, r);
      }
    }
  }

  lemma RunHasPages(rs: seq<Record>, field: string, limit: nat, pages: seq<seq<Record>>)
    requires limit > 0 && PageRun(rs, field, limit, [], pages)
    ensures pages != []
  {
  }

  lemma SameFront<T>(a: multiset<T>, b: multiset<T>, c: multiset<T>)
    ensures a + b == a + c <==> b == c
  {
    if a + b == a + c {
      assert b == (a + b) - a == (a + c) - a == c;
    }
  }

  // ---- In order

  /** Every key lies below all later ones. */
  ghost predicate Ascending(rs: seq<Record>, field: string) {
    forall i, j :: 0 <= i < j < |rs| ==> Less(Key(rs[i], field), Key(rs[j], field))
  }

  lemma SortedTail(rs: seq<Record>, sort: SortCondition)
    requires Sorted(sort, rs) && rs != []
    ensures Sorted(sort, rs[1..])
  {
    hide Before;
    forall i, j | 0 <= i < j < |rs[1..]|
      ensures !Before(sort, rs[1..][j], rs[1..][i])
    {
      assert rs[1..][j] == rs[j + 1] && rs[1..][i] == rs[i + 1];
    }
  }

  lemma SameHead(a: seq<Record>, b: seq<Record>, field: string)
    requires Ascending(a, field) && Sorted(ByKey(field), b)
    requires a != [] && b != [] && multiset(a) == multiset(b)
    ensures a[0] == b[0]
  {
    hide Less, Key, Ascending;
    assert a[0] in multiset(b) && b[0] in multiset(a);
    var j :| 0 <= j < |b| && b[j] == a[0];
    var k :| 0 <= k < |a| && a[k] == b[0];
    if k > 0 {
      HeadIsLeast(a, field, k);
    }
  }

  lemma HeadIsLeast(rs: seq<Record>, field: string, k: nat)
    requires Ascending(rs, field) && 0 < k < |rs|
    ensures Before(ByKey(field), rs[0], rs[k])
  {
    hide Less, Key;
  }

  lemma SameTails(a: seq<Record>, b: seq<Record>)
    requires a != [] && b != [] && a[0] == b[0] && multiset(a) == multiset(b)
    ensures multiset(a[1..]) == multiset(b[1..])
    ensures a[1..] == b[1..] ==> a == b
  {
    assert a == [a[0]] + a[1..] && b == [b[0]] + b[1..];
    assert multiset(a[1..]) == multiset(a) - multiset{a[0]} == multiset(b[1..]);
  }

  /** A list in strict order is the only sorted arrangement of its records. */
  lemma {:induction false} SortedIsUnique(a: seq<Record>, b: seq<Record>, field: string)
    requires Ascending(a, field)
    requires multiset(a) == multiset(b)
    requires Sorted(ByKey(field), b)
    ensures a == b
    decreases |a|
  {
    hide Less, Key, Before, Ascending, Sorted, Below;
    assert |a| == |multiset(a)| == |b|;
    if a != [] {
      SameHead(a, b, field);
      SortedTail(b, ByKey(field));
      SameTails(a, b);
      AscendingSplit(a, field, 1);
      SortedIsUnique(a[1..], b[1..], field);
    }
  }

  lemma AscendingSplit(rs: seq<Record>, field: string, i: nat)
    requires Ascending(rs, field) && i <= |rs|
    ensures Ascending(rs[..i], field) && Ascending(rs[i..], field)
  {
    hide Less, Key;
  }

  lemma AscendingBelow(rs: seq<Record>, field: string, i: nat, x: Record, y: Record)
    requires Ascending(rs, field) && i <= |rs|
    requires x in rs[..i] && y in rs[i..]
    ensures Less(Key(x, field), Key(y, field))
  {
    hide Less, Key;
    var m :| 0 <= m < i && rs[m] == x;
    var n :| 0 <= n < |rs| - i && rs[i..][n] == y;
    assert rs[i + n] == y;
  }

  /** On keys that ascend in scan order, pages of any size deliver the scan, in order. */
  lemma {:induction false} PagesInOrder(rs: seq<Record>, field: string, limit: nat, pages: seq<seq<Record>>)
    requires limit > 0 && Ascending(rs, field) && PageRun(rs, field, limit, [], pages)
    ensures Flatten(pages) == rs
    decreases |rs|
  {
    hide Less, Key, Filtered, Ascending, IsPage, PageRun, LastKey, Sorted;
    RunHasPages(rs, field, limit, pages);
    if |rs| < limit {
      ShortVisit(rs, field, limit, pages);
      SortedIsUnique(rs, pages[0], field);
    } else {
      var block, rest := rs[..limit], rs[limit..];
      FirstPageIsSorted(rs, field, limit, pages);
      VisitOfRest(rs, field, limit, pages);
      AscendingSplit(rs, field, limit);
      SortedIsUnique(block, pages[0], field);
      LastIsIn(pages[0], field);
      forall r | r in rest
        ensures Less(LastKey(pages[0], field), Key(r, field))
      {
        AscendingBelow(rs, field, limit, block[limit - 1], r);
      }
      PagesInOrder(rest, field, limit, pages[1..]);
      assert rs == block + rest;
    }
  }

  lemma FirstPageIsSorted(rs: seq<Record>, field: string, limit: nat, pages: seq<seq<Record>>)
    requires limit > 0 && PageRun(rs, field, limit, [], pages)
    ensures Sorted(ByKey(field), pages[0])
  {
    hide Sorted;
  }

  lemma LastIsIn(page: seq<Record>, field: string)
    requires page != []
    ensures LastKey(page, field) == Key(page[|page| - 1], field)
  {
  }

  // ---------------------------------------------------------------------------
  //  The visit
  // ---------------------------------------------------------------------------

  /** What the query after these pages asks for. */
  function Next(pages: seq<seq<Record>>, field: string): seq<FilterPredicate>
    requires pages != [] ==> pages[|pages| - 1] != []
  {
    if pages == [] then [] else [After(field, LastKey(pages[|pages| - 1], field))]
  }

  /** Full pages, each asked for behind the one before. */
  ghost predicate FullPages(rs: seq<Record>, field: string, limit: nat, preds: seq<FilterPredicate>, pages: seq<seq<Record>>)
    requires limit > 0
    decreases |pages|
  {
    pages == [] || (
      && IsPage(rs, field, limit, preds, pages[0]) && |pages[0]| == limit
      && FullPages(rs, field, limit, [After(field, LastKey(pages[0], field))], pages[1..]))
  }

  /** One more page: full, the visit goes on; short, it is over. */
  lemma {:induction false} OneMorePage(rs: seq<Record>, field: string, limit: nat, preds: seq<FilterPredicate>,
                                       pages: seq<seq<Record>>, asked: seq<FilterPredicate>, page: seq<Record>)
    requires limit > 0 && FullPages(rs, field, limit, preds, pages)
    requires pages != [] ==> pages[|pages| - 1] != []
    requires asked == if pages == [] then preds else Next(pages, field)
    requires IsPage(rs, field, limit, asked, page) && |page| <= limit
    ensures |page| == limit ==> FullPages(rs, field, limit, preds, pages + [page])
    ensures |page| < limit ==> PageRun(rs, field, limit, preds, pages + [page])
    decreases |pages|
  {
    hide IsPage, LastKey;
    var all := pages + [page];
    if pages == [] {
      assert all == [page] && all[1..] == [];
    } else {
      assert all[0] == pages[0] && all[1..] == pages[1..] + [page];
      OneMorePage(rs, field, limit, [After(field, LastKey(pages[0], field))], pages[1..], asked, page);
    }
  }

  lemma {:induction false} FewerMatches(rs: seq<Record>, ps: seq<FilterPredicate>, qs: seq<FilterPredicate>)
    requires forall r <- rs :: MatchesAll(r, qs) ==> MatchesAll(r, ps)
    ensures |Filtered(rs, qs)| <= |Filtered(rs, ps)|
    ensures (exists r :: r in rs && MatchesAll(r, ps) && !MatchesAll(r, qs)) ==> |Filtered(rs, qs)| < |Filtered(rs, ps)|
    decreases |rs|
  {
    hide MatchesAll;
    if rs != [] {
      var n := |rs| - 1;
      assert rs == rs[..n] + [rs[n]] && rs[n] in rs;
      FewerMatches(rs[..n], ps, qs);
    }
  }

  /** Behind a full page there are fewer records to come than before it. */
  lemma Progress(rs: seq<Record>, field: string, limit: nat, pages: seq<seq<Record>>, page: seq<Record>)
    requires limit > 0 && (pages != [] ==> pages[|pages| - 1] != [])
    requires IsPage(rs, field, limit, Next(pages, field), page) && |page| == limit
    ensures |Filtered(rs, Next(pages + [page], field))| < |Filtered(rs, Next(pages, field))|
  {
    hide MatchesAll, Less, Key, Filtered, IsPage;
    var ps, qs := Next(pages, field), Next(pages + [page], field);
    PageKeys(rs, field, limit, ps, page);
    var last := page[|page| - 1];
    assert last in page;
    MatchesAfter(last, field, Key(last, field));
    forall r | r in rs && MatchesAll(r, qs)
      ensures MatchesAll(r, ps)
    {
      MatchesAfter(r, field, Key(last, field));
      if pages == [] {
        MatchesNothing(r);
      } else {
        var before := LastKey(pages[|pages| - 1], field);
        MatchesAfter(last, field, before);
        MatchesAfter(r, field, before);
        LessIsStrict(before, Key(last, field), Key(r, field));
      }
    }
    FewerMatches(rs, ps, qs);
  }

  lemma CollectedIsLawful(rs: seq<Record>, field: string, preds: seq<FilterPredicate>, limit: nat)
    requires Lawful(Keys(rs, field))
    ensures Lawful(Keys(Limited(Filtered(rs, preds), limit), field))
  {
    hide Less, Key, Filtered, MatchesAll;
    var part := Limited(Filtered(rs, preds), limit);
    forall r | r in part
      ensures r in rs
    {
      assert r in Filtered(rs, preds);
    }
    KeysPart(part, rs, field);
  }

  /**
   * Repeats the query `key > last`, sorted by the key, with a page size, until a page comes back
   * short.  The visit ends, whatever the keys are.
   */
  method VisitPages(table: Table, field: string, limit: nat) returns (pages: seq<seq<Record>>)
    requires table.Valid() && limit > 0
    requires Lawful(Keys(Scan(Values(table.pages)), field))
    ensures var rs := Scan(Values(table.pages));
      && PageRun(rs, field, limit, [], pages)
      && (multiset(Flatten(pages)) == multiset(rs) <==> BlocksAscend(rs, field, limit))
  {
    hide Scan, Values, Table.Valid, Lawful, Filtered, Sorted, Flatten, BlocksAscend, LastKey;
    ghost var rs := Scan(Values(table.pages));
    pages := [];
    while true
      invariant FullPages(rs, field, limit, [], pages)
      invariant pages != [] ==> pages[|pages| - 1] != []
      decreases |Filtered(rs, Next(pages, field))|
    {
      CollectedIsLawful(rs, field, Next(pages, field), limit);
      var result := QueryPage(table, Next(pages, field), field, limit);
      OneMorePage(rs, field, limit, [], pages, Next(pages, field), result);
      if |result| < limit {
        pages := pages + [result];
        break;
      }
      Progress(rs, field, limit, pages, result);
      pages := pages + [result];
    }
    PagesCoverIff(rs, field, limit, pages);
  }

  /** One query of the visit. */
  method QueryPage(table: Table, preds: seq<FilterPredicate>, field: string, limit: nat) returns (page: seq<Record>)
    requires table.Valid() && limit > 0
    requires Lawful(Keys(Limited(Filtered(Scan(Values(table.pages)), preds), limit), field))
    ensures IsPage(Scan(Values(table.pages)), field, limit, preds, page) && |page| <= limit
  {
    hide Scan, Values, Table.Valid, Lawful, Filtered, Sorted;
    var result := Select(table, preds, Some(ByKey(field)), limit);
    page := result.records;
    assert |page| == |multiset(page)|;
  }
}
