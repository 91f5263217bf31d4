/** What queries mean: filters, comparisons, sorting orders and aggregates over the live records. */
module Queries {
  import opened Common
  import opened Records
  import opened Tables

  datatype CompareOp = EQ | NEQ | GT | GTE | LT | LTE

  datatype FilterPredicate = FilterPredicate(field: string, op: CompareOp, value: Json)

  datatype SortCondition = SortCondition(field: string, ascending: bool)

  datatype QueryResult = QueryResult(records: seq<Record>, totalMatched: nat, status: Status)

  // ---------------------------------------------------------------------------
  //  Comparing values
  // ---------------------------------------------------------------------------

  /** Lexicographic order, character by character. */
  predicate StringLess(s: string, t: string)
    decreases |s|
  {
    t != [] && (s == [] || s[0] < t[0] || (s[0] == t[0] && StringLess(s[1..], t[1..])))
  }

  function CompareValues(a: Json, b: Json, op: CompareOp): bool {
    if a.Str? && b.Str? then
      match op
      case EQ => a.s == b.s
      case NEQ => a.s != b.s
      case GT => StringLess(b.s, a.s)
      case GTE => !StringLess(a.s, b.s)
      case LT => StringLess(a.s, b.s)
      case LTE => !StringLess(b.s, a.s)
    else if a.Number? && b.Number? then
      match op
      case EQ => a.r == b.r
      case NEQ => a.r != b.r
      case GT => a.r > b.r
      case GTE => a.r >= b.r
      case LT => a.r < b.r
      case LTE => a.r <= b.r
    else if a.Bool? && b.Bool? then
      match op
      case EQ => a.b == b.b
      case NEQ => a.b != b.b
      case _ => false
    else false
  }

  predicate Less(a: Json, b: Json) {
    CompareValues(a, b, LT)
  }

  /** What a sort compares: the field's value, null when it is missing. */
  function Key(r: Record, field: string): Json {
    r.data.Get(field)
  }

  predicate Before(sort: SortCondition, a: Record, b: Record) {
    if sort.ascending then Less(Key(a, sort.field), Key(b, sort.field))
    else Less(Key(b, sort.field), Key(a, sort.field))
  }

  predicate Matches(r: Record, p: FilterPredicate) {
    r.data.Has(p.field) && CompareValues(r.data.Get(p.field), p.value, p.op)
  }

  predicate MatchesAll(r: Record, ps: seq<FilterPredicate>) {
    forall p <- ps :: Matches(r, p)
  }

  /** The order of strings: a proper prefix comes first, otherwise the first difference decides. */
  lemma {:induction false} StringLessIff(s: string, t: string)
    ensures StringLess(s, t) <==>
      exists k :: 0 <= k <= |s| && k < |t| && s[..k] == t[..k] && (k == |s| || s[k] < t[k])
    decreases |s|
  {
    if StringLess(s, t) {
      var k := FirstDifference(s, t);
    }
    if k :| 0 <= k <= |s| && k < |t| && s[..k] == t[..k] && (k == |s| || s[k] < t[k]) {
      DifferenceDecides(s, t, k);
    }
  }

  lemma {:induction false} FirstDifference(s: string, t: string) returns (k: nat)
    requires StringLess(s, t)
    ensures k <= |s| && k < |t| && s[..k] == t[..k] && (k == |s| || s[k] < t[k])
    decreases |s|
  {
    if s == [] || s[0] < t[0] {
      k := 0;
    } else {
      var j := FirstDifference(s[1..], t[1..]);
      k := j + 1;
      assert s[..k] == [s[0]] + s[1..][..j] && t[..k] == [t[0]] + t[1..][..j];
    }
  }

  lemma {:induction false} DifferenceDecides(s: string, t: string, k: nat)
    requires k <= |s| && k < |t| && s[..k] == t[..k] && (k == |s| || s[k] < t[k])
    ensures StringLess(s, t)
    decreases k
  {
    if k > 0 {
      assert s[0] == s[..k][0] == t[..k][0] == t[0];
      assert s[1..][..k - 1] == s[..k][1..] && t[1..][..k - 1] == t[..k][1..];
      DifferenceDecides(s[1..], t[1..], k - 1);
    }
  }

  /** Which values a predicate admits, operator by operator: of one kind only, and booleans only by equality. */
  lemma MatchesIff(r: Record, p: FilterPredicate)
    ensures !(r.data.Object? && p.field in r.data.fields) ==> !Matches(r, p)
    ensures r.data.Object? && p.field in r.data.fields ==>
      var v, x := r.data.fields[p.field], p.value;
      && (v.Number? && x.Number? ==>
            && (p.op == EQ ==> (Matches(r, p) <==> v.r == x.r))
            && (p.op == NEQ ==> (Matches(r, p) <==> v.r != x.r))
            && (p.op == GT ==> (Matches(r, p) <==> v.r > x.r))
            && (p.op == GTE ==> (Matches(r, p) <==> v.r >= x.r))
            && (p.op == LT ==> (Matches(r, p) <==> v.r < x.r))
            && (p.op == LTE ==> (Matches(r, p) <==> v.r <= x.r)))
      && (v.Str? && x.Str? ==>
            && (p.op == EQ ==> (Matches(r, p) <==> v.s == x.s))
            && (p.op == NEQ ==> (Matches(r, p) <==> v.s != x.s))
            && (p.op == GT ==> (Matches(r, p) <==> StringLess(x.s, v.s)))
            && (p.op == GTE ==> (Matches(r, p) <==> v.s == x.s || StringLess(x.s, v.s)))
            && (p.op == LT ==> (Matches(r, p) <==> StringLess(v.s, x.s)))
            && (p.op == LTE ==> (Matches(r, p) <==> v.s == x.s || StringLess(v.s, x.s))))
      && (v.Bool? && x.Bool? ==>
            (Matches(r, p) <==> (p.op == EQ && v.b == x.b) || (p.op == NEQ && v.b != x.b)))
      && (!(v.Number? && x.Number?) && !(v.Str? && x.Str?) && !(v.Bool? && x.Bool?) ==> !Matches(r, p))
  {
    if r.data.Has(p.field) && r.data.fields[p.field].Str? && p.value.Str? {
      hide StringLess;
      StringOrder(r.data.fields[p.field].s, p.value.s);
      StringOrder(p.value.s, r.data.fields[p.field].s);
    }
  }

  // ---------------------------------------------------------------------------
  //  Scans
  // ---------------------------------------------------------------------------

  /** The live records of the table, in scan order. */
  function Scan(ps: seq<PageVal>): seq<Record>
    decreases |ps|
  {
    if ps == [] then [] else Scan(ps[..|ps| - 1]) + Live(ps[|ps| - 1].records)
  }

  function Filtered(rs: seq<Record>, ps: seq<FilterPredicate>): (fs: seq<Record>)
    ensures forall r <- fs :: r in rs && MatchesAll(r, ps)
    decreases |rs|
  {
    if rs == [] then []
    else
      var before, last := Filtered(rs[..|rs| - 1], ps), rs[|rs| - 1];
      if MatchesAll(last, ps) then before + [last] else before
  }

  /** The first `limit` of them, or all when there is no limit. */
  function Limited(rs: seq<Record>, limit: nat): (ls: seq<Record>)
    ensures ls <= rs
  {
    if limit > 0 && |rs| > limit then rs[..limit] else rs
  }

  /** The records a query collects before it sorts. */
  function Collected(ps: seq<PageVal>, preds: seq<FilterPredicate>, limit: nat): seq<Record> {
    Limited(Filtered(Scan(ps), preds), limit)
  }

  /** A limited query counts all the matches exactly when the limit cuts none of them off. */
  lemma CountIsCompleteIff(ps: seq<PageVal>, preds: seq<FilterPredicate>, limit: nat)
    ensures |Collected(ps, preds, limit)| == |Filtered(Scan(ps), preds)|
      <==> limit == 0 || |Filtered(Scan(ps), preds)| <= limit
  {
  }

  lemma {:induction false} FilteredConcat(a: seq<Record>, b: seq<Record>, ps: seq<FilterPredicate>)
    ensures Filtered(a + b, ps) == Filtered(a, ps) + Filtered(b, ps)
    decreases |b|
  {
    hide MatchesAll;
    if b == [] {
      assert a + b == a;
    } else {
      var n := |b| - 1;
      FilteredConcat(a, b[..n], ps);
      assert (a + b)[..|a| + n] == a + b[..n];
      assert (a + b)[|a| + n] == b[n];
      var last := if MatchesAll(b[n], ps) then [b[n]] else [];
      assert Filtered(a + b, ps) == Filtered(a + b[..n], ps) + last;
      assert Filtered(b, ps) == Filtered(b[..n], ps) + last;
    }
  }

  lemma {:induction false} FilterNothing(rs: seq<Record>)
    ensures Filtered(rs, []) == rs
    decreases |rs|
  {
    if rs != [] {
      FilterNothing(rs[..|rs| - 1]);
    }
  }

  /** A filter keeps what every predicate admits, and nothing else. */
  lemma {:induction false} FilteredIff(rs: seq<Record>, ps: seq<FilterPredicate>, r: Record)
    ensures r in Filtered(rs, ps) <==> r in rs && forall p <- ps :: Matches(r, p)
    decreases |rs|
  {
    hide Matches;
    if rs != [] {
      var n := |rs| - 1;
      FilteredIff(rs[..n], ps, r);
      assert rs == rs[..n] + [rs[n]];
    }
  }

  /** Filtering by all of some predicates is filtering by the first ones and then by the others. */
  lemma {:induction false} FilterTwice(rs: seq<Record>, ps: seq<FilterPredicate>, qs: seq<FilterPredicate>)
    ensures Filtered(rs, ps + qs) == Filtered(Filtered(rs, ps), qs)
    decreases |rs|
  {
    hide MatchesAll;
    if rs != [] {
      var n := |rs| - 1;
      FilterTwice(rs[..n], ps, qs);
      BothMatch(rs[n], ps, qs);
      if MatchesAll(rs[n], ps) {
        assert (Filtered(rs[..n], ps) + [rs[n]])[..|Filtered(rs[..n], ps)|] == Filtered(rs[..n], ps);
      }
    }
  }

  lemma BothMatch(r: Record, ps: seq<FilterPredicate>, qs: seq<FilterPredicate>)
    ensures MatchesAll(r, ps + qs) <==> MatchesAll(r, ps) && MatchesAll(r, qs)
  {
    hide Matches;
    assert forall p <- ps :: p in ps + qs;
    assert forall q <- qs :: q in ps + qs;
  }

  // ---- The scan and the rows of the table are the same records

  function AsRecord(row: Row): Record {
    Record(row.id, row.data, false)
  }

  function AsRecords(rows: seq<Row>): (rs: seq<Record>)
    ensures |rs| == |rows|
    ensures forall i :: 0 <= i < |rows| ==> rs[i] == AsRecord(rows[i])
  {
    seq(|rows|, i requires 0 <= i < |rows| => AsRecord(rows[i]))
  }

  lemma AsRecordsConcat(a: seq<Row>, b: seq<Row>)
    ensures AsRecords(a + b) == AsRecords(a) + AsRecords(b)
  {
    var s, t := AsRecords(a + b), AsRecords(a) + AsRecords(b);
    forall i | 0 <= i < |s|
      ensures s[i] == t[i]
    {
      assert (a + b)[i] == if i < |a| then a[i] else b[i - |a|];
    }
  }

  lemma {:induction false} LiveIsRows(rs: seq<Record>, page: nat)
    ensures Live(rs) == AsRecords(LiveRows(rs, page))
    decreases |rs|
  {
    if rs != [] {
      hide AsRecords;
      var n := |rs| - 1;
      LiveIsRows(rs[..n], page);
      if !rs[n].deleted {
        var row := Row(rs[n].id, rs[n].data, page);
        AsRecordsConcat(LiveRows(rs[..n], page), [row]);
        assert AsRecords([row]) == [rs[n]];
      }
    }
  }

  lemma {:induction false} ScanIsRows(ps: seq<PageVal>)
    ensures Scan(ps) == AsRecords(Rows(ps))
    decreases |ps|
  {
    hide AsRecords, Live, LiveRows;
    if ps == [] {
      assert AsRecords([]) == [];
    } else {
      var n := |ps| - 1;
      ScanIsRows(ps[..n]);
      LiveIsRows(ps[n].records, ps[n].id);
      AsRecordsConcat(Rows(ps[..n]), LiveRows(ps[n].records, ps[n].id));
    }
  }

  lemma ScanConcat(ps: seq<PageVal>, qs: seq<PageVal>)
    ensures Scan(ps + qs) == Scan(ps) + Scan(qs)
  {
    hide Scan, Rows, AsRecords;
    ScanIsRows(ps);
    ScanIsRows(qs);
    ScanIsRows(ps + qs);
    RowsConcat(ps, qs);
    AsRecordsConcat(Rows(ps), Rows(qs));
  }

  lemma ScannedRow(ps: seq<PageVal>, r: Record) returns (row: Row)
    requires r in Scan(ps)
    ensures row in Rows(ps) && r == AsRecord(row)
  {
    hide Rows, Scan;
    ScanIsRows(ps);
    var i :| 0 <= i < |Scan(ps)| && Scan(ps)[i] == r;
    row := Rows(ps)[i];
  }

  lemma ScannedIsContents(schema: seq<ColumnDef>, t: TableVal, id: nat, data: Json)
    requires TableOk(schema, t)
    ensures Record(id, data, false) in Scan(t.pages) <==> id in Contents(t) && Contents(t)[id] == data
  {
    hide Rows, Scan, Validation, RowMap, DistinctIds, AsRecords, PagesOk, AllValid;
    var rows, rs := Rows(t.pages), Scan(t.pages);
    ScanIsRows(t.pages);
    RowMapIsExact(rows);
    if Record(id, data, false) in rs {
      var row := ScannedRow(t.pages, Record(id, data, false));
      SameRow(rows, row, RowMap(rows)[id]);
    }
    if id in Contents(t) && Contents(t)[id] == data {
      var k := RowOfId(rows, id);
      assert rs[k] == AsRecord(rows[k]) == Record(id, data, false);
    }
  }

  lemma SameRow(rows: seq<Row>, a: Row, b: Row)
    requires DistinctIds(rows) && a in rows && b in rows && a.id == b.id
    ensures a == b
  {
    hide DistinctIds;
    var i :| 0 <= i < |rows| && rows[i] == a;
    var j :| 0 <= j < |rows| && rows[j] == b;
    if i < j {
      DistinctMeans(rows, i, j);
    } else if j < i {
      DistinctMeans(rows, j, i);
    }
  }

  /** A scan meets every binding of the table's contents once and nothing else. */
  lemma ScanIsContents(schema: seq<ColumnDef>, t: TableVal)
    requires TableOk(schema, t)
    ensures forall i, j :: 0 <= i < j < |Scan(t.pages)| ==> Scan(t.pages)[i].id != Scan(t.pages)[j].id
    ensures forall id, data :: Record(id, data, false) in Scan(t.pages) <==>
      id in Contents(t) && Contents(t)[id] == data
    ensures forall r <- Scan(t.pages) :: !r.deleted && Validation(schema, r.data) == OK
  {
    hide Rows, Scan, Validation, RowMap, DistinctIds, AsRecords, Contents;
    ScanIsRows(t.pages);
    forall i, j | 0 <= i < j < |Scan(t.pages)|
      ensures Scan(t.pages)[i].id != Scan(t.pages)[j].id
    {
      DistinctMeans(Rows(t.pages), i, j);
    }
    forall id, data
      ensures Record(id, data, false) in Scan(t.pages) <==> id in Contents(t) && Contents(t)[id] == data
    {
      ScannedIsContents(schema, t, id, data);
    }
    forall r | r in Scan(t.pages)
      ensures !r.deleted && Validation(schema, r.data) == OK
    {
      var row := ScannedRow(t.pages, r);
    }
  }

  // ---------------------------------------------------------------------------
  //  When sorting is lawful
  // ---------------------------------------------------------------------------

  /** The order is a strict weak order on these values, which is what a sort relies on. */
  ghost predicate Lawful(vs: seq<Json>) {
    && (forall x <- vs :: !Less(x, x))
    && (forall x <- vs, y <- vs, z <- vs :: Less(x, y) && Less(y, z) ==> Less(x, z))
    && (forall x <- vs, y <- vs, z <- vs ::
         !Less(x, y) && !Less(y, x) && !Less(y, z) && !Less(z, y) ==> !Less(x, z))
  }

  predicate SameKind(a: Json, b: Json) {
    (a.Str? && b.Str?) || (a.Number? && b.Number?) || (a.Bool? && b.Bool?)
  }

  /** Wherever two values differ in order, all values are of their kind. */
  ghost predicate OneKind(vs: seq<Json>) {
    forall x <- vs, y <- vs, z <- vs :: Less(x, y) ==> SameKind(x, z)
  }

  lemma {:induction false} StringOrder(s: string, t: string)
    ensures !StringLess(s, s)
    ensures !(StringLess(s, t) && StringLess(t, s))
    ensures StringLess(s, t) || StringLess(t, s) || s == t
    decreases |s|
  {
    if s != [] {
      StringOrder(s[1..], if t == [] then [] else t[1..]);
      if t != [] && s[0] == t[0] && s[1..] == t[1..] {
        assert s == [s[0]] + s[1..] && t == [t[0]] + t[1..];
      }
    }
  }

  lemma {:induction false} StringTransitive(s: string, t: string, u: string)
    requires StringLess(s, t) && StringLess(t, u)
    ensures StringLess(s, u)
    decreases |s|
  {
    if s != [] && s[0] == t[0] && t[0] == u[0] {
      StringTransitive(s[1..], t[1..], u[1..]);
    }
  }

  lemma LessIsStrict(x: Json, y: Json, z: Json)
    ensures !Less(x, x)
    ensures Less(x, y) && Less(y, z) ==> Less(x, z)
    ensures Less(x, y) ==> SameKind(x, y)
  {
    if x.Str? {
      StringOrder(x.s, x.s);
      if Less(x, y) && Less(y, z) {
        StringTransitive(x.s, y.s, z.s);
      }
    }
  }

  /** Among values of one kind, not being ordered either way means being in the same place. */
  lemma TiesAreTransitive(x: Json, y: Json, z: Json)
    requires SameKind(x, y) && SameKind(x, z)
    requires !Less(x, y) && !Less(y, x) && !Less(y, z) && !Less(z, y)
    ensures !Less(x, z)
  {
    if x.Str? {
      StringOrder(x.s, y.s);
      StringOrder(y.s, z.s);
      StringOrder(x.s, z.s);
    }
  }

  /** Sorting is lawful exactly when no ordered pair meets a value of another kind. */
  lemma LawfulIff(vs: seq<Json>)
    ensures Lawful(vs) <==> OneKind(vs)
  {
    hide Less, SameKind;
    forall x, y, z | x in vs && y in vs && z in vs
      ensures !Less(x, x)
      ensures Less(x, y) && Less(y, z) ==> Less(x, z)
      ensures OneKind(vs) && !Less(x, y) && !Less(y, x) && !Less(y, z) && !Less(z, y) ==> !Less(x, z)
    {
      LessIsStrict(x, y, z);
      if OneKind(vs) && Less(x, z) {
        assert SameKind(x, y) && SameKind(x, z);
        if !Less(x, y) && !Less(y, x) && !Less(y, z) && !Less(z, y) {
          TiesAreTransitive(x, y, z);
        }
      }
    }
    if Lawful(vs) {
      forall x, y, z | x in vs && y in vs && z in vs && Less(x, y)
        ensures SameKind(x, z)
      {
        OtherKindsTie(x, y, z);
      }
    }
  }

  lemma OtherKindsTie(x: Json, y: Json, z: Json)
    requires Less(x, y)
    ensures !SameKind(x, z) ==> !Less(x, z) && !Less(z, x) && !Less(y, z) && !Less(z, y)
  {
  }

  function Keys(rs: seq<Record>, field: string): (ks: seq<Json>)
    ensures |ks| == |rs|
    ensures forall i :: 0 <= i < |rs| ==> ks[i] == Key(rs[i], field)
  {
    seq(|rs|, i requires 0 <= i < |rs| => Key(rs[i], field))
  }

  /**
   * Validation makes sorting lawful: on a required column of the schema the values that any
   * query collects are all of the column's kind.
   */
  lemma RequiredColumnSortsLawfully(schema: seq<ColumnDef>, t: TableVal, col: ColumnDef,
                                    preds: seq<FilterPredicate>, limit: nat)
    requires TableOk(schema, t)
    requires col in schema && !col.nullable
    ensures Lawful(Keys(Collected(t.pages, preds, limit), col.name))
  {
    hide Lawful, Less, Validation, Scan, Filtered, Rows, TableOk, MatchesAll;
    var rs := Collected(t.pages, preds, limit);
    var ks := Keys(rs, col.name);
    ScanIsContents(schema, t);
    forall k | k in ks
      ensures TypeMatches(col.columnType, k)
    {
      var i :| 0 <= i < |ks| && ks[i] == k;
      assert rs[i] in Filtered(Scan(t.pages), preds);
      KindOfValid(schema, rs[i].data, col);
    }
    OneColumnIsOneKind(ks, col.columnType);
    LawfulIff(ks);
  }

  lemma KindOfValid(schema: seq<ColumnDef>, data: Json, col: ColumnDef)
    requires Validation(schema, data) == OK && col in schema && !col.nullable
    ensures TypeMatches(col.columnType, data.Get(col.name))
  {
    ValidIff(schema, data);
    assert [col][1..] == [];
  }

  lemma OneColumnIsOneKind(ks: seq<Json>, t: ColumnType)
    requires forall k <- ks :: TypeMatches(t, k)
    ensures OneKind(ks)
  {
  }

  /** A single missing value between two ordered ones breaks the order that sorting needs. */
  lemma MissingValueBreaksSorting(x: Json, y: Json)
    requires Less(x, y)
    ensures !Lawful([x, Null, y])
  {
    var vs := [x, Null, y];
    assert vs[0] in vs && vs[1] in vs && vs[2] in vs;
  }

  // ---------------------------------------------------------------------------
  //  Sorted results
  // ---------------------------------------------------------------------------

  ghost predicate Sorted(sort: SortCondition, rs: seq<Record>) {
    forall i, j :: 0 <= i < j < |rs| ==> !Before(sort, rs[j], rs[i])
  }

  /** On numbers ascending means never falling, and descending never rising. */
  lemma SortedNumbersIff(sort: SortCondition, rs: seq<Record>)
    requires forall i :: 0 <= i < |rs| ==>
      rs[i].data.Object? && sort.field in rs[i].data.fields && rs[i].data.fields[sort.field].Number?
    ensures sort.ascending ==>
      (Sorted(sort, rs) <==>
         forall i, j :: 0 <= i < j < |rs| ==> rs[i].data.fields[sort.field].r <= rs[j].data.fields[sort.field].r)
    ensures !sort.ascending ==>
      (Sorted(sort, rs) <==>
         forall i, j :: 0 <= i < j < |rs| ==> rs[i].data.fields[sort.field].r >= rs[j].data.fields[sort.field].r)
  {
    forall i, j | 0 <= i < j < |rs|
      ensures Before(sort, rs[j], rs[i]) <==>
        var a, b := rs[i].data.fields[sort.field].r, rs[j].data.fields[sort.field].r;
        if sort.ascending then b < a else b > a
    {
    }
  }

  /** On strings likewise, in the order that the first difference decides. */
  lemma SortedStringsIff(sort: SortCondition, rs: seq<Record>)
    requires forall i :: 0 <= i < |rs| ==>
      rs[i].data.Object? && sort.field in rs[i].data.fields && rs[i].data.fields[sort.field].Str?
    ensures sort.ascending ==>
      (Sorted(sort, rs) <==>
         forall i, j :: 0 <= i < j < |rs| ==> !StringLess(rs[j].data.fields[sort.field].s, rs[i].data.fields[sort.field].s))
    ensures !sort.ascending ==>
      (Sorted(sort, rs) <==>
         forall i, j :: 0 <= i < j < |rs| ==> !StringLess(rs[i].data.fields[sort.field].s, rs[j].data.fields[sort.field].s))
  {
    hide StringLess;
    forall i, j | 0 <= i < j < |rs|
      ensures Before(sort, rs[j], rs[i]) <==>
        var a, b := rs[i].data.fields[sort.field].s, rs[j].data.fields[sort.field].s;
        if sort.ascending then StringLess(b, a) else StringLess(a, b)
    {
    }
  }

  /**
   * What a query by one number answers: records whose number stands in this relation to it, all
   * of them if there is no limit, and in the order of the numbers if it sorts by them.
   */
  lemma AnswerOnNumbers(ps: seq<PageVal>, field: string, op: CompareOp, x: Exact, limit: nat,
                        sort: Option<SortCondition>, answer: seq<Record>)
    requires multiset(answer) == multiset(Collected(ps, [FilterPredicate(field, op, Number(x))], limit))
    requires sort.Some? ==> sort.value.field == field && Sorted(sort.value, answer)
    ensures forall i :: 0 <= i < |answer| ==>
      var r := answer[i];
      && r in Scan(ps) && r.data.Object? && field in r.data.fields && r.data.fields[field].Number?
      && var v := r.data.fields[field].r;
         && (op == EQ ==> v == x) && (op == NEQ ==> v != x) && (op == GT ==> v > x)
         && (op == GTE ==> v >= x) && (op == LT ==> v < x) && (op == LTE ==> v <= x)
    ensures limit == 0 ==>
      forall r <- Scan(ps) :: r.data.Object? && field in r.data.fields && r.data.fields[field].Number? ==>
        var v := r.data.fields[field].r;
        ((op == EQ && v == x) || (op == NEQ && v != x) || (op == GT && v > x)
         || (op == GTE && v >= x) || (op == LT && v < x) || (op == LTE && v <= x)) ==> r in answer
    ensures sort.Some? && sort.value.ascending ==>
      forall i, j :: 0 <= i < j < |answer| ==> answer[i].data.fields[field].r <= answer[j].data.fields[field].r
    ensures sort.Some? && !sort.value.ascending ==>
      forall i, j :: 0 <= i < j < |answer| ==> answer[i].data.fields[field].r >= answer[j].data.fields[field].r
  {
    hide Scan, Sorted, Filtered, Matches;
    var p := FilterPredicate(field, op, Number(x));
    var found := Filtered(Scan(ps), [p]);
    assert p in [p];
    forall i | 0 <= i < |answer|
      ensures answer[i] in Scan(ps) && Matches(answer[i], p)
    {
      assert answer[i] in multiset(answer);
      assert answer[i] in Limited(found, limit) && answer[i] in found;
      FilteredIff(Scan(ps), [p], answer[i]);
    }
    forall r | r in Scan(ps)
      ensures limit == 0 && Matches(r, p) ==> r in answer
    {
      FilteredIff(Scan(ps), [p], r);
      if limit == 0 && Matches(r, p) {
        assert r in multiset(Collected(ps, [p], limit));
      }
    }
    forall i | 0 <= i < |answer| {
      MatchesIff(answer[i], p);
    }
    forall r | r in Scan(ps) {
      MatchesIff(r, p);
    }
    if sort.Some? {
      SortedNumbersIff(sort.value, answer);
    }
  }

  // ---------------------------------------------------------------------------
  //  Aggregates
  // ---------------------------------------------------------------------------

  /** The numeric values of a field, in order; other records are skipped. */
  function Numbers(rs: seq<Record>, field: string): seq<real>
    decreases |rs|
  {
    if rs == [] then []
    else
      var before, v := Numbers(rs[..|rs| - 1], field), Key(rs[|rs| - 1], field);
      if v.Number? then before + [v.r] else before
  }

  /** The numbers of a field, record by record. */
  lemma NumbersSnoc(rs: seq<Record>, r: Record, field: string)
    ensures Numbers([], field) == []
    ensures Numbers(rs + [r], field) == Numbers(rs, field) +
      if r.data.Object? && field in r.data.fields && r.data.fields[field].Number? then [r.data.fields[field].r] else []
  {
    assert (rs + [r])[..|rs|] == rs;
    assert Numbers(rs, field) + [] == Numbers(rs, field);
  }

  function Sum(xs: seq<real>): real
    decreases |xs|
  {
    if xs == [] then 0.0 else Sum(xs[..|xs| - 1]) + xs[|xs| - 1]
  }

  /** The extreme of a list of numbers, zero when there is none. */
  ghost predicate IsMax(m: real, xs: seq<real>) {
    if xs == [] then m == 0.0 else m in xs && forall x <- xs :: x <= m
  }

  ghost predicate IsMin(m: real, xs: seq<real>) {
    if xs == [] then m == 0.0 else m in xs && forall x <- xs :: m <= x
  }

  /** min * n <= sum <= max * n, and the average lies between the extremes. */
  lemma {:induction false} SumBounds(xs: seq<real>, lo: real, hi: real)
    requires forall x <- xs :: lo <= x <= hi
    ensures lo * |xs| as real <= Sum(xs) <= hi * |xs| as real
    decreases |xs|
  {
    if xs != [] {
      var n := |xs| - 1;
      assert forall x <- xs[..n] :: x in xs;
      SumBounds(xs[..n], lo, hi);
      assert xs[n] in xs;
      assert lo * |xs| as real == lo * n as real + lo;
      assert hi * |xs| as real == hi * n as real + hi;
    }
  }

  lemma AggregatesAgree(xs: seq<real>, lo: real, hi: real, sum: real, avg: real)
    requires xs != [] && IsMin(lo, xs) && IsMax(hi, xs) && sum == Sum(xs) && avg == sum / |xs| as real
    ensures lo * |xs| as real <= sum <= hi * |xs| as real
    ensures lo <= avg <= hi
  {
    SumBounds(xs, lo, hi);
    DivideBounds(lo, hi, sum, |xs| as real);
  }

  lemma MultiplyLess(a: real, b: real, n: real)
    requires a < b && n > 0.0
    ensures a * n < b * n
  {
  }

  lemma DivideBounds(lo: real, hi: real, sum: real, n: real)
    requires n > 0.0 && lo * n <= sum <= hi * n
    ensures lo <= sum / n <= hi
  {
    var avg := sum / n;
    assert avg * n == sum;
    if avg < lo {
      MultiplyLess(avg, lo, n);
    }
    if avg > hi {
      MultiplyLess(hi, avg, n);
    }
  }
}
