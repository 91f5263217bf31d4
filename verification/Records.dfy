/** JSON values, records and their validation against a table's schema. */
module Records {
  import opened Common

  ghost predicate Ratio(r: real, n: int, d: int) {
    d > 0 && r * d as real == n as real
  }

  ghost predicate IsExact(r: real) {
    exists n, d :: Ratio(r, n, d)
  }

  /** The numbers that a value can hold: fractions, which every floating-point number is. */
  type Exact = r: real | IsExact(r) witness (assert Ratio(0.0, 0, 1); 0.0)

  function Whole(n: int): (r: Exact)
    ensures r == n as real
  {
    assert Ratio(n as real, n, 1);
    n as real
  }

  datatype Json =
    | Null
    | Bool(b: bool)
    | Number(r: Exact)
    | Str(s: string)
    | Array(elems: seq<Json>)
    | Object(fields: map<string, Json>)
  {
    predicate Has(key: string) {
      Object? && key in fields
    }

    /** A member of an object; null when there is none. */
    function Get(key: string): Json {
      if Has(key) then fields[key] else Null
    }
  }

  /** The numbers that a column type can have without being one of the four. */
  type OtherNumber = n: int | -0x8000_0000 <= n < 0x8000_0000 && !(0 <= n <= 3) witness 4

  datatype ColumnType = INT | DOUBLE | STRING | BOOL | OTHER(number: OtherNumber)

  datatype ColumnDef = ColumnDef(name: string, columnType: ColumnType, nullable: bool)

  datatype Record = Record(id: nat, data: Json, deleted: bool)

  const INT64_LIMIT: real := 9223372036854775808.0   // 2^63, also what the upper limit rounds to

  predicate TypeMatches(t: ColumnType, v: Json) {
    match t
    case INT => v.Number? && v.r == v.r.Floor as real && -INT64_LIMIT <= v.r <= INT64_LIMIT
    case DOUBLE => v.Number?
    case STRING => v.Str?
    case BOOL => v.Bool?
    case OTHER(_) => false
  }

  /** What one column asks of a record's data. */
  function CheckColumn(col: ColumnDef, data: Json): Status {
    if !data.Has(col.name) then if col.nullable then OK else INVALID_SCHEMA
    else if TypeMatches(col.columnType, data.Get(col.name)) then OK
    else INVALID_TYPE
  }

  /** The verdict of validation: that of the first column that objects. */
  function Validation(schema: seq<ColumnDef>, data: Json): Status
    decreases |schema|
  {
    if schema == [] then OK
    else if CheckColumn(schema[0], data) != OK then CheckColumn(schema[0], data)
    else Validation(schema[1..], data)
  }

  method Validate(schema: seq<ColumnDef>, data: Json) returns (status: Status)
    ensures status == Validation(schema, data)
  {
    for i := 0 to |schema|
      invariant Validation(schema[i..], data) == Validation(schema, data)
    {
      var col := schema[i];
      assert schema[i..][1..] == schema[i + 1..];
      if !data.Has(col.name) {
        if !col.nullable {
          return INVALID_SCHEMA;
        }
      } else if !TypeMatches(col.columnType, data.Get(col.name)) {
        return INVALID_TYPE;
      }
    }
    return OK;
  }

  /**
   * The verdict on one column, by the kind of value alone: strings, booleans, numbers, or whole
   * numbers of at most 2^63 in size; a column past the four types takes no value.
   */
  lemma OneColumnVerdict(col: ColumnDef, data: Json)
    ensures !(data.Object? && col.name in data.fields) ==>
      Validation([col], data) == if col.nullable then OK else INVALID_SCHEMA
    ensures data.Object? && col.name in data.fields ==>
      var v := data.fields[col.name];
      && (Validation([col], data) == OK || Validation([col], data) == INVALID_TYPE)
      && (col.columnType == STRING ==> (Validation([col], data) == OK <==> v.Str?))
      && (col.columnType == BOOL ==> (Validation([col], data) == OK <==> v.Bool?))
      && (col.columnType == DOUBLE ==> (Validation([col], data) == OK <==> v.Number?))
      && (col.columnType == INT ==>
            (Validation([col], data) == OK <==>
               v.Number? && exists n :: -0x8000_0000_0000_0000 <= n <= 0x8000_0000_0000_0000 && v.r == Whole(n)))
      && (col.columnType.OTHER? ==> Validation([col], data) != OK)
  {
    assert [col][1..] == [];
    if data.Object? && col.name in data.fields && data.fields[col.name].Number? {
      WholeIff(data.fields[col.name].r);
    }
  }

  lemma WholeIff(r: Exact)
    ensures (exists n :: -0x8000_0000_0000_0000 <= n <= 0x8000_0000_0000_0000 && r == Whole(n))
      <==> r == r.Floor as real && -INT64_LIMIT <= r <= INT64_LIMIT
  {
    if r == r.Floor as real && -INT64_LIMIT <= r <= INT64_LIMIT {
      assert r == Whole(r.Floor);
    }
  }

  /** The whole verdict is that of the first column that objects. */
  lemma {:induction false} FirstObjection(schema: seq<ColumnDef>, data: Json, i: nat)
    requires i <= |schema| && forall j :: 0 <= j < i ==> Validation([schema[j]], data) == OK
    ensures i == |schema| ==> Validation(schema, data) == OK
    ensures i < |schema| && Validation([schema[i]], data) != OK ==> Validation(schema, data) == Validation([schema[i]], data)
    decreases |schema|
  {
    hide CheckColumn;
    if schema != [] {
      assert [schema[0]][1..] == [];
      if i > 0 {
        assert Validation([schema[0]], data) == OK;
        forall j | 0 <= j < i - 1
          ensures Validation([schema[1..][j]], data) == OK
        {
          assert schema[1..][j] == schema[j + 1];
        }
        FirstObjection(schema[1..], data, i - 1);
      }
    }
  }

  /** Valid data: every column is satisfied, whatever else the data holds. */
  lemma {:induction false} ValidIff(schema: seq<ColumnDef>, data: Json)
    ensures Validation(schema, data) == OK <==> forall col <- schema :: Validation([col], data) == OK
    decreases |schema|
  {
    hide CheckColumn;
    if schema != [] {
      ValidIff(schema[1..], data);
      assert [schema[0]][1..] == [];
      assert schema == [schema[0]] + schema[1..];
    }
  }

  /** Every value of a valid object has the kind of its column. */
  lemma ValidKinds(schema: seq<ColumnDef>, data: Json, col: ColumnDef)
    requires Validation(schema, data) == OK && col in schema
    ensures !(data.Object? && col.name in data.fields) ==> col.nullable
    ensures data.Object? && col.name in data.fields ==>
      var v := data.fields[col.name];
      && (col.columnType == STRING ==> v.Str?)
      && (col.columnType == BOOL ==> v.Bool?)
      && (col.columnType == DOUBLE ==> v.Number?)
      && (col.columnType == INT ==>
            v.Number? && exists n :: -0x8000_0000_0000_0000 <= n <= 0x8000_0000_0000_0000 && v.r == Whole(n))
      && !col.columnType.OTHER?
  {
    hide Validation;
    ValidIff(schema, data);
    OneColumnVerdict(col, data);
  }
}
