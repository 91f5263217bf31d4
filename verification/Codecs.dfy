/**
 * JSON as text.  Printing and parsing are the library's; all that is asked of them is that they
 * are inverse, and a pair that is inverse exists.
 */
module Codecs {
  import opened Bytes
  import opened Common
  import opened Records

  /** JSON text: what dump writes, parse reads back, and no text is empty. */
  datatype Codec = Codec(dump: Json -> seq<byte>, parse: seq<byte> -> Option<Json>) {
    ghost predicate Lawful() {
      forall j :: parse(dump(j)) == Some(j) && dump(j) != []
    }
  }

  // ---------------------------------------------------------------------------
  //  Such a pair: values as lists of numbers, each of which tells where it ends
  // ---------------------------------------------------------------------------

  function StringTokens(s: string): (ts: seq<nat>)
    ensures |ts| == |s| && forall i :: 0 <= i < |s| ==> ts[i] == s[i] as nat
  {
    seq(|s|, i requires 0 <= i < |s| => s[i] as nat)
  }

  function IntTokens(n: int): seq<nat> {
    if n >= 0 then [0, n] else [1, -n]
  }

  ghost function Numerator(r: Exact): (nd: (int, nat))
    ensures Ratio(r, nd.0, nd.1)
  {
    assert IsExact(r);
    var n: int, d: int :| Ratio(r, n, d);
    (n, d)
  }

  ghost function KeyList<V>(m: map<string, V>): (ks: seq<string>)
    ensures forall k :: k in ks <==> k in m
  {
    if m == map[] then []
    else
      var k :| k in m;
      [k] + KeyList(m - {k})
  }

  ghost function Tokens(j: Json): (ts: seq<nat>)
    ensures ts != []
    decreases j, 1, 0
  {
    match j
    case Null => [0]
    case Bool(b) => [1, if b then 1 else 0]
    case Number(r) => [2] + IntTokens(Numerator(r).0) + [Numerator(r).1]
    case Str(s) => [3, |s|] + StringTokens(s)
    case Array(elems) => [4, |elems|] + ListTokens(j, 0)
    case Object(fields) => [5, |KeyList(fields)|] + MemberTokens(j, KeyList(fields))
  }

  /** The elements of an array from the i-th on. */
  ghost function ListTokens(j: Json, i: nat): seq<nat>
    requires j.Array? && i <= |j.elems|
    decreases j, 0, |j.elems| - i
  {
    if i == |j.elems| then [] else Tokens(j.elems[i]) + ListTokens(j, i + 1)
  }

  ghost function MemberTokens(j: Json, ks: seq<string>): seq<nat>
    requires j.Object? && forall k <- ks :: k in j.fields
    decreases j, 0, |ks|
  {
    if ks == [] then []
    else
      assert ks[0] in ks && forall k <- ks[1..] :: k in ks;
      [|ks[0]|] + (StringTokens(ks[0]) + (Tokens(j.fields[ks[0]]) + MemberTokens(j, ks[1..])))
  }

  lemma StringUnique(s: string, t: string, x: seq<nat>, y: seq<nat>)
    requires |s| == |t| && StringTokens(s) + x == StringTokens(t) + y
    ensures s == t && x == y
  {
    var a, b := StringTokens(s) + x, StringTokens(t) + y;
    forall i | 0 <= i < |s|
      ensures s[i] == t[i]
    {
      assert a[i] == s[i] as nat && b[i] == t[i] as nat;
    }
    assert x == a[|s|..] && y == b[|t|..];
  }

  lemma NumberUnique(r: Exact, q: Exact)
    requires Numerator(r) == Numerator(q)
    ensures r == q
  {
    var (n, d) := Numerator(r);
    assert r == n as real / d as real == q;
  }

  lemma FirstTokens(a: seq<nat>, b: seq<nat>, x: seq<nat>, y: seq<nat>, n: nat)
    requires n <= |a| && n <= |b| && a + x == b + y
    ensures a[..n] == b[..n] && a[n..] + x == b[n..] + y
  {
    assert a[..n] == (a + x)[..n] == (b + y)[..n] == b[..n];
    assert a[n..] + x == (a + x)[n..] == (b + y)[n..] == b[n..] + y;
  }

  lemma OneToken(m: nat, n: nat, x: seq<nat>, y: seq<nat>)
    requires [m] + x == [n] + y
    ensures m == n && x == y
  {
    assert m == ([m] + x)[0] == ([n] + y)[0] == n;
    assert x == ([m] + x)[1..] == ([n] + y)[1..] == y;
  }

  lemma TwoTokens(j: Json)
    ensures !j.Null? ==> |Tokens(j)| >= 2
    ensures Tokens(j)[0] == (if j.Null? then 0 else if j.Bool? then 1 else if j.Number? then 2
                             else if j.Str? then 3 else if j.Array? then 4 else 5)
    ensures j.Null? ==> Tokens(j) == [0]
    ensures j.Bool? ==> Tokens(j)[1..] == [if j.b then 1 else 0]
    ensures j.Number? ==> Tokens(j)[1..] == IntTokens(Numerator(j.r).0) + [Numerator(j.r).1]
    ensures j.Str? ==> Tokens(j)[..2] == [3, |j.s|] && Tokens(j)[2..] == StringTokens(j.s)
    ensures j.Array? ==> Tokens(j)[..2] == [4, |j.elems|] && Tokens(j)[2..] == ListTokens(j, 0)
    ensures j.Object? ==>
      Tokens(j)[..2] == [5, |KeyList(j.fields)|] && Tokens(j)[2..] == MemberTokens(j, KeyList(j.fields))
  {
    hide StringTokens, ListTokens, MemberTokens, KeyList, Numerator;
  }

  lemma NumbersUnique(r: Exact, q: Exact, x: seq<nat>, y: seq<nat>)
    requires IntTokens(Numerator(r).0) + [Numerator(r).1] + x == IntTokens(Numerator(q).0) + [Numerator(q).1] + y
    ensures r == q && x == y
  {
    hide Numerator;
    var s, t := IntTokens(Numerator(r).0) + [Numerator(r).1], IntTokens(Numerator(q).0) + [Numerator(q).1];
    FirstTokens(s, t, x, y, 3);
    assert s[..3] == s && t[..3] == t;
    assert s[0] == t[0] && s[1] == t[1] && s[2] == t[2];
    assert s[3..] + x == x && t[3..] + y == y;
    NumberUnique(r, q);
  }

  /** The first tokens tell the value, whatever follows them. */
  lemma {:induction false} TokensUnique(a: Json, b: Json, x: seq<nat>, y: seq<nat>)
    requires Tokens(a) + x == Tokens(b) + y
    ensures a == b && x == y
    decreases a, 1, 0
  {
    hide Tokens, StringTokens, ListTokens, MemberTokens, KeyList, Numerator, IntTokens;
    TwoTokens(a);
    TwoTokens(b);
    FirstTokens(Tokens(a), Tokens(b), x, y, 1);
    assert Tokens(a)[..1][0] == Tokens(b)[..1][0];
    match a {
      case Null => assert [0][1..] + x == x && [0][1..] + y == y;
      case Bool(_) => OneToken(Tokens(a)[1], Tokens(b)[1], x, y);
      case Number(r) => NumbersUnique(r, b.r, x, y);
      case Str(u) =>
        SizeToken(a, b, x, y);
        StringUnique(u, b.s, x, y);
      case Array(_) =>
        SizeToken(a, b, x, y);
        ListUnique(a, b, 0, x, y);
      case Object(fields) =>
        SizeToken(a, b, x, y);
        MembersUnique(a, b, KeyList(fields), KeyList(b.fields), x, y);
        SameFields(fields, b.fields);
    }
  }

  lemma SizeToken(a: Json, b: Json, x: seq<nat>, y: seq<nat>)
    requires Tokens(a) + x == Tokens(b) + y && |Tokens(a)| >= 2 && |Tokens(b)| >= 2
    ensures Tokens(a)[1] == Tokens(b)[1] && Tokens(a)[2..] + x == Tokens(b)[2..] + y
    ensures Tokens(a)[..2][1] == Tokens(b)[..2][1]
  {
    hide Tokens;
    FirstTokens(Tokens(a), Tokens(b), x, y, 2);
    assert Tokens(a)[..2][1] == Tokens(b)[..2][1];
  }

  lemma SameFields<V>(m: map<string, V>, n: map<string, V>)
    requires KeyList(m) == KeyList(n)
    requires forall k <- KeyList(m) :: k in m && k in n && m[k] == n[k]
    ensures m == n
  {
    hide KeyList;
    assert forall k :: k in m <==> k in KeyList(m);
    assert forall k :: k in n <==> k in KeyList(n);
  }

  lemma {:induction false} ListUnique(a: Json, b: Json, i: nat, x: seq<nat>, y: seq<nat>)
    requires a.Array? && b.Array? && i <= |a.elems| == |b.elems|
    requires ListTokens(a, i) + x == ListTokens(b, i) + y
    ensures a.elems[i..] == b.elems[i..] && x == y
    decreases a, 0, |a.elems| - i
  {
    if i < |a.elems| {
      var p, q := Tokens(a.elems[i]), Tokens(b.elems[i]);
      assert ListTokens(a, i) + x == p + (ListTokens(a, i + 1) + x);
      assert ListTokens(b, i) + y == q + (ListTokens(b, i + 1) + y);
      TokensUnique(a.elems[i], b.elems[i], ListTokens(a, i + 1) + x, ListTokens(b, i + 1) + y);
      ListUnique(a, b, i + 1, x, y);
      assert a.elems[i..] == [a.elems[i]] + a.elems[i + 1..] && b.elems[i..] == [b.elems[i]] + b.elems[i + 1..];
    } else {
      assert ListTokens(a, i) + x == x && ListTokens(b, i) + y == y;
    }
  }

  lemma MemberSplit(j: Json, ks: seq<string>, x: seq<nat>)
    requires j.Object? && ks != [] && forall k <- ks :: k in j.fields
    ensures ks[0] in j.fields && forall k <- ks[1..] :: k in j.fields
    ensures MemberTokens(j, ks) + x
         == [|ks[0]|] + (StringTokens(ks[0]) + (Tokens(j.fields[ks[0]]) + (MemberTokens(j, ks[1..]) + x)))
  {
    hide Tokens, StringTokens;
    assert ks[0] in ks && forall k <- ks[1..] :: k in ks;
    Regroup([|ks[0]|], StringTokens(ks[0]), Tokens(j.fields[ks[0]]), MemberTokens(j, ks[1..]), x);
  }

  lemma Regroup<T>(a: seq<T>, b: seq<T>, c: seq<T>, d: seq<T>, x: seq<T>)
    ensures (a + (b + (c + d))) + x == a + (b + (c + (d + x)))
  {
    assert (a + (b + (c + d))) + x == a + ((b + (c + d)) + x);
    assert (b + (c + d)) + x == b + ((c + d) + x);
    assert (c + d) + x == c + (d + x);
  }

  lemma {:induction false} MembersUnique(a: Json, b: Json, ks: seq<string>, ls: seq<string>, x: seq<nat>, y: seq<nat>)
    requires a.Object? && b.Object? && |ks| == |ls|
    requires (forall k <- ks :: k in a.fields) && forall k <- ls :: k in b.fields
    requires MemberTokens(a, ks) + x == MemberTokens(b, ls) + y
    ensures ks == ls && x == y
    ensures forall k <- ks :: k in a.fields && k in b.fields && a.fields[k] == b.fields[k]
    decreases a, 0, |ks|
  {
    hide Tokens, StringTokens, MemberTokens;
    if ks == [] {
      NoMembers(a, b, x, y);
    } else {
      var k, l := ks[0], ls[0];
      MemberSplit(a, ks, x);
      MemberSplit(b, ls, y);
      var u, v := MemberTokens(a, ks[1..]) + x, MemberTokens(b, ls[1..]) + y;
      var s, t := StringTokens(k) + (Tokens(a.fields[k]) + u), StringTokens(l) + (Tokens(b.fields[l]) + v);
      OneToken(|k|, |l|, s, t);
      StringUnique(k, l, Tokens(a.fields[k]) + u, Tokens(b.fields[l]) + v);
      TokensUnique(a.fields[k], b.fields[l], u, v);
      MembersUnique(a, b, ks[1..], ls[1..], x, y);
      assert ks == [k] + ks[1..] && ls == [l] + ls[1..];
    }
  }

  lemma NoMembers(a: Json, b: Json, x: seq<nat>, y: seq<nat>)
    requires a.Object? && b.Object?
    ensures MemberTokens(a, []) + x == x && MemberTokens(b, []) + y == y
  {
  }

  /** A number as so many ones and a zero. */
  function Unary(n: nat): (s: seq<byte>)
    ensures s != []
  {
    if n == 0 then [0] else [1] + Unary(n - 1)
  }

  function UnaryAll(ts: seq<nat>): (s: seq<byte>)
    ensures ts != [] ==> s != []
  {
    if ts == [] then [] else Unary(ts[0]) + UnaryAll(ts[1..])
  }

  lemma {:induction false} UnaryUnique(m: nat, n: nat, x: seq<byte>, y: seq<byte>)
    requires Unary(m) + x == Unary(n) + y
    ensures m == n && x == y
    decreases m
  {
    var s, t := Unary(m) + x, Unary(n) + y;
    assert s[0] == (if m == 0 then 0 else 1) && t[0] == if n == 0 then 0 else 1;
    if m > 0 {
      assert s[1..] == Unary(m - 1) + x && t[1..] == Unary(n - 1) + y;
      UnaryUnique(m - 1, n - 1, x, y);
    } else {
      assert s[1..] == x && t[1..] == y;
    }
  }

  lemma {:induction false} UnaryAllUnique(a: seq<nat>, b: seq<nat>)
    requires UnaryAll(a) == UnaryAll(b)
    ensures a == b
    decreases |a|
  {
    if a != [] && b != [] {
      UnaryUnique(a[0], b[0], UnaryAll(a[1..]), UnaryAll(b[1..]));
      UnaryAllUnique(a[1..], b[1..]);
      assert a == [a[0]] + a[1..] && b == [b[0]] + b[1..];
    }
  }

  /** A text for every value. */
  ghost function Text(j: Json): (s: seq<byte>)
    ensures s != []
  {
    UnaryAll(Tokens(j))
  }

  lemma TextUnique(a: Json, b: Json)
    requires Text(a) == Text(b)
    ensures a == b
  {
    UnaryAllUnique(Tokens(a), Tokens(b));
    assert Tokens(a) + [] == Tokens(b) + [];
    TokensUnique(a, b, [], []);
  }

  ghost function Untext(s: seq<byte>): Option<Json> {
    if exists j :: Text(j) == s then
      var j :| Text(j) == s;
      Some(j)
    else None
  }

  /** What is asked of printing and parsing can be met. */
  lemma LawfulCodecExists() returns (c: Codec)
    ensures c.Lawful()
  {
    c := Codec(j => Text(j), s => Untext(s));
    forall j
      ensures c.parse(c.dump(j)) == Some(j) && c.dump(j) != []
    {
      assert Text(j) == c.dump(j);
      var k :| Untext(Text(j)) == Some(k) && Text(k) == Text(j);
      TextUnique(j, k);
    }
  }
}
