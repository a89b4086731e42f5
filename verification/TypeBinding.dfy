/** What a digest says about the type tables behind it: one signature is good for one set of
    type definitions only. */
module TypeBinding {
  import opened Wrappers
  import opened Bytes
  import opened TypeTables
  import opened TypeStrings
  import opened TypedData

  // ---------------------------------------------------------------- from one table to another

  /** Base types declared in either table belong to s. */
  predicate Covered(t: Types, u: Types, s: set<Name>, ft: Name) {
    BaseType(ft) in t || BaseType(ft) in u ==> BaseType(ft) in s
  }

  /** Both tables define the types of s, alike, and refer from s into s only. */
  predicate Shared(t: Types, u: Types, s: set<Name>) {
    forall x :: x in s ==>
      && x in t && x in u && t[x] == u[x]
      && forall i :: 0 <= i < |t[x]| ==> Covered(t, u, s, t[x][i].typ)
  }

  lemma SameTypesShared(t: Types, u: Types, primary: Name)
    requires primary in t && primary in u && SameTypes(t, u, primary)
    ensures Shared(t, u, Reachable(t, primary))
  {
    hide BaseType, Reachable;
    var s := Reachable(t, primary);
    forall x, i | x in s && 0 <= i < |t[x]| ensures Covered(t, u, s, t[x][i].typ) {
      var b := BaseType(t[x][i].typ);
      if b in t {
        assert Refers(t, x, b);
        ReachesNext(t, primary, x, b);
      }
      if b in u {
        assert u[x][i] == t[x][i];
        assert Refers(u, x, b);
        ReachesNext(u, primary, x, b);
      }
    }
  }

  lemma ReachesNext(t: Types, a: Name, b: Name, c: Name)
    requires Reaches(t, a, b) && Refers(t, b, c)
    ensures Reaches(t, a, c)
  {
    var p :| PathFromTo(t, p, a, b);
    var q := p + [c];
    forall i | 0 <= i < |q| - 1 ensures Refers(t, q[i], q[i + 1]) {
      if i < |p| - 1 { assert Refers(t, p[i], p[i + 1]); }
    }
    assert PathFromTo(t, q, a, c);
  }

  lemma {:induction false} PathShared(t: Types, u: Types, s: set<Name>, p: seq<Name>)
    requires Shared(t, u, s) && p != [] && p[0] in s && IsPath(t, p)
    ensures IsPath(u, p)
  {
    if |p| > 1 {
      assert Refers(t, p[0], p[0 + 1]);
      var i :| 0 <= i < |t[p[0]]| && BaseType(t[p[0]][i].typ) == p[1];
      assert Covered(t, u, s, t[p[0]][i].typ);
      assert Refers(u, p[0], p[1]);
      var q := p[1..];
      forall j | 0 <= j < |q| - 1 ensures Refers(t, q[j], q[j + 1]) {
        assert Refers(t, p[j + 1], p[j + 1 + 1]);
      }
      PathShared(t, u, s, q);
      forall j | 0 <= j < |p| - 1 ensures Refers(u, p[j], p[j + 1]) {
        if j > 0 { assert Refers(u, q[j - 1], q[j - 1 + 1]); }
      }
    }
  }

  lemma ReachableShared(t: Types, u: Types, s: set<Name>, x: Name, y: Name)
    requires Shared(t, u, s) && x in s && Reaches(t, x, y)
    ensures Reaches(u, x, y) && y in s
  {
    var p :| PathFromTo(t, p, x, y);
    PathShared(t, u, s, p);
    assert PathFromTo(u, p, x, y);
    forall a, b | a in s && Refers(t, a, b) ensures b in s {
      var i :| 0 <= i < |t[a]| && BaseType(t[a][i].typ) == b;
      assert Covered(t, u, s, t[a][i].typ);
    }
    PathStaysIn(t, s, p);
  }

  lemma SharedSymmetric(t: Types, u: Types, s: set<Name>)
    requires Shared(t, u, s)
    ensures Shared(u, t, s)
  {
    forall x, i | x in s && 0 <= i < |u[x]| ensures Covered(u, t, s, u[x][i].typ) {
      assert Covered(t, u, s, t[x][i].typ);
    }
  }

  lemma {:induction false} RenderShared(t: Types, u: Types, order: seq<Name>)
    requires forall i :: 0 <= i < |order| ==> FieldsOf(t, order[i]) == FieldsOf(u, order[i])
    ensures Render(t, order) == Render(u, order)
  {
    if order != [] { RenderShared(t, u, order[..|order| - 1]); }
  }

  /** Types that two tables share have one type string. */
  lemma TypeStringShared(t: Types, u: Types, s: set<Name>, x: Name)
    requires Shared(t, u, s) && x in s
    ensures TypeString(t, x) == TypeString(u, x)
  {
    hide Render, Ascending, TypeString;
    SharedSymmetric(t, u, s);
    forall y ensures Reaches(t, x, y) <==> Reaches(u, x, y) {
      if Reaches(t, x, y) { ReachableShared(t, u, s, x, y); }
      if Reaches(u, x, y) { ReachableShared(u, t, s, x, y); }
    }
    assert Reachable(t, x) == Reachable(u, x);
    CanonicalOrderExists(t, x);
    var a :| CanonicalOrder(t, x, a);
    TypeStringIs(t, x, a);
    TypeStringIs(u, x, a);
    forall i | 0 <= i < |a| ensures a[i] in s {
      if i > 0 {
        assert a[i] in a[1..];
        ReachableShared(t, u, s, x, a[i]);
      }
    }
    RenderShared(t, u, a);
  }

  /** Every form of the type that is declared in either table belongs to r. */
  predicate FormsIn(t: Types, u: Types, r: set<Name>, ft: Name)
    decreases |ft|
  {
    && (ft in t || ft in u ==> ft in r)
    && (ElementType(ft).Some? ==> FormsIn(t, u, r, ElementType(ft).value))
  }

  /** The types of r are shared, and fields and elements of types in s stay in s, where only
      types of r are declared. */
  ghost predicate Agree(t: Types, u: Types, r: set<Name>, s: iset<Name>) {
    && Shared(t, u, r)
    && forall x :: x in s ==>
         && (x in t || x in u ==> x in r)
         && (x in r ==> forall i :: 0 <= i < |t[x]| ==> t[x][i].typ in s)
         && (x !in r && ElementType(x).Some? ==> ElementType(x).value in s)
  }

  lemma {:induction false} FreeFormsIn(t: Types, u: Types, r: set<Name>, ft: Name)
    requires ArraysFree(t, ft) && ArraysFree(u, ft) && Covered(t, u, r, ft)
    ensures FormsIn(t, u, r, ft)
    decreases |ft|
  {
    hide BaseType;
    if OPEN_BRACKET !in ft { BaseOfPlain(ft); }
    if ElementType(ft).Some? {
      BaseOfElement(ft);
      FreeFormsIn(t, u, r, ElementType(ft).value);
    }
  }

  lemma SharedAgree(t: Types, u: Types, p: Name) returns (s: iset<Name>)
    requires p in t && p in u && SameTypes(t, u, p) && ArraysUndeclared(t, p) && ArraysUndeclared(u, p)
    ensures Agree(t, u, Reachable(t, p), s) && p in s
  {
    hide BaseType, Reaches;
    var r := Reachable(t, p);
    SameTypesShared(t, u, p);
    ReachesSelf(t, p);
    s := iset x | x in r || FormsIn(t, u, r, x);
    forall x, i | x in r && 0 <= i < |t[x]| ensures t[x][i].typ in s {
      assert u[x][i] == t[x][i];
      FreeFormsIn(t, u, r, t[x][i].typ);
    }
  }

  /** Shape, digest and hashed strings of a normal form are the same under two tables that
      agree on the types it is made of, whatever else they declare. */
  lemma {:induction false} Transport(k: Hasher, t: Types, u: Types, r: set<Name>, s: iset<Name>, ft: Name, c: Canon)
    requires Agree(t, u, r, s) && ft in s && Conforms(u, ft, c)
    ensures Conforms(t, ft, c) && Digest(k, t, c) == Digest(k, u, c) && Hashed(k, t, c) == Hashed(k, u, c)
    decreases c
  {
    hide TypeString, BaseType, ElementType;
    match c
    case ListC(items) =>
      TransportAll(k, t, u, r, s, seq(|items|, _ => Field([], ElementType(ft).value)), items);
    case StructC(name, fields) =>
      TypeStringShared(t, u, r, ft);
      TransportAll(k, t, u, r, s, t[ft], fields);
    case _ =>
  }

  lemma {:induction false} TransportAll(
      k: Hasher, t: Types, u: Types, r: set<Name>, s: iset<Name>, fields: seq<Field>, cs: seq<Canon>)
    requires Agree(t, u, r, s) && forall i :: 0 <= i < |fields| ==> fields[i].typ in s
    requires FieldsConform(u, fields, cs)
    ensures FieldsConform(t, fields, cs) && Digests(k, t, cs) == Digests(k, u, cs)
    ensures HashedAll(k, t, cs) == HashedAll(k, u, cs)
    decreases cs
  {
    hide Conforms, Digest, Hashed, Agree;
    if cs != [] {
      var n := |cs| - 1;
      TransportAll(k, t, u, r, s, fields[..n], cs[..n]);
      Transport(k, t, u, r, s, fields[n].typ, cs[n]);
      forall i | 0 <= i < |cs| ensures Conforms(t, fields[i].typ, cs[i]) {
        if i < n { assert fields[..n][i] == fields[i] && cs[..n][i] == cs[i]; }
      }
    }
  }

  // ---------------------------------------------------------------- binding across tables

  /** What a struct hash is made from: the struct's name, declared or not, and its fields. */
  predicate StructForm(t: Types, p: Name, c: Canon) {
    c.StructC? && c.name == p && FieldsConform(t, FieldsOf(t, p), c.fields)
  }

  /** The names behind a struct hash cannot be read in two ways. */
  ghost predicate Readable(t: Types, p: Name) {
    PlainFrom(t, p) && ArraysUndeclared(t, p)
  }

  lemma TypeStringOfDeclared(t: Types, p: Name)
    ensures TypeString(t, p) == [] <==> p !in t
  {
    if p in t {
      CanonicalOrderExists(t, p);
      var order :| CanonicalOrder(t, p, order);
      TypeStringIs(t, p, order);
      RenderEnds(t, order);
    }
  }

  /** Struct normal forms under any two tables with one digest: both types are declared or
      neither is, the fields are equal, and declared types are the same type with the same
      definitions behind it; or two strings hashed along the way collide. */
  lemma StructDigestBinds(k: Hasher, t: Types, p: Name, c: Canon, u: Types, q: Name, d: Canon)
    requires Readable(t, p) && Readable(u, q)
    requires StructForm(t, p, c) && StructForm(u, q, d) && Digest(k, t, c) == Digest(k, u, d)
    ensures || Collide(k, Hashed(k, t, c), Hashed(k, u, d))
            || (&& (p in t <==> q in u) && c.fields == d.fields
                && (p in t ==> p == q && SameTypes(t, u, p)))
  {
    hide TypeString, FieldsConform, SameTypes, HashedAll, Collide, Digests, PlainFrom, ArraysUndeclared;
    var x, y := k(TypeString(t, p)) + Digests(k, t, c.fields), k(TypeString(u, q)) + Digests(k, u, d.fields);
    if x != y {
      Collision(k, Hashed(k, t, c), Hashed(k, u, d), x, y);
      return;
    }
    assert k(TypeString(t, p)) == x[..32] == y[..32] == k(TypeString(u, q));
    if TypeString(t, p) != TypeString(u, q) {
      Collision(k, Hashed(k, t, c), Hashed(k, u, d), TypeString(t, p), TypeString(u, q));
      return;
    }
    TypeStringOfDeclared(t, p);
    TypeStringOfDeclared(u, q);
    if p in t {
      TypeStringBinds(t, p, u, q);
      SameStruct(k, t, p, c, u, d);
    } else {
      NoFieldsConform(t, p, c);
      NoFieldsConform(u, q, d);
    }
  }

  lemma NoFieldsConform(t: Types, p: Name, c: Canon)
    requires StructForm(t, p, c) && p !in t
    ensures c.fields == []
  {
  }

  lemma SameStruct(k: Hasher, t: Types, p: Name, c: Canon, u: Types, d: Canon)
    requires p in t && p in u && SameTypes(t, u, p) && ArraysUndeclared(t, p) && ArraysUndeclared(u, p)
    requires StructForm(t, p, c) && StructForm(u, p, d) && Digest(k, t, c) == Digest(k, u, d)
    ensures c == d || Collide(k, Hashed(k, t, c), Hashed(k, u, d))
  {
    hide Digest, Hashed, Collide, Agree, SameTypes, Reaches, FieldsConform;
    var s := SharedAgree(t, u, p);
    Transport(k, t, u, Reachable(t, p), s, p, d);
    DigestBinds(k, t, p, c, d);
  }

  // ---------------------------------------------------------------- structs named like arrays

  const A_TYPE: Name := [65]
  const MEMBER: Name := [109]
  const BYTES32: Name := BYTES + [51, 50]
  const LIST: Name := BYTES32 + [OPEN_BRACKET, CLOSE_BRACKET]

  const WITH_LIST: Types :=
    map[A_TYPE := [Field(MEMBER, LIST)], EIP712_DOMAIN := [], LIST := [Field(MEMBER, BYTES32)]]
  const WITHOUT_LIST: Types := map[A_TYPE := [Field(MEMBER, LIST)], EIP712_DOMAIN := []]

  /** The struct named like an array, inside a struct, and the array it can be taken for. */
  ghost function AsStruct(w: Word): Canon {
    StructC(A_TYPE, [StructC(LIST, [FixedC(w)])])
  }

  ghost function AsArray(k: Hasher, w: Word): Canon {
    StructC(A_TYPE, [ListC([FixedC(k(TypeString(WITH_LIST, LIST))), FixedC(w)])])
  }

  /** When "bytes32[]" is declared as a struct of one word, a value of it has the digest that,
      without the declaration, an array of two words has: plain names are not enough. No other
      string is hashed for the array, so no collision is to blame. */
  lemma ArrayNamesBreakBinding(k: Hasher, w: Word)
    ensures PlainFrom(WITH_LIST, A_TYPE) && PlainFrom(WITHOUT_LIST, A_TYPE)
    ensures StructForm(WITH_LIST, A_TYPE, AsStruct(w)) && StructForm(WITHOUT_LIST, A_TYPE, AsArray(k, w))
    ensures Digest(k, WITH_LIST, AsStruct(w)) == Digest(k, WITHOUT_LIST, AsArray(k, w))
    ensures AsStruct(w).fields != AsArray(k, w).fields
    ensures Hashed(k, WITHOUT_LIST, AsArray(k, w)) <= Hashed(k, WITH_LIST, AsStruct(w))
  {
    hide TypeString, BaseType, Reachable, Render, RenderFields, Hashed, HashedAll, Digest, Digests, Conforms;
    hide ElementType, SameTypes;
    var t, u := WITH_LIST, WITHOUT_LIST;
    ListNames();
    LoneReach(t, A_TYPE);
    LoneReach(u, A_TYPE);
    LoneType(t, A_TYPE);
    LoneType(u, A_TYPE);
    InnerForms(k, w);
    InnerDigests(k, w);
    OneFieldDigest(k, t, A_TYPE, AsStruct(w).fields[0]);
    OneFieldDigest(k, u, A_TYPE, AsArray(k, w).fields[0]);
  }

  lemma ListNames()
    ensures ElementType(LIST) == Some(BYTES32) && ElementType(BYTES32) == None && !IsListType(BYTES32)
    ensures BaseType(LIST) == BYTES32 && BaseType(BYTES32) == BYTES32
    ensures LIST != BYTES32 && A_TYPE != BYTES32 && A_TYPE != LIST
    ensures EIP712_DOMAIN != BYTES32 && EIP712_DOMAIN != LIST && EIP712_DOMAIN != A_TYPE
  {
    assert |EIP712_DOMAIN| == 12;
    assert LIST[..|LIST| - 1][|LIST| - 2] == OPEN_BRACKET;
    assert LIST[..7] == BYTES32;
    BaseOfPlain(BYTES32);
    BaseOfElement(LIST);
  }

  lemma WordConforms(t: Types, w: Word)
    requires BYTES32 !in t
    ensures Conforms(t, BYTES32, FixedC(w))
  {
    assert BYTES32[0] != ADDRESS[0] && BYTES32[0] == BYTES[0] && BYTES32[1] != BOOL[1];
    assert BYTES32[0] != STRING[0] && |BYTES32| != |BYTES|;
    assert BYTES32[0] != UINT[0] && BYTES32[0] != INT[0];
  }

  lemma InnerForms(k: Hasher, w: Word)
    ensures Conforms(WITH_LIST, LIST, AsStruct(w).fields[0])
    ensures Conforms(WITHOUT_LIST, LIST, AsArray(k, w).fields[0])
  {
    hide ElementType, TypeString;
    ListNames();
    WordConforms(WITH_LIST, w);
    WordConforms(WITHOUT_LIST, w);
    WordConforms(WITHOUT_LIST, k(TypeString(WITH_LIST, LIST)));
    assert WITH_LIST[LIST] == [Field(MEMBER, BYTES32)];
    assert FieldsConform(WITH_LIST, WITH_LIST[LIST], [FixedC(w)]);
    assert LIST[|LIST| - 1] == CLOSE_BRACKET;
  }

  lemma InnerDigests(k: Hasher, w: Word)
    ensures var c, d := AsStruct(w).fields[0], AsArray(k, w).fields[0];
            && Digest(k, WITH_LIST, c) == Digest(k, WITHOUT_LIST, d)
            && Hashed(k, WITHOUT_LIST, d) <= Hashed(k, WITH_LIST, c)
  {
    hide TypeString;
    var head := k(TypeString(WITH_LIST, LIST));
    assert [FixedC(w)][..0] == [];
    assert [FixedC(head), FixedC(w)][..1] == [FixedC(head)] && [FixedC(head)][..0] == [];
    assert Digests(k, WITHOUT_LIST, [FixedC(head)]) == head;
    assert Digests(k, WITHOUT_LIST, [FixedC(head), FixedC(w)]) == head + w;
    assert Digests(k, WITH_LIST, [FixedC(w)]) == w;
    assert HashedAll(k, WITHOUT_LIST, [FixedC(head)]) == {};
    assert HashedAll(k, WITHOUT_LIST, [FixedC(head), FixedC(w)]) == {};
  }

  lemma OneFieldDigest(k: Hasher, t: Types, p: Name, c: Canon)
    ensures Digest(k, t, StructC(p, [c])) == k(k(TypeString(t, p)) + Digest(k, t, c))
    ensures Hashed(k, t, StructC(p, [c]))
         == {TypeString(t, p), k(TypeString(t, p)) + Digest(k, t, c)} + Hashed(k, t, c)
  {
    hide TypeString;
    assert [c][..0] == [];
    assert Digests(k, t, [c]) == Digest(k, t, c);
    assert HashedAll(k, t, [c]) == Hashed(k, t, c);
  }

  // ---------------------------------------------------------------- nested structs

  const B_TYPE: Name := [66]
  const X: Name := [120]
  const Y: Name := [121]

  /** "A(uint x,B y)B(uint x,uint y)" as two types, and as one whose first field's name is
      "x,B y)B(uint x". */
  const OUTER: seq<Field> := [Field(X, UINT), Field(Y, B_TYPE)]
  const INNER: seq<Field> := [Field(X, UINT), Field(Y, UINT)]
  const SWALLOWED: Name := X + [44] + B_TYPE + [32] + Y + [41] + B_TYPE + [40] + UINT + [32] + X
  const FUSED: seq<Field> := [Field(SWALLOWED, UINT), Field(Y, UINT)]
  const NESTED: Types := map[A_TYPE := OUTER, B_TYPE := INNER]
  const ONE_TYPE: Types := map[A_TYPE := FUSED]

  function InnerValue(x: Uint256, y: Uint256): Canon {
    StructC(B_TYPE, [IntC(x), IntC(y)])
  }

  function AsNested(n: Uint256, x: Uint256, y: Uint256): Canon {
    StructC(A_TYPE, [IntC(n), InnerValue(x, y)])
  }

  /** The inner struct's hash, taken for an integer. */
  ghost function AsFused(k: Hasher, n: Uint256, x: Uint256, y: Uint256): Canon {
    StructC(A_TYPE, [IntC(n), IntC(WordValue(Digest(k, NESTED, InnerValue(x, y))))])
  }

  function WordValue(w: Word): (n: Uint256)
    ensures IntWord(n) == w
  {
    ValueOfBound(w);
    Pow256At32();
    PadLeftValueOf(w);
    ValueOf(w)
  }

  lemma FusedFields()
    ensures A_TYPE + [40] + RenderFields(OUTER) + [41] + B_TYPE + [40] + RenderFields(INNER) + [41]
         == A_TYPE + [40] + RenderFields(FUSED) + [41]
  {
    hide RenderFields;
    TwoFields(OUTER[0], OUTER[1]);
    TwoFields(INNER[0], INNER[1]);
    TwoFields(FUSED[0], FUSED[1]);
  }

  lemma FusedText()
    ensures TypeString(NESTED, A_TYPE) == TypeString(ONE_TYPE, A_TYPE)
  {
    hide TypeString, RenderFields, BaseType;
    FusedFields();
    BaseOfPlain(UINT);
    BaseOfPlain(B_TYPE);
    assert |UINT| == 4 && OUTER[1].typ == B_TYPE;
    PairType(A_TYPE, OUTER, B_TYPE, INNER);
    LoneType(ONE_TYPE, A_TYPE);
  }

  lemma NestedPlain()
    ensures PlainFrom(NESTED, A_TYPE)
  {
    hide Reachable;
    forall r | r in Reachable(NESTED, A_TYPE) ensures r in NESTED { ReachedIsDeclared(NESTED, A_TYPE, r); }
  }

  lemma TwoDigests(k: Hasher, t: Types, c: Canon, d: Canon)
    ensures Digests(k, t, [c, d]) == Digest(k, t, c) + Digest(k, t, d)
  {
    hide Digest;
    assert Digests(k, t, []) == [] && [c, d] == [] + [c] + [d];
    DigestsAppend(k, t, [], c);
    DigestsAppend(k, t, [] + [c], d);
  }

  lemma TwoHashed(k: Hasher, t: Types, c: Canon, d: Canon)
    ensures HashedAll(k, t, [c, d]) == Hashed(k, t, c) + Hashed(k, t, d)
  {
    hide Hashed;
    assert [c, d][..1] == [c] && [c][..0] == [];
    assert HashedAll(k, t, [c]) == Hashed(k, t, c);
  }

  lemma TwoFieldDigest(k: Hasher, t: Types, p: Name, c: Canon, d: Canon)
    ensures Digest(k, t, StructC(p, [c, d])) == k(k(TypeString(t, p)) + (Digest(k, t, c) + Digest(k, t, d)))
    ensures Hashed(k, t, StructC(p, [c, d]))
         == {TypeString(t, p), k(TypeString(t, p)) + (Digest(k, t, c) + Digest(k, t, d))}
            + Hashed(k, t, c) + Hashed(k, t, d)
  {
    hide TypeString, Digests, HashedAll;
    TwoDigests(k, t, c, d);
    TwoHashed(k, t, c, d);
  }

  lemma UintConforms(t: Types, n: Uint256)
    requires UINT !in t
    ensures Conforms(t, UINT, IntC(n))
  {
    assert UINT[0] != ADDRESS[0] && UINT[0] != STRING[0] && UINT[0] != BYTES[0] && UINT[0] != BOOL[0];
    assert UINT[|UINT| - 1] != CLOSE_BRACKET;
  }

  lemma NestedForms(k: Hasher, n: Uint256, x: Uint256, y: Uint256)
    ensures StructForm(NESTED, A_TYPE, AsNested(n, x, y)) && StructForm(ONE_TYPE, A_TYPE, AsFused(k, n, x, y))
  {
    hide Digest;
    assert |UINT| == 4;
    forall m ensures Conforms(NESTED, UINT, IntC(m)) && Conforms(ONE_TYPE, UINT, IntC(m)) {
      UintConforms(NESTED, m);
      UintConforms(ONE_TYPE, m);
    }
    assert FieldsConform(NESTED, INNER, [IntC(x), IntC(y)]);
    assert Conforms(NESTED, B_TYPE, InnerValue(x, y));
  }

  /** A nested struct over the plainest names and a flat struct, with a name that takes in the
      nested definition, have one digest, and no further string is hashed for the flat one. */
  lemma NestedStructsBreakBinding(k: Hasher, n: Uint256, x: Uint256, y: Uint256)
    ensures PlainFrom(NESTED, A_TYPE) && TypeString(NESTED, A_TYPE) == TypeString(ONE_TYPE, A_TYPE)
    ensures StructForm(NESTED, A_TYPE, AsNested(n, x, y)) && StructForm(ONE_TYPE, A_TYPE, AsFused(k, n, x, y))
    ensures Digest(k, NESTED, AsNested(n, x, y)) == Digest(k, ONE_TYPE, AsFused(k, n, x, y))
    ensures AsNested(n, x, y).fields != AsFused(k, n, x, y).fields
    ensures Hashed(k, ONE_TYPE, AsFused(k, n, x, y)) <= Hashed(k, NESTED, AsNested(n, x, y))
  {
    hide TypeString, PlainFrom, StructForm, HashedAll, Digests;
    NestedPlain();
    FusedText();
    NestedForms(k, n, x, y);
    TwoFieldDigest(k, NESTED, A_TYPE, IntC(n), InnerValue(x, y));
    TwoFieldDigest(k, ONE_TYPE, A_TYPE, IntC(n), AsFused(k, n, x, y).fields[1]);
  }
}
