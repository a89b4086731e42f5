/** Requests to sign typed data, as the guards let them through, and what the digest that is
    signed for them binds. */
module TypedRequests {
  import opened Wrappers
  import opened Bytes
  import opened TypeTables
  import opened TypeStrings
  import opened TypedData
  import opened TypeBinding
  import opened Addresses
  import Hex

  /** Typed data to sign; nullTypes are the declared names whose field list is null. */
  datatype TypedRequest = TypedRequest(address: Address, typed: TypedData, nullTypes: set<Name>, chainId: int)

  predicate Names(r: TypedRequest, name: Name) {
    name in r.typed.types || name in r.nullTypes
  }

  /** The guards of `SignTypedData`: a signer, the chain of the request, and `Validate`, which
      is content with a name whose field list is null. */
  predicate TypedRefused(r: TypedRequest) {
    || r.address == Zeros(20)
    || (r.typed.domain.chainId.Some? && r.typed.domain.chainId.value != r.chainId)
    || r.typed.primaryType == []
    || !Names(r, r.typed.primaryType) || !Names(r, EIP712_DOMAIN)
  }

  /** The names the encoder compares with, letter by letter. */
  lemma TypeSpellings()
    ensures ADDRESS == Ascii("address") && STRING == Ascii("string") && BYTES == Ascii("bytes") && BOOL == Ascii("bool")
    ensures UINT == Ascii("uint") && INT == Ascii("int") && EIP712_DOMAIN == Ascii("EIP712Domain")
  {
  }

  lemma MemberSpellings()
    ensures NAME == Ascii("name") && VERSION == Ascii("version")
    ensures CHAIN_ID == Ascii("chainId") && SALT == Ascii("salt")
  {
  }

  lemma ContractSpelling()
    ensures VERIFYING_CONTRACT == Ascii("verifyingContract")
  {
  }

  /** A request that passes the guards and hashes without failure, whatever its names. */
  ghost predicate Accepted(r: TypedRequest) {
    !TypedRefused(r) && DomainCanon(r.typed).Ok? && MessageCanon(r.typed).Ok?
  }

  /** The same primary type, the same definitions and the same values in all declared fields of
      domain and message. */
  ghost predicate SameSigned(a: TypedData, b: TypedData) {
    && a.primaryType == b.primaryType
    && SameTypes(a.types, b.types, EIP712_DOMAIN) && SameTypes(a.types, b.types, a.primaryType)
    && DomainCanon(a) == DomainCanon(b) && MessageCanon(a) == MessageCanon(b)
  }

  /** Two accepted requests with one digest. */
  ghost predicate SameDigest(k: Hasher, a: TypedRequest, b: TypedRequest) {
    Accepted(a) && Accepted(b) && SignedDigest(k, a.typed) == SignedDigest(k, b.typed)
  }

  ghost predicate CollidesWith(k: Hasher, a: TypedRequest, b: TypedRequest)
    requires Accepted(a) && Accepted(b)
  {
    Collide(k, AllHashed(k, a.typed), AllHashed(k, b.typed))
  }

  // ---------------------------------------------------------------- halves of a digest

  lemma CanonStructForm(t: Types, p: Name, v: Val)
    requires StructMembers(v).Some? && CanonStruct(t, p, v).Ok?
    ensures StructForm(t, p, CanonStruct(t, p, v).value)
  {
    hide Conforms, Canonical, RunStruct;
    CanonFieldsConform(t, p, v, |FieldsOf(t, p)|);
    assert FieldsOf(t, p)[..|FieldsOf(t, p)|] == FieldsOf(t, p);
  }

  /** Equal digests have equal halves, or two strings hashed last collide. */
  lemma EqualHalves(k: Hasher, a: TypedRequest, b: TypedRequest)
    requires SameDigest(k, a, b)
    ensures || CollidesWith(k, a, b)
            || (&& Digest(k, a.typed.types, DomainCanon(a.typed).value)
                     == Digest(k, b.typed.types, DomainCanon(b.typed).value)
                && Digest(k, a.typed.types, MessageCanon(a.typed).value)
                     == Digest(k, b.typed.types, MessageCanon(b.typed).value))
  {
    hide Digest, Hashed, Collide, CanonStruct, PrefixedData, DomainMembers, TypedRefused;
    var t, u := a.typed.types, b.typed.types;
    var c, d, m, n :=
      DomainCanon(a.typed).value, DomainCanon(b.typed).value, MessageCanon(a.typed).value, MessageCanon(b.typed).value;
    var x, y := PrefixedData(Digest(k, t, c), Digest(k, t, m)), PrefixedData(Digest(k, u, d), Digest(k, u, n));
    if x != y {
      Collision(k, AllHashed(k, a.typed), AllHashed(k, b.typed), x, y);
    } else {
      PrefixedDataInjective(Digest(k, t, c), Digest(k, t, m), Digest(k, u, d), Digest(k, u, n));
    }
  }

  /** What one half binds: whether there is a type and which, and the values of its fields. */
  ghost predicate HalfSame(t: Types, p: Name, c: Canon, u: Types, q: Name, d: Canon)
    requires c.StructC? && d.StructC?
  {
    && (p in t <==> q in u) && c.fields == d.fields
    && (p in t ==> p == q && SameTypes(t, u, p))
  }

  /** The names behind a half can be read in one way, on either side. */
  ghost predicate BothReadable(t: Types, p: Name, u: Types, q: Name) {
    Readable(t, p) && Readable(u, q)
  }

  lemma FlatSame(k: Hasher, t: Types, p: Name, c: Canon, u: Types, q: Name, d: Canon)
    requires Flat(t, p) && StructForm(t, p, c) && StructForm(u, q, d) && Digest(k, t, c) == Digest(k, u, d)
    ensures Collide(k, Hashed(k, t, c), Hashed(k, u, d)) || HalfSame(t, p, c, u, q, d)
  {
    hide TypeString, FieldsConform, SameTypes, HashedAll, Collide, Digests, Reachable, Plain, PlainFields;
    var x, y := k(TypeString(t, p)) + Digests(k, t, c.fields), k(TypeString(u, q)) + Digests(k, u, d.fields);
    if x != y {
      Collision(k, Hashed(k, t, c), Hashed(k, u, d), x, y);
      return;
    }
    assert k(TypeString(t, p)) == x[..32] == y[..32] == k(TypeString(u, q));
    if TypeString(t, p) != TypeString(u, q) {
      Collision(k, Hashed(k, t, c), Hashed(k, u, d), TypeString(t, p), TypeString(u, q));
      return;
    }
    FieldCounts(t, p, c);
    FieldCounts(u, q, d);
    assert |c.fields| == |d.fields|;
    TypeStringOfDeclared(t, p);
    TypeStringOfDeclared(u, q);
    if p in t {
      FlatTypeString(t, p, u, q);
      FlatReach(t, p);
      SameReach(t, u, p);
      FlatArraysUndeclared(t, p, t[p]);
      FlatArraysUndeclared(u, p, t[p]);
      SameStruct(k, t, p, c, u, d);
    }
  }

  lemma FieldCounts(t: Types, p: Name, c: Canon)
    requires StructForm(t, p, c)
    ensures |c.fields| == |FieldsOf(t, p)| && (p !in t ==> c.fields == [])
  {
  }

  lemma SameReach(t: Types, u: Types, p: Name)
    requires SameTypes(t, u, p)
    ensures Reachable(t, p) == Reachable(u, p)
  {
  }

  /** One half of two equal digests, where the first side is flat or both are readable. */
  lemma HalfBinds(k: Hasher, t: Types, p: Name, v: Val, u: Types, q: Name, w: Val, x: set<Bytes>, y: set<Bytes>)
    requires StructMembers(v).Some? && StructMembers(w).Some?
    requires CanonStruct(t, p, v).Ok? && CanonStruct(u, q, w).Ok?
    requires Flat(t, p) || BothReadable(t, p, u, q)
    requires var c, d := CanonStruct(t, p, v).value, CanonStruct(u, q, w).value;
             Digest(k, t, c) == Digest(k, u, d) && Hashed(k, t, c) <= x && Hashed(k, u, d) <= y
    ensures Collide(k, x, y) || HalfSame(t, p, CanonStruct(t, p, v).value, u, q, CanonStruct(u, q, w).value)
  {
    hide Digest, Hashed, Collide, Readable, CanonStruct, SameTypes, Flat;
    CanonStructForm(t, p, v);
    CanonStructForm(u, q, w);
    var c, d := CanonStruct(t, p, v).value, CanonStruct(u, q, w).value;
    if Flat(t, p) { FlatSame(k, t, p, c, u, q, d); } else { StructDigestBinds(k, t, p, c, u, q, d); }
    if Collide(k, Hashed(k, t, c), Hashed(k, u, d)) {
      CollideMonotone(k, Hashed(k, t, c), Hashed(k, u, d), x, y);
    }
  }

  lemma DomainBinds(k: Hasher, a: TypedRequest, b: TypedRequest)
    requires SameDigest(k, a, b)
    requires || Flat(a.typed.types, EIP712_DOMAIN)
             || BothReadable(a.typed.types, EIP712_DOMAIN, b.typed.types, EIP712_DOMAIN)
    ensures || CollidesWith(k, a, b)
            || HalfSame(a.typed.types, EIP712_DOMAIN, DomainCanon(a.typed).value,
                        b.typed.types, EIP712_DOMAIN, DomainCanon(b.typed).value)
  {
    hide Digest, Hashed, Collide, BothReadable, CanonStruct, HalfSame, Flat, DomainMembers, TypedRefused, PrefixedData;
    EqualHalves(k, a, b);
    if !CollidesWith(k, a, b) {
      HalfBinds(k, a.typed.types, EIP712_DOMAIN, Object(DomainMembers(a.typed.domain)),
                b.typed.types, EIP712_DOMAIN, Object(DomainMembers(b.typed.domain)),
                AllHashed(k, a.typed), AllHashed(k, b.typed));
    }
  }

  lemma MessageBinds(k: Hasher, a: TypedRequest, b: TypedRequest)
    requires SameDigest(k, a, b)
    requires || Flat(a.typed.types, a.typed.primaryType)
             || BothReadable(a.typed.types, a.typed.primaryType, b.typed.types, b.typed.primaryType)
    ensures || CollidesWith(k, a, b)
            || HalfSame(a.typed.types, a.typed.primaryType, MessageCanon(a.typed).value,
                        b.typed.types, b.typed.primaryType, MessageCanon(b.typed).value)
  {
    hide Digest, Hashed, Collide, BothReadable, CanonStruct, HalfSame, Flat, DomainMembers, TypedRefused, PrefixedData;
    EqualHalves(k, a, b);
    if !CollidesWith(k, a, b) {
      HalfBinds(k, a.typed.types, a.typed.primaryType, Object(a.typed.message),
                b.typed.types, b.typed.primaryType, Object(b.typed.message),
                AllHashed(k, a.typed), AllHashed(k, b.typed));
    }
  }

  // ---------------------------------------------------------------- binding

  /** In the declared values, a signature for a is good for no other accepted request. */
  ghost predicate Binds(k: Hasher, a: TypedRequest)
    requires Accepted(a)
  {
    forall b :: SameDigest(k, a, b) ==> SameSigned(a.typed, b.typed) || CollidesWith(k, a, b)
  }

  /** The same, among accepted requests over readable names. */
  ghost predicate BindsReadable(k: Hasher, a: TypedRequest)
    requires Accepted(a)
  {
    forall b :: SameDigest(k, a, b) && AllReadable(b) ==> SameSigned(a.typed, b.typed) || CollidesWith(k, a, b)
  }

  ghost predicate AllReadable(r: TypedRequest) {
    Readable(r.typed.types, EIP712_DOMAIN) && Readable(r.typed.types, r.typed.primaryType)
  }

  predicate AllFlat(r: TypedRequest) {
    Flat(r.typed.types, EIP712_DOMAIN) && Flat(r.typed.types, r.typed.primaryType)
  }

  lemma UndeclaredReach(t: Types, p: Name)
    requires p !in t
    ensures Reachable(t, p) == {} && Readable(t, p)
  {
  }

  lemma CanonNames(t: Types, p: Name, v: Val)
    requires StructMembers(v).Some? && CanonStruct(t, p, v).Ok?
    ensures CanonStruct(t, p, v).value.StructC? && CanonStruct(t, p, v).value.name == p
  {
  }

  lemma DeclaredBinds(k: Hasher, a: TypedRequest, b: TypedRequest)
    requires SameDigest(k, a, b) && a.typed.primaryType in a.typed.types
    requires AllFlat(a) || (AllReadable(a) && AllReadable(b))
    ensures SameSigned(a.typed, b.typed) || CollidesWith(k, a, b)
  {
    hide Digest, Hashed, Collide, Readable, CanonStruct, DomainMembers, TypedRefused, Reachable, Flat, CollidesWith;
    DomainBinds(k, a, b);
    MessageBinds(k, a, b);
    if !CollidesWith(k, a, b) {
      CanonNames(a.typed.types, EIP712_DOMAIN, Object(DomainMembers(a.typed.domain)));
      CanonNames(b.typed.types, EIP712_DOMAIN, Object(DomainMembers(b.typed.domain)));
      CanonNames(a.typed.types, a.typed.primaryType, Object(a.typed.message));
      CanonNames(b.typed.types, b.typed.primaryType, Object(b.typed.message));
      if EIP712_DOMAIN !in a.typed.types {
        UndeclaredReach(a.typed.types, EIP712_DOMAIN);
        UndeclaredReach(b.typed.types, EIP712_DOMAIN);
      }
    }
  }

  // ---------------------------------------------------------------- null-listed names

  lemma UndeclaredCanon(k: Hasher, t: Types, p: Name, v: Val)
    requires StructMembers(v).Some? && p !in t
    ensures CanonStruct(t, p, v) == Ok(StructC(p, []))
    ensures Digest(k, t, StructC(p, [])) == k(k([]) + [])
    ensures Hashed(k, t, StructC(p, [])) == {[], k([]) + []}
  {
    assert Digests(k, t, []) == [];
  }

  /** A name whose field list is null passes the guards, but then neither name nor message is
      bound: any message under any other such name has the same digest, and no further string
      is hashed for it. */
  lemma UndeclaredPrimaryUnbound(k: Hasher, a: TypedRequest, q: Name, message: map<Name, Val>)
    requires Accepted(a) && a.typed.primaryType !in a.typed.types
    requires q !in a.typed.types && q != []
    ensures var b := a.(typed := a.typed.(primaryType := q, message := message), nullTypes := a.nullTypes + {q});
            && SameDigest(k, a, b)
            && AllHashed(k, b.typed) == AllHashed(k, a.typed)
            && MessageCanon(b.typed) == Ok(StructC(q, []))
  {
    hide CanonStruct, Digest, Hashed, PrefixedData, DomainMembers;
    UndeclaredCanon(k, a.typed.types, a.typed.primaryType, Object(a.typed.message));
    UndeclaredCanon(k, a.typed.types, q, Object(message));
  }

  /** The same for a domain type whose field list is null: the domain is free. */
  lemma UndeclaredDomainUnbound(k: Hasher, a: TypedRequest, domain: Domain, chainId: int)
    requires Accepted(a) && EIP712_DOMAIN !in a.typed.types
    requires domain.chainId.None? || domain.chainId.value == chainId
    ensures var b := a.(typed := a.typed.(domain := domain), chainId := chainId);
            SameDigest(k, a, b) && AllHashed(k, b.typed) == AllHashed(k, a.typed)
  {
    hide CanonStruct, Digest, Hashed, PrefixedData, DomainMembers;
    UndeclaredCanon(k, a.typed.types, EIP712_DOMAIN, Object(DomainMembers(a.typed.domain)));
    UndeclaredCanon(k, a.typed.types, EIP712_DOMAIN, Object(DomainMembers(domain)));
  }

  lemma {:induction false} FreshName(s: set<Name>) returns (q: Name)
    ensures q != []
    ensures forall x :: x in s ==> |x| < |q|
    decreases s
  {
    if s == {} {
      q := [65];
    } else {
      var x :| x in s;
      var rest := FreshName(s - {x});
      q := rest + seq(|x|, _ => 65);
    }
  }

  /** Another request with the digest of a, under another name of the primary type. */
  lemma OtherName(k: Hasher, a: TypedRequest) returns (b: TypedRequest)
    requires Accepted(a) && a.typed.primaryType !in a.typed.types
    ensures SameDigest(k, a, b) && AllHashed(k, b.typed) == AllHashed(k, a.typed)
    ensures b.typed.primaryType != a.typed.primaryType && (AllReadable(a) ==> AllReadable(b))
  {
    hide Accepted, SameDigest, AllHashed, Readable;
    var q := FreshName(a.typed.types.Keys + {a.typed.primaryType});
    assert q !in a.typed.types && q != a.typed.primaryType;
    UndeclaredPrimaryUnbound(k, a, q, a.typed.message);
    UndeclaredReach(a.typed.types, q);
    b := a.(typed := a.typed.(primaryType := q, message := a.typed.message), nullTypes := a.nullTypes + {q});
  }

  /** For flat types, exactly when the declared values that are signed are bound against every
      accepted request, whatever its names: when the primary type carries a field list that
      is not null. */
  lemma BindsExactly(k: Hasher, a: TypedRequest)
    requires Accepted(a) && AllFlat(a) && !CollidesWith(k, a, a)
    ensures Binds(k, a) <==> a.typed.primaryType in a.typed.types
  {
    hide Accepted, AllHashed, AllFlat, AllReadable, SignedDigest;
    if a.typed.primaryType in a.typed.types {
      forall b | SameDigest(k, a, b) ensures SameSigned(a.typed, b.typed) || CollidesWith(k, a, b) {
        DeclaredBinds(k, a, b);
      }
    } else {
      var b := OtherName(k, a);
    }
  }

  /** The same for all types over readable names, among requests over readable names. */
  lemma BindsReadableExactly(k: Hasher, a: TypedRequest)
    requires Accepted(a) && AllReadable(a) && !CollidesWith(k, a, a)
    ensures BindsReadable(k, a) <==> a.typed.primaryType in a.typed.types
  {
    hide Accepted, AllHashed, AllFlat, AllReadable, SignedDigest;
    if a.typed.primaryType in a.typed.types {
      forall b | SameDigest(k, a, b) && AllReadable(b)
        ensures SameSigned(a.typed, b.typed) || CollidesWith(k, a, b)
      {
        DeclaredBinds(k, a, b);
      }
    } else {
      var b := OtherName(k, a);
    }
  }

  // ---------------------------------------------------------------- readable names are not enough

  const NO_DOMAIN: Domain := Domain([], [], None, [], [])

  function HexText(w: Word): Val {
    Text(Hex.PREFIX + Hex.EncodeHex(w))
  }

  /** An array of two words, the first of them the type hash of a struct named like the array. */
  ghost function ArrayRequest(k: Hasher, w: Word, address: Address): TypedRequest {
    var head := k(TypeString(WITH_LIST, LIST));
    TypedRequest(address, TypedData(WITHOUT_LIST, A_TYPE, NO_DOMAIN,
                                    map[MEMBER := Array([HexText(head), HexText(w)])]), {}, 1)
  }

  /** The struct with that name. */
  function StructRequest(w: Word, address: Address): TypedRequest {
    TypedRequest(address, TypedData(WITH_LIST, A_TYPE, NO_DOMAIN,
                                    map[MEMBER := Object(map[MEMBER := HexText(w)])]), {}, 1)
  }

  lemma WordLeaf(t: Types, w: Word)
    requires BYTES32 !in t
    ensures Canonical(t, BYTES32, HexText(w)) == Ok(FixedC(w))
  {
    hide Hex.DecodeHex, Hex.EncodeHex;
    ListNames();
    assert BYTES32[0] != ADDRESS[0] && BYTES32[0] == BYTES[0] && BYTES32[1] != BOOL[1];
    assert BYTES32[0] != STRING[0] && |BYTES32| != |BYTES|;
    assert BYTES32[0] != UINT[0] && BYTES32[0] != INT[0];
    Hex.DecodeEncodeHex(w);
    var text := Hex.PREFIX + Hex.EncodeHex(w);
    assert text[2..] == Hex.EncodeHex(w) && text[0] == 48 && text[1] == 120;
    assert TrimPrefix(text) == Hex.EncodeHex(w);
    assert w[..32] == w;
    assert CanonLeaf(BYTES32, HexText(w)) == Ok(FixedC(w));
  }

  lemma OneFieldCanon(t: Types, p: Name, f: Field, v: Val)
    requires p in t && t[p] == [f] && StructMembers(v).Some? && !v.Null?
    requires Canonical(t, f.typ, Lookup(StructMembers(v).value, f.name)).Ok?
    ensures CanonStruct(t, p, v)
         == Ok(StructC(p, [Canonical(t, f.typ, Lookup(StructMembers(v).value, f.name)).value]))
    ensures Canonical(t, p, v) == CanonStruct(t, p, v)
  {
    hide Canonical, RunStruct;
    CanonicalOfStruct(t, p, v);
    assert CanonFields(t, p, v, 0) == Ok([]);
    assert [] + [Canonical(t, f.typ, Lookup(StructMembers(v).value, f.name)).value]
        == [Canonical(t, f.typ, Lookup(StructMembers(v).value, f.name)).value];
  }

  lemma TwoElements(t: Types, v: Val, x: Word, y: Word)
    requires LIST !in t && BYTES32 !in t && v == Array([HexText(x), HexText(y)])
    ensures Canonical(t, LIST, v) == Ok(ListC([FixedC(x), FixedC(y)]))
  {
    hide HexText;
    ListNames();
    WordLeaf(t, x);
    WordLeaf(t, y);
    assert LIST[|LIST| - 1] == CLOSE_BRACKET;
    assert CanonElements(t, BYTES32, v, 0) == Ok([]);
    assert CanonElements(t, BYTES32, v, 1) == Ok([] + [FixedC(x)]);
    assert CanonElements(t, BYTES32, v, 2) == Ok([] + [FixedC(x)] + [FixedC(y)]);
    assert [] + [FixedC(x)] + [FixedC(y)] == [FixedC(x), FixedC(y)];
  }

  lemma ArrayCanon(k: Hasher, w: Word, address: Address)
    ensures MessageCanon(ArrayRequest(k, w, address).typed) == Ok(AsArray(k, w))
  {
    hide Canonical, TypeString, CanonStruct;
    ListNames();
    var r := ArrayRequest(k, w, address);
    TwoElements(WITHOUT_LIST, r.typed.message[MEMBER], k(TypeString(WITH_LIST, LIST)), w);
    OneFieldCanon(WITHOUT_LIST, A_TYPE, Field(MEMBER, LIST), Object(r.typed.message));
  }

  lemma StructCanon(w: Word, address: Address)
    ensures MessageCanon(StructRequest(w, address).typed) == Ok(AsStruct(w))
  {
    hide Canonical, TypeString, CanonStruct, HexText;
    ListNames();
    var r := StructRequest(w, address);
    var inner := Object(map[MEMBER := HexText(w)]);
    WordLeaf(WITH_LIST, w);
    OneFieldCanon(WITH_LIST, LIST, Field(MEMBER, BYTES32), inner);
    OneFieldCanon(WITH_LIST, A_TYPE, Field(MEMBER, LIST), Object(r.typed.message));
  }

  /** The domain type of both has no fields. */
  lemma EmptyDomains(k: Hasher)
    ensures CanonStruct(WITH_LIST, EIP712_DOMAIN, Object(DomainMembers(NO_DOMAIN))) == Ok(StructC(EIP712_DOMAIN, []))
    ensures CanonStruct(WITHOUT_LIST, EIP712_DOMAIN, Object(DomainMembers(NO_DOMAIN))) == Ok(StructC(EIP712_DOMAIN, []))
    ensures TypeString(WITH_LIST, EIP712_DOMAIN) == TypeString(WITHOUT_LIST, EIP712_DOMAIN)
    ensures Digest(k, WITH_LIST, StructC(EIP712_DOMAIN, [])) == Digest(k, WITHOUT_LIST, StructC(EIP712_DOMAIN, []))
    ensures Hashed(k, WITH_LIST, StructC(EIP712_DOMAIN, [])) == Hashed(k, WITHOUT_LIST, StructC(EIP712_DOMAIN, []))
  {
    hide TypeString;
    ListNames();
    LoneType(WITH_LIST, EIP712_DOMAIN);
    LoneType(WITHOUT_LIST, EIP712_DOMAIN);
  }

  lemma ListFree(t: Types)
    requires LIST !in t
    ensures ArraysFree(t, LIST)
  {
    hide ElementType;
    ListNames();
    assert forall i :: 0 <= i < |BYTES32| ==> BYTES32[i] != OPEN_BRACKET;
    assert ArraysFree(t, BYTES32);
  }

  lemma ArrayReadable(k: Hasher, w: Word, address: Address)
    ensures AllReadable(ArrayRequest(k, w, address))
  {
    hide TypeString, BaseType, Reachable, ArraysFree;
    ListNames();
    ListFree(WITHOUT_LIST);
    LoneReach(WITHOUT_LIST, A_TYPE);
    LoneReach(WITHOUT_LIST, EIP712_DOMAIN);
    assert WITHOUT_LIST[A_TYPE] == [Field(MEMBER, LIST)] && WITHOUT_LIST[EIP712_DOMAIN] == [];
    assert forall i :: 0 <= i < |EIP712_DOMAIN| ==> EIP712_DOMAIN[i] !in [32, 40, 41, 44];
    ArrayNamesBreakBinding(k, w);
  }

  /** A request over readable names with a declared primary type that shares its digest with
      another accepted request, over the name of an array, without any collision: all strings
      hashed for the first are hashed for the second. */
  lemma ReadableIsNotEnough(k: Hasher, w: Word, address: Address)
    requires address != Zeros(20)
    ensures var a, b := ArrayRequest(k, w, address), StructRequest(w, address);
            && AllReadable(a) && a.typed.primaryType in a.typed.types
            && SameDigest(k, a, b) && !SameSigned(a.typed, b.typed)
            && AllHashed(k, a.typed) <= AllHashed(k, b.typed)
  {
    hide TypeString, CanonStruct, Digest, Hashed, DomainMembers, PrefixedData, AllReadable, HexText, SameTypes;
    hide PlainFrom, StructForm;
    ArrayReadable(k, w, address);
    ArrayCanon(k, w, address);
    StructCanon(w, address);
    EmptyDomains(k);
    ArrayNamesBreakBinding(k, w);
    ListNames();
  }

  // ---------------------------------------------------------------- single members

  predicate Declares(t: Types, p: Name, name: Name) {
    exists i :: 0 <= i < |FieldsOf(t, p)| && FieldsOf(t, p)[i].name == name
  }

  lemma {:induction false} SameMembers(t: Types, p: Name, m: map<Name, Val>, l: map<Name, Val>, n: nat)
    requires n <= |FieldsOf(t, p)|
    requires forall i :: 0 <= i < n ==> Lookup(m, FieldsOf(t, p)[i].name) == Lookup(l, FieldsOf(t, p)[i].name)
    ensures CanonFields(t, p, Object(m), n) == CanonFields(t, p, Object(l), n)
  {
    hide Canonical, RunStruct;
    if n > 0 { SameMembers(t, p, m, l, n - 1); }
  }

  lemma OtherMembers(t: Types, p: Name, name: Name, m: map<Name, Val>, l: map<Name, Val>)
    requires !Declares(t, p, name) && forall x :: x != name ==> Lookup(m, x) == Lookup(l, x)
    ensures CanonStruct(t, p, Object(m)) == CanonStruct(t, p, Object(l))
  {
    hide CanonFields, RunStruct;
    var fields := FieldsOf(t, p);
    forall i | 0 <= i < |fields| ensures Lookup(m, fields[i].name) == Lookup(l, fields[i].name) {
      assert fields[i].name != name;
    }
    SameMembers(t, p, m, l, |fields|);
  }

  /** What a declared member was read as. */
  lemma MemberRead(t: Types, p: Name, i: nat, m: map<Name, Val>)
    requires i < |FieldsOf(t, p)| && CanonStruct(t, p, Object(m)).Ok?
    ensures Canonical(t, FieldsOf(t, p)[i].typ, Lookup(m, FieldsOf(t, p)[i].name)).Ok?
  {
    hide Canonical, RunStruct;
    CanonFieldAt(t, p, Object(m), |FieldsOf(t, p)|, i);
  }

  function WithMember(a: TypedRequest, name: Name, v: Val): TypedRequest {
    a.(typed := a.typed.(message := a.typed.message[name := v]))
  }

  /** A member of the message is free, in that every value of it is accepted and has the same
      digest, exactly when the primary type does not declare it. */
  lemma MessageMemberExactly(k: Hasher, a: TypedRequest, name: Name)
    requires Accepted(a)
    ensures (forall v :: SameDigest(k, a, WithMember(a, name, v)))
       <==> !Declares(a.typed.types, a.typed.primaryType, name)
  {
    hide CanonStruct, Digest, Hashed, DomainMembers;
    var t, p := a.typed.types, a.typed.primaryType;
    if Declares(t, p, name) {
      var i: nat :| i < |FieldsOf(t, p)| && FieldsOf(t, p)[i].name == name;
      var b := WithMember(a, name, Other);
      OtherIsRefused(t, FieldsOf(t, p)[i].typ);
      if SameDigest(k, a, b) { MemberRead(t, p, i, b.typed.message); }
    } else {
      forall v ensures SameDigest(k, a, WithMember(a, name, v)) {
        OtherMembers(t, p, name, a.typed.message, WithMember(a, name, v).typed.message);
      }
    }
  }

  lemma OtherIsRefused(t: Types, ft: Name)
    ensures Canonical(t, ft, Other).Err?
  {
  }

  datatype TextMemberOf = DomainName | DomainVersion | DomainContract | DomainSalt

  function MemberName(m: TextMemberOf): Name {
    match m
    case DomainName => NAME
    case DomainVersion => VERSION
    case DomainContract => VERIFYING_CONTRACT
    case DomainSalt => SALT
  }

  function TextOf(d: Domain, m: TextMemberOf): Bytes {
    match m
    case DomainName => d.name
    case DomainVersion => d.version
    case DomainContract => d.verifyingContract
    case DomainSalt => d.salt
  }

  function WithText(a: TypedRequest, m: TextMemberOf, text: Bytes): TypedRequest {
    var d := a.typed.domain;
    a.(typed := a.typed.(domain := match m
                                   case DomainName => d.(name := text)
                                   case DomainVersion => d.(version := text)
                                   case DomainContract => d.(verifyingContract := text)
                                   case DomainSalt => d.(salt := text)))
  }

  lemma DomainNamesDiffer()
    ensures NAME != VERSION && NAME != CHAIN_ID && NAME != VERIFYING_CONTRACT && NAME != SALT
    ensures VERSION != CHAIN_ID && VERSION != VERIFYING_CONTRACT && VERSION != SALT
    ensures CHAIN_ID != VERIFYING_CONTRACT && CHAIN_ID != SALT && VERIFYING_CONTRACT != SALT
  {
    assert |NAME| == 4 && |VERSION| == 7 && |CHAIN_ID| == 7 && |VERIFYING_CONTRACT| == 17 && |SALT| == 4;
    assert NAME[0] != SALT[0] && VERSION[0] != CHAIN_ID[0];
  }

  /** The members of a domain, name by name. */
  lemma DomainLookup(d: Domain, x: Name)
    ensures Lookup(DomainMembers(d), x)
         == if x == NAME then TextValue(d.name) else if x == VERSION then TextValue(d.version)
            else if x == VERIFYING_CONTRACT then TextValue(d.verifyingContract)
            else if x == SALT then TextValue(d.salt)
            else if x == CHAIN_ID && d.chainId.Some? then Int(d.chainId.value) else Null
  {
    DomainNamesDiffer();
  }

  function TextValue(text: Bytes): Val {
    if text == [] then Null else Text(text)
  }

  lemma TextRead(a: TypedRequest, m: TextMemberOf, text: Bytes)
    ensures Lookup(DomainMembers(a.typed.domain), MemberName(m)) == TextValue(TextOf(a.typed.domain, m))
    ensures forall x :: x != MemberName(m) ==>
              Lookup(DomainMembers(WithText(a, m, text).typed.domain), x) == Lookup(DomainMembers(a.typed.domain), x)
    ensures TextOf(WithText(a, m, text).typed.domain, m) == text
  {
    hide DomainMembers, NAME, VERSION, VERIFYING_CONTRACT, SALT, CHAIN_ID;
    DomainNamesDiffer();
    DomainLookup(a.typed.domain, MemberName(m));
    forall x | x != MemberName(m)
      ensures Lookup(DomainMembers(WithText(a, m, text).typed.domain), x) == Lookup(DomainMembers(a.typed.domain), x)
    {
      DomainLookup(a.typed.domain, x);
      DomainLookup(WithText(a, m, text).typed.domain, x);
    }
  }

  /** Text and absence are never both values of one type. */
  lemma TextOrAbsent(t: Types, ft: Name, text: Bytes)
    ensures Canonical(t, ft, Null).Err? || Canonical(t, ft, Text(text)).Err?
  {
  }

  /** The same for the texts of the domain: name, version, contract and salt. */
  lemma DomainTextExactly(k: Hasher, a: TypedRequest, m: TextMemberOf)
    requires Accepted(a)
    ensures (forall text :: SameDigest(k, a, WithText(a, m, text)))
       <==> !Declares(a.typed.types, EIP712_DOMAIN, MemberName(m))
  {
    hide CanonStruct, Digest, Hashed, DomainMembers, MemberName, TextOf, Canonical;
    var t := a.typed.types;
    if Declares(t, EIP712_DOMAIN, MemberName(m)) {
      var fields := FieldsOf(t, EIP712_DOMAIN);
      var i: nat :| i < |fields| && fields[i].name == MemberName(m);
      var was := TextOf(a.typed.domain, m);
      var b := WithText(a, m, if was == [] then [65] else []);
      TextRead(a, m, was);
      TextRead(b, m, was);
      TextRead(a, m, if was == [] then [65] else []);
      TextOrAbsent(t, fields[i].typ, if was == [] then [65] else was);
      MemberRead(t, EIP712_DOMAIN, i, DomainMembers(a.typed.domain));
      if SameDigest(k, a, b) { MemberRead(t, EIP712_DOMAIN, i, DomainMembers(b.typed.domain)); }
    } else {
      forall text ensures SameDigest(k, a, WithText(a, m, text)) {
        TextRead(a, m, text);
        OtherMembers(t, EIP712_DOMAIN, MemberName(m),
                     DomainMembers(a.typed.domain), DomainMembers(WithText(a, m, text).typed.domain));
      }
    }
  }

  // ---------------------------------------------------------------- the chain

  /** A signature for a is good on no other chain. */
  ghost predicate BindsChain(k: Hasher, a: TypedRequest)
    requires Accepted(a)
  {
    forall b :: SameDigest(k, a, b) ==> a.typed.domain.chainId == b.typed.domain.chainId || CollidesWith(k, a, b)
  }

  /** A chain id encodes as an integer or, where it is absent, as a nested struct. */
  lemma ChainForms(t: Types, ft: Name, v: Val)
    requires Canonical(t, ft, v).Ok? && (v.Int? || v.Null?)
    ensures if v.Int? then Canonical(t, ft, v) == Ok(IntC(v.integer)) else Canonical(t, ft, v).value.StructC?
  {
  }

  lemma ChainMember(d: Domain)
    ensures Lookup(DomainMembers(d), CHAIN_ID) == if d.chainId.None? then Null else Int(d.chainId.value)
    ensures forall name, c :: name != CHAIN_ID ==>
              Lookup(DomainMembers(d.(chainId := c)), name) == Lookup(DomainMembers(d), name)
  {
    DomainNamesDiffer();
  }

  /** What the declared chain field of a signed domain holds. */
  lemma ChainField(td: TypedData, i: nat)
    requires DomainCanon(td).Ok?
    requires i < |FieldsOf(td.types, EIP712_DOMAIN)| && FieldsOf(td.types, EIP712_DOMAIN)[i].name == CHAIN_ID
    ensures DomainCanon(td).value.StructC? && i < |DomainCanon(td).value.fields|
    ensures var c := DomainCanon(td).value.fields[i];
            if td.domain.chainId.Some? then c.IntC? && c.value == td.domain.chainId.value else c.StructC?
  {
    hide Canonical, DomainMembers, RunStruct;
    var v, fields := Object(DomainMembers(td.domain)), FieldsOf(td.types, EIP712_DOMAIN);
    CanonFieldAt(td.types, EIP712_DOMAIN, v, |fields|, i);
    ChainMember(td.domain);
    ChainForms(td.types, fields[i].typ, Lookup(DomainMembers(td.domain), CHAIN_ID));
  }

  lemma DeclaredChainBinds(k: Hasher, a: TypedRequest, b: TypedRequest)
    requires SameDigest(k, a, b) && Declares(a.typed.types, EIP712_DOMAIN, CHAIN_ID)
    requires || Flat(a.typed.types, EIP712_DOMAIN)
             || BothReadable(a.typed.types, EIP712_DOMAIN, b.typed.types, EIP712_DOMAIN)
    ensures a.typed.domain.chainId == b.typed.domain.chainId || CollidesWith(k, a, b)
  {
    hide DomainCanon, MessageCanon, Readable, TypedRefused, Collide, AllHashed, Reachable, SignedDigest, Flat;
    DomainBinds(k, a, b);
    if !CollidesWith(k, a, b) {
      var fields := FieldsOf(a.typed.types, EIP712_DOMAIN);
      var i :| 0 <= i < |fields| && fields[i].name == CHAIN_ID;
      ReachesSelf(a.typed.types, EIP712_DOMAIN);
      assert FieldsOf(b.typed.types, EIP712_DOMAIN) == fields;
      ChainField(a.typed, i);
      ChainField(b.typed, i);
    }
  }

  /** Without a declared chain field the digest is the same for every chain. */
  lemma UndeclaredChainUnbound(k: Hasher, a: TypedRequest, chainId: int)
    requires Accepted(a) && !Declares(a.typed.types, EIP712_DOMAIN, CHAIN_ID)
    ensures var domain := a.typed.domain.(chainId := Some(chainId));
            var b := a.(typed := a.typed.(domain := domain), chainId := chainId);
            SameDigest(k, a, b) && AllHashed(k, b.typed) == AllHashed(k, a.typed)
  {
    hide Digest, Hashed, PrefixedData, DomainMembers, CanonStruct;
    ChainMember(a.typed.domain);
    OtherMembers(a.typed.types, EIP712_DOMAIN, CHAIN_ID, DomainMembers(a.typed.domain),
                 DomainMembers(a.typed.domain.(chainId := Some(chainId))));
  }

  /** For a flat domain type, exactly when a signature is good for one chain only, against every
      accepted request: when the domain type declares a field for the chain id. */
  lemma BindsChainExactly(k: Hasher, a: TypedRequest)
    requires Accepted(a) && Flat(a.typed.types, EIP712_DOMAIN) && !CollidesWith(k, a, a)
    ensures BindsChain(k, a) <==> Declares(a.typed.types, EIP712_DOMAIN, CHAIN_ID)
  {
    hide Accepted, Declares, AllHashed, Flat, SignedDigest;
    if Declares(a.typed.types, EIP712_DOMAIN, CHAIN_ID) {
      forall b | SameDigest(k, a, b)
        ensures a.typed.domain.chainId == b.typed.domain.chainId || CollidesWith(k, a, b)
      {
        DeclaredChainBinds(k, a, b);
      }
    } else {
      UndeclaredChainUnbound(k, a, if a.typed.domain.chainId == Some(1) then 2 else 1);
    }
  }
}
