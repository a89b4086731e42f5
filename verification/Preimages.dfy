/** What the signed byte strings determine: the fields behind a preimage, the preimage
    behind a broadcast transaction, and the family a preimage belongs to. */
module Preimages {
  import opened Wrappers
  import opened Bytes
  import opened Rlp
  import opened Hex
  import opened Addresses
  import opened Signatures
  import opened Transactions
  import TypedData

  // ---------------------------------------------------------------- injectivity

  /** Equal up to the one identification the encoding makes: no amount is amount zero. */
  predicate SameLegacy(a: LegacyTx, b: LegacyTx) {
    Amount(a.value) == Amount(b.value) && a.(value := None) == b.(value := None)
  }

  predicate SameType2(a: Type2Tx, b: Type2Tx) {
    Amount(a.value) == Amount(b.value) && a.(value := None) == b.(value := None)
  }

  lemma SameItems(ts: seq<Item>, us: seq<Item>)
    requires EncodeItem(List(ts)) == EncodeItem(List(us)) && Fits(List(ts))
    ensures ts == us
  {
    hide EncodeItem;
    PrefixFree(List(ts), List(us));
  }

  lemma LegacyItemsInjective(a: LegacyTx, b: LegacyTx)
    requires LegacyEncodable(a) && LegacyEncodable(b) && LegacyItems(a) == LegacyItems(b)
    ensures SameLegacy(a, b.(chainId := a.chainId))
  {
    hide BytesOf, NumberBytes;
    var s, t := LegacyItems(a), LegacyItems(b);
    assert s[0] == t[0] && s[1] == t[1] && s[2] == t[2] && s[3] == t[3] && s[4] == t[4] && s[5] == t[5];
    BytesOfInjective(a.nonce, b.nonce);
    BytesOfInjective(a.gasPrice, b.gasPrice);
    NumberBytesInjective(a.gas, b.gas);
    BytesOfInjective(Amount(a.value), Amount(b.value));
  }

  lemma KeyItemsInjective(s: seq<Word>, t: seq<Word>)
    requires KeyItems(s) == KeyItems(t)
    ensures s == t
  {
    assert |KeyItems(s)| == |s| && |KeyItems(t)| == |t|;
    assert forall i :: 0 <= i < |s| ==> KeyItems(s)[i] == Str(s[i]) && KeyItems(t)[i] == Str(t[i]);
  }

  lemma AccessListInjective(a: seq<AccessListEntry>, b: seq<AccessListEntry>)
    requires AccessListItems(a) == AccessListItems(b)
    ensures a == b
  {
    assert |AccessListItems(a)| == |a| && |AccessListItems(b)| == |b|;
    forall i | 0 <= i < |a| ensures a[i] == b[i] {
      assert EntryItem(a[i]) == AccessListItems(a)[i] == AccessListItems(b)[i] == EntryItem(b[i]);
      var s, t := EntryItem(a[i]).items, EntryItem(b[i]).items;
      assert s[0] == t[0] && s[1] == t[1];
      KeyItemsInjective(a[i].storageKeys, b[i].storageKeys);
    }
  }

  lemma Type2ItemsInjective(a: Type2Tx, b: Type2Tx)
    requires Type2Encodable(a) && Type2Encodable(b) && a.chainId >= 0 && b.chainId >= 0
    requires Type2Items(a) == Type2Items(b)
    ensures SameType2(a, b)
  {
    hide BytesOf, NumberBytes, AccessListItems;
    var s, t := Type2Items(a), Type2Items(b);
    assert s[0] == t[0] && s[1] == t[1] && s[2] == t[2] && s[3] == t[3] && s[4] == t[4]
        && s[5] == t[5] && s[6] == t[6] && s[7] == t[7] && s[8] == t[8];
    NumberBytesInjective(a.chainId, b.chainId);
    BytesOfInjective(a.nonce, b.nonce);
    BytesOfInjective(a.maxPriorityFeePerGas, b.maxPriorityFeePerGas);
    BytesOfInjective(a.maxFeePerGas, b.maxFeePerGas);
    NumberBytesInjective(a.gas, b.gas);
    BytesOfInjective(Amount(a.value), Amount(b.value));
    AccessListInjective(a.accessList, b.accessList);
  }

  /** Equal legacy preimages come from equal fields. */
  lemma LegacyInjective(k: Hasher, a: LegacyTx, b: LegacyTx)
    requires LegacyPreimage(k, a).Done? && LegacyPreimage(k, a) == LegacyPreimage(k, b)
    requires |LegacyPreimage(k, a).bytes| <= MAX_INT
    ensures SameLegacy(a, b)
  {
    hide EncodeItem, LegacyPreimage, NumberBytes, LegacyItems;
    LegacyPreimageExact(k, a);
    LegacyPreimageExact(k, b);
    var s := LegacyItems(a) + [Str(NumberBytes(a.chainId)), Str([]), Str([])];
    var t := LegacyItems(b) + [Str(NumberBytes(b.chainId)), Str([]), Str([])];
    SameItems(s, t);
    LegacySize(a);
    LegacySize(b);
    assert LegacyItems(a) == s[..6] == t[..6] == LegacyItems(b);
    assert s[6] == t[6];
    LegacyItemsInjective(a, b);
    NumberBytesInjective(a.chainId, b.chainId);
  }

  lemma LegacySize(tx: LegacyTx)
    requires LegacyEncodable(tx)
    ensures |LegacyItems(tx)| == 6
  {
  }

  /** Equal type-2 preimages come from equal fields, nested access list included. */
  lemma Type2Injective(k: Hasher, a: Type2Tx, b: Type2Tx)
    requires Type2Preimage(k, a).Done? && Type2Preimage(k, a) == Type2Preimage(k, b)
    requires |Type2Preimage(k, a).bytes| <= MAX_INT
    ensures SameType2(a, b)
  {
    hide EncodeItem, Type2Preimage, Type2Items;
    Type2PreimageExact(k, a);
    Type2PreimageExact(k, b);
    var s, t := EncodeItem(List(Type2Items(a))), EncodeItem(List(Type2Items(b)));
    assert s == ([TYPE2_PREFIX] + s)[1..] == ([TYPE2_PREFIX] + t)[1..] == t;
    SameItems(Type2Items(a), Type2Items(b));
    Type2ItemsInjective(a, b);
  }

  // ---------------------------------------------------------------- from broadcast back to preimage

  /** What a reader of a broadcast legacy transaction reconstructs: decode, take the chain id
      out of V, put it and two empty items in place of V, R, S, encode again. */
  function LegacySignedBytes(broadcast: Bytes): Option<Bytes> {
    match Decode(broadcast, |broadcast|)
    case Ok(List(items)) =>
      if |items| == 9 && items[6].Str? && ValueOf(items[6].bytes) >= 35 then
        var chainId := (ValueOf(items[6].bytes) - 35) / 2;
        Some(EncodeItem(List(items[..6] + [Str(BytesOf(chainId)), Str([]), Str([])])))
      else None
    case _ => None
  }

  /** The same for type 2: the first nine items, encoded again behind the type byte. */
  function Type2SignedBytes(broadcast: Bytes): Option<Bytes> {
    if broadcast == [] || broadcast[0] != TYPE2_PREFIX then None
    else match Decode(broadcast[1..], |broadcast| - 1)
         case Ok(List(items)) =>
           if |items| == 12 then Some([TYPE2_PREFIX] + EncodeItem(List(items[..9]))) else None
         case _ => None
  }

  lemma DecodeWhole(t: Item)
    requires Fits(t)
    ensures Decode(EncodeItem(t), |EncodeItem(t)|) == Ok(t)
  {
    hide EncodeItem, Decode;
    RoundTrip(t, [], []);
    assert EncodeItem(t) + [] + [] == EncodeItem(t) + [] == EncodeItem(t);
  }

  /** The broadcast bytes alone determine what was signed, exactly when the chain id is
      positive: chain id 0 is signed as one zero byte, but V gives back an empty item. */
  lemma LegacyBroadcastShowsPreimage(k: Hasher, tx: LegacyTx, g: Signature65)
    requires LegacyEncodable(tx) && tx.chainId >= 0
    requires var b := LegacyBroadcast(k, tx, LegacySignature(g, tx.chainId));
             b.Done? ==> |b.bytes| <= MAX_INT
    requires LegacyPreimage(k, tx).Done? ==> |LegacyPreimage(k, tx).bytes| <= MAX_INT
    ensures var b := LegacyBroadcast(k, tx, LegacySignature(g, tx.chainId));
            && b.Done? && LegacyPreimage(k, tx).Done?
            && (LegacySignedBytes(b.bytes) == Some(LegacyPreimage(k, tx).bytes) <==> tx.chainId >= 1)
  {
    hide EncodeItem, LegacyPreimage, LegacyBroadcast, LegacyItems, Decode;
    var sig := LegacySignature(g, tx.chainId);
    LegacyPreimageExact(k, tx);
    LegacyBroadcastExact(k, tx, sig);
    LegacySize(tx);
    var items := LegacyItems(tx) + [Str(BytesOf(sig.v)), Str(BytesOf(sig.r)), Str(BytesOf(sig.s))];
    DecodeWhole(List(items));
    assert items[..6] == LegacyItems(tx) && items[6] == Str(BytesOf(sig.v));
    ValueOfBytesOf(sig.v);
    assert (sig.v - 35) / 2 == tx.chainId;
    var signed := LegacyItems(tx) + [Str(NumberBytes(tx.chainId)), Str([]), Str([])];
    var read := LegacyItems(tx) + [Str(BytesOf(tx.chainId)), Str([]), Str([])];
    if EncodeItem(List(signed)) == EncodeItem(List(read)) {
      SameItems(signed, read);
      assert signed[6] == read[6];
    }
  }

  lemma Type2BroadcastShowsPreimage(k: Hasher, tx: Type2Tx, g: Signature65)
    requires Type2Encodable(tx) && tx.chainId >= 0
    requires var b := Type2Broadcast(k, tx, Type2Signature(g));
             b.Done? ==> |b.bytes| <= MAX_INT
    ensures var b := Type2Broadcast(k, tx, Type2Signature(g));
            && b.Done? && Type2Preimage(k, tx).Done?
            && Type2SignedBytes(b.bytes) == Some(Type2Preimage(k, tx).bytes)
  {
    hide EncodeItem, Type2Preimage, Type2Broadcast, Type2Items, Decode;
    var sig := Type2Signature(g);
    Type2PreimageExact(k, tx);
    Type2BroadcastExact(k, tx, sig);
    Type2Size(tx);
    var items := Type2Items(tx) + [Str(BytesOf(sig.yParity)), Str(BytesOf(sig.r)), Str(BytesOf(sig.s))];
    DecodeWhole(List(items));
    assert items[..9] == Type2Items(tx);
    assert ([TYPE2_PREFIX] + EncodeItem(List(items)))[1..] == EncodeItem(List(items));
  }

  lemma Type2Size(tx: Type2Tx)
    requires Type2Encodable(tx) && tx.chainId >= 0
    ensures |Type2Items(tx)| == 9
  {
  }

  /** The signature can be read off the broadcast bytes too: equal legacy broadcasts carry
      equal transactions and equal V, R, S bytes. */
  lemma LegacyBroadcastInjective(k: Hasher, a: LegacyTx, g: Signature65, b: LegacyTx, h: Signature65)
    requires LegacyEncodable(a) && LegacyEncodable(b) && a.chainId >= 0 && b.chainId >= 0
    requires LegacyBroadcast(k, a, LegacySignature(g, a.chainId))
          == LegacyBroadcast(k, b, LegacySignature(h, b.chainId))
    requires var x := LegacyBroadcast(k, a, LegacySignature(g, a.chainId));
             x.Done? ==> |x.bytes| <= MAX_INT
    ensures SameLegacy(a, b) && g == h
  {
    hide EncodeItem, LegacyBroadcast, LegacyItems, BytesOf, ValueOf;
    var s, t := LegacySignature(g, a.chainId), LegacySignature(h, b.chainId);
    LegacyBroadcastExact(k, a, s);
    LegacyBroadcastExact(k, b, t);
    LegacySize(a);
    LegacySize(b);
    var x := LegacyItems(a) + [Str(BytesOf(s.v)), Str(BytesOf(s.r)), Str(BytesOf(s.s))];
    var y := LegacyItems(b) + [Str(BytesOf(t.v)), Str(BytesOf(t.r)), Str(BytesOf(t.s))];
    SameItems(x, y);
    assert LegacyItems(a) == x[..6] == y[..6] == LegacyItems(b);
    assert x[6] == y[6] && x[7] == y[7] && x[8] == y[8];
    BytesOfInjective(s.v, t.v);
    BytesOfInjective(s.r, t.r);
    BytesOfInjective(s.s, t.s);
    LegacyItemsInjective(a, b);
    LegacySignatureInjective(g, a.chainId, h, b.chainId);
  }

  lemma LegacySignatureInjective(g: Signature65, c: nat, h: Signature65, d: nat)
    requires LegacySignature(g, c) == LegacySignature(h, d)
    ensures g == h && c == d
  {
    hide ValueOf, BytesOf, PadLeft, Pow256, HexBytesFromString, ToHexForm;
    hide LegacySignature, Type2Signature, TypedDataSignature;
    FormsAgree(g, c);
    FormsAgree(h, d);
  }

  lemma Type2BroadcastInjective(k: Hasher, a: Type2Tx, g: Signature65, b: Type2Tx, h: Signature65)
    requires Type2Encodable(a) && Type2Encodable(b) && a.chainId >= 0 && b.chainId >= 0
    requires Type2Broadcast(k, a, Type2Signature(g)) == Type2Broadcast(k, b, Type2Signature(h))
    requires var x := Type2Broadcast(k, a, Type2Signature(g));
             x.Done? ==> |x.bytes| <= MAX_INT
    ensures SameType2(a, b) && g == h
  {
    hide EncodeItem, Type2Broadcast, Type2Items, BytesOf, ValueOf;
    var s, t := Type2Signature(g), Type2Signature(h);
    Type2BroadcastExact(k, a, s);
    Type2BroadcastExact(k, b, t);
    Type2Size(a);
    Type2Size(b);
    var x := Type2Items(a) + [Str(BytesOf(s.yParity)), Str(BytesOf(s.r)), Str(BytesOf(s.s))];
    var y := Type2Items(b) + [Str(BytesOf(t.yParity)), Str(BytesOf(t.r)), Str(BytesOf(t.s))];
    var e, f := EncodeItem(List(x)), EncodeItem(List(y));
    assert e == ([TYPE2_PREFIX] + e)[1..] == ([TYPE2_PREFIX] + f)[1..] == f;
    SameItems(x, y);
    assert Type2Items(a) == x[..9] == y[..9] == Type2Items(b);
    assert x[9] == y[9] && x[10] == y[10] && x[11] == y[11];
    BytesOfInjective(s.yParity, t.yParity);
    BytesOfInjective(s.r, t.r);
    BytesOfInjective(s.s, t.s);
    Type2ItemsInjective(a, b);
    Type2SignatureInjective(g, h);
  }

  lemma Type2SignatureInjective(g: Signature65, h: Signature65)
    requires Type2Signature(g) == Type2Signature(h)
    ensures g == h
  {
    hide ValueOf, BytesOf, PadLeft, Pow256, HexBytesFromString, ToHexForm;
    hide LegacySignature, Type2Signature, TypedDataSignature;
    FormsAgree(g, 1);
    FormsAgree(h, 1);
  }

  /** A transaction of either family with the signature assembled for it. */
  datatype Sent = SentLegacy(legacy: LegacyTx, sig: Signature65) | SentType2(type2: Type2Tx, sig: Signature65)

  function Broadcast(k: Hasher, s: Sent): Outcome {
    match s
    case SentLegacy(tx, g) => LegacyBroadcast(k, tx, LegacySignature(g, tx.chainId))
    case SentType2(tx, g) => Type2Broadcast(k, tx, Type2Signature(g))
  }

  /** What the signer broadcasts: non-negative amounts and chain id. */
  predicate Sendable(s: Sent) {
    match s
    case SentLegacy(tx, _) => LegacyEncodable(tx) && tx.chainId >= 0
    case SentType2(tx, _) => Type2Encodable(tx) && tx.chainId >= 0
  }

  lemma LegacyBroadcastHead(k: Hasher, tx: LegacyTx, g: Signature65)
    requires LegacyEncodable(tx) && tx.chainId >= 0
    requires var b := LegacyBroadcast(k, tx, LegacySignature(g, tx.chainId));
             b.Done? ==> |b.bytes| <= MAX_INT
    ensures var b := LegacyBroadcast(k, tx, LegacySignature(g, tx.chainId));
            b.Done? && b.bytes != [] && b.bytes[0] >= 0xc0
  {
    hide LegacyBroadcast, LegacyItems, EncodeItem, BytesOf, ValueOf;
    var sig := LegacySignature(g, tx.chainId);
    LegacyBroadcastExact(k, tx, sig);
    ListHead(LegacyItems(tx) + [Str(BytesOf(sig.v)), Str(BytesOf(sig.r)), Str(BytesOf(sig.s))]);
  }

  lemma Type2BroadcastHead(k: Hasher, tx: Type2Tx, g: Signature65)
    requires Type2Encodable(tx) && tx.chainId >= 0
    ensures var b := Type2Broadcast(k, tx, Type2Signature(g));
            b.Done? && b.bytes != [] && b.bytes[0] == TYPE2_PREFIX
  {
    hide Type2Broadcast, Type2Items, EncodeItem, BytesOf, ValueOf;
    Type2BroadcastExact(k, tx, Type2Signature(g));
  }

  /** Equal broadcasts are of one family and carry the same transaction and signature. */
  lemma BroadcastsInjective(k: Hasher, a: Sent, b: Sent)
    requires Sendable(a) && Sendable(b) && Broadcast(k, a) == Broadcast(k, b)
    requires Broadcast(k, a).Done? ==> |Broadcast(k, a).bytes| <= MAX_INT
    ensures match a
            case SentLegacy(tx, g) => b.SentLegacy? && SameLegacy(tx, b.legacy) && g == b.sig
            case SentType2(tx, g) => b.SentType2? && SameType2(tx, b.type2) && g == b.sig
  {
    hide LegacyBroadcast, Type2Broadcast, LegacySignature, Type2Signature, SameLegacy, SameType2;
    match (a, b)
    case (SentLegacy(x, g), SentLegacy(y, h)) => LegacyBroadcastInjective(k, x, g, y, h);
    case (SentType2(x, g), SentType2(y, h)) => Type2BroadcastInjective(k, x, g, y, h);
    case (SentLegacy(x, g), SentType2(y, h)) =>
      LegacyBroadcastHead(k, x, g);
      Type2BroadcastHead(k, y, h);
    case (SentType2(x, g), SentLegacy(y, h)) =>
      Type2BroadcastHead(k, x, g);
      LegacyBroadcastHead(k, y, h);
  }

  // ---------------------------------------------------------------- all families

  datatype SigningRequest =
    | Legacy(legacy: LegacyTx)
    | Type2(type2: Type2Tx)
    | Typed(domainSeparator: Word, structHash: Word)

  function SigningPreimage(k: Hasher, r: SigningRequest): Outcome {
    match r
    case Legacy(tx) => LegacyPreimage(k, tx)
    case Type2(tx) => Type2Preimage(k, tx)
    case Typed(d, h) => Done(TypedData.PrefixedData(d, h))
  }

  predicate SameRequest(a: SigningRequest, b: SigningRequest) {
    match a
    case Legacy(x) => b.Legacy? && SameLegacy(x, b.legacy)
    case Type2(x) => b.Type2? && SameType2(x, b.type2)
    case Typed(_, _) => a == b
  }

  /** First byte of a preimage: a list prefix, 0x02 or 0x19. */
  lemma FamilyByte(k: Hasher, r: SigningRequest)
    requires SigningPreimage(k, r).Done? && |SigningPreimage(k, r).bytes| <= MAX_INT
    ensures var b := SigningPreimage(k, r).bytes;
            b != [] && (r.Legacy? ==> b[0] >= 0xc0) && (r.Type2? ==> b[0] == 2) && (r.Typed? ==> b[0] == 0x19)
  {
    hide LegacyPreimage, Type2Preimage, LegacyItems, EncodeItems, BytesOf;
    match r
    case Legacy(tx) =>
      LegacyPreimageExact(k, tx);
      ListHead(LegacyItems(tx) + [Str(NumberBytes(tx.chainId)), Str([]), Str([])]);
    case Type2(tx) => Type2PreimageExact(k, tx);
    case Typed(_, _) =>
  }

  lemma ListHead(ts: seq<Item>)
    requires Fits(List(ts))
    ensures EncodeItem(List(ts))[0] >= 0xc0
  {
    hide BytesOf, EncodeItems, ToInt;
    var n := |EncodeItems(ts)|;
    if n >= 56 { LongLength(n); }
  }

  /** Over all three families, equal preimages mean the same family and the same fields: no
      signature made for one request is ever a signature for another. */
  lemma PreimagesInjective(k: Hasher, a: SigningRequest, b: SigningRequest)
    requires SigningPreimage(k, a).Done? && SigningPreimage(k, a) == SigningPreimage(k, b)
    requires |SigningPreimage(k, a).bytes| <= MAX_INT
    ensures SameRequest(a, b)
  {
    hide LegacyPreimage, Type2Preimage;
    FamilyByte(k, a);
    FamilyByte(k, b);
    match (a, b)
    case (Legacy(x), Legacy(y)) => LegacyInjective(k, x, y);
    case (Type2(x), Type2(y)) => Type2Injective(k, x, y);
    case (Typed(d, h), Typed(e, i)) =>
      TypedData.PrefixedDataInjective(d, h, e, i);
    case _ =>
  }
}
