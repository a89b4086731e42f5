/** Transaction signing from request to broadcast bytes, and the reading of those bytes that
    every node of the network performs to find out who sent the transaction. */
module Signing {
  import opened Wrappers
  import opened Bytes
  import opened Rlp
  import opened Addresses
  import opened Signatures
  import opened Transactions
  import opened Preimages
  import TypedData
  import opened TypedRequests
  import opened Hex

  datatype LegacyRequest = LegacyRequest(
    from: Address, to: Option<Address>, gas: Option<uint64>, gasPrice: Option<int>,
    value: Option<int>, data: Bytes, nonce: uint64, chainId: int)

  datatype Type2Request = Type2Request(
    from: Address, to: Option<Address>, gas: Option<uint64>, maxPriorityFeePerGas: int,
    maxFeePerGas: int, value: Option<int>, data: Bytes, nonce: uint64, chainId: int,
    accessList: seq<AccessListEntry>)

  /** Raw r || s for a digest, or None when the signing backend fails. */
  type Backend = Bytes -> Option<Bytes>

  datatype SignResult =
    | Signed(bytes: Bytes)
    | InvalidArgument
    | EncodingFailed(outcome: Outcome)
    | BackendFailed
    | BadSignature(assembled: Assembled)

  const DEFAULT_GAS: uint64 := 90000

  function LegacyOf(r: LegacyRequest): LegacyTx {
    LegacyTx(r.nonce, if r.gasPrice.None? then 0 else r.gasPrice.value,
             if r.gas.None? then DEFAULT_GAS else r.gas.value, r.to, r.value, r.data, r.chainId)
  }

  function Type2Of(r: Type2Request): Type2Tx {
    Type2Tx(r.chainId, r.nonce, r.maxPriorityFeePerGas, r.maxFeePerGas,
            if r.gas.None? then DEFAULT_GAS else r.gas.value, r.to, r.value, r.data, r.accessList)
  }

  /** The guards of `SignTx`: a sender, and an EIP-155 chain id. */
  predicate Refused(from: Address, chainId: int) {
    from == Zeros(20) || chainId < 1
  }

  // ---------------------------------------------------------------- reading a broadcast

  function Assemble(parity: nat, r: Bytes, s: Bytes): Bytes
    requires parity < 2
  {
    [V_MIN + parity] + PadLeft(r, 32) + PadLeft(s, 32)
  }

  /** Sender of a broadcast legacy transaction under EIP-155. */
  function LegacySender(k: Hasher, recover: Recoverer, broadcast: Bytes): Recovery {
    match (Decode(broadcast, |broadcast|), LegacySignedBytes(broadcast))
    case (Ok(List(items)), Some(signed)) =>
      if |items| == 9 && items[6].Str? && items[7].Str? && items[8].Str? then
        recover(Assemble((ValueOf(items[6].bytes) + 1) % 2, items[7].bytes, items[8].bytes), k(signed))
      else Unrecoverable
    case _ => Unrecoverable
  }

  /** Sender of a broadcast type-2 transaction under EIP-1559. */
  function Type2Sender(k: Hasher, recover: Recoverer, broadcast: Bytes): Recovery {
    var decoded := if broadcast == [] then Err(NullInput) else Decode(broadcast[1..], |broadcast| - 1);
    match (decoded, Type2SignedBytes(broadcast))
    case (Ok(List(items)), Some(signed)) =>
      if |items| == 12 && items[9].Str? && items[10].Str? && items[11].Str? && ValueOf(items[9].bytes) < 2 then
        recover(Assemble(ValueOf(items[9].bytes), items[10].bytes, items[11].bytes), k(signed))
      else Unrecoverable
    case _ => Unrecoverable
  }

  /** Re-assembling the three numbers of a signature gives back its 65 bytes. */
  lemma AssembleNumbers(g: Signature65)
    ensures Assemble(g[0] - V_MIN, BytesOf(ValueOf(g[1..33])), BytesOf(ValueOf(g[33..]))) == g
  {
    hide ValueOf, BytesOf;
    PadLeftValueOf(g[1..33]);
    PadLeftValueOf(g[33..]);
    assert g == [g[0]] + g[1..33] + g[33..];
  }

  lemma LegacySenderIs(k: Hasher, recover: Recoverer, tx: LegacyTx, g: Signature65)
    requires LegacyEncodable(tx) && tx.chainId >= 1
    requires var b := LegacyBroadcast(k, tx, LegacySignature(g, tx.chainId));
             b.Done? && |b.bytes| <= MAX_INT
    ensures LegacyPreimage(k, tx).Done?
    ensures LegacySender(k, recover, LegacyBroadcast(k, tx, LegacySignature(g, tx.chainId)).bytes)
         == recover(g, k(LegacyPreimage(k, tx).bytes))
  {
    hide EncodeItem, LegacyPreimage, LegacyBroadcast, LegacyItems, Decode, LegacySignedBytes, BytesOf, ValueOf;
    var sig := LegacySignature(g, tx.chainId);
    LegacyPreimageFits(k, tx, g);
    LegacyBroadcastShowsPreimage(k, tx, g);
    LegacyBroadcastExact(k, tx, sig);
    LegacySize(tx);
    var tail := [Str(BytesOf(sig.v)), Str(BytesOf(sig.r)), Str(BytesOf(sig.s))];
    DecodeWhole(List(LegacyItems(tx) + tail));
    var items := LegacyItems(tx) + tail;
    assert items[6] == tail[0] && items[7] == tail[1] && items[8] == tail[2];
    ValueOfBytesOf(sig.v);
    assert (sig.v + 1) % 2 == g[0] - V_MIN;
    AssembleNumbers(g);
  }

  lemma Type2SenderIs(k: Hasher, recover: Recoverer, tx: Type2Tx, g: Signature65)
    requires Type2Encodable(tx) && tx.chainId >= 1
    requires var b := Type2Broadcast(k, tx, Type2Signature(g));
             b.Done? && |b.bytes| <= MAX_INT
    ensures Type2Preimage(k, tx).Done?
    ensures Type2Sender(k, recover, Type2Broadcast(k, tx, Type2Signature(g)).bytes)
         == recover(g, k(Type2Preimage(k, tx).bytes))
  {
    hide EncodeItem, Type2Preimage, Type2Broadcast, Type2Items, Decode, Type2SignedBytes, BytesOf, ValueOf;
    var sig := Type2Signature(g);
    Type2BroadcastShowsPreimage(k, tx, g);
    Type2BroadcastExact(k, tx, sig);
    Type2Size(tx);
    var tail := [Str(BytesOf(sig.yParity)), Str(BytesOf(sig.r)), Str(BytesOf(sig.s))];
    var items := Type2Items(tx) + tail;
    DecodeWhole(List(items));
    assert ([TYPE2_PREFIX] + EncodeItem(List(items)))[1..] == EncodeItem(List(items));
    assert items[9] == tail[0] && items[10] == tail[1] && items[11] == tail[2];
    ValueOfBytesOf(sig.yParity);
    AssembleNumbers(g);
  }

  // ---------------------------------------------------------------- what is signed

  /** The item is a string without leading zeros that is worth n. */
  predicate Holds(item: Item, n: int) {
    item.Str? && ValueOf(item.bytes) == n && (item.bytes == [] || item.bytes[0] != 0)
  }

  /** The same for numbers that go through an even count of hex digits: zero is a zero byte. */
  predicate HoldsPadded(item: Item, n: int) {
    if n == 0 then item == Str([0]) else Holds(item, n)
  }

  predicate HoldsBytes(item: Item, b: Bytes) {
    item == Str(b)
  }

  /** The six items a legacy encoding starts with are the fields of the request: nonce, gas
      price (0 if absent), gas (90000 if absent), recipient, amount (0 if absent), data. */
  predicate LegacyReads(items: seq<Item>, r: LegacyRequest) {
    && |items| >= 6
    && Holds(items[0], r.nonce)
    && Holds(items[1], if r.gasPrice.None? then 0 else r.gasPrice.value)
    && HoldsPadded(items[2], if r.gas.None? then 90000 else r.gas.value)
    && HoldsBytes(items[3], if r.to.None? then [] else r.to.value)
    && Holds(items[4], if r.value.None? then 0 else r.value.value)
    && HoldsBytes(items[5], r.data)
  }

  /** The nine items a type-2 encoding starts with. */
  predicate Type2Reads(items: seq<Item>, r: Type2Request) {
    && |items| >= 9
    && HoldsPadded(items[0], r.chainId)
    && Holds(items[1], r.nonce)
    && Holds(items[2], r.maxPriorityFeePerGas)
    && Holds(items[3], r.maxFeePerGas)
    && HoldsPadded(items[4], if r.gas.None? then 90000 else r.gas.value)
    && HoldsBytes(items[5], if r.to.None? then [] else r.to.value)
    && Holds(items[6], if r.value.None? then 0 else r.value.value)
    && HoldsBytes(items[7], r.data)
    && HoldsAccessList(items[8], r.accessList)
  }

  /** A list of pairs: an address, and the list of its storage keys. */
  predicate HoldsAccessList(item: Item, list: seq<AccessListEntry>) {
    && item.List? && |item.items| == |list|
    && forall i :: 0 <= i < |list| ==>
         && item.items[i].List? && |item.items[i].items| == 2
         && HoldsBytes(item.items[i].items[0], list[i].address)
         && item.items[i].items[1].List? && |item.items[i].items[1].items| == |list[i].storageKeys|
         && forall j :: 0 <= j < |list[i].storageKeys| ==>
              HoldsBytes(item.items[i].items[1].items[j], list[i].storageKeys[j])
  }

  lemma HoldsNumber(n: nat)
    ensures Holds(Str(BytesOf(n)), n) && HoldsPadded(Str(NumberBytes(n)), n)
  {
    ValueOfBytesOf(n);
    if n > 0 { BytesOfHead(n); }
  }

  lemma LegacyItemsRead(r: LegacyRequest, tail: seq<Item>)
    requires LegacyEncodable(LegacyOf(r))
    ensures LegacyReads(LegacyItems(LegacyOf(r)) + tail, r)
    ensures |LegacyItems(LegacyOf(r))| == 6
  {
    hide Holds, HoldsPadded, BytesOf, NumberBytes;
    var tx := LegacyOf(r);
    HoldsNumber(tx.nonce);
    HoldsNumber(tx.gasPrice);
    HoldsNumber(tx.gas);
    HoldsNumber(Amount(tx.value));
  }

  lemma AccessListReads(list: seq<AccessListEntry>)
    ensures HoldsAccessList(List(AccessListItems(list)), list)
  {
  }

  lemma Type2ItemsRead(r: Type2Request, tail: seq<Item>)
    requires Type2Encodable(Type2Of(r)) && r.chainId >= 0
    ensures Type2Reads(Type2Items(Type2Of(r)) + tail, r)
    ensures |Type2Items(Type2Of(r))| == 9
  {
    hide Holds, HoldsPadded, BytesOf, NumberBytes, HoldsAccessList, AccessListItems;
    var tx := Type2Of(r);
    HoldsNumber(tx.chainId);
    HoldsNumber(tx.nonce);
    HoldsNumber(tx.maxPriorityFeePerGas);
    HoldsNumber(tx.maxFeePerGas);
    HoldsNumber(tx.gas);
    HoldsNumber(Amount(tx.value));
    AccessListReads(tx.accessList);
  }

  /** The broadcast bytes of a legacy request: its fields, V with its chain id, R and S. */
  predicate LegacyBroadcastReads(b: Bytes, r: LegacyRequest, g: Signature65) {
    match Decode(b, |b|)
    case Ok(List(items)) =>
      && |items| == 9 && LegacyReads(items, r)
      && Holds(items[6], g[0] - 27 + 35 + 2 * r.chainId)
      && Holds(items[7], ValueOf(g[1..33])) && Holds(items[8], ValueOf(g[33..]))
    case _ => false
  }

  /** The signed bytes of a legacy request: its fields, its chain id and two empty items. */
  predicate LegacyPreimageReads(p: Bytes, r: LegacyRequest) {
    match Decode(p, |p|)
    case Ok(List(items)) =>
      && |items| == 9 && LegacyReads(items, r)
      && HoldsPadded(items[6], r.chainId) && items[7] == items[8] == Str([])
    case _ => false
  }

  predicate Type2BroadcastReads(b: Bytes, r: Type2Request, g: Signature65) {
    && b != [] && b[0] == 2
    && match Decode(b[1..], |b| - 1)
       case Ok(List(items)) =>
         && |items| == 12 && Type2Reads(items, r)
         && Holds(items[9], g[0] - 27)
         && Holds(items[10], ValueOf(g[1..33])) && Holds(items[11], ValueOf(g[33..]))
       case _ => false
  }

  predicate Type2PreimageReads(p: Bytes, r: Type2Request) {
    && p != [] && p[0] == 2
    && match Decode(p[1..], |p| - 1)
       case Ok(List(items)) => |items| == 9 && Type2Reads(items, r)
       case _ => false
  }

  lemma {:induction false} EncodedSizes(ts: seq<Item>, us: seq<Item>)
    requires |ts| <= |us| && forall i :: 0 <= i < |ts| ==> |EncodeItem(ts[i])| <= |EncodeItem(us[i])|
    ensures |EncodeItems(ts)| <= |EncodeItems(us)|
  {
    hide EncodeItem;
    if ts != [] { EncodedSizes(ts[1..], us[1..]); }
  }

  /** The larger number never takes fewer bytes. */
  lemma EncodedNumberSizes(m: nat, n: nat)
    requires m <= n
    ensures |EncodeItem(Str(BytesOf(m)))| <= |EncodeItem(Str(BytesOf(n)))|
  {
    hide EncodeLength;
    if m < 0x80 {
      SmallNumber(m);
    } else {
      BytesOfLengthMonotone(m, n);
      EncodeLengthMonotone(|BytesOf(m)|, |BytesOf(n)|, 0x80);
      ValueOfBytesOf(n);
      LargeNumber(n);
    }
  }

  lemma SmallNumber(m: nat)
    requires m < 0x80
    ensures |EncodeItem(Str(BytesOf(m)))| == 1
  {
    assert BytesOf(0) == [] && (m > 0 ==> BytesOf(m) == [] + [m]);
    assert EncodeLength(0, 0x80) + [] == [0x80];
  }

  lemma LargeNumber(n: nat)
    requires n >= 0x80
    ensures !(|BytesOf(n)| == 1 && BytesOf(n)[0] < 0x80)
  {
    ValueOfBytesOf(n);
    if |BytesOf(n)| == 1 { BigEndian([], BytesOf(n)); }
  }

  /** A list does not get shorter when its items do not. */
  lemma ListSizes(ts: seq<Item>, us: seq<Item>)
    requires |ts| <= |us| && forall i :: 0 <= i < |ts| ==> |EncodeItem(ts[i])| <= |EncodeItem(us[i])|
    ensures |EncodeItem(List(ts))| <= |EncodeItem(List(us))|
  {
    hide EncodeItem, EncodeItems, EncodeLength;
    EncodedSizes(ts, us);
    ListSize(ts);
    ListSize(us);
    EncodeLengthMonotone(|EncodeItems(ts)|, |EncodeItems(us)|, 0xc0);
  }

  /** The signed bytes are never longer than the broadcast bytes. */
  lemma LegacyPreimageFits(k: Hasher, tx: LegacyTx, g: Signature65)
    requires LegacyEncodable(tx) && tx.chainId >= 1
    ensures var p, b := LegacyPreimage(k, tx), LegacyBroadcast(k, tx, LegacySignature(g, tx.chainId));
            p.Done? && b.Done? && |p.bytes| <= |b.bytes|
  {
    hide EncodeItem, LegacyPreimage, LegacyBroadcast, LegacyItems, BytesOf, ValueOf;
    var sig := LegacySignature(g, tx.chainId);
    LegacyPreimageExact(k, tx);
    LegacyBroadcastExact(k, tx, sig);
    LegacySize(tx);
    var x := LegacyItems(tx) + [Str(NumberBytes(tx.chainId)), Str([]), Str([])];
    var y := LegacyItems(tx) + [Str(BytesOf(sig.v)), Str(BytesOf(sig.r)), Str(BytesOf(sig.s))];
    EncodedNumberSizes(tx.chainId, sig.v);
    EncodedNumberSizes(0, sig.r);
    EncodedNumberSizes(0, sig.s);
    ZeroBytes();
    assert forall i :: 0 <= i < 9 ==> |EncodeItem(x[i])| <= |EncodeItem(y[i])| by {
      assert forall i :: 0 <= i < 6 ==> x[i] == y[i];
    }
    ListSizes(x, y);
  }

  lemma ZeroBytes()
    ensures BytesOf(0) == []
  {
  }

  lemma Type2PreimageFits(k: Hasher, tx: Type2Tx, g: Signature65)
    requires Type2Encodable(tx) && tx.chainId >= 0
    ensures var p, b := Type2Preimage(k, tx), Type2Broadcast(k, tx, Type2Signature(g));
            p.Done? && b.Done? && |p.bytes| <= |b.bytes|
  {
    hide EncodeItem, Type2Preimage, Type2Broadcast, Type2Items, BytesOf, ValueOf;
    var sig := Type2Signature(g);
    Type2PreimageExact(k, tx);
    Type2BroadcastExact(k, tx, sig);
    var x := Type2Items(tx);
    ListSizes(x, x + [Str(BytesOf(sig.yParity)), Str(BytesOf(sig.r)), Str(BytesOf(sig.s))]);
  }

  lemma LegacyContents(k: Hasher, r: LegacyRequest, g: Signature65)
    requires r.chainId >= 0 && LegacyEncodable(LegacyOf(r))
    ensures var p := LegacyPreimage(k, LegacyOf(r));
            p.Done? && (|p.bytes| <= MAX_INT ==> LegacyPreimageReads(p.bytes, r))
    ensures var b := LegacyBroadcast(k, LegacyOf(r), LegacySignature(g, r.chainId));
            b.Done? && (|b.bytes| <= MAX_INT ==> LegacyBroadcastReads(b.bytes, r, g))
  {
    hide EncodeItem, LegacyPreimage, LegacyBroadcast, LegacyItems, Decode, BytesOf, ValueOf, NumberBytes;
    hide LegacyReads, Holds, HoldsPadded;
    var tx, sig := LegacyOf(r), LegacySignature(g, r.chainId);
    LegacyPreimageExact(k, tx);
    LegacyBroadcastExact(k, tx, sig);
    var signed := [Str(NumberBytes(r.chainId)), Str([]), Str([])];
    var sent := [Str(BytesOf(sig.v)), Str(BytesOf(sig.r)), Str(BytesOf(sig.s))];
    LegacyItemsRead(r, signed);
    LegacyItemsRead(r, sent);
    HoldsNumber(r.chainId);
    HoldsNumber(sig.v);
    HoldsNumber(sig.r);
    HoldsNumber(sig.s);
    var x, y := LegacyItems(tx) + signed, LegacyItems(tx) + sent;
    assert x[6] == signed[0] && x[7] == signed[1] && x[8] == signed[2];
    assert y[6] == sent[0] && y[7] == sent[1] && y[8] == sent[2];
    if |EncodeItem(List(x))| <= MAX_INT { DecodeWhole(List(x)); }
    if |EncodeItem(List(y))| <= MAX_INT { DecodeWhole(List(y)); }
  }

  lemma Type2Contents(k: Hasher, r: Type2Request, g: Signature65)
    requires r.chainId >= 0 && Type2Encodable(Type2Of(r))
    ensures var p := Type2Preimage(k, Type2Of(r));
            p.Done? && (|p.bytes| <= MAX_INT ==> Type2PreimageReads(p.bytes, r))
    ensures var b := Type2Broadcast(k, Type2Of(r), Type2Signature(g));
            b.Done? && (|b.bytes| <= MAX_INT ==> Type2BroadcastReads(b.bytes, r, g))
  {
    hide EncodeItem, Type2Preimage, Type2Broadcast, Type2Items, Decode, BytesOf, ValueOf, NumberBytes;
    hide Type2Reads, Holds, HoldsPadded;
    var tx, sig := Type2Of(r), Type2Signature(g);
    Type2PreimageExact(k, tx);
    Type2BroadcastExact(k, tx, sig);
    var sent := [Str(BytesOf(sig.yParity)), Str(BytesOf(sig.r)), Str(BytesOf(sig.s))];
    Type2ItemsRead(r, []);
    Type2ItemsRead(r, sent);
    HoldsNumber(sig.yParity);
    HoldsNumber(sig.r);
    HoldsNumber(sig.s);
    var x, y := Type2Items(tx), Type2Items(tx) + sent;
    assert x + [] == x;
    assert y[9] == sent[0] && y[10] == sent[1] && y[11] == sent[2];
    assert ([TYPE2_PREFIX] + EncodeItem(List(x)))[1..] == EncodeItem(List(x));
    assert ([TYPE2_PREFIX] + EncodeItem(List(y)))[1..] == EncodeItem(List(y));
    if |EncodeItem(List(x))| <= MAX_INT { DecodeWhole(List(x)); }
    if |EncodeItem(List(y))| <= MAX_INT { DecodeWhole(List(y)); }
  }

  // ---------------------------------------------------------------- signing

  /** What signing a preimage comes to: the first failure, or the broadcast form of the
      assembled signature. */
  function SignedWith(k: Hasher, recover: Recoverer, backend: Backend, from: Address, preimage: Outcome,
                      broadcast: Signature65 -> Outcome): SignResult
  {
    if !preimage.Done? then EncodingFailed(preimage)
    else
      var payload := k(preimage.bytes);
      if backend(payload).None? then BackendFailed
      else
        var assembled := Assembly(recover, backend(payload).value, from, payload);
        if !assembled.Signature65? then BadSignature(assembled)
        else if !broadcast(assembled.bytes).Done? then EncodingFailed(broadcast(assembled.bytes))
        else Signed(broadcast(assembled.bytes).bytes)
  }

  /** `signLegacyTx` behind the guards of `SignTx`. The sender that any reader recovers from
      the broadcast bytes alone is the requested account. */
  method SignLegacyTx(k: Hasher, recover: Recoverer, backend: Backend, request: LegacyRequest)
    returns (result: SignResult)
    ensures result.InvalidArgument? <==> request.from == Zeros(20) || request.chainId < 1
    ensures result.Signed? && |result.bytes| <= MAX_INT ==>
              exists p, g: Signature65 ::
                && LegacyPreimageReads(p, request) && LegacyBroadcastReads(result.bytes, request, g)
                && backend(k(p)).Some? && recover(g, k(p)) == Signer(request.from)
    ensures result.InvalidArgument? ||
            result == SignedWith(k, recover, backend, request.from, LegacyPreimage(k, LegacyOf(request)),
                                 (g: Signature65) =>
                                   LegacyBroadcast(k, LegacyOf(request), LegacySignature(g, request.chainId)))
    ensures result.Signed? && |result.bytes| <= MAX_INT
            ==> LegacySender(k, recover, result.bytes) == Signer(request.from)
    ensures result.EncodingFailed? <==>
              && request.from != Zeros(20) && request.chainId >= 1
              && ((request.gasPrice.Some? && request.gasPrice.value < 0)
                  || (request.value.Some? && request.value.value < 0))
  {
    hide LegacyPreimage, LegacyBroadcast, LegacySender, FirstV, Assembly, ValueOf;
    hide LegacyPreimageReads, LegacyBroadcastReads;
    if Refused(request.from, request.chainId) { return InvalidArgument; }
    var transaction := LegacyOf(request);
    LegacyPreimageExact(k, transaction);
    var preimage := LegacyPreimage(k, transaction);
    if !preimage.Done? { return EncodingFailed(preimage); }
    var payload := k(preimage.bytes);
    var raw := backend(payload);
    if raw.None? { return BackendFailed; }
    var assembled := AssembleRecoverableSignature(k, recover, raw.value, request.from, payload);
    if !assembled.Signature65? { return BadSignature(assembled); }
    var g := assembled.bytes;
    var broadcast := LegacyBroadcast(k, transaction, LegacySignature(g, request.chainId));
    LegacyBroadcastExact(k, transaction, LegacySignature(g, request.chainId));
    if !broadcast.Done? { return EncodingFailed(broadcast); }
    LegacyContents(k, request, g);
    LegacyPreimageFits(k, transaction, g);
    AssemblyRecovers(recover, raw.value, request.from, payload);
    if |broadcast.bytes| <= MAX_INT {
      LegacySenderIs(k, recover, transaction, g);
    }
    return Signed(broadcast.bytes);
  }

  /** `signEIP1559Tx` behind the guards of `SignTx`. */
  method SignEIP1559Tx(k: Hasher, recover: Recoverer, backend: Backend, request: Type2Request)
    returns (result: SignResult)
    ensures result.InvalidArgument? <==> request.from == Zeros(20) || request.chainId < 1
    ensures result.Signed? && |result.bytes| <= MAX_INT ==>
              exists p, g: Signature65 ::
                && Type2PreimageReads(p, request) && Type2BroadcastReads(result.bytes, request, g)
                && backend(k(p)).Some? && recover(g, k(p)) == Signer(request.from)
    ensures result.InvalidArgument? ||
            result == SignedWith(k, recover, backend, request.from, Type2Preimage(k, Type2Of(request)),
                                 (g: Signature65) => Type2Broadcast(k, Type2Of(request), Type2Signature(g)))
    ensures result.Signed? && |result.bytes| <= MAX_INT
            ==> Type2Sender(k, recover, result.bytes) == Signer(request.from)
    ensures result.EncodingFailed? <==>
              && request.from != Zeros(20) && request.chainId >= 1
              && (request.maxPriorityFeePerGas < 0 || request.maxFeePerGas < 0
                  || (request.value.Some? && request.value.value < 0))
  {
    hide Type2Preimage, Type2Broadcast, Type2Sender, FirstV, Assembly, ValueOf;
    hide Type2PreimageReads, Type2BroadcastReads;
    if Refused(request.from, request.chainId) { return InvalidArgument; }
    var transaction := Type2Of(request);
    Type2PreimageExact(k, transaction);
    var preimage := Type2Preimage(k, transaction);
    if !preimage.Done? { return EncodingFailed(preimage); }
    var payload := k(preimage.bytes);
    var raw := backend(payload);
    if raw.None? { return BackendFailed; }
    var assembled := AssembleRecoverableSignature(k, recover, raw.value, request.from, payload);
    if !assembled.Signature65? { return BadSignature(assembled); }
    var g := assembled.bytes;
    var broadcast := Type2Broadcast(k, transaction, Type2Signature(g));
    Type2BroadcastExact(k, transaction, Type2Signature(g));
    if !broadcast.Done? { return EncodingFailed(broadcast); }
    Type2Contents(k, request, g);
    Type2PreimageFits(k, transaction, g);
    AssemblyRecovers(recover, raw.value, request.from, payload);
    if |broadcast.bytes| <= MAX_INT {
      Type2SenderIs(k, recover, transaction, g);
    }
    return Signed(broadcast.bytes);
  }

  // ---------------------------------------------------------------- typed data

  datatype TypedResult =
    | TypedSigned(signedData: Hex.Text, typedHash: Hex.Text)
    | TypedInvalid
    | HashingFailed(failure: TypedData.Failure)
    | TypedBackendFailed
    | TypedBadSignature(assembled: Assembled)

  /** Reading a typed-data signature: R || S || V, each byte as it stands. */
  function TypedSigner(recover: Recoverer, signedData: Bytes, digest: Word): Recovery {
    match Hex.HexBytesFromString(signedData)
    case Some(b) => if |b| == 65 then recover([b[64]] + b[..64], digest) else Unrecoverable
    case None => Unrecoverable
  }

  lemma TypedSignerIs(recover: Recoverer, g: Signature65, digest: Word)
    ensures TypedSigner(recover, ToHexForm(TypedDataSignature(g)), digest) == recover(g, digest)
  {
    hide ToHexForm, ValueOf, BytesOf, PadLeft, Hex.HexBytesFromString;
    FormsAgree(g, 1);
    var b := g[1..] + [g[0]];
    assert [b[64]] + b[..64] == g;
  }

  /** `SignTypedData`: a signature is given only for the digest of the declared domain and
      message fields, and whoever reads it recovers the requested account. */
  method SignTypedData(k: Hasher, recover: Recoverer, backend: Backend, request: TypedRequest)
    returns (result: TypedResult)
    requires TypedRefused(request) || TypedData.Terminates(request.typed)
    ensures result.TypedInvalid? <==>
              || request.address == Zeros(20)
              || (request.typed.domain.chainId.Some? && request.typed.domain.chainId.value != request.chainId)
              || request.typed.primaryType == []
              || !(request.typed.primaryType in request.typed.types || request.typed.primaryType in request.nullTypes)
              || !(TypedData.EIP712_DOMAIN in request.typed.types || TypedData.EIP712_DOMAIN in request.nullTypes)
    ensures result.HashingFailed? ==>
              if TypedData.DomainCanon(request.typed).Err?
              then result.failure == TypedData.DomainCanon(request.typed).failure
              else TypedData.MessageCanon(request.typed) == TypedData.Err(result.failure)
    ensures result.TypedSigned? ==>
              && TypedData.DomainCanon(request.typed).Ok? && TypedData.MessageCanon(request.typed).Ok?
              && var digest := TypedData.SignedDigest(k, request.typed);
              && backend(digest).Some?
              && TypedSigner(recover, result.signedData, digest) == Signer(request.address)
              && var message := TypedData.MessageCanon(request.typed).value;
              result.typedHash == Hex.EncodeHex(TypedData.Digest(k, request.typed.types, message))
    ensures result.TypedBackendFailed? || result.TypedBadSignature? ==>
              && TypedData.DomainCanon(request.typed).Ok? && TypedData.MessageCanon(request.typed).Ok?
              && var digest := TypedData.SignedDigest(k, request.typed);
              var raw := backend(digest);
              && (result.TypedBackendFailed? <==> raw.None?)
              && (result.TypedBadSignature? ==>
                    !result.assembled.Signature65?
                    && result.assembled == Assembly(recover, raw.value, request.address, digest))
  {
    hide Assembly, TypedSigner, ToHexForm, Hex.EncodeHex, ValueOf, BytesOf, Pow256, LowSForm, FirstV;
    hide TypedData.DomainCanon, TypedData.MessageCanon, TypedData.Digest, TypedData.PrefixedData;
    if TypedRefused(request) { return TypedInvalid; }
    var hashed := TypedData.HashTypedData(k, request.typed);
    if hashed.Err? { return HashingFailed(hashed.failure); }
    var typedHash, digest := hashed.value.0, hashed.value.1;
    var raw := backend(digest);
    if raw.None? { return TypedBackendFailed; }
    var assembled := AssembleRecoverableSignature(k, recover, raw.value, request.address, digest);
    if !assembled.Signature65? { return TypedBadSignature(assembled); }
    var g := assembled.bytes;
    AssemblyRecovers(recover, raw.value, request.address, digest);
    FormsAgree(g, 1);
    var text := ToHex(TypedDataSignature(g));
    TypedSignerIs(recover, g, digest);
    return TypedSigned(text, Hex.EncodeHex(typedHash));
  }
}
