/** Legacy and EIP-1559 transactions: the signing preimage and the signed broadcast form
    of each, built from the same fields through the same text conversions. */
module Transactions {
  import opened Wrappers
  import opened Bytes
  import opened Rlp
  import opened Hex
  import opened Addresses
  import opened Signatures

  /** The sender is kept beside a transaction by the signer, but it is never encoded. */
  datatype LegacyTx = LegacyTx(
    nonce: uint64, gasPrice: int, gas: uint64, to: Option<Address>,
    value: Option<int>, data: Bytes, chainId: int)

  datatype AccessListEntry = AccessListEntry(address: Address, storageKeys: seq<Word>)

  datatype Type2Tx = Type2Tx(
    chainId: int, nonce: uint64, maxPriorityFeePerGas: int, maxFeePerGas: int, gas: uint64,
    to: Option<Address>, value: Option<int>, data: Bytes, accessList: seq<AccessListEntry>)

  datatype Outcome = Done(bytes: Bytes) | MalformedField | RlpFailed(error: Error)

  const TYPE2_PREFIX: byte := 2

  // ---------------------------------------------------------------- common fields

  datatype CommonFields = CommonFields(
    nonce: Bytes, gas: Bytes, to: Bytes, value: Option<int>, data: Bytes)

  function NonZero(i: int): Option<int> {
    if i == 0 then None else Some(i)
  }

  /** An absent amount and a zero amount are the same amount. */
  function Amount(value: Option<int>): int {
    if value.None? then 0 else value.value
  }

  function ToBytes(to: Option<Address>): Bytes {
    if to.None? then [] else to.value
  }

  /** The fields as raw bytes, every one of them by way of its text form; None if any of
      the text conversions fails. */
  function ConvertFields(k: Hasher, nonce: uint64, gas: uint64, to: Option<Address>,
                         value: Option<int>, data: Bytes): Option<CommonFields>
  {
    var nonceHex := HexBytesFromString(EvenLength(HexNumber(nonce)));
    var gasHex := HexBytesFromString(EvenLength(HexNumber(gas)));
    var toHex := if to.None? then Some([]) else HexBytesFromString(Checksummed(k, to.value));
    var dataHex := if |data| > 0 then HexBytesFromString(PREFIX + EncodeHex(data)) else Some([]);
    if nonceHex.None? || gasHex.None? || toHex.None? || dataHex.None? then None
    else Some(CommonFields(if nonce == 0 then [] else nonceHex.value, gasHex.value, toHex.value,
                           NonZero(Amount(value)), dataHex.value))
  }

  function ExactFields(nonce: uint64, gas: uint64, to: Option<Address>, value: Option<int>, data: Bytes): CommonFields {
    CommonFields(BytesOf(nonce), NumberBytes(gas), ToBytes(to), NonZero(Amount(value)), data)
  }

  /** No text conversion ever fails, and each gives back the field it was made from. */
  lemma ConvertFieldsExact(k: Hasher, nonce: uint64, gas: uint64, to: Option<Address>,
                           value: Option<int>, data: Bytes)
    ensures ConvertFields(k, nonce, gas, to, value, data)
         == Some(ExactFields(nonce, gas, to, value, data))
  {
    NumberBytesOfText(nonce);
    NumberBytesOfText(gas);
    if to.Some? { ChecksumRoundTrip(k, to.value); }
    DataBytesOfText(data);
  }

  /** `prepareCommonFields`, its named results set step by step. */
  method PrepareCommonFields(k: Hasher, nonce: uint64, gas: uint64, to: Option<Address>,
                             value: Option<int>, data: Bytes)
    returns (ok: bool, nonceBytes: Bytes, gasBytes: Bytes, toBytes: Bytes, valueBigInt: Option<int>, dataBytes: Bytes)
    ensures ok
    ensures CommonFields(nonceBytes, gasBytes, toBytes, valueBigInt, dataBytes)
         == ExactFields(nonce, gas, to, value, data)
  {
    ok, nonceBytes, gasBytes, toBytes, valueBigInt, dataBytes := false, [], [], [], None, [];
    var nonceHex := HexBytesFromString(EvenLength(HexNumber(nonce)));
    NumberBytesOfText(nonce);
    if nonceHex.None? { return; }
    if nonce != 0 { nonceBytes := nonceHex.value; }
    var gasHex := HexBytesFromString(EvenLength(HexNumber(gas)));
    NumberBytesOfText(gas);
    if gasHex.None? { return; }
    gasBytes := gasHex.value;
    if to.Some? {
      var toHex := HexBytesFromString(Checksummed(k, to.value));
      ChecksumRoundTrip(k, to.value);
      if toHex.None? { return; }
      toBytes := toHex.value;
    }
    if value.Some? && value.value != 0 { valueBigInt := value; }
    if |data| > 0 {
      var dataHex := HexBytesFromString(PREFIX + EncodeHex(data));
      DataBytesOfText(data);
      if dataHex.None? { return; }
      dataBytes := dataHex.value;
    }
    ok := true;
  }

  // ---------------------------------------------------------------- access list

  function EntryValue(e: AccessListEntry): Value {
    Vals([Raw(e.address), Vals(KeyValues(e.storageKeys))])
  }

  function KeyValues(keys: seq<Word>): seq<Value> {
    seq(|keys|, i requires 0 <= i < |keys| => Raw(keys[i]))
  }

  function AccessListValues(list: seq<AccessListEntry>): seq<Value> {
    seq(|list|, i requires 0 <= i < |list| => EntryValue(list[i]))
  }

  /** `accessListToRLPInterface`: nested loops fill nested slices; an address text that did
      not decode would empty the whole list. */
  method AccessListToRlp(k: Hasher, accessList: seq<AccessListEntry>) returns (result: seq<Value>)
    ensures result == AccessListValues(accessList)
  {
    hide Checksummed, HexBytesFromString;
    result := [];
    ghost var values := AccessListValues(accessList);
    for i := 0 to |accessList|
      invariant result == values[..i]
    {
      var entry := accessList[i];
      var addrBytes := HexBytesFromString(Checksummed(k, entry.address));
      ChecksumRoundTrip(k, entry.address);
      if addrBytes.None? { return []; }
      var storageKeys: seq<Value> := [];
      ghost var keys := KeyValues(entry.storageKeys);
      for j := 0 to |entry.storageKeys|
        invariant storageKeys == keys[..j]
      {
        storageKeys := storageKeys + [Raw(entry.storageKeys[j])];
      }
      assert storageKeys == keys;
      result := result + [Vals([Raw(addrBytes.value), Vals(storageKeys)])];
      assert values[i] == EntryValue(entry);
    }
  }

  // ---------------------------------------------------------------- encodings

  function FromRlp(prefix: Bytes, r: Result<Bytes>): Outcome {
    match r
    case Ok(b) => Done(prefix + b)
    case Err(e) => RlpFailed(e)
  }

  function LegacyFieldValues(tx: LegacyTx, c: CommonFields): seq<Value> {
    [RawPtr(Some(c.nonce)), Big(NonZero(tx.gasPrice)), Raw(c.gas), Raw(c.to), Big(c.value), Raw(c.data)]
  }

  /** What `EthereumTransaction.Hash` hashes. */
  function LegacyPreimage(k: Hasher, tx: LegacyTx): Outcome {
    var c := ConvertFields(k, tx.nonce, tx.gas, tx.to, tx.value, tx.data);
    var chainId := HexBytesFromString(EvenLength(HexInt(tx.chainId)));
    if c.None? || chainId.None? then MalformedField
    else FromRlp([], Encode(Vals(LegacyFieldValues(tx, c.value) + [Raw(chainId.value), Uint(0), Uint(0)])))
  }

  /** `EthereumTransaction.RLPEncode` of a signed transaction. */
  function LegacyBroadcast(k: Hasher, tx: LegacyTx, sig: EthereumSignature): Outcome {
    var c := ConvertFields(k, tx.nonce, tx.gas, tx.to, tx.value, tx.data);
    if c.None? then MalformedField
    else FromRlp([], Encode(Vals(LegacyFieldValues(tx, c.value)
                                 + [Big(Some(sig.v)), Big(Some(sig.r)), Big(Some(sig.s))])))
  }

  function Type2FieldValues(tx: Type2Tx, c: CommonFields, chainId: Bytes): seq<Value> {
    [Raw(chainId), RawPtr(Some(c.nonce)), Big(NonZero(tx.maxPriorityFeePerGas)),
     Big(NonZero(tx.maxFeePerGas)), Raw(c.gas), Raw(c.to), Big(c.value), Raw(c.data),
     Vals(AccessListValues(tx.accessList))]
  }

  /** What `EIP1559Transaction.Hash` hashes. */
  function Type2Preimage(k: Hasher, tx: Type2Tx): Outcome {
    var c := ConvertFields(k, tx.nonce, tx.gas, tx.to, tx.value, tx.data);
    var chainId := HexBytesFromString(EvenLength(HexInt(tx.chainId)));
    if c.None? || chainId.None? then MalformedField
    else FromRlp([TYPE2_PREFIX], Encode(Vals(Type2FieldValues(tx, c.value, chainId.value))))
  }

  /** `EIP1559Transaction.RLPEncode` of a signed transaction. */
  function Type2Broadcast(k: Hasher, tx: Type2Tx, sig: YParitySignature): Outcome {
    var c := ConvertFields(k, tx.nonce, tx.gas, tx.to, tx.value, tx.data);
    var chainId := HexBytesFromString(EvenLength(HexInt(tx.chainId)));
    if c.None? || chainId.None? then MalformedField
    else FromRlp([TYPE2_PREFIX], Encode(Vals(Type2FieldValues(tx, c.value, chainId.value)
                                             + [Big(Some(sig.yParity)), Big(Some(sig.r)), Big(Some(sig.s))])))
  }

  // ---------------------------------------------------------------- closed forms

  function LegacyCommon(tx: LegacyTx): CommonFields {
    ExactFields(tx.nonce, tx.gas, tx.to, tx.value, tx.data)
  }

  function Type2Common(tx: Type2Tx): CommonFields {
    ExactFields(tx.nonce, tx.gas, tx.to, tx.value, tx.data)
  }

  predicate LegacyEncodable(tx: LegacyTx) {
    tx.gasPrice >= 0 && Amount(tx.value) >= 0
  }

  /** The six items both legacy encodings start with. */
  function LegacyItems(tx: LegacyTx): seq<Item>
    requires LegacyEncodable(tx)
  {
    [Str(BytesOf(tx.nonce)), Str(BytesOf(tx.gasPrice)), Str(NumberBytes(tx.gas)),
     Str(ToBytes(tx.to)), Str(BytesOf(Amount(tx.value))), Str(tx.data)]
  }

  predicate Type2Encodable(tx: Type2Tx) {
    tx.maxPriorityFeePerGas >= 0 && tx.maxFeePerGas >= 0 && Amount(tx.value) >= 0
  }

  function EntryItem(e: AccessListEntry): Item {
    List([Str(e.address), List(KeyItems(e.storageKeys))])
  }

  function KeyItems(keys: seq<Word>): seq<Item> {
    seq(|keys|, i requires 0 <= i < |keys| => Str(keys[i]))
  }

  function AccessListItems(list: seq<AccessListEntry>): seq<Item> {
    seq(|list|, i requires 0 <= i < |list| => EntryItem(list[i]))
  }

  /** The nine items both type-2 encodings start with. */
  function Type2Items(tx: Type2Tx): seq<Item>
    requires Type2Encodable(tx) && tx.chainId >= 0
  {
    [Str(NumberBytes(tx.chainId)), Str(BytesOf(tx.nonce)), Str(BytesOf(tx.maxPriorityFeePerGas)),
     Str(BytesOf(tx.maxFeePerGas)), Str(NumberBytes(tx.gas)), Str(ToBytes(tx.to)),
     Str(BytesOf(Amount(tx.value))), Str(tx.data), List(AccessListItems(tx.accessList))]
  }

  /** Elementwise normal forms make the normal form of the list. */
  lemma {:induction false} NormalElements(vs: seq<Value>, ts: seq<Item>)
    requires |vs| == |ts| && forall i :: 0 <= i < |vs| ==> Normal(vs[i]) == Ok(ts[i])
    ensures NormalAll(vs) == Ok(ts)
  {
    if vs != [] {
      var n := |vs| - 1;
      NormalElements(vs[..n], ts[..n]);
      assert ts == ts[..n] + [ts[n]];
    }
  }

  /** One negative integer among encodable elements makes the whole list fail. */
  lemma {:induction false} NegativeElement(vs: seq<Value>, i: nat)
    requires i < |vs| && Normal(vs[i]) == Err(NegativeBigInt)
    requires forall j :: 0 <= j < |vs| ==> Normal(vs[j]).Ok? || Normal(vs[j]) == Err(NegativeBigInt)
    ensures NormalAll(vs) == Err(NegativeBigInt)
  {
    var n := |vs| - 1;
    if i < n {
      NegativeElement(vs[..n], i);
    } else {
      OkOrNegative(vs[..n]);
    }
  }

  lemma {:induction false} OkOrNegative(vs: seq<Value>)
    requires forall j :: 0 <= j < |vs| ==> Normal(vs[j]).Ok? || Normal(vs[j]) == Err(NegativeBigInt)
    ensures NormalAll(vs).Ok? || NormalAll(vs) == Err(NegativeBigInt)
  {
    if vs != [] {
      OkOrNegative(vs[..|vs| - 1]);
    }
  }

  /** A list of values whose elements have the given normal forms encodes as their item list. */
  lemma EncodeElements(vs: seq<Value>, ts: seq<Item>)
    requires |vs| == |ts| && forall i :: 0 <= i < |vs| ==> Normal(vs[i]) == Ok(ts[i])
    ensures Encode(Vals(vs)) == Ok(EncodeItem(List(ts)))
  {
    hide NormalAll, EncodeItem;
    NormalElements(vs, ts);
    EncodeIsNormal(Vals(vs));
  }

  lemma EncodeNegative(vs: seq<Value>, i: nat)
    requires i < |vs| && Normal(vs[i]) == Err(NegativeBigInt)
    requires forall j :: 0 <= j < |vs| ==> Normal(vs[j]).Ok? || Normal(vs[j]) == Err(NegativeBigInt)
    ensures Encode(Vals(vs)) == Err(NegativeBigInt)
  {
    hide NormalAll, EncodeItem;
    NegativeElement(vs, i);
    EncodeIsNormal(Vals(vs));
  }

  lemma AccessListNormal(list: seq<AccessListEntry>)
    ensures Normal(Vals(AccessListValues(list))) == Ok(List(AccessListItems(list)))
  {
    hide NormalAll;
    forall i | 0 <= i < |list|
      ensures Normal(AccessListValues(list)[i]) == Ok(AccessListItems(list)[i])
    {
      var e := list[i];
      NormalElements(KeyValues(e.storageKeys), KeyItems(e.storageKeys));
      NormalElements([Raw(e.address), Vals(KeyValues(e.storageKeys))],
                     [Str(e.address), List(KeyItems(e.storageKeys))]);
    }
    NormalElements(AccessListValues(list), AccessListItems(list));
  }

  /** A chain id's text decodes exactly when it is not negative. */
  lemma ChainIdText(chainId: int)
    ensures HexBytesFromString(EvenLength(HexInt(chainId)))
         == if chainId < 0 then None else Some(NumberBytes(chainId))
  {
    if chainId < 0 { NegativeNumberRejected(chainId); } else { NumberBytesOfText(chainId); }
  }

  /** The legacy preimage is rlp(nonce, gasPrice, gas, to, value, data, chainId, 0, 0), whatever
      the hash function behind the address text, and fails exactly for negative integers. */
  lemma LegacyPreimageExact(k: Hasher, tx: LegacyTx)
    ensures LegacyPreimage(k, tx)
         == if tx.chainId < 0 then MalformedField
            else if !LegacyEncodable(tx) then RlpFailed(NegativeBigInt)
            else Done(EncodeItem(List(LegacyItems(tx) + [Str(NumberBytes(tx.chainId)), Str([]), Str([])])))
  {
    hide Encode, EncodeItem, NumberBytes, HexBytesFromString, EvenLength, HexInt, ConvertFields;
    ConvertFieldsExact(k, tx.nonce, tx.gas, tx.to, tx.value, tx.data);
    ChainIdText(tx.chainId);
    if tx.chainId >= 0 {
      var chain := NumberBytes(tx.chainId);
      assert BytesOf(0) == [];
      LegacyTail(tx, [Raw(chain), Uint(0), Uint(0)], [Str(chain), Str([]), Str([])]);
    }
  }

  /** The broadcast form replaces the last three items by the signature. */
  lemma LegacyBroadcastExact(k: Hasher, tx: LegacyTx, sig: EthereumSignature)
    requires LegacyEncodable(tx) && sig.v >= 0
    ensures LegacyBroadcast(k, tx, sig)
         == Done(EncodeItem(List(LegacyItems(tx) + [Str(BytesOf(sig.v)), Str(BytesOf(sig.r)), Str(BytesOf(sig.s))])))
  {
    hide Encode, EncodeItem, BytesOf, NumberBytes, ConvertFields;
    ConvertFieldsExact(k, tx.nonce, tx.gas, tx.to, tx.value, tx.data);
    LegacyTail(tx, [Big(Some(sig.v)), Big(Some(sig.r)), Big(Some(sig.s))],
               [Str(BytesOf(sig.v)), Str(BytesOf(sig.r)), Str(BytesOf(sig.s))]);
  }

  lemma LegacyTail(tx: LegacyTx, tail: seq<Value>, items: seq<Item>)
    requires |tail| == |items| && forall i :: 0 <= i < |tail| ==> Normal(tail[i]) == Ok(items[i])
    ensures FromRlp([], Encode(Vals(LegacyFieldValues(tx, LegacyCommon(tx)) + tail)))
         == if LegacyEncodable(tx) then Done(EncodeItem(List(LegacyItems(tx) + items)))
            else RlpFailed(NegativeBigInt)
  {
    hide Encode, EncodeItem, NumberBytes;
    var vs := LegacyFieldValues(tx, LegacyCommon(tx)) + tail;
    if LegacyEncodable(tx) {
      EncodeElements(vs, LegacyItems(tx) + items);
      assert [] + EncodeItem(List(LegacyItems(tx) + items)) == EncodeItem(List(LegacyItems(tx) + items));
    } else {
      EncodeNegative(vs, if tx.gasPrice < 0 then 1 else 4);
    }
  }

  /** The type-2 preimage is 0x02 || rlp of the nine items, and fails exactly for negative integers. */
  lemma Type2PreimageExact(k: Hasher, tx: Type2Tx)
    ensures Type2Preimage(k, tx)
         == if tx.chainId < 0 then MalformedField
            else if !Type2Encodable(tx) then RlpFailed(NegativeBigInt)
            else Done([TYPE2_PREFIX] + EncodeItem(List(Type2Items(tx))))
  {
    hide Encode, EncodeItem, BytesOf, NumberBytes, HexBytesFromString, EvenLength, HexInt, ConvertFields;
    ConvertFieldsExact(k, tx.nonce, tx.gas, tx.to, tx.value, tx.data);
    ChainIdText(tx.chainId);
    if tx.chainId >= 0 {
      Type2Tail(tx, [], []);
      var vs := Type2FieldValues(tx, Type2Common(tx), NumberBytes(tx.chainId));
      assert vs + [] == vs;
      if Type2Encodable(tx) { assert Type2Items(tx) + [] == Type2Items(tx); }
    }
  }

  lemma Type2BroadcastExact(k: Hasher, tx: Type2Tx, sig: YParitySignature)
    requires Type2Encodable(tx) && tx.chainId >= 0 && sig.yParity >= 0
    ensures Type2Broadcast(k, tx, sig)
         == Done([TYPE2_PREFIX] + EncodeItem(List(Type2Items(tx)
                   + [Str(BytesOf(sig.yParity)), Str(BytesOf(sig.r)), Str(BytesOf(sig.s))])))
  {
    hide Encode, EncodeItem, BytesOf, NumberBytes, HexBytesFromString, EvenLength, HexInt, ConvertFields;
    ConvertFieldsExact(k, tx.nonce, tx.gas, tx.to, tx.value, tx.data);
    ChainIdText(tx.chainId);
    Type2Tail(tx, [Big(Some(sig.yParity)), Big(Some(sig.r)), Big(Some(sig.s))],
              [Str(BytesOf(sig.yParity)), Str(BytesOf(sig.r)), Str(BytesOf(sig.s))]);
  }

  lemma Type2Tail(tx: Type2Tx, tail: seq<Value>, items: seq<Item>)
    requires tx.chainId >= 0
    requires |tail| == |items| && forall i :: 0 <= i < |tail| ==> Normal(tail[i]) == Ok(items[i])
    ensures FromRlp([TYPE2_PREFIX], Encode(Vals(Type2FieldValues(tx, Type2Common(tx), NumberBytes(tx.chainId)) + tail)))
         == if Type2Encodable(tx) then Done([TYPE2_PREFIX] + EncodeItem(List(Type2Items(tx) + items)))
            else RlpFailed(NegativeBigInt)
  {
    hide Encode, EncodeItem, NumberBytes, AccessListValues, AccessListItems, NormalAll;
    var vs := Type2FieldValues(tx, Type2Common(tx), NumberBytes(tx.chainId)) + tail;
    AccessListNormal(tx.accessList);
    if Type2Encodable(tx) {
      EncodeElements(vs, Type2Items(tx) + items);
    } else {
      EncodeNegative(vs, if tx.maxPriorityFeePerGas < 0 then 2 else if tx.maxFeePerGas < 0 then 3 else 6);
    }
  }
}
