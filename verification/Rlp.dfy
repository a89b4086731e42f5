/** Recursive Length Prefix: the encoder over Go values, the prefix-driven decoder,
    and the item tree both are measured against. */
module Rlp {
  import opened Wrappers
  import opened Bytes

  const MAX_INT := 0x7fff_ffff_ffff_ffff
  const TWO64 := 0x1_0000_0000_0000_0000

  type uint64 = x: nat | x < TWO64

  /** An RLP item in normal form, as in Appendix B of the Ethereum Yellow Paper. */
  datatype Item = Str(bytes: Bytes) | List(items: seq<Item>)

  /** The dynamic types the encoder switches on; a pointer is an `Option`. */
  datatype Value =
    | Text(text: Bytes)
    | TextPtr(textPtr: Option<Bytes>)
    | Texts(texts: seq<Bytes>)
    | TextsPtr(textsPtr: Option<seq<Bytes>>)
    | Vals(vals: seq<Value>)
    | ValsPtr(pointee: seq<Value>)
    | ValsNilPtr
    | Raw(raw: Bytes)
    | RawPtr(rawPtr: Option<Bytes>)
    | Uint(uint: uint64)
    | Big(big: Option<int>)
    | Unhandled

  datatype Error =
    | UnhandledInputType
    | NegativeBigInt
    | NullInput
    | LengthFieldTooShort
    | SliceOutOfRange // the runtime panic of a slice expression

  datatype Result<+T> = Ok(value: T) | Err(error: Error)

  // ---------------------------------------------------------------- reference encoder

  function EncodeLength(length: nat, offset: nat): (r: Bytes)
    ensures |r| >= 1
  {
    if length < 56 then [(length + offset) % 256]
    else [(|BytesOf(length)| + offset + 55) % 256] + BytesOf(length)
  }

  function EncodeBytes(b: Bytes): (r: Bytes)
    ensures |r| >= 1
  {
    if |b| == 1 && b[0] < 0x80 then b else EncodeLength(|b|, 0x80) + b
  }

  function EncodeItem(t: Item): (r: Bytes)
    ensures |r| >= 1
  {
    match t
    case Str(b) => EncodeBytes(b)
    case List(ts) => EncodeLength(|EncodeItems(ts)|, 0xc0) + EncodeItems(ts)
  }

  function EncodeItems(ts: seq<Item>): Bytes {
    if ts == [] then [] else EncodeItem(ts[0]) + EncodeItems(ts[1..])
  }

  /** Go lengths are ints, so every encoding that exists is at most MAX_INT long. */
  predicate Fits(t: Item) {
    |EncodeItem(t)| <= MAX_INT
  }

  // ---------------------------------------------------------------- encoder over Go values

  function EncodeBigInt(v: Option<int>): Result<Bytes> {
    match v
    case None => Ok([0x80])
    case Some(n) =>
      if n < 0 then Err(NegativeBigInt)
      else if n < TWO64 then Ok(EncodeBytes(BytesOf(n)))
      else Ok(EncodeLength(|BytesOf(n)|, 0x80) + BytesOf(n))
  }

  function EncodeTexts(ss: seq<Bytes>): Bytes {
    if ss == [] then [] else EncodeTexts(ss[..|ss| - 1]) + EncodeBytes(ss[|ss| - 1])
  }

  function Encode(v: Value): Result<Bytes> {
    match v
    case Text(s) => Ok(EncodeBytes(s))
    case TextPtr(p) => Ok(EncodeBytes(if p.None? then [] else p.value))
    case Texts(ss) => Ok(EncodeLength(|EncodeTexts(ss)|, 0xc0) + EncodeTexts(ss))
    case TextsPtr(p) =>
      if p.None? then Ok([0xc0])
      else Ok(EncodeLength(|EncodeTexts(p.value)|, 0xc0) + EncodeTexts(p.value))
    case Vals(vs) => WithListHeader(EncodeAll(vs))
    case ValsPtr(vs) => WithListHeader(EncodeAll(vs))
    case ValsNilPtr => Ok([0xc0])
    case Raw(b) => Ok(EncodeBytes(b))
    case RawPtr(p) => if p.None? then Ok([0xc0]) else Ok(EncodeBytes(p.value))
    case Uint(n) => Ok(EncodeBytes(BytesOf(n)))
    case Big(n) => EncodeBigInt(n)
    case Unhandled => Err(UnhandledInputType)
  }

  function WithListHeader(payload: Result<Bytes>): Result<Bytes> {
    match payload
    case Ok(p) => Ok(EncodeLength(|p|, 0xc0) + p)
    case Err(e) => Err(e)
  }

  /** Payload of a list: elements left to right, up to the first failure. */
  function EncodeAll(vs: seq<Value>): Result<Bytes> {
    if vs == [] then Ok([])
    else match EncodeAll(vs[..|vs| - 1])
         case Err(e) => Err(e)
         case Ok(done) =>
           match Encode(vs[|vs| - 1])
           case Err(e) => Err(e)
           case Ok(last) => Ok(done + last)
  }

  /** The list loop of the encoder, with its growing slice. */
  method EncodeList(list: seq<Value>) returns (r: Result<Bytes>)
    ensures r == Encode(Vals(list))
    decreases list
  {
    var encodedItems: Bytes := [];
    for i := 0 to |list|
      invariant EncodeAll(list[..i]) == Ok(encodedItems)
    {
      assert list[..i + 1][..i] == list[..i];
      var encoded := EncodeValue(list[i]);
      if encoded.Err? {
        EncodeAllStops(list, i + 1);
        return encoded;
      }
      encodedItems := encodedItems + encoded.value;
    }
    assert list[..|list|] == list;
    r := Ok(EncodeLength(|encodedItems|, 0xc0) + encodedItems);
  }

  /** The string-array loop of the encoder. */
  method EncodeStringArray(item: seq<Bytes>) returns (r: Bytes)
    ensures Encode(Texts(item)) == Ok(r)
  {
    var encodedBytes: Bytes := [];
    for i := 0 to |item|
      invariant EncodeTexts(item[..i]) == encodedBytes
    {
      assert item[..i + 1][..i] == item[..i];
      encodedBytes := encodedBytes + EncodeBytes(item[i]);
    }
    assert item[..|item|] == item;
    r := EncodeLength(|encodedBytes|, 0xc0) + encodedBytes;
  }

  method EncodeValue(v: Value) returns (r: Result<Bytes>)
    ensures r == Encode(v)
    decreases v
  {
    match v
    case Vals(vs) => r := EncodeList(vs);
    case ValsPtr(vs) => r := EncodeList(vs);
    case Texts(ss) =>
      var b := EncodeStringArray(ss);
      r := Ok(b);
    case TextsPtr(p) =>
      if p.None? { return Ok([0xc0]); }
      var b := EncodeStringArray(p.value);
      r := Ok(b);
    case _ => r := Encode(v);
  }

  lemma {:induction false} EncodeAllStops(vs: seq<Value>, k: nat)
    requires k <= |vs| && EncodeAll(vs[..k]).Err?
    ensures EncodeAll(vs) == EncodeAll(vs[..k])
  {
    if k == |vs| {
      assert vs[..k] == vs;
    } else {
      var init := vs[..|vs| - 1];
      assert init[..k] == vs[..k];
      EncodeAllStops(init, k);
    }
  }

  // ---------------------------------------------------------------- normal form of a Go value

  /** The RLP item a Go value stands for. A nil `*[]byte` stands for the empty list. */
  function Normal(v: Value): Result<Item> {
    match v
    case Text(s) => Ok(Str(s))
    case TextPtr(p) => Ok(Str(if p.None? then [] else p.value))
    case Texts(ss) => Ok(List(seq(|ss|, i requires 0 <= i < |ss| => Str(ss[i]))))
    case TextsPtr(p) =>
      if p.None? then Ok(List([]))
      else Ok(List(seq(|p.value|, i requires 0 <= i < |p.value| => Str(p.value[i]))))
    case Vals(vs) => AsList(NormalAll(vs))
    case ValsPtr(vs) => AsList(NormalAll(vs))
    case ValsNilPtr => Ok(List([]))
    case Raw(b) => Ok(Str(b))
    case RawPtr(p) => if p.None? then Ok(List([])) else Ok(Str(p.value))
    case Uint(n) => Ok(Str(BytesOf(n)))
    case Big(n) =>
      if n.None? then Ok(Str([]))
      else if n.value < 0 then Err(NegativeBigInt)
      else Ok(Str(BytesOf(n.value)))
    case Unhandled => Err(UnhandledInputType)
  }

  function AsList(items: Result<seq<Item>>): Result<Item> {
    match items
    case Ok(ts) => Ok(List(ts))
    case Err(e) => Err(e)
  }

  function NormalAll(vs: seq<Value>): Result<seq<Item>> {
    if vs == [] then Ok([])
    else match NormalAll(vs[..|vs| - 1])
         case Err(e) => Err(e)
         case Ok(done) =>
           match Normal(vs[|vs| - 1])
           case Err(e) => Err(e)
           case Ok(last) => Ok(done + [last])
  }

  /** The reference encoding of a normal form, failures passed on. */
  function EncodedNormal(r: Result<Item>): Result<Bytes> {
    match r
    case Ok(t) => Ok(EncodeItem(t))
    case Err(e) => Err(e)
  }

  function EncodedNormals(r: Result<seq<Item>>): Result<Bytes> {
    match r
    case Ok(ts) => Ok(EncodeItems(ts))
    case Err(e) => Err(e)
  }

  lemma {:induction false} EncodeItemsAppend(ts: seq<Item>, us: seq<Item>)
    ensures EncodeItems(ts + us) == EncodeItems(ts) + EncodeItems(us)
  {
    if ts == [] {
      assert ts + us == us;
    } else {
      assert (ts + us)[1..] == ts[1..] + us;
      EncodeItemsAppend(ts[1..], us);
    }
  }

  lemma {:induction false} EncodeTextsNormal(ss: seq<Bytes>)
    ensures EncodeTexts(ss) == EncodeItems(seq(|ss|, i requires 0 <= i < |ss| => Str(ss[i])))
  {
    if ss != [] {
      var n := |ss| - 1;
      var init := ss[..n];
      EncodeTextsNormal(init);
      var ts := seq(|ss|, i requires 0 <= i < |ss| => Str(ss[i]));
      assert ts == seq(n, i requires 0 <= i < n => Str(init[i])) + [Str(ss[n])];
      EncodeItemsAppend(ts[..n], [ts[n]]);
      assert ts == ts[..n] + [ts[n]];
    }
  }

  /** Every branch of the encoder, both integer branches included, is the reference
      encoding of the value's normal form, and fails exactly where there is none. */
  lemma {:induction false} EncodeIsNormal(v: Value)
    ensures Encode(v) == EncodedNormal(Normal(v))
    decreases v
  {
    assert EncodeItem(List([])) == [0xc0];
    assert EncodeBytes([]) == [0x80];
    match v
    case Vals(vs) => EncodeAllIsNormal(vs);
    case ValsPtr(vs) => EncodeAllIsNormal(vs);
    case Texts(ss) => EncodeTextsNormal(ss);
    case TextsPtr(p) => if p.Some? { EncodeTextsNormal(p.value); }
    case Big(n) =>
      if n.Some? && n.value >= TWO64 {
        BytesOfLength(n.value, 1);
        assert Pow256(1) == 256;
      }
    case _ =>
  }

  lemma {:induction false} EncodeAllIsNormal(vs: seq<Value>)
    ensures EncodeAll(vs) == EncodedNormals(NormalAll(vs))
    decreases vs
  {
    if vs != [] {
      var n := |vs| - 1;
      EncodeAllIsNormal(vs[..n]);
      EncodeIsNormal(vs[n]);
      if NormalAll(vs[..n]).Ok? && Normal(vs[n]).Ok? {
        var last := Normal(vs[n]).value;
        EncodeItemsAppend(NormalAll(vs[..n]).value, [last]);
        assert EncodeItems([last]) == EncodeItem(last);
      }
    }
  }

  // ---------------------------------------------------------------- decoder

  datatype Kind = StringKind | ListKind

  /** One item and the position behind it, or the reason there is none. */
  datatype Read = Read(item: Item, next: nat) | NotRead(readError: Error)

  datatype ReadAll = AllRead(items: seq<Item>) | Stopped(stopError: Error)

  datatype Header = Header(offset: nat, length: int, kind: Kind)

  /** Two's complement reduction to a 64-bit int. */
  function Wrap64(x: int): int {
    (x + TWO64 / 2) % TWO64 - TWO64 / 2
  }

  function ToInt(b: Bytes): int {
    if |b| == 0 then 0
    else if |b| == 1 then b[0]
    else Wrap64(b[|b| - 1] + Wrap64(ToInt(b[..|b| - 1]) * 256))
  }

  lemma WrapStep(v: int, last: int)
    ensures Wrap64(last + Wrap64(Wrap64(v) * 256)) == Wrap64(256 * v + last)
  {
    var q := (v + TWO64 / 2) / TWO64;
    assert Wrap64(v) == v - q * TWO64;
    var w := Wrap64(v) * 256;
    var p := (w + TWO64 / 2) / TWO64;
    assert Wrap64(w) == w - p * TWO64;
    WrapShift(256 * v + last, -(256 * q + p));
  }

  lemma WrapShift(x: int, k: int)
    ensures Wrap64(x + k * TWO64) == Wrap64(x)
  {
    var y := x + TWO64 / 2;
    var q := y / TWO64;
    assert y + k * TWO64 == (q + k) * TWO64 + y % TWO64;
  }

  lemma {:induction false} ToIntWraps(b: Bytes)
    ensures ToInt(b) == Wrap64(ValueOf(b))
  {
    if |b| == 1 {
      assert ValueOf(b[..0]) == 0;
    } else if |b| > 1 {
      ToIntWraps(b[..|b| - 1]);
      WrapStep(ValueOf(b[..|b| - 1]), b[|b| - 1]);
    }
  }

  function DecodeLength(input: Bytes): (r: Result<Header>)
    ensures r.Ok? ==> r.value.offset <= |input|
    ensures r.Ok? && r.value.length >= 0 ==> r.value.offset + r.value.length >= 1
    ensures r.Ok? && r.value.kind.ListKind? ==> r.value.offset >= 1
    ensures r.Ok? && r.value.offset == 0 ==> input != [] && r.value.length == 1
  {
    if input == [] then Err(NullInput)
    else
      var prefix := input[0];
      if prefix <= 0x7f then Ok(Header(0, 1, StringKind))
      else if prefix <= 0xb7 then Ok(Header(1, prefix - 0x80, StringKind))
      else if prefix <= 0xbf then
        LongHeader(input, prefix - 0xb7, StringKind)
      else if prefix <= 0xf7 then Ok(Header(1, prefix - 0xc0, ListKind))
      else LongHeader(input, prefix - 0xf7, ListKind)
  }

  function LongHeader(input: Bytes, lengthOfLength: nat, kind: Kind): Result<Header> {
    if |input| <= 1 + lengthOfLength then Err(LengthFieldTooShort)
    else Ok(Header(1 + lengthOfLength, ToInt(input[1..1 + lengthOfLength]), kind))
  }

  /** Decodes the item that starts at i inside the window [i, hi) of a backing array.
      A Go slice expression is bounded by the capacity, here the end of `buf`, and not by
      the length of the window: only a payload that leaves `buf` is out of range. */
  function DecodeAt(buf: Bytes, i: nat, hi: nat): (r: Read)
    requires i < hi <= |buf|
    ensures r.Read? ==> i < r.next <= |buf|
    decreases |buf| - i, 0
  {
    match DecodeLength(buf[i..hi])
    case Err(e) => NotRead(e)
    case Ok(h) =>
      var lo := i + h.offset;
      if h.length < 0 || lo + h.length > |buf| then NotRead(SliceOutOfRange)
      else if h.kind.StringKind? then Read(Str(buf[lo..lo + h.length]), lo + h.length)
      else match DecodeItems(buf, lo, lo + h.length)
           case Stopped(e) => NotRead(e)
           case AllRead(ts) => Read(List(ts), lo + h.length)
  }

  function DecodeItems(buf: Bytes, i: nat, hi: nat): ReadAll
    requires i <= |buf| && hi <= |buf|
    decreases |buf| - i, 1
  {
    if i >= hi then AllRead([])
    else match DecodeAt(buf, i, hi)
         case NotRead(e) => Stopped(e)
         case Read(t, next) => Prepend([t], DecodeItems(buf, next, hi))
  }

  function Prepend(ts: seq<Item>, r: ReadAll): ReadAll {
    match r
    case AllRead(us) => AllRead(ts + us)
    case Stopped(e) => r
  }

  /** `Decode` on the slice buf[..length] with capacity |buf|. */
  function Decode(buf: Bytes, length: nat): Result<Item>
    requires length <= |buf|
  {
    if length == 0 then Err(NullInput)
    else match DecodeAt(buf, 0, length)
         case NotRead(e) => Err(e)
         case Read(t, _) => Ok(t)
  }

  /** The decoding loop with its moving index and growing output. */
  method DecodeList(buf: Bytes, lo: nat, hi: nat) returns (r: ReadAll)
    requires lo <= |buf| && hi <= |buf|
    ensures r == DecodeItems(buf, lo, hi)
    decreases |buf| - lo
  {
    hide DecodeLength, DecodeItems, DecodeAt, Prepend;
    var output: seq<Item> := [];
    var i := lo;
    PrependNothing(DecodeItems(buf, lo, hi));
    NothingLeft(buf, hi);
    while i < hi
      invariant lo <= i <= |buf|
      invariant DecodeItems(buf, lo, hi) == Prepend(output, DecodeItems(buf, i, hi))
      decreases |buf| - i
    {
      FirstStep(buf, i, hi, output);
      var header := DecodeLength(buf[i..hi]);
      if header.Err? { return Stopped(header.error); }
      var offset, dataLength := header.value.offset, header.value.length;
      if dataLength < 0 || i + offset + dataLength > |buf| { return Stopped(SliceOutOfRange); }
      var item;
      if header.value.kind.StringKind? {
        item := Str(buf[i + offset..i + offset + dataLength]);
      } else {
        var nested := DecodeList(buf, i + offset, i + offset + dataLength);
        if nested.Stopped? { return nested; }
        item := List(nested.items);
      }
      PrependOne(output, item, DecodeItems(buf, i + offset + dataLength, hi));
      output := output + [item];
      i := i + offset + dataLength;
    }
    return AllRead(output);
  }

  lemma NothingLeft(buf: Bytes, hi: nat)
    requires hi <= |buf|
    ensures forall i :: hi <= i <= |buf| ==> DecodeItems(buf, i, hi) == AllRead([])
  {
  }

  /** The three ways in which reading one item can stop, and the one in which it goes on. */
  lemma FirstStep(buf: Bytes, i: nat, hi: nat, output: seq<Item>)
    requires i < hi <= |buf|
    ensures var all := Prepend(output, DecodeItems(buf, i, hi));
            match DecodeLength(buf[i..hi])
            case Err(e) => all == Stopped(e)
            case Ok(h) =>
              var lo, next := i + h.offset, i + h.offset + h.length;
              if h.length < 0 || next > |buf| then all == Stopped(SliceOutOfRange)
              else if h.kind.StringKind? then
                all == Prepend(output, Prepend([Str(buf[lo..next])], DecodeItems(buf, next, hi)))
              else match DecodeItems(buf, lo, next)
                   case Stopped(e) => all == Stopped(e)
                   case AllRead(ts) => all == Prepend(output, Prepend([List(ts)], DecodeItems(buf, next, hi)))
  {
    hide DecodeLength;
  }

  lemma PrependNothing(r: ReadAll)
    ensures Prepend([], r) == r
    ensures forall ts :: Prepend(ts, AllRead([])) == AllRead(ts)
  {
    assert forall us: seq<Item> :: [] + us == us;
    assert forall us: seq<Item> :: us + [] == us;
  }

  lemma PrependOne(ts: seq<Item>, t: Item, r: ReadAll)
    ensures Prepend(ts, Prepend([t], r)) == Prepend(ts + [t], r)
  {
    if r.AllRead? {
      assert ts + ([t] + r.items) == ts + [t] + r.items;
    }
  }

  // ---------------------------------------------------------------- round trip

  lemma WrapSmall(n: nat)
    ensures n <= MAX_INT ==> Wrap64(n) == n
    ensures Wrap64(n) <= n
  {
  }

  lemma LongLength(n: nat)
    requires 56 <= n <= MAX_INT
    ensures 1 <= |BytesOf(n)| <= 8 && ToInt(BytesOf(n)) == n
  {
    Pow256Eight(0);
    BytesOfLength(n, 8);
    BytesOfHead(n);
    ValueOfBytesOf(n);
    ToIntWraps(BytesOf(n));
    WrapSmall(n);
  }

  /** The header written for a payload is read back with the same length and kind. */
  lemma HeaderRoundTrip(n: nat, kind: Kind, rest: Bytes)
    requires n <= MAX_INT && |rest| >= n
    ensures var e := EncodeLength(n, if kind.StringKind? then 0x80 else 0xc0);
            DecodeLength(e + rest) == Ok(Header(|e|, n, kind))
  {
    hide BytesOf, ToInt;
    var offset := if kind.StringKind? then 0x80 else 0xc0;
    var input := EncodeLength(n, offset) + rest;
    if n >= 56 {
      LongLength(n);
      var bl := BytesOf(n);
      assert input[0] == |bl| + offset + 55;
      assert input[1..1 + |bl|] == bl;
      assert LongHeader(input, |bl|, kind) == Ok(Header(1 + |bl|, n, kind));
    }
  }

  /** Decoding at a position where an encoding starts returns the item and stops right
      behind it, whatever follows; no slice leaves the buffer. */
  lemma {:induction false} DecodeAtRoundTrip(t: Item, buf: Bytes, i: nat, hi: nat)
    requires Fits(t)
    requires i + |EncodeItem(t)| <= hi <= |buf|
    requires buf[i..i + |EncodeItem(t)|] == EncodeItem(t)
    ensures DecodeAt(buf, i, hi) == Read(t, i + |EncodeItem(t)|)
    decreases t
  {
    match t
    case Str(b) => DecodeStringAt(b, buf, i, hi);
    case List(ts) => DecodeListAt(ts, buf, i, hi);
  }

  lemma {:induction false} DecodeListAt(ts: seq<Item>, buf: Bytes, i: nat, hi: nat)
    requires Fits(List(ts))
    requires i + |EncodeItem(List(ts))| <= hi <= |buf|
    requires buf[i..i + |EncodeItem(List(ts))|] == EncodeItem(List(ts))
    ensures DecodeAt(buf, i, hi) == Read(List(ts), i + |EncodeItem(List(ts))|)
    decreases ts, 1
  {
    hide EncodeLength, DecodeLength;
    var payload := EncodeItems(ts);
    var offset := |EncodeLength(|payload|, 0xc0)|;
    assert EncodeItem(List(ts)) == EncodeLength(|payload|, 0xc0) + payload;
    PayloadAt(buf, i, hi, payload, ListKind);
    DecodeItemsRoundTrip(ts, buf, i + offset);
    DecodeListStep(buf, i, hi, offset, |payload|, ts);
  }

  lemma DecodeListStep(buf: Bytes, i: nat, hi: nat, offset: nat, length: nat, ts: seq<Item>)
    requires i < hi <= |buf| && i + offset + length <= |buf|
    requires DecodeLength(buf[i..hi]) == Ok(Header(offset, length, ListKind))
    requires DecodeItems(buf, i + offset, i + offset + length) == AllRead(ts)
    ensures DecodeAt(buf, i, hi) == Read(List(ts), i + offset + length)
  {
    hide DecodeLength;
  }

  lemma DecodeStringAt(b: Bytes, buf: Bytes, i: nat, hi: nat)
    requires |b| <= MAX_INT
    requires i + |EncodeBytes(b)| <= hi <= |buf|
    requires buf[i..i + |EncodeBytes(b)|] == EncodeBytes(b)
    ensures DecodeAt(buf, i, hi) == Read(Str(b), i + |EncodeBytes(b)|)
  {
    if |b| == 1 && b[0] < 0x80 {
      assert buf[i..hi][0] == buf[i..i + 1][0] == b[0];
      assert DecodeLength(buf[i..hi]) == Ok(Header(0, 1, StringKind));
    } else {
      PayloadAt(buf, i, hi, b, StringKind);
    }
  }

  /** Where header and payload stand at i, the header is read back and points at the payload. */
  lemma PayloadAt(buf: Bytes, i: nat, hi: nat, payload: Bytes, kind: Kind)
    requires |payload| <= MAX_INT
    requires var h := EncodeLength(|payload|, if kind.StringKind? then 0x80 else 0xc0);
             && i + |h + payload| <= hi <= |buf|
             && buf[i..i + |h + payload|] == h + payload
    ensures var h := EncodeLength(|payload|, if kind.StringKind? then 0x80 else 0xc0);
            && DecodeLength(buf[i..hi]) == Ok(Header(|h|, |payload|, kind))
            && buf[i + |h|..i + |h| + |payload|] == payload
  {
    hide EncodeLength, DecodeLength;
    var h := EncodeLength(|payload|, if kind.StringKind? then 0x80 else 0xc0);
    var end := i + |h + payload|;
    HeaderRoundTrip(|payload|, kind, payload + buf[end..hi]);
    assert buf[i..hi] == buf[i..end] + buf[end..hi];
    assert buf[i..hi] == h + (payload + buf[end..hi]);
    assert buf[i + |h|..end] == buf[i..end][|h|..];
  }

  lemma SliceOfAppend(buf: Bytes, i: nat, a: Bytes, b: Bytes)
    requires i + |a| + |b| <= |buf| && buf[i..i + |a| + |b|] == a + b
    ensures buf[i..i + |a|] == a && buf[i + |a|..i + |a| + |b|] == b
  {
    var all := buf[i..i + |a| + |b|];
    assert buf[i..i + |a|] == all[..|a|];
    assert buf[i + |a|..i + |a| + |b|] == all[|a|..];
  }

  lemma DecodeItemsStep(buf: Bytes, i: nat, hi: nat, next: nat, ts: seq<Item>)
    requires i < hi <= |buf| && next <= |buf| && ts != []
    requires DecodeAt(buf, i, hi) == Read(ts[0], next) && DecodeItems(buf, next, hi) == AllRead(ts[1..])
    ensures DecodeItems(buf, i, hi) == AllRead(ts)
  {
    assert [ts[0]] + ts[1..] == ts;
  }

  lemma {:induction false} DecodeItemsRoundTrip(ts: seq<Item>, buf: Bytes, i: nat)
    requires |EncodeItems(ts)| <= MAX_INT
    requires i + |EncodeItems(ts)| <= |buf|
    requires buf[i..i + |EncodeItems(ts)|] == EncodeItems(ts)
    ensures DecodeItems(buf, i, i + |EncodeItems(ts)|) == AllRead(ts)
    decreases ts, 0
  {
    hide EncodeItem;
    if ts != [] {
      var e, rest := EncodeItem(ts[0]), EncodeItems(ts[1..]);
      var next := i + |e|;
      var hi := next + |rest|;
      assert i + |EncodeItems(ts)| == hi;
      SliceOfAppend(buf, i, e, rest);
      DecodeAtRoundTrip(ts[0], buf, i, hi);
      DecodeItemsRoundTrip(ts[1..], buf, next);
      DecodeItemsStep(buf, i, hi, next, ts);
    }
  }

  /** Round trip: for every item, any trailing input bytes and any spare capacity behind
      the input, decoding the encoding returns the item. */
  lemma RoundTrip(t: Item, trailing: Bytes, spare: Bytes)
    requires Fits(t)
    ensures var input := EncodeItem(t) + trailing;
            Decode(input + spare, |input|) == Ok(t)
  {
    var input := EncodeItem(t) + trailing;
    assert (input + spare)[0..|EncodeItem(t)|] == EncodeItem(t);
    DecodeAtRoundTrip(t, input + spare, 0, |input|);
  }

  /** Round trip of the Go encoder: what it encodes decodes to the value's normal form. */
  lemma ValueRoundTrip(v: Value, trailing: Bytes, spare: Bytes)
    requires Encode(v).Ok? && |Encode(v).value| <= MAX_INT
    ensures var input := Encode(v).value + trailing;
            Normal(v).Ok? && Decode(input + spare, |input|) == Normal(v)
  {
    EncodeIsNormal(v);
    RoundTrip(Normal(v).value, trailing, spare);
  }

  /** No encoding is a prefix of another one. */
  lemma PrefixFree(a: Item, b: Item)
    requires Fits(b) && EncodeItem(a) <= EncodeItem(b)
    ensures a == b
  {
    var rest := EncodeItem(b)[|EncodeItem(a)|..];
    assert EncodeItem(b) == EncodeItem(a) + rest + [] == EncodeItem(b) + [] + [];
    RoundTrip(a, rest, []);
    RoundTrip(b, [], []);
  }

  /** A concatenation of encoded items splits back into its items in exactly one way. */
  lemma UniqueSplit(ts: seq<Item>, us: seq<Item>)
    requires EncodeItems(ts) == EncodeItems(us) && |EncodeItems(ts)| <= MAX_INT
    ensures ts == us
  {
    var e := EncodeItems(ts);
    assert e[0..|e|] == e;
    DecodeItemsRoundTrip(ts, e, 0);
    DecodeItemsRoundTrip(us, e, 0);
  }

  // ---------------------------------------------------------------- the bytes themselves

  /** The two header forms of the standard: below 56 one byte with the length in it; from 56 on
      a byte that counts the length bytes, and the length in as few bytes as possible. */
  lemma HeaderBytes(n: nat, base: nat)
    requires n <= MAX_INT && (base == 0x80 || base == 0xc0)
    ensures n < 56 ==> EncodeLength(n, base) == [base + n]
    ensures n >= 56 ==>
              var h := EncodeLength(n, base);
              && 2 <= |h| <= 9 && h[0] == base + 55 + |h[1..]|
              && ValueOf(h[1..]) == n && h[1] != 0
  {
    hide BytesOf, ValueOf, ToInt;
    if n >= 56 {
      var bl := BytesOf(n);
      LongLength(n);
      BytesOfHead(n);
      ValueOfBytesOf(n);
      var h := [|bl| + base + 55] + bl;
      assert EncodeLength(n, base) == h;
      assert h[1..] == bl;
    }
  }

  /** A byte below 0x80 is itself, any other string has a header from 0x80 up. */
  lemma StringItemBytes(b: Bytes)
    ensures |b| == 1 && b[0] < 0x80 ==> EncodeItem(Str(b)) == b
    ensures !(|b| == 1 && b[0] < 0x80) ==> EncodeItem(Str(b)) == EncodeLength(|b|, 0x80) + b
  {
  }

  /** A list has a header from 0xc0 up in front of its items in order. */
  lemma ListItemBytes(ts: seq<Item>, t: Item)
    ensures EncodeItem(List([])) == [0xc0]
    ensures EncodeItem(List(ts + [t]))
         == EncodeLength(|EncodeItems(ts)| + |EncodeItem(t)|, 0xc0) + EncodeItems(ts) + EncodeItem(t)
  {
    hide EncodeItem, EncodeItems, EncodeLength;
    var x, y := EncodeItems(ts), EncodeItem(t);
    EncodeItemsAppend(ts, [t]);
    OneItem(t);
    ListSize(ts + [t]);
    assert EncodeLength(|x + y|, 0xc0) + (x + y) == EncodeLength(|x| + |y|, 0xc0) + x + y;
    EmptyList();
  }

  lemma OneItem(t: Item)
    ensures EncodeItems([t]) == EncodeItem(t)
  {
    hide EncodeItem;
    assert [t][1..] == [] && EncodeItem(t) + [] == EncodeItem(t);
  }

  lemma EmptyList()
    ensures EncodeItem(List([])) == [0xc0]
  {
    assert EncodeItems([]) == [] && EncodeLength(0, 0xc0) + [] == [0xc0];
  }

  /** Absent pointers and zero numbers, byte by byte. */
  lemma NilBytes()
    ensures Encode(TextPtr(None)) == Ok([0x80]) && Encode(Big(None)) == Ok([0x80])
    ensures Encode(Uint(0)) == Ok([0x80]) && Encode(Big(Some(0))) == Ok([0x80])
    ensures Encode(RawPtr(None)) == Ok([0xc0]) && Encode(TextsPtr(None)) == Ok([0xc0])
    ensures Encode(ValsNilPtr) == Ok([0xc0])
    ensures Encode(Vals([])) == Ok([0xc0]) && Encode(Texts([])) == Ok([0xc0])
  {
    assert BytesOf(0) == [];
    assert EncodeBytes([]) == [0x80] + [] == [0x80];
    assert EncodeAll([]) == Ok([]) && EncodeTexts([]) == [];
    assert EncodeLength(0, 0xc0) + [] == [0xc0];
  }

  /** Numbers are strings of their big-endian bytes without leading zeros. */
  lemma NumberItems(n: nat, u: uint64)
    ensures exists b: Bytes :: ValueOf(b) == n && (b == [] || b[0] != 0) && Normal(Big(Some(n))) == Ok(Str(b))
    ensures exists b: Bytes :: ValueOf(b) == u && (b == [] || b[0] != 0) && Normal(Uint(u)) == Ok(Str(b))
  {
    ValueOfBytesOf(n);
    ValueOfBytesOf(u);
    if n > 0 { BytesOfHead(n); }
    if u > 0 { BytesOfHead(u); }
  }

  /** The decoder takes headers that are longer than they need be: a header byte in front of a
      single byte, a length field in front of a short payload, leading zeros in it. */
  lemma PaddedHeadersAccepted(b: Bytes, f: Bytes)
    ensures |b| < 56 ==> Decode([0x80 + |b|] + b, 1 + |b|) == Ok(Str(b))
    ensures 1 <= |f| <= 8 && b != [] && ValueOf(f) == |b| <= MAX_INT ==>
              Decode([0xb7 + |f|] + f + b, 1 + |f| + |b|) == Ok(Str(b))
  {
    hide Decode;
    if |b| < 56 { ShortHeaderAccepted(b); }
    if 1 <= |f| <= 8 && b != [] && ValueOf(f) == |b| <= MAX_INT { LongHeaderAccepted(b, f); }
  }

  lemma ShortHeaderAccepted(b: Bytes)
    requires |b| < 56
    ensures Decode([0x80 + |b|] + b, 1 + |b|) == Ok(Str(b))
  {
    var input := [0x80 + |b|] + b;
    assert input[0..|input|] == input && input[1..] == b;
  }

  lemma LongHeaderRead(b: Bytes, f: Bytes)
    requires 1 <= |f| <= 8 && b != [] && ValueOf(f) == |b| <= MAX_INT
    ensures DecodeLength([0xb7 + |f|] + f + b) == Ok(Header(1 + |f|, |b|, StringKind))
  {
    hide ToInt, ValueOf;
    var input := [0xb7 + |f|] + f + b;
    assert input[1..1 + |f|] == f;
    ToIntWraps(f);
    WrapSmall(|b|);
  }

  lemma DecodeOneString(input: Bytes, h: Header)
    requires DecodeLength(input) == Ok(h) && h.kind.StringKind? && 0 <= h.length && h.offset + h.length == |input|
    ensures Decode(input, |input|) == Ok(Str(input[h.offset..]))
  {
    hide DecodeLength, DecodeItems;
    assert input[0..|input|] == input && |input| > 0;
    assert DecodeAt(input, 0, |input|) == Read(Str(input[h.offset..|input|]), |input|);
  }

  lemma LongHeaderAccepted(b: Bytes, f: Bytes)
    requires 1 <= |f| <= 8 && b != [] && ValueOf(f) == |b| <= MAX_INT
    ensures Decode([0xb7 + |f|] + f + b, 1 + |f| + |b|) == Ok(Str(b))
  {
    hide DecodeLength, ValueOf, Decode;
    var input := [0xb7 + |f|] + f + b;
    LongHeaderRead(b, f);
    DecodeOneString(input, Header(1 + |f|, |b|, StringKind));
    assert input[1 + |f|..] == b;
  }

  /** Exactly when a header is refused: no input at all, or nothing behind its length field. */
  lemma HeaderRefusedExactly(input: Bytes)
    ensures DecodeLength(input) == Err(NullInput) <==> input == []
    ensures DecodeLength(input) == Err(LengthFieldTooShort) <==>
              && input != []
              && ((0xb8 <= input[0] <= 0xbf && |input| <= 1 + (input[0] - 0xb7))
                  || (input[0] >= 0xf8 && |input| <= 1 + (input[0] - 0xf7)))
    ensures DecodeLength(input).Err? ==> DecodeLength(input).error in {NullInput, LengthFieldTooShort}
  {
    hide ToInt;
  }

  // ---------------------------------------------------------------- arbitrary decoder input

  /** Every payload ends inside the list, or the input, that encloses it. */
  predicate Contained(buf: Bytes, i: nat, hi: nat)
    requires hi <= |buf|
    decreases |buf| - i
  {
    i < hi ==>
      var r := DecodeLength(buf[i..hi]);
      r.Ok? && r.value.length >= 0 &&
      var lo := i + r.value.offset;
      var next := lo + r.value.length;
      && next <= hi
      && (r.value.kind.ListKind? ==> Contained(buf, lo, next))
      && Contained(buf, next, hi)
  }

  lemma HeaderNotLonger(input: Bytes, n: nat)
    requires DecodeLength(input).Ok? && 0 <= n <= DecodeLength(input).value.length
    requires DecodeLength(input).value.offset >= 1
    ensures |EncodeLength(n, if DecodeLength(input).value.kind.StringKind? then 0x80 else 0xc0)|
         <= DecodeLength(input).value.offset
  {
    var h := DecodeLength(input).value;
    if n >= 56 && h.offset >= 2 {
      var field := input[1..h.offset];
      ToIntWraps(field);
      WrapSmall(ValueOf(field));
      ValueOfBound(field);
      BytesOfLength(ValueOf(field), |field|);
      Pow256Eight(0);
      BytesOfLengthMonotone(n, ValueOf(field));
      BytesOfLength(ValueOf(field), 8);
    }
  }

  lemma StringNotLonger(input: Bytes, b: Bytes)
    requires DecodeLength(input).Ok? && DecodeLength(input).value.kind.StringKind?
    requires var h := DecodeLength(input).value;
             && |b| == h.length
             && (h.offset == 0 ==> input != [] && b[0] == input[0])
    ensures |EncodeBytes(b)| <= DecodeLength(input).value.offset + |b|
  {
    hide ToInt, BytesOf;
    if DecodeLength(input).value.offset >= 1 {
      HeaderNotLonger(input, |b|);
    }
  }

  lemma FirstAndRest(buf: Bytes, i: nat, hi: nat)
    requires i < hi <= |buf| && DecodeItems(buf, i, hi).AllRead?
    ensures var r := DecodeAt(buf, i, hi);
            && r.Read? && DecodeItems(buf, r.next, hi).AllRead?
            && DecodeItems(buf, i, hi).items == [r.item] + DecodeItems(buf, r.next, hi).items
            && EncodeItems(DecodeItems(buf, i, hi).items)
                 == EncodeItem(r.item) + EncodeItems(DecodeItems(buf, r.next, hi).items)
  {
    hide DecodeLength, EncodeItem;
    var r := DecodeAt(buf, i, hi);
    var rest := DecodeItems(buf, r.next, hi).items;
    assert ([r.item] + rest)[1..] == rest;
  }

  /** What reading the first item rests on. */
  lemma NestedRead(buf: Bytes, i: nat, hi: nat)
    requires i < hi <= |buf| && DecodeItems(buf, i, hi).AllRead?
    ensures DecodeLength(buf[i..hi]).Ok?
    ensures var h, r := DecodeLength(buf[i..hi]).value, DecodeAt(buf, i, hi);
            var lo, next := i + h.offset, i + h.offset + h.length;
            && 0 <= h.length && next <= |buf| && r.Read? && r.next == next && DecodeItems(buf, next, hi).AllRead?
            && (h.kind.ListKind? ==>
                  DecodeItems(buf, lo, next).AllRead? && r.item == List(DecodeItems(buf, lo, next).items))
            && (h.kind.StringKind? ==> r.item == Str(buf[lo..next]))
  {
    hide DecodeLength;
  }

  lemma NothingRead(buf: Bytes, i: nat, hi: nat)
    requires i <= |buf| && hi <= |buf|
    ensures i >= hi ==> DecodeItems(buf, i, hi) == AllRead([]) && EncodeItems([]) == []
  {
  }

  /** An item without a header is one byte below 0x80. */
  lemma FirstByte(buf: Bytes, i: nat, hi: nat)
    requires i < hi <= |buf| && DecodeLength(buf[i..hi]).Ok?
    ensures var h := DecodeLength(buf[i..hi]).value;
            && (h.offset == 0 ==> h.length == 1 && buf[i] < 0x80 && h.kind.StringKind?)
            && (h.kind.ListKind? ==> h.offset > 0)
  {
    assert buf[i..hi][0] == buf[i];
  }

  lemma ListSize(ts: seq<Item>)
    ensures EncodeItem(List(ts)) == EncodeLength(|EncodeItems(ts)|, 0xc0) + EncodeItems(ts)
  {
  }

  lemma StringSize(b: Bytes)
    ensures EncodeItem(Str(b)) == EncodeBytes(b)
  {
  }

  /** Although non-minimal lengths are accepted, re-encoding what was decoded from a
      contained input never takes more bytes than were consumed. */
  lemma {:induction false} ReencodingNotLonger(buf: Bytes, i: nat, hi: nat)
    requires i <= hi <= |buf| && Contained(buf, i, hi)
    requires DecodeItems(buf, i, hi).AllRead?
    ensures |EncodeItems(DecodeItems(buf, i, hi).items)| <= hi - i
    decreases |buf| - i
  {
    hide DecodeLength, DecodeItems, DecodeAt, EncodeItem, EncodeItems, EncodeLength, EncodeBytes;
    NothingRead(buf, i, hi);
    if i < hi {
      NestedRead(buf, i, hi);
      FirstAndRest(buf, i, hi);
      var h := DecodeLength(buf[i..hi]).value;
      var lo, next := i + h.offset, i + h.offset + h.length;
      ReencodingNotLonger(buf, next, hi);
      if h.kind.ListKind? {
        var ts := DecodeItems(buf, lo, next).items;
        ReencodingNotLonger(buf, lo, next);
        ListSize(ts);
        HeaderNotLonger(buf[i..hi], |EncodeItems(ts)|);
      } else {
        StringSize(buf[lo..next]);
        FirstByte(buf, i, hi);
        StringNotLonger(buf[i..hi], buf[lo..next]);
      }
    }
  }

  // ---------------------------------------------------------------- minimal headers

  function Offset(kind: Kind): nat {
    if kind.StringKind? then 0x80 else 0xc0
  }

  /** The item at i has the header its payload would be given. */
  predicate MinimalHeader(buf: Bytes, i: nat, h: Header)
    requires 0 <= h.length && i + h.offset + h.length <= |buf|
  {
    var lo := i + h.offset;
    h.offset > 0 ==>
      && buf[i..lo] == EncodeLength(h.length, Offset(h.kind))
      && !(h.kind.StringKind? && h.length == 1 && buf[lo] < 0x80)
  }

  /** Every header in the window is minimal. */
  predicate Minimal(buf: Bytes, i: nat, hi: nat)
    requires hi <= |buf|
    decreases |buf| - i
  {
    i < hi ==>
      var r := DecodeLength(buf[i..hi]);
      r.Ok? && r.value.length >= 0 &&
      var lo := i + r.value.offset;
      var next := lo + r.value.length;
      && next <= |buf|
      && MinimalHeader(buf, i, r.value)
      && (r.value.kind.ListKind? ==> Minimal(buf, lo, next))
      && Minimal(buf, next, hi)
  }

  lemma EncodeLengthMonotone(m: nat, n: nat, offset: nat)
    requires m <= n
    ensures |EncodeLength(m, offset)| <= |EncodeLength(n, offset)|
  {
    hide BytesOf;
    BytesOfLengthMonotone(m, n);
  }

  lemma StringAsEncoded(buf: Bytes, i: nat, h: Header)
    requires 0 <= h.length && i + h.offset + h.length <= |buf| && h.kind.StringKind?
    requires MinimalHeader(buf, i, h) && (h.offset == 0 ==> h.length == 1 && i < |buf| && buf[i] < 0x80)
    ensures EncodeBytes(buf[i + h.offset..i + h.offset + h.length]) == buf[i..i + h.offset + h.length]
  {
    hide EncodeLength;
    var lo, next := i + h.offset, i + h.offset + h.length;
    assert buf[i..next] == buf[i..lo] + buf[lo..next];
    if h.offset == 0 { assert buf[lo..next] == [buf[i]]; }
  }

  lemma ListHeaderKept(buf: Bytes, i: nat, h: Header)
    requires 0 <= h.length && i + h.offset + h.length <= |buf| && h.kind.ListKind? && h.offset > 0
    requires MinimalHeader(buf, i, h)
    ensures EncodeLength(h.length, 0xc0) == buf[i..i + h.offset]
  {
  }

  /** With minimal headers re-encoding takes at least the bytes of the window, and more when
      some payload leaves the list, or the input, that encloses it. */
  lemma {:induction false} ReencodingNotShorter(buf: Bytes, i: nat, hi: nat)
    requires i <= |buf| && hi <= |buf| && Minimal(buf, i, hi) && DecodeItems(buf, i, hi).AllRead?
    ensures |EncodeItems(DecodeItems(buf, i, hi).items)| >= hi - i
    ensures i <= hi && !Contained(buf, i, hi) ==> |EncodeItems(DecodeItems(buf, i, hi).items)| > hi - i
    decreases |buf| - i
  {
    hide DecodeLength, DecodeItems, DecodeAt, EncodeItem, EncodeItems, EncodeLength, EncodeBytes, MinimalHeader;
    NothingRead(buf, i, hi);
    if i < hi {
      NestedRead(buf, i, hi);
      FirstAndRest(buf, i, hi);
      var h := DecodeLength(buf[i..hi]).value;
      var lo, next := i + h.offset, i + h.offset + h.length;
      ReencodingNotShorter(buf, next, hi);
      FirstByte(buf, i, hi);
      if h.kind.ListKind? {
        var ts := DecodeItems(buf, lo, next).items;
        ReencodingNotShorter(buf, lo, next);
        ListSize(ts);
        ListHeaderKept(buf, i, h);
        EncodeLengthMonotone(h.length, |EncodeItems(ts)|, 0xc0);
      } else {
        StringSize(buf[lo..next]);
        StringAsEncoded(buf, i, h);
      }
    }
  }

  /** On input with minimal headers the bound holds exactly when every payload is contained. */
  lemma ReencodingBoundExactly(buf: Bytes, i: nat, hi: nat)
    requires i <= hi <= |buf| && Minimal(buf, i, hi) && DecodeItems(buf, i, hi).AllRead?
    ensures |EncodeItems(DecodeItems(buf, i, hi).items)| <= hi - i <==> Contained(buf, i, hi)
  {
    ReencodingNotShorter(buf, i, hi);
    if Contained(buf, i, hi) { ReencodingNotLonger(buf, i, hi); }
  }

  lemma {:induction false} MinimalAsEncoded(buf: Bytes, i: nat, hi: nat)
    requires i <= hi <= |buf| && Contained(buf, i, hi) && Minimal(buf, i, hi) && DecodeItems(buf, i, hi).AllRead?
    ensures EncodeItems(DecodeItems(buf, i, hi).items) == buf[i..hi]
    decreases |buf| - i
  {
    hide DecodeLength, DecodeItems, DecodeAt, EncodeItem, EncodeItems, EncodeLength, EncodeBytes, MinimalHeader;
    NothingRead(buf, i, hi);
    if i < hi {
      NestedRead(buf, i, hi);
      FirstAndRest(buf, i, hi);
      var h := DecodeLength(buf[i..hi]).value;
      var lo, next := i + h.offset, i + h.offset + h.length;
      MinimalAsEncoded(buf, next, hi);
      FirstByte(buf, i, hi);
      if h.kind.ListKind? {
        MinimalAsEncoded(buf, lo, next);
        ListSize(DecodeItems(buf, lo, next).items);
        ListHeaderKept(buf, i, h);
        assert buf[i..next] == buf[i..lo] + buf[lo..next];
      } else {
        StringSize(buf[lo..next]);
        StringAsEncoded(buf, i, h);
      }
      assert buf[i..hi] == buf[i..next] + buf[next..hi];
    }
  }

  lemma EqualParts(a: Bytes, b: Bytes, x: Bytes, y: Bytes)
    requires a + b == x + y && |a| <= |x| && |b| <= |y|
    ensures a == x && b == y
  {
    assert |a + b| == |x + y|;
    assert a == (a + b)[..|a|] && x == (x + y)[..|x|];
    assert b == (a + b)[|a|..] && y == (x + y)[|x|..];
  }

  lemma ListHeaderIsMinimal(buf: Bytes, i: nat, h: Header)
    requires 0 <= h.length && i + h.offset + h.length <= |buf| && h.kind.ListKind?
    requires EncodeLength(h.length, 0xc0) == buf[i..i + h.offset]
    ensures MinimalHeader(buf, i, h)
  {
  }

  lemma StringIsMinimal(buf: Bytes, i: nat, h: Header)
    requires 0 <= h.length && i + h.offset + h.length <= |buf| && h.kind.StringKind?
    requires h.offset > 0 ==> |EncodeLength(h.length, 0x80)| <= h.offset
    requires EncodeBytes(buf[i + h.offset..i + h.offset + h.length]) == buf[i..i + h.offset + h.length]
    ensures MinimalHeader(buf, i, h)
  {
    hide EncodeLength;
    var lo := i + h.offset;
    var b := buf[lo..lo + h.length];
    assert buf[i..lo + h.length] == buf[i..lo] + b;
    if h.offset > 0 && !(|b| == 1 && b[0] < 0x80) {
      EqualParts(EncodeLength(|b|, 0x80), b, buf[i..lo], b);
    }
  }

  lemma {:induction false} AsEncodedIsMinimal(buf: Bytes, i: nat, hi: nat)
    requires i <= hi <= |buf| && Contained(buf, i, hi) && DecodeItems(buf, i, hi).AllRead?
    requires EncodeItems(DecodeItems(buf, i, hi).items) == buf[i..hi]
    ensures Minimal(buf, i, hi)
    decreases |buf| - i
  {
    hide DecodeLength, DecodeItems, DecodeAt, EncodeItem, EncodeItems, EncodeLength, EncodeBytes, MinimalHeader;
    NothingRead(buf, i, hi);
    if i < hi {
      NestedRead(buf, i, hi);
      FirstAndRest(buf, i, hi);
      var h := DecodeLength(buf[i..hi]).value;
      var lo, next := i + h.offset, i + h.offset + h.length;
      var item, rest := DecodeAt(buf, i, hi).item, DecodeItems(buf, next, hi).items;
      ReencodingNotLonger(buf, next, hi);
      FirstByte(buf, i, hi);
      assert buf[i..hi] == buf[i..next] + buf[next..hi];
      if h.kind.ListKind? {
        var payload := EncodeItems(DecodeItems(buf, lo, next).items);
        ReencodingNotLonger(buf, lo, next);
        ListSize(DecodeItems(buf, lo, next).items);
        HeaderNotLonger(buf[i..hi], |payload|);
        EqualParts(EncodeItem(item), EncodeItems(rest), buf[i..next], buf[next..hi]);
        assert buf[i..next] == buf[i..lo] + buf[lo..next];
        EqualParts(EncodeLength(|payload|, 0xc0), payload, buf[i..lo], buf[lo..next]);
        ListHeaderIsMinimal(buf, i, h);
        AsEncodedIsMinimal(buf, lo, next);
      } else {
        StringSize(buf[lo..next]);
        StringNotLonger(buf[i..hi], buf[lo..next]);
        EqualParts(EncodeItem(item), EncodeItems(rest), buf[i..next], buf[next..hi]);
        if h.offset > 0 { HeaderNotLonger(buf[i..hi], h.length); }
        StringIsMinimal(buf, i, h);
      }
      AsEncodedIsMinimal(buf, next, hi);
    }
  }

  /** Decoding a contained input and encoding again gives the same bytes if and only if every
      header in it is minimal. */
  lemma DecodeEncodeExactly(buf: Bytes, i: nat, hi: nat)
    requires i <= hi <= |buf| && Contained(buf, i, hi)
    ensures DecodeItems(buf, i, hi).AllRead?
    ensures EncodeItems(DecodeItems(buf, i, hi).items) == buf[i..hi] <==> Minimal(buf, i, hi)
  {
    ContainedIgnoresRest(buf, buf, i, hi);
    if Minimal(buf, i, hi) {
      MinimalAsEncoded(buf, i, hi);
    } else if EncodeItems(DecodeItems(buf, i, hi).items) == buf[i..hi] {
      AsEncodedIsMinimal(buf, i, hi);
    }
  }

  // ---------------------------------------------------------------- every decodable input

  /** Bytes read beyond the end of the list, or the input, they belong to. */
  function Overrun(buf: Bytes, i: nat, hi: nat): nat
    requires i <= |buf| && hi <= |buf|
    decreases |buf| - i
  {
    if i >= hi then i - hi
    else match DecodeLength(buf[i..hi])
         case Err(_) => 0
         case Ok(h) =>
           var lo := i + h.offset;
           if h.length < 0 || lo + h.length > |buf| then 0
           else (if h.kind.ListKind? then Overrun(buf, lo, lo + h.length) else 0) + Overrun(buf, lo + h.length, hi)
  }

  function HeaderSize(length: int): nat {
    if length < 0 then 0 else |EncodeLength(length, 0xc0)|
  }

  /** Bytes by which the headers that were read are longer than those written for the payloads
      when they are encoded again. */
  function Saved(buf: Bytes, i: nat, hi: nat): int
    requires i <= |buf| && hi <= |buf|
    decreases |buf| - i
  {
    if i >= hi then 0
    else match DecodeLength(buf[i..hi])
         case Err(_) => 0
         case Ok(h) =>
           var lo := i + h.offset;
           var next := lo + h.length;
           if h.length < 0 || next > |buf| then 0
           else if h.kind.ListKind? then
             var inner := Saved(buf, lo, next);
             h.offset - HeaderSize(h.length - inner + Overrun(buf, lo, next)) + inner + Saved(buf, next, hi)
           else
             h.offset - (if h.length == 1 && buf[lo] < 0x80 then 0 else HeaderSize(h.length)) + Saved(buf, next, hi)
  }

  lemma StringBytes(b: Bytes)
    ensures |EncodeBytes(b)| == (if |b| == 1 && b[0] < 0x80 then 0 else HeaderSize(|b|)) + |b|
  {
    SameSize(|b|, 0x80);
  }

  lemma SameSize(length: nat, offset: nat)
    ensures |EncodeLength(length, offset)| == HeaderSize(length)
  {
  }

  /** What encoding again comes to, for every input that decodes: the bytes of the window,
      without what the headers save, with what is read twice. */
  lemma {:induction false} ReencodedLength(buf: Bytes, i: nat, hi: nat)
    requires i <= |buf| && hi <= |buf| && DecodeItems(buf, i, hi).AllRead?
    ensures |EncodeItems(DecodeItems(buf, i, hi).items)| == hi - i - Saved(buf, i, hi) + Overrun(buf, i, hi)
    decreases |buf| - i
  {
    hide DecodeLength, DecodeItems, DecodeAt, EncodeItem, EncodeItems, EncodeLength, EncodeBytes, HeaderSize;
    NothingRead(buf, i, hi);
    if i < hi {
      NestedRead(buf, i, hi);
      FirstAndRest(buf, i, hi);
      var h := DecodeLength(buf[i..hi]).value;
      var lo, next := i + h.offset, i + h.offset + h.length;
      ReencodedLength(buf, next, hi);
      if h.kind.ListKind? {
        var ts := DecodeItems(buf, lo, next).items;
        ReencodedLength(buf, lo, next);
        ListSize(ts);
        SameSize(|EncodeItems(ts)|, 0xc0);
      } else {
        StringSize(buf[lo..next]);
        StringBytes(buf[lo..next]);
      }
    }
  }

  /** Exactly when encoding again takes no more bytes, for every input that decodes. */
  lemma NotLongerExactly(buf: Bytes, i: nat, hi: nat)
    requires i <= hi <= |buf| && DecodeItems(buf, i, hi).AllRead?
    ensures |EncodeItems(DecodeItems(buf, i, hi).items)| <= hi - i <==> Overrun(buf, i, hi) <= Saved(buf, i, hi)
  {
    ReencodedLength(buf, i, hi);
  }

  /** Nothing is read twice exactly when every payload is contained. */
  lemma {:induction false} NoOverrunExactly(buf: Bytes, i: nat, hi: nat)
    requires i <= hi <= |buf| && DecodeItems(buf, i, hi).AllRead?
    ensures Overrun(buf, i, hi) == 0 <==> Contained(buf, i, hi)
    decreases |buf| - i
  {
    hide DecodeLength;
    if i < hi {
      var h := DecodeLength(buf[i..hi]).value;
      var lo, next := i + h.offset, i + h.offset + h.length;
      FirstAndRest(buf, i, hi);
      if next <= hi { NoOverrunExactly(buf, next, hi); } else { PastEnd(buf, next, hi); }
      if h.kind.ListKind? { NoOverrunExactly(buf, lo, next); }
    }
  }

  lemma PastEnd(buf: Bytes, i: nat, hi: nat)
    requires hi < i <= |buf|
    ensures Overrun(buf, i, hi) > 0
  {
  }

  lemma SamePrefix(buf: Bytes, other: Bytes, hi: nat, i: nat, j: nat)
    requires i <= j <= hi <= |buf| && hi <= |other| && buf[..hi] == other[..hi]
    ensures buf[i..j] == other[i..j] && buf[..j] == other[..j]
  {
    assert buf[i..j] == buf[..hi][i..j] && other[i..j] == other[..hi][i..j];
    assert buf[..j] == buf[..hi][..j] && other[..j] == other[..hi][..j];
  }

  /** A contained window decodes to the same items whatever stands behind it. */
  lemma {:induction false} ContainedIgnoresRest(buf: Bytes, other: Bytes, i: nat, hi: nat)
    requires i <= hi <= |buf| && hi <= |other| && buf[..hi] == other[..hi]
    requires Contained(buf, i, hi)
    ensures DecodeItems(buf, i, hi) == DecodeItems(other, i, hi)
    ensures DecodeItems(buf, i, hi).AllRead?
    decreases |buf| - i
  {
    hide DecodeLength;
    if i < hi {
      var h := DecodeLength(buf[i..hi]).value;
      var lo, next := i + h.offset, i + h.offset + h.length;
      SamePrefix(buf, other, hi, i, hi);
      SamePrefix(buf, other, hi, lo, next);
      if h.kind.ListKind? {
        ContainedIgnoresRest(buf, other, lo, next);
      }
      ContainedIgnoresRest(buf, other, next, hi);
    }
  }

  const OVERRUN: Bytes := [0xc4, 0xc1, 0x82, 5, 6]

  lemma OverrunHeaders()
    ensures DecodeLength(OVERRUN[0..5]) == Ok(Header(1, 4, ListKind))
    ensures DecodeLength(OVERRUN[1..5]) == Ok(Header(1, 1, ListKind))
    ensures DecodeLength(OVERRUN[2..3]) == Ok(Header(1, 2, StringKind))
    ensures OVERRUN[3..5] == [5, 6] == EncodeItems([Str([5]), Str([6])])
  {
    EncodePair(Str([5]), Str([6]));
  }

  lemma OverrunInner()
    ensures DecodeAt(OVERRUN, 1, 5) == Read(List([Str([5, 6])]), 3)
    ensures !Contained(OVERRUN, 1, 5)
  {
    OverrunHeaders();
    assert !Contained(OVERRUN, 2, 3);
    assert DecodeAt(OVERRUN, 2, 3) == Read(Str([5, 6]), 5);
    assert [Str([5, 6])][1..] == [];
    DecodeItemsStep(OVERRUN, 2, 3, 5, [Str([5, 6])]);
    DecodeListStep(OVERRUN, 1, 5, 1, 1, [Str([5, 6])]);
  }

  /** The bound fails without containment: a nested list may read past its own end into
      the bytes of its parent, and then the same bytes are decoded a second time. */
  lemma OverrunReadsTwice()
    ensures var item := List([List([Str([5, 6])]), Str([5]), Str([6])]);
            && !Contained(OVERRUN, 0, 5)
            && Decode(OVERRUN, 5) == Ok(item)
            && |EncodeItem(item)| == 7
  {
    hide DecodeLength, DecodeItems, DecodeAt;
    var five, six := Str([5]), Str([6]);
    var inner := List([Str([5, 6])]);
    var ts := [inner, five, six];
    OverrunHeaders();
    OverrunInner();
    DecodeItemsRoundTrip([five, six], OVERRUN, 3);
    assert ts[1..] == [five, six];
    DecodeItemsStep(OVERRUN, 1, 5, 3, ts);
    DecodeListStep(OVERRUN, 0, 5, 1, 4, ts);
    assert EncodeItems([Str([5, 6])]) == [0x82, 5, 6] + [];
    assert EncodeItems(ts) == EncodeItem(inner) + EncodeItems([five, six]);
  }

  lemma EncodePair(a: Item, b: Item)
    ensures EncodeItems([a, b]) == EncodeItem(a) + EncodeItem(b)
  {
    assert [a, b][1..] == [b] && [b][1..] == [];
    assert EncodeItems([b]) == EncodeItem(b) + [];
  }
}
