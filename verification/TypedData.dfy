/** EIP-712 hashing of typed data: field encoding, struct hashes and the digest that is
    signed. Every value has a normal form; the code computes the digest of that form. */
module TypedData {
  import opened Wrappers
  import opened Bytes
  import opened TypeTables
  import opened Nesting
  import Hex
  import opened Addresses

  // ---------------------------------------------------------------- values

  /** The dynamic values the encoder meets. `Other` is any Go value no branch accepts. */
  datatype Val =
    | Null
    | Bool(boolean: bool)
    | Text(text: Bytes)
    | Number(literal: Bytes)
    | Float(float: real)
    | Int(integer: int)
    | Raw(raw: Bytes)
    | Array(elements: seq<Val>)
    | Object(members: map<Name, Val>)
    | Other

  datatype Failure =
    | BadStruct | NotAList | BadAddress | BadString | BadBytes | BadBool
    | BadInteger | NegativeInteger | IntegerOverflow | PrecisionLoss
    | Unsupported
    | NeverEnds // endless recursion
    | SliceOutOfRange // the runtime panic on a type that ends in ']' without '['

  datatype Result<+T> = Ok(value: T) | Err(failure: Failure)

  /** Normal form of a value under a field type. */
  datatype Canon =
    | IntC(value: Uint256)
    | AddressC(address: Address)
    | BoolC(flag: bool)
    | FixedC(word: Word)
    | BytesC(bytes: Bytes)
    | ListC(items: seq<Canon>)
    | StructC(name: Name, fields: seq<Canon>)

  const TWO256: nat := 0x1_0000_0000_0000_0000_0000_0000_0000_0000_0000_0000_0000_0000_0000_0000_0000_0000

  type Uint256 = n: nat | n < TWO256

  // ---------------------------------------------------------------- type names

  const ADDRESS: Name := [97, 100, 100, 114, 101, 115, 115]
  const STRING: Name := [115, 116, 114, 105, 110, 103]
  const BYTES: Name := [98, 121, 116, 101, 115]
  const BOOL: Name := [98, 111, 111, 108]
  const UINT: Name := [117, 105, 110, 116]
  const INT: Name := [105, 110, 116]

  // ---------------------------------------------------------------- leaf values

  /** `big.Int.SetString` in base 10 or 16: an optional sign and at least one digit. */
  function ParseInt(s: Bytes, base: nat): Option<int> {
    var signed := s != [] && (s[0] == 43 || s[0] == 45);
    var digits := if signed then s[1..] else s;
    var d := ParseDigits(digits, base);
    if digits == [] || d.None? then None
    else if signed && s[0] == 45 then Some(0 - d.value)
    else Some(d.value)
  }

  function ParseDigits(s: Bytes, base: nat): Option<nat> {
    if s == [] then Some(0)
    else
      var head, last := ParseDigits(s[..|s| - 1], base), Hex.DecodeNibble(s[|s| - 1]);
      if head.Some? && last.Some? && last.value < base then Some(head.value * base + last.value) else None
  }

  function Truncate(r: real): int {
    if r < 0.0 then -((-r).Floor) else r.Floor
  }

  function IntegerOf(v: Val): Result<int> {
    match v
    case Text(s) =>
      var n := if Hex.HasPrefix(s) then ParseInt(s[2..], 16) else ParseInt(s, 10);
      if n.None? then Err(BadInteger) else Ok(n.value)
    case Number(s) =>
      var n := ParseInt(s, 10);
      if n.None? then Err(BadInteger) else Ok(n.value)
    case Float(r) => if r >= 9007199254740992.0 then Err(PrecisionLoss) else Ok(Truncate(r))
    case Int(i) => Ok(i)
    case _ => Err(BadInteger)
  }

  function CanonInteger(v: Val): Result<Canon> {
    match IntegerOf(v)
    case Err(e) => Err(e)
    case Ok(i) =>
      if i < 0 then Err(NegativeInteger) else if i >= TWO256 then Err(IntegerOverflow) else Ok(IntC(i))
  }

  /** Only the lower-case prefix is trimmed here. */
  function TrimPrefix(s: Bytes): Bytes {
    if |s| >= 2 && s[0] == 48 && s[1] == 120 then s[2..] else s
  }

  function CanonAddress(v: Val): Result<Canon> {
    if !v.Text? then Err(BadAddress)
    else
      var b := Hex.DecodeHex(TrimPrefix(v.text));
      if b.Some? && |b.value| == 20 then Ok(AddressC(b.value)) else Err(BadAddress)
  }

  function DecodeBytes(v: Val): Option<Bytes> {
    match v
    case Text(s) => Hex.DecodeHex(TrimPrefix(s))
    case Raw(b) => Some(b)
    case _ => None
  }

  /** Copies into a zeroed 32-byte word: short values padded right, long ones cut off. */
  function PadRight(b: Bytes): Word {
    if |b| >= 32 then b[..32] else b + Zeros(32 - |b|)
  }

  function CanonLeaf(ft: Name, v: Val): (r: Result<Canon>)
    ensures r.Ok? ==> !v.Null? && !r.value.ListC? && !r.value.StructC?
    ensures r != Err(NeverEnds)
  {
    if ft == ADDRESS then CanonAddress(v)
    else if ft == STRING then (if v.Text? then Ok(BytesC(v.text)) else Err(BadString))
    else if ft == BYTES then
      var b := DecodeBytes(v);
      if b.None? then Err(BadBytes) else Ok(BytesC(b.value))
    else if ft == BOOL then (if v.Bool? then Ok(BoolC(v.boolean)) else Err(BadBool))
    else if UINT <= ft || INT <= ft then CanonInteger(v)
    else if BYTES <= ft then
      var b := DecodeBytes(v);
      if b.None? then Err(BadBytes) else Ok(FixedC(PadRight(b.value)))
    else Err(Unsupported)
  }

  // ---------------------------------------------------------------- normal form of a value

  function Level(v: Val): nat {
    if v.Null? then 0 else if v.Other? then 1 else 2
  }

  /** The members a struct value has: an absent or null struct has none. */
  function StructMembers(v: Val): Option<map<Name, Val>> {
    match v
    case Object(m) => Some(m)
    case Null => Some(map[])
    case _ => None
  }

  function Lookup(m: map<Name, Val>, name: Name): Val {
    if name in m then m[name] else Null
  }

  /** The elements reflection finds in a slice; the bytes of a byte slice fit no field type. */
  function ListElements(v: Val): Option<seq<Val>> {
    match v
    case Array(vs) => Some(vs)
    case Raw(b) => Some(seq(|b|, _ => Other))
    case _ => None
  }

  // ---------------------------------------------------------------- termination

  /** Encoding v under type ft, with absent structs followed at most d deep. */
  function Run(t: Types, ft: Name, v: Val, d: nat): RunEnd
    decreases Level(v), v, 1, 0
  {
    if v.Null? then AbsentRun(t, ft, d)
    else if ft in t then
      if StructMembers(v).None? then Fails else RunFields(t, t[ft], v, |t[ft]|, d)
    else if IsListType(ft) then
      if ElementType(ft).None? || ListElements(v).None? then Fails
      else RunElements(t, ElementType(ft).value, v, |ListElements(v).value|, d)
    else if CanonLeaf(ft, v).Ok? then Encodes else Fails
  }

  /** The first n fields in order, up to the first that does not encode. */
  function RunFields(t: Types, fields: seq<Field>, v: Val, n: nat, d: nat): RunEnd
    requires StructMembers(v).Some? && n <= |fields|
    decreases Level(v), v, 0, n
  {
    if n == 0 then Encodes
    else if RunFields(t, fields, v, n - 1, d) != Encodes then RunFields(t, fields, v, n - 1, d)
    else
      var member := Lookup(StructMembers(v).value, fields[n - 1].name);
      if member.Null? then AbsentRun(t, fields[n - 1].typ, d) else Run(t, fields[n - 1].typ, member, d)
  }

  function RunElements(t: Types, sub: Name, v: Val, n: nat, d: nat): RunEnd
    requires ListElements(v).Some? && n <= |ListElements(v).value|
    decreases Level(v), v, 0, n
  {
    if n == 0 then Encodes
    else if RunElements(t, sub, v, n - 1, d) != Encodes then RunElements(t, sub, v, n - 1, d)
    else
      var e := ListElements(v).value[n - 1];
      if e.Null? then AbsentRun(t, sub, d) else Run(t, sub, e, d)
  }

  /** Encoding v ends: it comes to no absent struct that never ends. */
  predicate Ending(t: Types, ft: Name, v: Val) {
    Run(t, ft, v, |t.Keys|) != TooDeep
  }

  lemma {:induction false} RunEnough(t: Types, ft: Name, v: Val, d: nat)
    requires Run(t, ft, v, d) != TooDeep
    ensures Run(t, ft, v, |t.Keys|) == Run(t, ft, v, d)
    decreases Level(v), v, 1, 0
  {
    hide CanonLeaf;
    if v.Null? {
      AbsentEnough(t, ft, d);
    } else if ft in t && StructMembers(v).Some? {
      RunFieldsEnough(t, t[ft], v, |t[ft]|, d);
    } else if ft !in t && ElementType(ft).Some? && ListElements(v).Some? {
      RunElementsEnough(t, ElementType(ft).value, v, |ListElements(v).value|, d);
    }
  }

  lemma AbsentEnough(t: Types, ft: Name, d: nat)
    requires AbsentRun(t, ft, d) != TooDeep
    ensures AbsentRun(t, ft, |t.Keys|) == AbsentRun(t, ft, d)
  {
    EndsExactly(t, ft);
    if d <= |t.Keys| { Deeper(t, ft, d, |t.Keys|); } else { Deeper(t, ft, |t.Keys|, d); }
  }

  lemma {:induction false} RunFieldsEnough(t: Types, fields: seq<Field>, v: Val, n: nat, d: nat)
    requires StructMembers(v).Some? && n <= |fields| && RunFields(t, fields, v, n, d) != TooDeep
    ensures RunFields(t, fields, v, n, |t.Keys|) == RunFields(t, fields, v, n, d)
    decreases Level(v), v, 0, n
  {
    hide Run, AbsentRun;
    if n > 0 {
      RunFieldsEnough(t, fields, v, n - 1, d);
      if RunFields(t, fields, v, n - 1, d) == Encodes {
        var member := Lookup(StructMembers(v).value, fields[n - 1].name);
        if member.Null? {
          AbsentEnough(t, fields[n - 1].typ, d);
        } else {
          RunEnough(t, fields[n - 1].typ, member, d);
        }
      }
    }
  }

  lemma {:induction false} RunElementsEnough(t: Types, sub: Name, v: Val, n: nat, d: nat)
    requires ListElements(v).Some? && n <= |ListElements(v).value| && RunElements(t, sub, v, n, d) != TooDeep
    ensures RunElements(t, sub, v, n, |t.Keys|) == RunElements(t, sub, v, n, d)
    decreases Level(v), v, 0, n
  {
    hide Run, AbsentRun;
    if n > 0 {
      RunElementsEnough(t, sub, v, n - 1, d);
      if RunElements(t, sub, v, n - 1, d) == Encodes {
        var e := ListElements(v).value[n - 1];
        if e.Null? { AbsentEnough(t, sub, d); } else { RunEnough(t, sub, e, d); }
      }
    }
  }

  /** Encoding a value comes to an end exactly when following absent structs as deep as there
      are declared types is enough for it. */
  lemma EndingExactly(t: Types, ft: Name, v: Val)
    ensures (exists d :: Run(t, ft, v, d) != TooDeep) <==> Ending(t, ft, v)
  {
    if d :| Run(t, ft, v, d) != TooDeep { RunEnough(t, ft, v, d); }
  }

  lemma {:induction false} AlwaysEnding(t: Types, ft: Name, v: Val)
    requires forall x :: x in t ==> AbsentEnds(t, x)
    ensures Ending(t, ft, v)
    decreases Level(v), v, 1, 0
  {
    hide CanonLeaf;
    if !v.Null? {
      if ft in t && StructMembers(v).Some? {
        FieldsEnding(t, t[ft], v, |t[ft]|);
      } else if ft !in t && ElementType(ft).Some? && ListElements(v).Some? {
        ElementsEnding(t, ElementType(ft).value, v, |ListElements(v).value|);
      }
    }
  }

  lemma {:induction false} FieldsEnding(t: Types, fields: seq<Field>, v: Val, n: nat)
    requires (forall x :: x in t ==> AbsentEnds(t, x)) && StructMembers(v).Some? && n <= |fields|
    ensures RunFields(t, fields, v, n, |t.Keys|) != TooDeep
    decreases Level(v), v, 0, n
  {
    hide Run, AbsentFields;
    if n > 0 {
      FieldsEnding(t, fields, v, n - 1);
      var member := Lookup(StructMembers(v).value, fields[n - 1].name);
      if !member.Null? { AlwaysEnding(t, fields[n - 1].typ, member); }
    }
  }

  lemma {:induction false} ElementsEnding(t: Types, sub: Name, v: Val, n: nat)
    requires (forall x :: x in t ==> AbsentEnds(t, x)) && ListElements(v).Some? && n <= |ListElements(v).value|
    ensures RunElements(t, sub, v, n, |t.Keys|) != TooDeep
    decreases Level(v), v, 0, n
  {
    hide Run, AbsentFields;
    if n > 0 {
      ElementsEnding(t, sub, v, n - 1);
      var e := ListElements(v).value[n - 1];
      if !e.Null? { AlwaysEnding(t, sub, e); }
    }
  }

  /** Exactly which tables every value ends under: those in which every absent struct does. */
  lemma AlwaysEndingExactly(t: Types)
    ensures (forall ft, v :: Ending(t, ft, v)) <==> (forall x :: x in t ==> AbsentEnds(t, x))
  {
    hide Run;
    if forall x :: x in t ==> AbsentEnds(t, x) {
      forall ft, v ensures Ending(t, ft, v) { AlwaysEnding(t, ft, v); }
    } else {
      var x :| x in t && !AbsentEnds(t, x);
      AbsentIsRun(t, x);
    }
  }

  lemma AbsentIsRun(t: Types, x: Name)
    ensures Ending(t, x, Null) == AbsentEnds(t, x)
  {
  }

  // ---------------------------------------------------------------- normal form of a value

  function EndOf<T>(r: Result<T>): RunEnd {
    if r.Ok? then Encodes else if r.failure == NeverEnds then TooDeep else Fails
  }

  /** How the first n fields of a struct value end. */
  function RunStruct(t: Types, name: Name, v: Val, n: nat): RunEnd
    requires StructMembers(v).Some? && n <= |FieldsOf(t, name)|
  {
    if v.Null? && !AbsentEnds(t, name) then TooDeep
    else RunFields(t, FieldsOf(t, name), v, n, |t.Keys|)
  }

  lemma {:induction false} AbsentRunFields(t: Types, fields: seq<Field>, n: nat, d: nat)
    requires n <= |fields|
    ensures RunFields(t, fields, Null, n, d) == AbsentFields(t, fields, n, d)
  {
    if n > 0 { AbsentRunFields(t, fields, n - 1, d); }
  }

  lemma RunWholeStruct(t: Types, name: Name, v: Val)
    requires name in t && StructMembers(v).Some?
    ensures RunStruct(t, name, v, |t[name]|) == Run(t, name, v, |t.Keys|)
  {
    if v.Null? && AbsentEnds(t, name) {
      AbsentRunFields(t, t[name], |t[name]|, |t.Keys|);
      AbsentWhole(t, name);
    }
  }

  /** A field that is reached: of an absent struct it is less deep than the struct. */
  lemma NextMember(t: Types, name: Name, v: Val, i: nat)
    requires StructMembers(v).Some? && i < |FieldsOf(t, name)|
    ensures RunStruct(t, name, v, i) == Encodes ==>
              var f := FieldsOf(t, name)[i];
              var member := Lookup(StructMembers(v).value, f.name);
              && RunStruct(t, name, v, i + 1) == Run(t, f.typ, member, |t.Keys|)
              && (v.Null? ==> Depth(t, f.typ) < Depth(t, name))
    ensures RunStruct(t, name, v, i) != Encodes ==> RunStruct(t, name, v, i + 1) == RunStruct(t, name, v, i)
  {
    hide AbsentRun, AbsentFields, Ends, Depth, DepthBelow;
    if v.Null? && AbsentEnds(t, name) {
      AbsentRunFields(t, t[name], i, |t.Keys|);
      ReachedField(t, name, i);
    }
  }

  /** The normal form, or the first failure. Where encoding never ends, the failure says so. */
  ghost function Canonical(t: Types, ft: Name, v: Val): (r: Result<Canon>)
    ensures EndOf(r) == Run(t, ft, v, |t.Keys|)
    decreases Level(v), v, Depth(t, ft), 3, 0
  {
    hide AbsentFields, Depth, CanonLeaf;
    if ft in t then
      if StructMembers(v).None? then Err(BadStruct)
      else
        RunWholeStruct(t, ft, v);
        match CanonFields(t, ft, v, |t[ft]|)
        case Ok(cs) => Ok(StructC(ft, cs))
        case Err(e) => Err(e)
    else if IsListType(ft) then
      if ElementType(ft).None? then Err(SliceOutOfRange)
      else if ListElements(v).None? then Err(NotAList)
      else match CanonElements(t, ElementType(ft).value, v, |ListElements(v).value|)
           case Ok(cs) => Ok(ListC(cs))
           case Err(e) => Err(e)
    else CanonLeaf(ft, v)
  }

  function Snoc(cs: Result<seq<Canon>>, c: Result<Canon>): Result<seq<Canon>> {
    match cs
    case Err(e) => Err(e)
    case Ok(done) => match c
                     case Err(e) => Err(e)
                     case Ok(last) => Ok(done + [last])
  }

  /** The first n declared fields of a struct value, in order, up to the first failure. */
  ghost function CanonFields(t: Types, name: Name, v: Val, n: nat): (r: Result<seq<Canon>>)
    requires StructMembers(v).Some? && n <= |FieldsOf(t, name)|
    ensures EndOf(r) == RunStruct(t, name, v, n)
    decreases Level(v), v, Depth(t, name), 2, n
  {
    hide Run, AbsentRun, Depth, DepthBelow;
    if v.Null? && !AbsentEnds(t, name) then Err(NeverEnds)
    else if n == 0 then Ok([])
    else
      var f := FieldsOf(t, name)[n - 1];
      var done := CanonFields(t, name, v, n - 1);
      NextMember(t, name, v, n - 1);
      if done.Err? then done
      else Snoc(done, Canonical(t, f.typ, Lookup(StructMembers(v).value, f.name)))
  }

  ghost function CanonElements(t: Types, sub: Name, v: Val, n: nat): (r: Result<seq<Canon>>)
    requires ListElements(v).Some? && n <= |ListElements(v).value|
    ensures EndOf(r) == RunElements(t, sub, v, n, |t.Keys|)
    decreases Level(v), v, 0, 0, n
  {
    if n == 0 then Ok([])
    else
      var done := CanonElements(t, sub, v, n - 1);
      if done.Err? then done else Snoc(done, Canonical(t, sub, ListElements(v).value[n - 1]))
  }

  // ---------------------------------------------------------------- digest of a normal form

  ghost function Digest(k: Hasher, t: Types, c: Canon): Word {
    match c
    case IntC(n) => IntWord(n)
    case AddressC(a) => Zeros(12) + a
    case BoolC(b) => Zeros(31) + [if b then 1 else 0]
    case FixedC(w) => w
    case BytesC(b) => k(b)
    case ListC(items) => k(Digests(k, t, items))
    case StructC(name, fields) => k(k(TypeString(t, name)) + Digests(k, t, fields))
  }

  ghost function Digests(k: Hasher, t: Types, cs: seq<Canon>): (r: Bytes)
    ensures |r| == 32 * |cs|
  {
    if cs == [] then [] else Digests(k, t, cs[..|cs| - 1]) + Digest(k, t, cs[|cs| - 1])
  }

  function IntWord(n: Uint256): (w: Word)
    ensures ValueOf(w) == n
  {
    Pow256At32();
    BytesOfLength(n, 32);
    ValueOfBytesOf(n);
    ValueOfPadLeft(BytesOf(n), 32);
    PadLeft(BytesOf(n), 32)
  }

  lemma IntWordInjective(m: Uint256, n: Uint256)
    requires IntWord(m) == IntWord(n)
    ensures m == n
  {
  }

  lemma DigestsAppend(k: Hasher, t: Types, cs: seq<Canon>, c: Canon)
    ensures Digests(k, t, cs + [c]) == Digests(k, t, cs) + Digest(k, t, c)
  {
    assert (cs + [c])[..|cs|] == cs;
  }

  // ---------------------------------------------------------------- the encoder

  ghost function DigestOf(k: Hasher, t: Types, c: Result<Canon>): Result<Word> {
    match c
    case Ok(x) => Ok(Digest(k, t, x))
    case Err(e) => Err(e)
  }

  ghost function CanonStruct(t: Types, name: Name, v: Val): (r: Result<Canon>)
    requires StructMembers(v).Some?
    ensures EndOf(r) == RunStruct(t, name, v, |FieldsOf(t, name)|)
  {
    match CanonFields(t, name, v, |FieldsOf(t, name)|)
    case Ok(cs) => Ok(StructC(name, cs))
    case Err(e) => Err(e)
  }

  lemma CanonicalOfStruct(t: Types, p: Name, v: Val)
    requires p in t && StructMembers(v).Some?
    ensures Canonical(t, p, v) == CanonStruct(t, p, v)
  {
    hide CanonFields, RunStruct, Run;
  }

  /** Encoding the fields of a struct value ends. */
  predicate StructEnding(t: Types, name: Name, v: Val)
    requires StructMembers(v).Some?
  {
    RunStruct(t, name, v, |FieldsOf(t, name)|) != TooDeep
  }

  /** `HashStruct` */
  method HashStruct(k: Hasher, t: Types, name: Name, v: Val) returns (r: Result<Word>)
    requires StructMembers(v).Some? && StructEnding(t, name, v)
    ensures r == DigestOf(k, t, CanonStruct(t, name, v))
    decreases Level(v), v, Depth(t, name), 4
  {
    hide Canonical, RunStruct;
    var encoded := EncodeData(k, t, name, v);
    match encoded
    case Err(e) => r := Err(e);
    case Ok(data) => r := Ok(k(data));
  }

  /** `EncodeData`: type hash and field words appended to a buffer. Every success is one
      word for the type and one for each field. */
  method EncodeData(k: Hasher, t: Types, name: Name, v: Val) returns (r: Result<Bytes>)
    requires StructMembers(v).Some? && StructEnding(t, name, v)
    ensures match CanonFields(t, name, v, |FieldsOf(t, name)|)
            case Ok(cs) => r == Ok(k(TypeString(t, name)) + Digests(k, t, cs))
            case Err(e) => r == Err(e)
    ensures r.Ok? ==> |r.value| == 32 * (1 + |FieldsOf(t, name)|)
    decreases Level(v), v, Depth(t, name), 3
  {
    hide Canonical, Digest, Digests, TypeString, Run, RunFields, Depth, AbsentEnds;
    var typeString := EncodeType(t, name);
    var buffer: Bytes := k(typeString);
    var fields := FieldsOf(t, name);
    ghost var done: seq<Canon> := [];
    assert Digests(k, t, done) == [];
    FirstFields(t, name, v);
    for i := 0 to |fields|
      invariant CanonFields(t, name, v, i) == Ok(done) && |done| == i
      invariant buffer == k(TypeString(t, name)) + Digests(k, t, done)
    {
      var val := Lookup(StructMembers(v).value, fields[i].name);
      NextMember(t, name, v, i);
      if CanonFields(t, name, v, i + 1).Err? { FieldFailure(t, name, v, i + 1, |fields|); }
      var encoded := EncodeField(k, t, fields[i].typ, val);
      if encoded.Err? { return Err(encoded.failure); }
      ghost var c := Canonical(t, fields[i].typ, val).value;
      DigestsAppend(k, t, done, c);
      buffer := buffer + encoded.value;
      done := done + [c];
    }
    r := Ok(buffer);
  }

  /** `EncodeField`: returns for every value that comes to no absent struct without an end, and
      every success is one 32-byte word, the digest of the value's normal form. */
  method EncodeField(k: Hasher, t: Types, ft: Name, v: Val) returns (r: Result<Word>)
    requires Ending(t, ft, v)
    ensures r == DigestOf(k, t, Canonical(t, ft, v))
    decreases Level(v), v, Depth(t, ft), 5
  {
    hide CanonLeaf, Digests, TypeString, AbsentRun, Depth;
    if ft in t {
      if StructMembers(v).None? { return Err(BadStruct); }
      RunWholeStruct(t, ft, v);
      r := HashStruct(k, t, ft, v);
    } else if IsListType(ft) {
      if ElementType(ft).None? { return Err(SliceOutOfRange); }
      if ListElements(v).None? { return Err(NotAList); }
      r := EncodeList(k, t, ElementType(ft).value, v);
    } else {
      var leaf := CanonLeaf(ft, v);
      if leaf.Err? { return Err(leaf.failure); }
      r := Ok(LeafWord(k, leaf.value));
      assert Digest(k, t, leaf.value) == LeafWord(k, leaf.value);
    }
  }

  /** The array branch of `EncodeField`. */
  method EncodeList(k: Hasher, t: Types, sub: Name, v: Val) returns (r: Result<Word>)
    requires ListElements(v).Some?
    requires RunElements(t, sub, v, |ListElements(v).value|, |t.Keys|) != TooDeep
    ensures r == match CanonElements(t, sub, v, |ListElements(v).value|)
                 case Ok(cs) => Ok(k(Digests(k, t, cs)))
                 case Err(e) => Err(e)
    decreases Level(v), v, 0, 0
  {
    hide Canonical, Digest, Digests, TypeString, Run, RunElements, AbsentRun, Depth;
    var vs := ListElements(v).value;
    var encoded: Bytes := [];
    ghost var done: seq<Canon> := [];
    assert Digests(k, t, done) == [];
    for i := 0 to |vs|
      invariant CanonElements(t, sub, v, i) == Ok(done)
      invariant encoded == Digests(k, t, done)
    {
      if CanonElements(t, sub, v, i + 1).Err? { ElementFailure(t, sub, v, i + 1, |vs|); }
      var fieldEncoded := EncodeField(k, t, sub, vs[i]);
      if fieldEncoded.Err? { return fieldEncoded; }
      ghost var c := Canonical(t, sub, vs[i]).value;
      DigestsAppend(k, t, done, c);
      encoded := encoded + fieldEncoded.value;
      done := done + [c];
    }
    r := Ok(k(encoded));
  }

  lemma FirstFields(t: Types, name: Name, v: Val)
    requires StructMembers(v).Some? && StructEnding(t, name, v)
    ensures CanonFields(t, name, v, 0) == Ok([])
  {
  }

  /** The word a leaf encodes to: hashed when its length varies, in place otherwise. */
  function LeafWord(k: Hasher, c: Canon): Word
    requires !c.ListC? && !c.StructC?
  {
    match c
    case IntC(n) => IntWord(n)
    case AddressC(a) => Zeros(12) + a
    case BoolC(b) => Zeros(31) + [if b then 1 else 0]
    case FixedC(w) => w
    case BytesC(b) => k(b)
  }

  lemma {:induction false} FieldFailure(t: Types, name: Name, v: Val, m: nat, n: nat)
    requires StructMembers(v).Some? && m <= n <= |FieldsOf(t, name)|
    requires CanonFields(t, name, v, m).Err?
    ensures CanonFields(t, name, v, n) == CanonFields(t, name, v, m)
  {
    if m < n { FieldFailure(t, name, v, m, n - 1); }
  }

  lemma {:induction false} ElementFailure(t: Types, sub: Name, v: Val, m: nat, n: nat)
    requires ListElements(v).Some? && m <= n <= |ListElements(v).value|
    requires CanonElements(t, sub, v, m).Err?
    ensures CanonElements(t, sub, v, n) == CanonElements(t, sub, v, m)
  {
    if m < n { ElementFailure(t, sub, v, m, n - 1); }
  }

  // ---------------------------------------------------------------- binding

  /** c is a normal form that field type ft can have. */
  predicate Conforms(t: Types, ft: Name, c: Canon)
    decreases c
  {
    if ft in t then c.StructC? && c.name == ft && FieldsConform(t, t[ft], c.fields)
    else if IsListType(ft) then
      ElementType(ft).Some? && c.ListC? && ElementsConform(t, ElementType(ft).value, c.items)
    else if ft == ADDRESS then c.AddressC?
    else if ft == STRING || ft == BYTES then c.BytesC?
    else if ft == BOOL then c.BoolC?
    else if UINT <= ft || INT <= ft then c.IntC?
    else c.FixedC?
  }

  predicate FieldsConform(t: Types, fields: seq<Field>, cs: seq<Canon>)
    decreases cs
  {
    |fields| == |cs| && forall i :: 0 <= i < |cs| ==> Conforms(t, fields[i].typ, cs[i])
  }

  predicate ElementsConform(t: Types, sub: Name, cs: seq<Canon>)
    decreases cs
  {
    forall i :: 0 <= i < |cs| ==> Conforms(t, sub, cs[i])
  }

  lemma {:induction false} CanonicalConforms(t: Types, ft: Name, v: Val)
    requires Canonical(t, ft, v).Ok?
    ensures Conforms(t, ft, Canonical(t, ft, v).value)
    decreases Level(v), v, Depth(t, ft), 3, 0
  {
    if ft in t {
      CanonFieldsConform(t, ft, v, |t[ft]|);
    } else if IsListType(ft) {
      var sub := ElementType(ft).value;
      CanonElementsConform(t, sub, v, |ListElements(v).value|);
    }
  }

  lemma {:induction false} CanonFieldsConform(t: Types, name: Name, v: Val, n: nat)
    requires StructMembers(v).Some? && n <= |FieldsOf(t, name)|
    requires CanonFields(t, name, v, n).Ok?
    ensures FieldsConform(t, FieldsOf(t, name)[..n], CanonFields(t, name, v, n).value)
    decreases Level(v), v, Depth(t, name), 2, n
  {
    hide Canonical, Conforms, Run, RunStruct, Depth;
    if n > 0 {
      var f := FieldsOf(t, name)[n - 1];
      CanonFieldsConform(t, name, v, n - 1);
        NextMember(t, name, v, n - 1);
      CanonicalConforms(t, f.typ, Lookup(StructMembers(v).value, f.name));
    }
  }

  lemma {:induction false} CanonElementsConform(t: Types, sub: Name, v: Val, n: nat)
    requires ListElements(v).Some? && n <= |ListElements(v).value|
    requires CanonElements(t, sub, v, n).Ok?
    ensures ElementsConform(t, sub, CanonElements(t, sub, v, n).value)
    decreases Level(v), v, 0, 0, n
  {
    if n > 0 {
      CanonElementsConform(t, sub, v, n - 1);
      CanonicalConforms(t, sub, ListElements(v).value[n - 1]);
    }
  }

  /** Every byte string hashed on the way to the digest of c. */
  ghost function Hashed(k: Hasher, t: Types, c: Canon): set<Bytes> {
    match c
    case BytesC(b) => {b}
    case ListC(items) => {Digests(k, t, items)} + HashedAll(k, t, items)
    case StructC(name, fields) =>
      {TypeString(t, name), k(TypeString(t, name)) + Digests(k, t, fields)} + HashedAll(k, t, fields)
    case _ => {}
  }

  ghost function HashedAll(k: Hasher, t: Types, cs: seq<Canon>): set<Bytes> {
    if cs == [] then {} else HashedAll(k, t, cs[..|cs| - 1]) + Hashed(k, t, cs[|cs| - 1])
  }

  /** Two different strings, one hashed on either side, have the same hash. */
  ghost predicate Collide(k: Hasher, a: set<Bytes>, b: set<Bytes>) {
    exists x, y :: x in a && y in b && x != y && k(x) == k(y)
  }

  lemma Collision(k: Hasher, a: set<Bytes>, b: set<Bytes>, x: Bytes, y: Bytes)
    requires x in a && y in b && k(x) == k(y) && x != y
    ensures Collide(k, a, b)
  {
  }

  lemma CollideMonotone(k: Hasher, a: set<Bytes>, b: set<Bytes>, c: set<Bytes>, d: set<Bytes>)
    requires Collide(k, a, b) && a <= c && b <= d
    ensures Collide(k, c, d)
  {
  }

  /** Normal forms of one field type with equal digests are equal, or the hash function
      collides on two strings that were hashed along the way. */
  lemma {:induction false} DigestBinds(k: Hasher, t: Types, ft: Name, c: Canon, d: Canon)
    requires Conforms(t, ft, c) && Conforms(t, ft, d)
    requires Digest(k, t, c) == Digest(k, t, d)
    ensures c == d || Collide(k, Hashed(k, t, c), Hashed(k, t, d))
    decreases c
  {
    match c
    case IntC(n) => IntWordInjective(n, d.value);
    case AddressC(a) =>
      assert a == Digest(k, t, c)[12..] == Digest(k, t, d)[12..] == d.address;
    case BoolC(b) =>
      assert Digest(k, t, c)[31] == Digest(k, t, d)[31];
    case FixedC(w) =>
    case BytesC(b) =>
      if b != d.bytes { Collision(k, Hashed(k, t, c), Hashed(k, t, d), b, d.bytes); }
    case ListC(items) =>
      var x, y := Digests(k, t, items), Digests(k, t, d.items);
      if x != y {
        Collision(k, Hashed(k, t, c), Hashed(k, t, d), x, y);
      } else {
        var sub := ElementType(ft).value;
        var fields := seq(|items|, i => Field([], sub));
        DigestsBind(k, t, fields, items, d.items);
        if items != d.items {
          CollideMonotone(k, HashedAll(k, t, items), HashedAll(k, t, d.items), Hashed(k, t, c), Hashed(k, t, d));
        }
      }
    case StructC(name, fields) =>
      var head := k(TypeString(t, name));
      var x, y := head + Digests(k, t, fields), head + Digests(k, t, d.fields);
      if x != y {
        Collision(k, Hashed(k, t, c), Hashed(k, t, d), x, y);
      } else {
        assert Digests(k, t, fields) == x[32..] == y[32..] == Digests(k, t, d.fields);
        DigestsBind(k, t, t[ft], fields, d.fields);
        if fields != d.fields {
          CollideMonotone(k, HashedAll(k, t, fields), HashedAll(k, t, d.fields), Hashed(k, t, c), Hashed(k, t, d));
        }
      }
  }

  lemma LastDigest(k: Hasher, t: Types, cs: seq<Canon>)
    requires cs != []
    ensures var n := |cs| - 1;
            && Digests(k, t, cs[..n]) == Digests(k, t, cs)[..32 * n]
            && Digest(k, t, cs[n]) == Digests(k, t, cs)[32 * n..]
  {
  }

  /** Equal concatenations of words: equal counts, and element by element the same argument. */
  lemma {:induction false} DigestsBind(k: Hasher, t: Types, fields: seq<Field>, cs: seq<Canon>, ds: seq<Canon>)
    requires FieldsConform(t, fields, cs)
    requires |cs| == |ds| ==> FieldsConform(t, fields, ds)
    requires Digests(k, t, cs) == Digests(k, t, ds)
    ensures cs == ds || Collide(k, HashedAll(k, t, cs), HashedAll(k, t, ds))
    decreases cs
  {
    hide Digest, Digests, Conforms, Hashed;
    assert |cs| == |ds|;
    if cs == [] {
    } else {
      var n := |cs| - 1;
      LastDigest(k, t, cs);
      LastDigest(k, t, ds);
      DigestsBind(k, t, fields[..n], cs[..n], ds[..n]);
      DigestBinds(k, t, fields[n].typ, cs[n], ds[n]);
      assert cs == cs[..n] + [cs[n]] && ds == ds[..n] + [ds[n]];
      if cs[..n] != ds[..n] {
        CollideMonotone(k, HashedAll(k, t, cs[..n]), HashedAll(k, t, ds[..n]),
                        HashedAll(k, t, cs), HashedAll(k, t, ds));
      } else if cs[n] != ds[n] {
        CollideMonotone(k, Hashed(k, t, cs[n]), Hashed(k, t, ds[n]), HashedAll(k, t, cs), HashedAll(k, t, ds));
      }
    }
  }

  lemma {:induction false} CanonFieldAt(t: Types, name: Name, v: Val, n: nat, i: nat)
    requires StructMembers(v).Some? && i < n <= |FieldsOf(t, name)|
    requires CanonFields(t, name, v, n).Ok?
    ensures |CanonFields(t, name, v, n).value| == n
    ensures var f := FieldsOf(t, name)[i];
            Canonical(t, f.typ, Lookup(StructMembers(v).value, f.name)) == Ok(CanonFields(t, name, v, n).value[i])
  {
    hide Canonical;
    if i < n - 1 {
      CanonFieldAt(t, name, v, n - 1, i);
    } else if n > 1 {
      CanonFieldAt(t, name, v, n - 1, 0);
    }
  }

  lemma CanonStructConforms(t: Types, name: Name, v: Val)
    requires StructMembers(v).Some? && name in t
    requires CanonStruct(t, name, v).Ok?
    ensures Conforms(t, name, CanonStruct(t, name, v).value)
  {
    CanonFieldsConform(t, name, v, |t[name]|);
    assert t[name][..|t[name]|] == t[name];
  }

  lemma CanonStructBinds(k: Hasher, t: Types, name: Name, v: Val, w: Val)
    requires StructMembers(v).Some? && StructMembers(w).Some?
    requires CanonStruct(t, name, v).Ok? && CanonStruct(t, name, w).Ok?
    requires DigestOf(k, t, CanonStruct(t, name, v)) == DigestOf(k, t, CanonStruct(t, name, w))
    ensures var c, d := CanonStruct(t, name, v).value, CanonStruct(t, name, w).value;
            c == d || Collide(k, Hashed(k, t, c), Hashed(k, t, d))
  {
    hide Canonical, Digest, Hashed, Conforms, Collide;
    if name in t {
      CanonStructConforms(t, name, v);
      CanonStructConforms(t, name, w);
      DigestBinds(k, t, name, CanonStruct(t, name, v).value, CanonStruct(t, name, w).value);
    }
  }

  /** A struct hash binds the struct: two values with one hash under one type have the same
      normal form in every declared field, or two strings hashed along the way collide. */
  lemma HashStructBinds(k: Hasher, t: Types, name: Name, v: Val, w: Val)
    requires StructMembers(v).Some? && StructMembers(w).Some?
    requires var c, d := CanonStruct(t, name, v), CanonStruct(t, name, w);
             c.Ok? && d.Ok? && DigestOf(k, t, c) == DigestOf(k, t, d)
    ensures var c, d := CanonStruct(t, name, v).value, CanonStruct(t, name, w).value;
            || Collide(k, Hashed(k, t, c), Hashed(k, t, d))
            || forall i :: 0 <= i < |FieldsOf(t, name)| ==>
                 var f := FieldsOf(t, name)[i];
                 Canonical(t, f.typ, Lookup(StructMembers(v).value, f.name))
                   == Canonical(t, f.typ, Lookup(StructMembers(w).value, f.name))
  {
    hide Canonical, Digest, Hashed, Collide;
    var c, d := CanonStruct(t, name, v).value, CanonStruct(t, name, w).value;
    CanonStructBinds(k, t, name, v, w);
    if !Collide(k, Hashed(k, t, c), Hashed(k, t, d)) {
      forall i | 0 <= i < |FieldsOf(t, name)|
        ensures var f := FieldsOf(t, name)[i];
                Canonical(t, f.typ, Lookup(StructMembers(v).value, f.name))
                  == Canonical(t, f.typ, Lookup(StructMembers(w).value, f.name))
      {
        CanonFieldAt(t, name, v, |FieldsOf(t, name)|, i);
        CanonFieldAt(t, name, w, |FieldsOf(t, name)|, i);
      }
    }
  }

  // ---------------------------------------------------------------- typed data

  datatype Domain = Domain(
    name: Bytes, version: Bytes, chainId: Option<int>, verifyingContract: Bytes, salt: Bytes)

  datatype TypedData = TypedData(types: Types, primaryType: Name, domain: Domain, message: map<Name, Val>)

  const NAME: Name := [110, 97, 109, 101]
  const VERSION: Name := [118, 101, 114, 115, 105, 111, 110]
  const CHAIN_ID: Name := [99, 104, 97, 105, 110, 73, 100]
  const VERIFYING_CONTRACT: Name :=
    [118, 101, 114, 105, 102, 121, 105, 110, 103, 67, 111, 110, 116, 114, 97, 99, 116]
  const SALT: Name := [115, 97, 108, 116]
  const EIP712_DOMAIN: Name := [69, 73, 80, 55, 49, 50, 68, 111, 109, 97, 105, 110]

  function TextMember(name: Name, text: Bytes): map<Name, Val> {
    if text == [] then map[] else map[name := Text(text)]
  }

  /** `toFieldMap`: only the members that are set. */
  function DomainMembers(d: Domain): map<Name, Val> {
    TextMember(NAME, d.name) + TextMember(VERSION, d.version)
    + (if d.chainId.None? then map[] else map[CHAIN_ID := Int(d.chainId.value)])
    + TextMember(VERIFYING_CONTRACT, d.verifyingContract) + TextMember(SALT, d.salt)
  }

  /** The 66 bytes hashed last: 0x19 0x01, domain separator, message hash. */
  function PrefixedData(domainSeparator: Word, structHash: Word): Bytes {
    [0x19, 0x01] + domainSeparator + structHash
  }

  lemma PrefixedDataInjective(d: Word, h: Word, e: Word, i: Word)
    requires PrefixedData(d, h) == PrefixedData(e, i)
    ensures d == e && h == i
  {
    var x, y := PrefixedData(d, h), PrefixedData(e, i);
    assert d == x[2..34] && e == y[2..34] && h == x[34..] && i == y[34..];
  }

  ghost function DomainCanon(td: TypedData): Result<Canon> {
    CanonStruct(td.types, EIP712_DOMAIN, Object(DomainMembers(td.domain)))
  }

  ghost function MessageCanon(td: TypedData): Result<Canon> {
    CanonStruct(td.types, td.primaryType, Object(td.message))
  }

  /** Encoding the domain ends, and if it succeeds encoding the message does. */
  predicate Terminates(td: TypedData) {
    hide DomainMembers, RunStruct, RunFields;
    var domain := Object(DomainMembers(td.domain));
    && StructEnding(td.types, EIP712_DOMAIN, domain)
    && (RunStruct(td.types, EIP712_DOMAIN, domain, |FieldsOf(td.types, EIP712_DOMAIN)|) == Encodes ==>
          StructEnding(td.types, td.primaryType, Object(td.message)))
  }

  /** `HashTypedData`: the message hash and the digest to sign. */
  method HashTypedData(k: Hasher, td: TypedData) returns (r: Result<(Word, Word)>)
    requires Terminates(td)
    ensures match (DomainCanon(td), MessageCanon(td))
            case (Ok(d), Ok(m)) =>
              var domain, message := Digest(k, td.types, d), Digest(k, td.types, m);
              r == Ok((message, k(PrefixedData(domain, message))))
            case (Err(e), _) => r == Err(e)
            case (_, Err(e)) => r == Err(e)
  {
    hide CanonStruct, RunStruct, Digest, DomainMembers, Canonical, CanonFields;
    var domainSeparator := HashStruct(k, td.types, EIP712_DOMAIN, Object(DomainMembers(td.domain)));
    if domainSeparator.Err? { return Err(domainSeparator.failure); }
    var dataHash := HashStruct(k, td.types, td.primaryType, Object(td.message));
    if dataHash.Err? { return Err(dataHash.failure); }
    var buffer: Bytes := [0x19, 0x01];
    buffer := buffer + domainSeparator.value;
    buffer := buffer + dataHash.value;
    r := Ok((dataHash.value, k(buffer)));
  }

  /** All strings hashed on the way to the digest that is signed. */
  ghost function AllHashed(k: Hasher, td: TypedData): set<Bytes>
    requires DomainCanon(td).Ok? && MessageCanon(td).Ok?
  {
    var d, m := DomainCanon(td).value, MessageCanon(td).value;
    {PrefixedData(Digest(k, td.types, d), Digest(k, td.types, m))}
    + Hashed(k, td.types, d) + Hashed(k, td.types, m)
  }

  ghost function SignedDigest(k: Hasher, td: TypedData): Word
    requires DomainCanon(td).Ok? && MessageCanon(td).Ok?
  {
    k(PrefixedData(Digest(k, td.types, DomainCanon(td).value), Digest(k, td.types, MessageCanon(td).value)))
  }

  /** Under one table and primary type, whatever the names, the signed digest binds the normal
      forms of domain and message together. */
  lemma SignedDigestBinds(k: Hasher, a: TypedData, b: TypedData)
    requires a.types == b.types && a.primaryType == b.primaryType
    requires DomainCanon(a).Ok? && MessageCanon(a).Ok? && DomainCanon(b).Ok? && MessageCanon(b).Ok?
    requires SignedDigest(k, a) == SignedDigest(k, b)
    ensures || (DomainCanon(a) == DomainCanon(b) && MessageCanon(a) == MessageCanon(b))
            || Collide(k, AllHashed(k, a), AllHashed(k, b))
  {
    hide CanonStruct, Digest, Hashed, PrefixedData, Collide, DomainMembers;
    var t := a.types;
    var c, d, m, n := DomainCanon(a).value, DomainCanon(b).value, MessageCanon(a).value, MessageCanon(b).value;
    var x := PrefixedData(Digest(k, t, c), Digest(k, t, m));
    var y := PrefixedData(Digest(k, t, d), Digest(k, t, n));
    if x != y {
      Collision(k, AllHashed(k, a), AllHashed(k, b), x, y);
    } else {
      PrefixedDataInjective(Digest(k, t, c), Digest(k, t, m), Digest(k, t, d), Digest(k, t, n));
      CanonStructBinds(k, t, EIP712_DOMAIN, Object(DomainMembers(a.domain)), Object(DomainMembers(b.domain)));
      CanonStructBinds(k, t, a.primaryType, Object(a.message), Object(b.message));
      if c != d {
        CollideMonotone(k, Hashed(k, t, c), Hashed(k, t, d), AllHashed(k, a), AllHashed(k, b));
      } else if m != n {
        CollideMonotone(k, Hashed(k, t, m), Hashed(k, t, n), AllHashed(k, a), AllHashed(k, b));
      }
    }
  }
}
