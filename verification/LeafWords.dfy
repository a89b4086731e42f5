/** The words of EIP-712 values, byte by byte: what a text, a number, an address, a truth value
    or a byte string is worth, and where it stands in its 32 bytes. */
module LeafWords {
  import opened Wrappers
  import opened Bytes
  import opened Hex
  import opened Addresses
  import opened TypeTables
  import opened Nesting
  import opened TypedData

  /** What `EncodeField` returns for a value. */
  ghost function Encoded(k: Hasher, t: Types, ft: Name, v: Val): Result<Word> {
    DigestOf(k, t, Canonical(t, ft, v))
  }

  /** A field type that is neither a struct nor an array. */
  predicate IsLeaf(t: Types, ft: Name) {
    ft !in t && !IsListType(ft)
  }

  /** "uint" or "int", and anything behind it. */
  predicate IsIntegerType(ft: Name) {
    (|ft| >= 4 && ft[..4] == [117, 105, 110, 116]) || (|ft| >= 3 && ft[..3] == [105, 110, 116])
  }

  lemma IntegerLeaf(t: Types, ft: Name, v: Val)
    requires IsLeaf(t, ft) && IsIntegerType(ft)
    ensures Canonical(t, ft, v) == CanonInteger(v)
  {
    hide CanonInteger, Run;
    assert ft[0] == 117 || ft[0] == 105;
    assert UINT <= ft || INT <= ft;
  }

  // ---------------------------------------------------------------- decimal text

  /** Decimal digits of n without leading zeros, "0" for zero. */
  function Decimal(n: nat): (s: Text)
    ensures s != []
    ensures forall i :: 0 <= i < |s| ==> 48 <= s[i] <= 57
  {
    if n < 10 then [48 + n] else Decimal(n / 10) + [48 + n % 10]
  }

  predicate IsDecimal(s: Text) {
    s != [] && forall i :: 0 <= i < |s| ==> 48 <= s[i] <= 57
  }

  lemma {:induction false} ParseDecimal(n: nat)
    ensures ParseDigits(Decimal(n), 10) == Some(n)
  {
    var s := Decimal(n);
    if n < 10 {
      assert s[..0] == [] && ParseDigits([], 10) == Some(0);
    } else {
      ParseDecimal(n / 10);
      assert s[..|s| - 1] == Decimal(n / 10);
    }
  }

  lemma {:induction false} ParseHexDigits(n: nat)
    ensures ParseDigits(HexDigits(n), 16) == Some(n)
    ensures forall i :: 0 <= i < |HexDigits(n)| ==> IsHexChar(HexDigits(n)[i])
  {
    var s := HexDigits(n);
    NibbleTable(Digit(n % 16), n % 16);
    if n < 16 {
      assert s[..0] == [] && ParseDigits([], 16) == Some(0);
    } else {
      ParseHexDigits(n / 16);
      assert s[..|s| - 1] == HexDigits(n / 16);
    }
  }

  /** Exactly the texts of decimal digits are read, and leading zeros are worth nothing. */
  lemma {:induction false} DecimalDefined(s: Text)
    ensures s != [] ==> (ParseDigits(s, 10).Some? <==> IsDecimal(s))
    ensures ParseDigits([48] + s, 10) == ParseDigits(s, 10)
  {
    if s == [] {
      assert ([48] + s)[..0] == [];
      assert ParseDigits([], 10) == Some(0);
    } else {
      var n := |s| - 1;
      assert ([48] + s)[..n + 1] == [48] + s[..n];
      DecimalDefined(s[..n]);
      assert s == s[..n] + [s[n]];
      assert ParseDigits([], 10) == Some(0);
    }
  }

  /** Text that starts with a digit is neither signed nor, unless the next one is an x, hex. */
  lemma PlainDecimal(n: nat)
    ensures IntegerOf(Text(Decimal(n))) == Ok(n)
    ensures IntegerOf(Number(Decimal(n))) == Ok(n)
  {
    hide ParseDigits;
    var s := Decimal(n);
    ParseDecimal(n);
    assert !HasPrefix(s) by { if |s| >= 2 { assert 48 <= s[1] <= 57; } }
    assert 48 <= s[0] <= 57;
  }

  lemma PrefixedHex(n: nat)
    ensures IntegerOf(Text(HexNumber(n))) == Ok(n)
    ensures IntegerOf(Text([48, 88] + HexDigits(n))) == Ok(n)
  {
    hide ParseDigits, HexDigits;
    ParseHexDigits(n);
    assert HexNumber(n)[2..] == HexDigits(n);
    assert ([48, 88] + HexDigits(n))[2..] == HexDigits(n);
    assert IsHexChar(HexDigits(n)[0]);
  }

  lemma NegativeDecimal(n: nat)
    requires n > 0
    ensures IntegerOf(Text([45] + Decimal(n))) == Ok(0 - n)
    ensures IntegerOf(Number([45] + Decimal(n))) == Ok(0 - n)
  {
    hide ParseDigits;
    ParseDecimal(n);
    assert ([45] + Decimal(n))[1..] == Decimal(n);
  }

  // ---------------------------------------------------------------- words

  /** Integers below 2^256, in every form in which they come, are their value, big-endian. */
  lemma IntegerWords(k: Hasher, t: Types, ft: Name, n: nat)
    requires IsLeaf(t, ft) && IsIntegerType(ft) && n < TWO256
    ensures forall v :: v in [Text(Decimal(n)), Number(Decimal(n)), Text(HexNumber(n)),
                              Text([48, 88] + HexDigits(n)), Int(n)] ==>
              Encoded(k, t, ft, v).Ok? && ValueOf(Encoded(k, t, ft, v).value) == n
  {
    hide IntegerOf, Canonical, HexNumber, HexDigits, Decimal, Digest;
    forall v | v in [Text(Decimal(n)), Number(Decimal(n)), Text(HexNumber(n)), Text([48, 88] + HexDigits(n)), Int(n)]
      ensures Encoded(k, t, ft, v).Ok? && ValueOf(Encoded(k, t, ft, v).value) == n
    {
      PlainDecimal(n);
      PrefixedHex(n);
      IntIsItself(n);
      IntegerLeaf(t, ft, v);
      IntegerDigest(k, t, n);
    }
  }

  lemma IntIsItself(n: int)
    ensures IntegerOf(Int(n)) == Ok(n)
  {
  }

  lemma IntegerDigest(k: Hasher, t: Types, n: Uint256)
    ensures ValueOf(Digest(k, t, IntC(n))) == n
  {
  }

  /** Integers outside [0, 2^256), in decimal text, and texts that are none. */
  lemma IntegerFailures(k: Hasher, t: Types, ft: Name, n: nat, s: Text)
    requires IsLeaf(t, ft) && IsIntegerType(ft)
    ensures n > 0 ==> Encoded(k, t, ft, Text([45] + Decimal(n))) == Err(NegativeInteger)
    ensures n >= TWO256 ==> Encoded(k, t, ft, Text(Decimal(n))) == Err(IntegerOverflow)
    ensures !HasPrefix(s) && !IsDecimal(s) && (s != [] && s[0] in [43, 45] ==> !IsDecimal(s[1..])) ==>
              Encoded(k, t, ft, Text(s)) == Err(BadInteger)
    ensures forall v :: v in [Null, Bool(true), Bool(false), Array([]), Object(map[]), Other] ==>
              Encoded(k, t, ft, v) == Err(BadInteger)
  {
    hide Canonical, Decimal, ParseDigits;
    IntegerLeaf(t, ft, Text([45] + Decimal(n)));
    IntegerLeaf(t, ft, Text(Decimal(n)));
    IntegerLeaf(t, ft, Text(s));
    if n > 0 { NegativeDecimal(n); }
    PlainDecimal(n);
    DecimalDefined(s);
    if s != [] { DecimalDefined(s[1..]); }
    forall v | v in [Null, Bool(true), Bool(false), Array([]), Object(map[]), Other]
      ensures Encoded(k, t, ft, v) == Err(BadInteger)
    {
      IntegerLeaf(t, ft, v);
    }
  }

  /** Floating point numbers below 2^53 lose what is behind the point, towards zero; from there
      on they are refused as imprecise. */
  lemma FloatWords(k: Hasher, t: Types, ft: Name, r: real)
    requires IsLeaf(t, ft) && IsIntegerType(ft)
    ensures 0.0 <= r < 9007199254740992.0 ==>
              Encoded(k, t, ft, Float(r)).Ok? && ValueOf(Encoded(k, t, ft, Float(r)).value) == r.Floor
    ensures -1.0 < r < 0.0 ==>
              Encoded(k, t, ft, Float(r)).Ok? && ValueOf(Encoded(k, t, ft, Float(r)).value) == 0
    ensures r <= -1.0 ==> Encoded(k, t, ft, Float(r)) == Err(NegativeInteger)
    ensures r >= 9007199254740992.0 ==> Encoded(k, t, ft, Float(r)) == Err(PrecisionLoss)
  {
    hide Canonical;
    IntegerLeaf(t, ft, Float(r));
    if 0.0 <= r < 9007199254740992.0 { IntegerDigest(k, t, r.Floor); }
    IntegerDigest(k, t, 0);
  }

  /** An address stands in the last twenty bytes, behind twelve zeros, from hex text of either
      case with or without the prefix. */
  lemma AddressWord(k: Hasher, t: Types, a: Address, s: Text)
    requires IsLeaf(t, ADDRESS) && Lower(s) == EncodeHex(a)
    ensures forall v :: v in [Text(s), Text(PREFIX + s)] ==>
              && Encoded(k, t, ADDRESS, v).Ok?
              && var w := Encoded(k, t, ADDRESS, v).value;
                 w[12..] == a && forall i :: 0 <= i < 12 ==> w[i] == 0
  {
    hide DecodeHex, EncodeHex, Run, LowerChar;
    DecodeHexIgnoresCase(s);
    DecodeEncodeHex(a);
    assert (PREFIX + s)[2..] == s;
    NoPrefix(s);
    forall v | v in [Text(s), Text(PREFIX + s)]
      ensures && Encoded(k, t, ADDRESS, v).Ok?
              && var w := Encoded(k, t, ADDRESS, v).value;
                 w[12..] == a && forall i :: 0 <= i < 12 ==> w[i] == 0
    {
      assert Canonical(t, ADDRESS, v) == Ok(AddressC(a));
      assert (Zeros(12) + a)[12..] == a;
    }
  }

  lemma NoPrefix(s: Text)
    requires DecodeHex(s).Some?
    ensures TrimPrefix(s) == s
  {
    DecodeHexDefined(s);
  }

  /** A truth value is the last byte. */
  lemma BoolWord(k: Hasher, t: Types, b: bool)
    requires IsLeaf(t, BOOL)
    ensures Encoded(k, t, BOOL, Bool(b)).Ok?
    ensures var w := Encoded(k, t, BOOL, Bool(b)).value;
            w[31] == (if b then 1 else 0) && forall i :: 0 <= i < 31 ==> w[i] == 0
    ensures forall v: Val :: !v.Bool? ==> Encoded(k, t, BOOL, v) == Err(BadBool)
  {
    hide Run;
    assert BOOL[0] != ADDRESS[0] && BOOL[0] != STRING[0] && BOOL[1] != BYTES[1];
  }

  /** Strings and byte strings of any length are hashed as they are. */
  lemma HashedWords(k: Hasher, t: Types, text: Bytes)
    requires IsLeaf(t, STRING) && IsLeaf(t, BYTES)
    ensures Encoded(k, t, STRING, Text(text)) == Ok(k(text))
    ensures Encoded(k, t, BYTES, Text(PREFIX + EncodeHex(text))) == Ok(k(text))
    ensures Encoded(k, t, BYTES, Raw(text)) == Ok(k(text))
    ensures forall v: Val :: !v.Text? ==> Encoded(k, t, STRING, v) == Err(BadString)
  {
    hide Run, DecodeHex, EncodeHex;
    DecodeEncodeHex(text);
    assert (PREFIX + EncodeHex(text))[2..] == EncodeHex(text);
    assert STRING[0] != ADDRESS[0] && BYTES[0] != ADDRESS[0] && STRING[0] != BYTES[0];
  }

  /** "bytes" with a size behind it: at the left of the word, cut off behind 32 bytes. */
  lemma FixedWord(k: Hasher, t: Types, ft: Name, b: Bytes)
    requires IsLeaf(t, ft) && |ft| > 5 && ft[..5] == BYTES
    ensures forall v :: v in [Text(PREFIX + EncodeHex(b)), Raw(b)] ==>
              && Encoded(k, t, ft, v).Ok?
              && var w := Encoded(k, t, ft, v).value;
                 forall i :: 0 <= i < 32 ==> w[i] == if i < |b| then b[i] else 0
  {
    hide Canonical, PadRight, DecodeBytes, EncodeHex;
    FixedLeaf(t, ft, b);
    PadRightAt(b);
    forall v | v in [Text(PREFIX + EncodeHex(b)), Raw(b)]
      ensures && Encoded(k, t, ft, v).Ok?
              && var w := Encoded(k, t, ft, v).value;
                 forall i :: 0 <= i < 32 ==> w[i] == if i < |b| then b[i] else 0
    {
      assert DecodeBytes(v) == Some(b);
    }
  }

  lemma PadRightAt(b: Bytes)
    ensures forall i :: 0 <= i < 32 ==> PadRight(b)[i] == if i < |b| then b[i] else 0
  {
  }

  lemma FixedLeaf(t: Types, ft: Name, b: Bytes)
    requires IsLeaf(t, ft) && |ft| > 5 && ft[..5] == BYTES
    ensures DecodeBytes(Raw(b)) == DecodeBytes(Text(PREFIX + EncodeHex(b))) == Some(b)
    ensures forall v :: DecodeBytes(v) == Some(b) ==> Canonical(t, ft, v) == Ok(FixedC(PadRight(b)))
  {
    hide Run, DecodeHex, EncodeHex, PadRight;
    DecodeEncodeHex(b);
    assert (PREFIX + EncodeHex(b))[2..] == EncodeHex(b);
    assert ft[0] == 98 && ft[1] == 121 && BYTES <= ft;
    assert ft[0] != ADDRESS[0] && ft[0] != STRING[0] && ft[1] != BOOL[1] && ft[0] != UINT[0] && ft[0] != INT[0];
  }

  // ---------------------------------------------------------------- arrays and structs

  function Concat(ws: seq<Word>): Bytes {
    if ws == [] then [] else ws[0] + Concat(ws[1..])
  }

  /** Word i of a concatenation stands at byte 32 i. */
  lemma {:induction false} ConcatAt(ws: seq<Word>, i: nat)
    requires i < |ws|
    ensures |Concat(ws)| == 32 * |ws| && Concat(ws)[32 * i..32 * i + 32] == ws[i]
  {
    ConcatLength(ws);
    if i > 0 {
      ConcatAt(ws[1..], i - 1);
      assert Concat(ws)[32 * i..32 * i + 32] == Concat(ws[1..])[32 * (i - 1)..32 * (i - 1) + 32];
    }
  }

  lemma {:induction false} ConcatLength(ws: seq<Word>)
    ensures |Concat(ws)| == 32 * |ws|
  {
    if ws != [] { ConcatLength(ws[1..]); }
  }

  lemma {:induction false} ConcatAppend(ws: seq<Word>, w: Word)
    ensures Concat(ws + [w]) == Concat(ws) + w
  {
    if ws == [] {
      assert ([] + [w])[1..] == [] && [] + [w] == [w];
    } else {
      assert (ws + [w])[1..] == ws[1..] + [w];
      ConcatAppend(ws[1..], w);
    }
  }

  lemma {:induction false} DigestsConcat(k: Hasher, t: Types, cs: seq<Canon>, ws: seq<Word>)
    requires |cs| == |ws| && forall i :: 0 <= i < |cs| ==> Digest(k, t, cs[i]) == ws[i]
    ensures Digests(k, t, cs) == Concat(ws)
  {
    hide Digest;
    if cs != [] {
      var n := |cs| - 1;
      DigestsConcat(k, t, cs[..n], ws[..n]);
      ConcatAppend(ws[..n], ws[n]);
      assert ws == ws[..n] + [ws[n]];
    }
  }

  lemma {:induction false} ElementsRead(k: Hasher, t: Types, sub: Name, vs: seq<Val>, ws: seq<Word>, n: nat)
    requires n <= |vs| == |ws| && forall i :: 0 <= i < |vs| ==> Encoded(k, t, sub, vs[i]) == Ok(ws[i])
    ensures CanonElements(t, sub, Array(vs), n).Ok? && |CanonElements(t, sub, Array(vs), n).value| == n
    ensures forall i :: 0 <= i < n ==> Digest(k, t, CanonElements(t, sub, Array(vs), n).value[i]) == ws[i]
  {
    hide Canonical, Digest, RunElements;
    if n > 0 {
      ElementsRead(k, t, sub, vs, ws, n - 1);
      assert Encoded(k, t, sub, vs[n - 1]) == Ok(ws[n - 1]);
    }
  }

  /** An array is the hash of its elements' words, one behind the other. */
  lemma ArrayWord(k: Hasher, t: Types, ft: Name, vs: seq<Val>, ws: seq<Word>)
    requires ft !in t && ElementType(ft).Some? && |vs| == |ws|
    requires forall i :: 0 <= i < |vs| ==> Encoded(k, t, ElementType(ft).value, vs[i]) == Ok(ws[i])
    ensures Encoded(k, t, ft, Array(vs)) == Ok(k(Concat(ws)))
  {
    hide Digests, ElementType, Canonical, CanonElements, Digest;
    CanonicalOfArray(t, ft, vs);
    forall cs ensures Digest(k, t, ListC(cs)) == k(Digests(k, t, cs)) { ListDigest(k, t, cs); }
    var sub := ElementType(ft).value;
    ElementsRead(k, t, sub, vs, ws, |vs|);
    DigestsConcat(k, t, CanonElements(t, sub, Array(vs), |vs|).value, ws);
  }

  lemma ListDigest(k: Hasher, t: Types, cs: seq<Canon>)
    ensures Digest(k, t, ListC(cs)) == k(Digests(k, t, cs))
  {
  }

  lemma CanonicalOfArray(t: Types, ft: Name, vs: seq<Val>)
    requires ft !in t && ElementType(ft).Some?
    ensures Canonical(t, ft, Array(vs))
         == match CanonElements(t, ElementType(ft).value, Array(vs), |vs|)
            case Ok(cs) => Ok(ListC(cs))
            case Err(e) => Err(e)
  {
    hide CanonElements, Run;
  }

  lemma {:induction false} FieldsRead(k: Hasher, t: Types, name: Name, m: map<Name, Val>, ws: seq<Word>, n: nat)
    requires name in t && n <= |t[name]| == |ws|
    requires forall i :: 0 <= i < |ws| ==> Encoded(k, t, t[name][i].typ, Lookup(m, t[name][i].name)) == Ok(ws[i])
    ensures CanonFields(t, name, Object(m), n).Ok? && |CanonFields(t, name, Object(m), n).value| == n
    ensures forall i :: 0 <= i < n ==> Digest(k, t, CanonFields(t, name, Object(m), n).value[i]) == ws[i]
  {
    hide Canonical, Digest, RunStruct;
    if n > 0 {
      FieldsRead(k, t, name, m, ws, n - 1);
      assert Encoded(k, t, t[name][n - 1].typ, Lookup(m, t[name][n - 1].name)) == Ok(ws[n - 1]);
    }
  }

  lemma StructDigest(k: Hasher, t: Types, name: Name, cs: Result<seq<Canon>>)
    ensures cs.Ok? ==> Digest(k, t, StructC(name, cs.value)) == k(k(TypeString(t, name)) + Digests(k, t, cs.value))
  {
    hide TypeString;
  }

  /** A struct is the hash of its type hash and its fields' words, in the declared order. */
  lemma StructWord(k: Hasher, t: Types, name: Name, m: map<Name, Val>, ws: seq<Word>)
    requires name in t && |t[name]| == |ws|
    requires forall i :: 0 <= i < |ws| ==> Encoded(k, t, t[name][i].typ, Lookup(m, t[name][i].name)) == Ok(ws[i])
    ensures Encoded(k, t, name, Object(m)) == Ok(k(k(TypeString(t, name)) + Concat(ws)))
    ensures DigestOf(k, t, CanonStruct(t, name, Object(m))) == Ok(k(k(TypeString(t, name)) + Concat(ws)))
  {
    hide Digests, TypeString, Canonical, RunStruct, CanonFields, Digest;
    CanonicalOfStruct(t, name, Object(m));
    StructDigest(k, t, name, CanonFields(t, name, Object(m), |ws|));
    FieldsRead(k, t, name, m, ws, |ws|);
    DigestsConcat(k, t, CanonFields(t, name, Object(m), |ws|).value, ws);
  }

  /** An absent struct has no members; values of the wrong shape, and types that are neither
      declared nor known, are refused. */
  lemma Shapes(k: Hasher, t: Types, ft: Name, v: Val)
    ensures ft in t && t[ft] == [] ==> Encoded(k, t, ft, Null) == Ok(k(k(TypeString(t, ft))))
    ensures ft in t && !v.Object? && !v.Null? ==> Encoded(k, t, ft, v) == Err(BadStruct)
    ensures ft !in t && ElementType(ft).Some? && !v.Array? && !v.Raw? ==> Encoded(k, t, ft, v) == Err(NotAList)
    ensures ft !in t && IsListType(ft) && OPEN_BRACKET !in ft ==> Encoded(k, t, ft, v) == Err(SliceOutOfRange)
  {
    if ft in t && t[ft] == [] { EmptyStruct(k, t, ft); }
    if ft !in t && IsListType(ft) && OPEN_BRACKET !in ft { NoBracket(ft); }
  }

  lemma EmptyStruct(k: Hasher, t: Types, ft: Name)
    requires ft in t && t[ft] == []
    ensures Encoded(k, t, ft, Null) == Ok(k(k(TypeString(t, ft))))
  {
    hide TypeString;
    CanonicalOfStruct(t, ft, Null);
    assert AbsentRun(t, ft, 1) == AbsentFields(t, t[ft], 0, 0) == Encodes;
    EndsExactly(t, ft);
    assert k(TypeString(t, ft)) + [] == k(TypeString(t, ft));
  }

  lemma NoBracket(s: Name)
    requires OPEN_BRACKET !in s
    ensures LastIndexOf(s, OPEN_BRACKET).None?
  {
  }

  /** The 66 bytes hashed last, place by place. */
  lemma PrefixedBytes(d: Word, h: Word)
    ensures var b := PrefixedData(d, h);
            |b| == 66 && b[0] == 0x19 && b[1] == 0x01 && b[2..34] == d && b[34..] == h
  {
  }
}
