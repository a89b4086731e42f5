/** Shaping of raw backend signatures: low-S normalisation, recovery byte, and the three
    forms in which parity, r and s leave the signer. */
module Signatures {
  import opened Wrappers
  import opened Bytes
  import opened Hex
  import opened Addresses

  /** Order of secp256k1. */
  const N: nat := 0xFFFFFFFFFFFFFFFFFFFFFFFFFFFFFFFEBAAEDCE6AF48A03BBFD25E8CD0364141

  const HALF_ORDER: nat := N / 2

  const V_MIN: byte := 27
  const V_MAX: byte := 28

  // ---------------------------------------------------------------- backend output

  datatype Validation = Valid | BadLength | ROutOfRange | SOutOfRange

  function ValidateBackend(sig: Bytes): Validation {
    if |sig| != 64 then BadLength
    else if ValueOf(sig[..32]) == 0 || ValueOf(sig[..32]) >= N then ROutOfRange
    else if ValueOf(sig[32..]) == 0 || ValueOf(sig[32..]) >= N then SOutOfRange
    else Valid
  }

  /** The order in decimal, as SEC 2 prints it in hexadecimal. */
  lemma OrderInDecimal()
    ensures N == 115792089237316195423570985008687907852837564279074904382605163141518161494337
    ensures HALF_ORDER == 57896044618658097711785492504343953926418782139537452191302581570759080747168
  {
  }

  /** Validation accepts r and s from 1 to N - 1 in 64 bytes, and names the first thing wrong. */
  lemma ValidatesExactly(sig: Bytes)
    ensures ValidateBackend(sig) == BadLength <==> |sig| != 64
    ensures |sig| == 64 ==>
              var r, s := ValueOf(sig[..32]), ValueOf(sig[32..]);
              && (ValidateBackend(sig) == Valid <==> 1 <= r <= N - 1 && 1 <= s <= N - 1)
              && (ValidateBackend(sig) == ROutOfRange <==> r == 0 || r >= N)
              && (ValidateBackend(sig) == SOutOfRange <==> 1 <= r <= N - 1 && (s == 0 || s >= N))
  {
    hide ValueOf;
  }

  /** |N - s| for a high s, else s. */
  function LowS(s: nat): (l: nat)
    ensures l <= s
  {
    if s <= HALF_ORDER then s else if s <= N then N - s else s - N
  }

  /** What low-S normalisation of r || s stands for. */
  function LowSForm(sig: Bytes): Bytes {
    var half := |sig| / 2;
    sig[..half] + PadLeft(BytesOf(LowS(ValueOf(sig[half..]))), |sig| - half)
  }

  function Overwritten(dst: Bytes, offset: nat, src: Bytes): Bytes
    requires offset + |src| <= |dst|
  {
    dst[..offset] + src + dst[offset + |src|..]
  }

  /** Copies src into dst from the given offset on. */
  method CopyAt(dst: array<byte>, offset: nat, src: Bytes)
    requires offset + |src| <= dst.Length
    modifies dst
    ensures dst[..] == Overwritten(old(dst[..]), offset, src)
  {
    forall i | 0 <= i < |src| { dst[offset + i] := src[i]; }
  }

  lemma OverwriteEndOfHalf(a: Bytes, z: Bytes, b: Bytes, src: Bytes)
    requires |src| <= |z|
    ensures Overwritten(a + z + b, |a| + |z| - |src|, src) == a + (z[..|z| - |src|] + src) + b
  {
    var all, from := a + z + b, |a| + |z| - |src|;
    assert all[..from] == a + z[..|z| - |src|];
    assert all[from + |src|..] == b;
  }

  lemma WrittenHalves(r: Bytes, s: Bytes, half: nat)
    requires |r| <= half && |s| <= half
    ensures var first := Overwritten(Zeros(2 * half), half - |r|, r);
            && |first| == 2 * half
            && Overwritten(first, 2 * half - |s|, s) == PadLeft(r, half) + PadLeft(s, half)
  {
    hide Overwritten;
    assert Zeros(2 * half) == [] + Zeros(half) + Zeros(half);
    OverwriteEndOfHalf([], Zeros(half), Zeros(half), r);
    assert Zeros(half)[..half - |r|] == Zeros(half - |r|);
    assert Zeros(half)[..half - |s|] == Zeros(half - |s|);
    OverwriteEndOfHalf(PadLeft(r, half), Zeros(half), [], s);
    assert [] + PadLeft(r, half) + Zeros(half) == PadLeft(r, half) + Zeros(half) + [];
    assert PadLeft(r, half) + PadLeft(s, half) + [] == PadLeft(r, half) + PadLeft(s, half);
  }

  /** `signatureToLowS`, both halves written into a zeroed buffer at computed offsets. */
  method SignatureToLowS(sig: Bytes) returns (ret: array<byte>)
    requires |sig| % 2 == 0
    ensures fresh(ret) && ret[..] == LowSForm(sig)
  {
    hide ValueOf, BytesOf, PadLeft, Overwritten;
    var half := |sig| / 2;
    var r, s: int := ValueOf(sig[..half]), ValueOf(sig[half..]);
    if s > HALF_ORDER {
      s := N - s;
    }
    var rBytes, sBytes := BytesOf(r), BytesOf(if s < 0 then -s else s);
    FitsHalf(sig[..half], r);
    FitsHalf(sig[half..], LowS(ValueOf(sig[half..])));
    ret := new byte[|sig|](i => 0);
    assert ret[..] == Zeros(2 * half);
    CopyAt(ret, half - |rBytes|, rBytes);
    CopyAt(ret, |sig| - |sBytes|, sBytes);
    WrittenHalves(rBytes, sBytes, half);
    PadLeftValueOf(sig[..half]);
  }

  lemma FitsHalf(b: Bytes, v: nat)
    requires v <= ValueOf(b)
    ensures |BytesOf(v)| <= |b|
  {
    ValueOfBound(b);
    BytesOfLength(v, |b|);
  }

  /** On every validated signature normalisation keeps r, replaces s by the smaller of
      s and N - s, which lies in [1, (N-1)/2], stays valid, and changes nothing twice. */
  lemma LowSOfValid(sig: Bytes)
    requires ValidateBackend(sig) == Valid
    ensures var low := LowSForm(sig);
            var s, s' := ValueOf(sig[32..]), ValueOf(low[32..]);
            && |low| == 64
            && low[..32] == sig[..32]
            && s' == (if s <= N - s then s else N - s)
            && 1 <= s' <= (N - 1) / 2
            && ValidateBackend(low) == Valid
            && LowSForm(low) == low
  {
    var low := LowSForm(sig);
    var s := LowS(ValueOf(sig[32..]));
    FitsHalf(sig[32..], s);
    ValueOfBytesOf(s);
    ValueOfPadLeft(BytesOf(s), 32);
    assert low[32..] == PadLeft(BytesOf(s), 32);
    assert low[..32] == sig[..32];
    PadLeftValueOf(low[32..]);
    assert low == low[..32] + low[32..];
  }

  // ---------------------------------------------------------------- recovery byte

  /** Outcome of public key recovery and address derivation for one 65-byte candidate. */
  datatype Recovery = Unrecoverable | DerivationFailed | Signer(address: Address)

  /** The elliptic curve recovery library, left open. */
  type Recoverer = (Bytes, Bytes) -> Recovery

  datatype RecoverResult = Recovered | DerivationError | NoRecoveryValue

  /** `recoverV`: tries 27 then 28 in byte 0, comparing checksummed address texts. */
  method RecoverV(k: Hasher, recover: Recoverer, signatureWithV: array<byte>, from: Address, data: Bytes)
    returns (r: RecoverResult)
    requires signatureWithV.Length == 65
    modifies signatureWithV
    ensures signatureWithV[1..] == old(signatureWithV[1..])
    ensures signatureWithV[0] == 27 || signatureWithV[0] == 28
    ensures r == FirstV(recover, old(signatureWithV[1..]), from, data).0
    ensures r.Recovered? ==> signatureWithV[0] == FirstV(recover, old(signatureWithV[1..]), from, data).1
    ensures r.Recovered? ==> recover(signatureWithV[..], data) == Signer(from)
  {
    ghost var rs := signatureWithV[1..];
    signatureWithV[0] := V_MIN;
    var i := V_MIN;
    while i <= V_MAX
      invariant V_MIN <= i <= V_MAX + 1
      invariant signatureWithV[1..] == rs
      invariant signatureWithV[0] == 27 || signatureWithV[0] == 28
      invariant i > 27 ==> Misses(recover([27] + rs, data), from)
      invariant i > 28 ==> Misses(recover([28] + rs, data), from)
    {
      signatureWithV[0] := i;
      assert signatureWithV[..] == [i] + rs;
      var recovery := recover(signatureWithV[..], data);
      match recovery {
        case Unrecoverable =>
        case DerivationFailed => return DerivationError;
        case Signer(address) =>
          if Checksummed(k, address) == Checksummed(k, from) {
            ChecksummedInjective(k, address, from);
            return Recovered;
          }
      }
      i := i + 1;
    }
    return NoRecoveryValue;
  }

  /** The candidate is passed over: it neither recovers `from` nor ends the search. */
  predicate Misses(r: Recovery, from: Address) {
    r != Signer(from) && r != DerivationFailed
  }

  /** The first of the two candidates that is not passed over. */
  function FirstV(recover: Recoverer, rs: Bytes, from: Address, data: Bytes): (first: (RecoverResult, byte))
    ensures V_MIN <= first.1 <= V_MAX
  {
    var r27, r28 := recover([27] + rs, data), recover([28] + rs, data);
    if r27 == Signer(from) then (Recovered, 27)
    else if r27 == DerivationFailed then (DerivationError, 27)
    else if r28 == Signer(from) then (Recovered, 28)
    else if r28 == DerivationFailed then (DerivationError, 28)
    else (NoRecoveryValue, 28)
  }

  datatype Assembled =
    | Signature65(bytes: Signature65)
    | Malformed(reason: Validation)
    | Unrecovered(why: RecoverResult)

  /** V || R || S as assembled, with a recovery byte of 27 or 28. */
  type Signature65 = g: Bytes | |g| == 65 && V_MIN <= g[0] <= V_MAX witness [27] + seq(64, _ => 0)

  /** The low-S form of a valid backend signature behind the first V byte that recovers the
      signer; failures in the order in which they are found. */
  function Assembly(recover: Recoverer, rawSig: Bytes, from: Address, data: Bytes): Assembled {
    var validation := ValidateBackend(rawSig);
    if validation != Valid then Malformed(validation)
    else
      LowSOfValid(rawSig);
      var (why, v) := FirstV(recover, LowSForm(rawSig), from, data);
      if why == Recovered then Signature65([v] + LowSForm(rawSig)) else Unrecovered(why)
  }

  /** An assembled signature recovers the signer, is low-S, and keeps the backend's r. */
  lemma AssemblyRecovers(recover: Recoverer, rawSig: Bytes, from: Address, data: Bytes)
    requires Assembly(recover, rawSig, from, data).Signature65?
    ensures ValidateBackend(rawSig) == Valid
    ensures var g := Assembly(recover, rawSig, from, data).bytes;
            && recover(g, data) == Signer(from)
            && g[1..33] == rawSig[..32]
            && 1 <= ValueOf(g[33..]) <= (N - 1) / 2
  {
    hide LowSForm, ValueOf;
    LowSOfValid(rawSig);
    var g, low := Assembly(recover, rawSig, from, data).bytes, LowSForm(rawSig);
    assert g[1..33] == low[..32] && g[33..] == low[32..];
  }

  /** Exactly when there is a signature, and which V it has: 27 is tried first and keeps 28
      from being tried when it recovers the signer or cannot be turned into an address. */
  lemma AssembledExactly(recover: Recoverer, rawSig: Bytes, from: Address, data: Bytes)
    requires |rawSig| == 64 && 1 <= ValueOf(rawSig[..32]) <= N - 1 && 1 <= ValueOf(rawSig[32..]) <= N - 1
    ensures var low := LowSForm(rawSig);
            var r27, r28 := recover([27] + low, data), recover([28] + low, data);
            var a := Assembly(recover, rawSig, from, data);
            && (a.Signature65? && a.bytes == [27] + low <==> r27 == Signer(from))
            && (a.Signature65? && a.bytes == [28] + low <==>
                  r27 != Signer(from) && r27 != DerivationFailed && r28 == Signer(from))
            && (a == Unrecovered(DerivationError) <==>
                  r27 == DerivationFailed || (r27 != Signer(from) && r28 == DerivationFailed))
  {
    hide LowSForm, ValueOf;
    ValidatesExactly(rawSig);
    var low := LowSForm(rawSig);
    LowSOfValid(rawSig);
    assert ([27] + low)[0] == 27 && ([28] + low)[0] == 28;
  }

  /** `assembleRecoverableSignature` */
  method AssembleRecoverableSignature(k: Hasher, recover: Recoverer, rawSig: Bytes, from: Address, data: Bytes)
    returns (r: Assembled)
    ensures r == Assembly(recover, rawSig, from, data)
  {
    hide ValueOf, BytesOf, LowSForm, FirstV;
    var validation := ValidateBackend(rawSig);
    if validation != Valid { return Malformed(validation); }
    LowSOfValid(rawSig);
    var low := SignatureToLowS(rawSig);
    var signatureWithV := new byte[65](i => 0);
    CopyAt(signatureWithV, 1, low[..]);
    assert signatureWithV[1..] == LowSForm(rawSig);
    var recovered := RecoverV(k, recover, signatureWithV, from, data);
    if recovered != Recovered { return Unrecovered(recovered); }
    assert signatureWithV[..] == [signatureWithV[0]] + LowSForm(rawSig);
    return Signature65(signatureWithV[..]);
  }

  // ---------------------------------------------------------------- outgoing forms

  datatype EthereumSignature = EthereumSignature(v: int, r: nat, s: nat)

  datatype YParitySignature = YParitySignature(yParity: int, r: nat, s: nat)

  /** `generateEthereumSignature`, the EIP-155 form. */
  function LegacySignature(g: Signature65, chainId: int): EthereumSignature {
    EthereumSignature(g[0] - V_MIN + 35 + 2 * chainId, ValueOf(g[1..33]), ValueOf(g[33..]))
  }

  /** `generateEIP1559TransactionSignature` */
  function Type2Signature(g: Signature65): YParitySignature {
    YParitySignature(g[0] - V_MIN, ValueOf(g[1..33]), ValueOf(g[33..]))
  }

  /** The V, R, S split of `sign` for typed data. */
  function TypedDataSignature(g: Signature65): EthereumSignature {
    EthereumSignature(g[0], ValueOf(g[1..33]), ValueOf(g[33..]))
  }

  /** `ToHex`: R || S || low byte of V, copied to the right ends of a 65-byte buffer. */
  method ToHex(sig: EthereumSignature) returns (text: Text)
    requires sig.r < Pow256(32) && sig.s < Pow256(32) && sig.v >= 0
    ensures text == ToHexForm(sig)
  {
    hide BytesOf, EncodeHex, Pow256;
    var rBytes, sBytes, vBytes := BytesOf(sig.r), BytesOf(sig.s), BytesOf(sig.v);
    LastByte(sig.v);
    BytesOfLength(sig.r, 32);
    BytesOfLength(sig.s, 32);
    var buffer := new byte[65](i => 0);
    CopyAt(buffer, 32 - |rBytes|, rBytes);
    assert buffer[..] == PadLeft(rBytes, 32) + Zeros(33);
    CopyAt(buffer, 32 + 32 - |sBytes|, sBytes);
    assert buffer[..] == PadLeft(rBytes, 32) + PadLeft(sBytes, 32) + [0];
    if |vBytes| > 0 {
      buffer[64] := vBytes[|vBytes| - 1];
    }
    assert buffer[..] == PadLeft(rBytes, 32) + PadLeft(sBytes, 32) + [sig.v % 256];
    text := PREFIX + EncodeHex(buffer[..]);
  }

  lemma LastByte(n: nat)
    ensures BytesOf(n) == [] ==> n == 0
    ensures BytesOf(n) != [] ==> BytesOf(n)[|BytesOf(n)| - 1] == n % 256
  {
  }

  function ToHexForm(sig: EthereumSignature): Text
    requires sig.v >= 0
  {
    PREFIX + EncodeHex(PadLeft(BytesOf(sig.r), 32) + PadLeft(BytesOf(sig.s), 32) + [sig.v % 256])
  }

  /** The three outgoing forms of one assembled signature carry the same parity, r and s:
      EIP-155 V gives back parity and chain id, and the hex form gives back every byte. */
  lemma FormsAgree(g: Signature65, chainId: nat)
    ensures var legacy, type2, typed := LegacySignature(g, chainId), Type2Signature(g), TypedDataSignature(g);
            && type2.yParity == g[0] - 27 == (legacy.v - 35) % 2
            && (legacy.v - 35) / 2 == chainId
            && typed.v == 27 + type2.yParity
            && legacy.r == type2.r == typed.r && legacy.s == type2.s == typed.s
            && typed.r < Pow256(32) && typed.s < Pow256(32)
            && HexBytesFromString(ToHexForm(typed)) == Some(g[1..] + [g[0]])
            && g == [27 + type2.yParity] + PadLeft(BytesOf(type2.r), 32) + PadLeft(BytesOf(type2.s), 32)
  {
    hide ValueOf, BytesOf, EncodeHex, DecodeHex, Pow256, PadLeft;
    var typed := TypedDataSignature(g);
    PadLeftValueOf(g[1..33]);
    PadLeftValueOf(g[33..]);
    ValueOfBound(g[1..33]);
    ValueOfBound(g[33..]);
    assert g[1..] == g[1..33] + g[33..];
    assert g == [g[0]] + g[1..33] + g[33..];
    DataBytesOfText(g[1..33] + g[33..] + [g[0]]);
  }
}
