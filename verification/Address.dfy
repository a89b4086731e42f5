/** Account addresses and their EIP-55 checksummed text. */
module Addresses {
  import opened Wrappers
  import opened Bytes
  import opened Hex

  type Address = a: Bytes | |a| == 20 witness seq(20, _ => 0)

  function HashNibble(h: Word, i: nat): nat
    requires i < 40
  {
    if i % 2 == 0 then h[i / 2] / 16 else h[i / 2] % 16
  }

  /** The case rule of EIP-55: letter i is upper case when nibble i of the hash exceeds 7. */
  function Cased(digits: Text, h: Word): (r: Text)
    requires |digits| == 40
    ensures |r| == 40
  {
    seq(40, i requires 0 <= i < 40 =>
      if digits[i] > 57 && HashNibble(h, i) > 7 then UpperChar(digits[i]) else digits[i])
  }

  function Checksummed(k: Hasher, a: Address): Text {
    PREFIX + Cased(EncodeHex(a), k(EncodeHex(a)))
  }

  /** `String`: the case of the prefixed hex buffer is changed in place, character by character. */
  method ToText(k: Hasher, a: Address) returns (s: Text)
    ensures s == Checksummed(k, a)
  {
    hide EncodeHex;
    var hexText := EncodeHex(a);
    LowerHexText(a);
    var buf := new byte[42](i => 0);
    forall i | 0 <= i < 42 { buf[i] := (PREFIX + hexText)[i]; }
    assert forall i | 0 <= i < 42 :: buf[i] == (PREFIX + hexText)[i];
    var hash := k(hexText);
    for i := 2 to 42
      invariant buf[..2] == PREFIX
      invariant forall j :: 2 <= j < i ==> buf[j] == Cased(hexText, hash)[j - 2]
      invariant forall j :: i <= j < 42 ==> buf[j] == hexText[j - 2]
    {
      var hashByte := hash[(i - 2) / 2];
      hashByte := if i % 2 == 0 then hashByte / 16 else hashByte % 16;
      if buf[i] > 57 && hashByte > 7 {
        buf[i] := buf[i] - 32;
      }
    }
    s := buf[..];
    assert s == PREFIX + Cased(hexText, hash);
  }

  /** `NewFromHexString` */
  function FromHex(s: Text): (r: Option<Address>)
  {
    var digits := RemovePrefix(s);
    if |digits| == 40 && IsHex(digits) then
      DecodeHexDefined(digits);
      Some(DecodeHex(digits).value)
    else None
  }

  /** `NewFromHexStringChecksum` */
  function FromHexChecksum(k: Hasher, s: Text): Option<Address> {
    var a := FromHex(s);
    var digits := RemovePrefix(s);
    if a.None? then None
    else if digits == Lower(digits) || digits == Upper(digits) then a
    else if Checksummed(k, a.value) != PREFIX + digits then None
    else a
  }

  predicate MixedCase(digits: Text) {
    digits != Lower(digits) && digits != Upper(digits)
  }

  lemma {:induction false} LowerHexText(b: Bytes)
    ensures Lower(EncodeHex(b)) == EncodeHex(b)
    ensures forall i :: 0 <= i < |EncodeHex(b)| ==>
              48 <= EncodeHex(b)[i] <= 57 || 97 <= EncodeHex(b)[i] <= 102
  {
    if b != [] {
      LowerHexText(b[..|b| - 1]);
      var s := EncodeHex(b);
      assert forall i :: 0 <= i < |s| ==> 48 <= s[i] <= 57 || 97 <= s[i] <= 102;
    }
  }

  lemma LowerOfCased(a: Address, h: Word)
    ensures Lower(Cased(EncodeHex(a), h)) == EncodeHex(a)
    ensures IsHex(Cased(EncodeHex(a), h))
  {
    LowerHexText(a);
  }

  /** Whatever the hash, the checksummed text is accepted by both address parsers and by the
      hex-bytes decoder, and all three return the address it was made from. */
  lemma ChecksumRoundTrip(k: Hasher, a: Address)
    ensures FromHex(Checksummed(k, a)) == Some(a)
    ensures FromHexChecksum(k, Checksummed(k, a)) == Some(a)
    ensures HexBytesFromString(Checksummed(k, a)) == Some(a)
  {
    var h := k(EncodeHex(a));
    var digits := Cased(EncodeHex(a), h);
    LowerOfCased(a, h);
    DecodeHexIgnoresCase(digits);
    DecodeEncodeHex(a);
    assert RemovePrefix(Checksummed(k, a)) == digits;
  }

  lemma ChecksummedInjective(k: Hasher, a: Address, b: Address)
    requires Checksummed(k, a) == Checksummed(k, b)
    ensures a == b
  {
    ChecksumRoundTrip(k, a);
    ChecksumRoundTrip(k, b);
  }

  /** A mixed-case text is accepted exactly when its digits are the checksummed digits of
      some address, and then it is that address. */
  lemma MixedCaseAccepted(k: Hasher, s: Text, a: Address)
    requires MixedCase(RemovePrefix(s))
    ensures FromHexChecksum(k, s) == Some(a) <==> PREFIX + RemovePrefix(s) == Checksummed(k, a)
  {
    var digits := RemovePrefix(s);
    if PREFIX + digits == Checksummed(k, a) {
      ChecksumRoundTrip(k, a);
      assert Checksummed(k, a)[2..] == digits;
      assert RemovePrefix(Checksummed(k, a)) == digits;
    }
  }

  /** A text in one letter case carries no checksum: it is accepted exactly when it is 40 hex
      digits, as the address it spells. */
  lemma SingleCaseAccepted(k: Hasher, s: Text, a: Address)
    requires !MixedCase(RemovePrefix(s))
    ensures FromHexChecksum(k, s) == Some(a) <==> Lower(RemovePrefix(s)) == EncodeHex(a)
  {
    var digits := RemovePrefix(s);
    DecodeHexDefined(digits);
    if Lower(digits) == EncodeHex(a) {
      DecodeHexIgnoresCase(digits);
      DecodeEncodeHex(a);
    }
    if FromHex(s) == Some(a) {
      EncodeDecodeHex(digits);
    }
  }

  /** EIP-55, digit by digit: a letter of the address is upper case exactly when the digit at
      the same place of the hash's hex text is 8 or above. */
  lemma ChecksumRule(k: Hasher, a: Address, i: nat)
    requires i < 40
    ensures var digit, hashDigit := EncodeHex(a)[i], EncodeHex(k(EncodeHex(a)))[i];
            var c := Checksummed(k, a)[2 + i];
            && (exists v :: 0 <= v < 16 && hashDigit == LOWER_DIGITS[v])
            && (hashDigit in LOWER_DIGITS[8..] && digit in LOWER_DIGITS[10..] ==> c == digit - 32)
            && (!(hashDigit in LOWER_DIGITS[8..] && digit in LOWER_DIGITS[10..]) ==> c == digit)
  {
    hide EncodeHex;
    var h := k(EncodeHex(a));
    EncodeHexAt(h, i / 2);
    LowerHexText(a);
    var v := if i % 2 == 0 then h[i / 2] / 16 else h[i / 2] % 16;
    assert EncodeHex(h)[i] == LOWER_DIGITS[v];
    HighDigit(v);
    assert LOWER_DIGITS[10..] == [97, 98, 99, 100, 101, 102];
  }

  lemma HighDigit(v: nat)
    requires v < 16
    ensures LOWER_DIGITS[v] in LOWER_DIGITS[8..] <==> v > 7
  {
    assert LOWER_DIGITS[8..] == [56, 57, 97, 98, 99, 100, 101, 102];
  }
}
