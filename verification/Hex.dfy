/** The hexadecimal text forms every field passes through on its way into a preimage.
    Go strings are byte sequences, so text is `Bytes` with ASCII codes. */
module Hex {
  import opened Wrappers
  import opened Bytes

  type Text = Bytes

  const PREFIX: Text := [48, 120] // "0x"

  /** Lower-case digit of a nibble. */
  function Digit(n: nat): byte
    requires n < 16
  {
    if n < 10 then 48 + n else 87 + n
  }

  function DecodeNibble(c: byte): (r: Option<nat>)
    ensures r.Some? ==> r.value < 16
  {
    if 48 <= c <= 57 then Some(c - 48)
    else if 65 <= c <= 70 then Some(c - 55)
    else if 97 <= c <= 102 then Some(c - 87)
    else None
  }

  predicate IsHexChar(c: byte) {
    48 <= c <= 57 || 97 <= c <= 102 || 65 <= c <= 70
  }

  predicate IsHex(s: Text) {
    forall i :: 0 <= i < |s| ==> IsHexChar(s[i])
  }

  function LowerChar(c: byte): byte {
    if 65 <= c <= 90 then c + 32 else c
  }

  function UpperChar(c: byte): byte {
    if 97 <= c <= 122 then c - 32 else c
  }

  function Lower(s: Text): (r: Text)
    ensures |r| == |s|
  {
    seq(|s|, i requires 0 <= i < |s| => LowerChar(s[i]))
  }

  function Upper(s: Text): (r: Text)
    ensures |r| == |s|
  {
    seq(|s|, i requires 0 <= i < |s| => UpperChar(s[i]))
  }

  predicate HasPrefix(s: Text) {
    |s| >= 2 && s[0] == 48 && (s[1] == 120 || s[1] == 88)
  }

  function RemovePrefix(s: Text): Text {
    if HasPrefix(s) then s[2..] else s
  }

  function HexByte(x: byte): (s: Text)
    ensures |s| == 2
  {
    [Digit(x / 16), Digit(x % 16)]
  }

  function DecodePair(hi: byte, lo: byte): Option<byte> {
    var h, l := DecodeNibble(hi), DecodeNibble(lo);
    if h.Some? && l.Some? then Some(16 * h.value + l.value) else None
  }

  lemma PairOfByte(x: byte)
    ensures DecodePair(HexByte(x)[0], HexByte(x)[1]) == Some(x)
  {
  }

  lemma PairIgnoresCase(hi: byte, lo: byte)
    ensures DecodePair(LowerChar(hi), LowerChar(lo)) == DecodePair(hi, lo)
    ensures DecodePair(hi, lo).Some? <==> IsHexChar(hi) && IsHexChar(lo)
    ensures DecodePair(hi, lo).Some? ==> HexByte(DecodePair(hi, lo).value) == [LowerChar(hi), LowerChar(lo)]
  {
  }

  function EncodeHex(b: Bytes): (s: Text)
    ensures |s| == 2 * |b|
  {
    if b == [] then [] else EncodeHex(b[..|b| - 1]) + HexByte(b[|b| - 1])
  }

  /** None for an odd length or a character that is no hex digit. */
  function DecodeHex(s: Text): (r: Option<Bytes>)
    ensures r.Some? ==> 2 * |r.value| == |s|
  {
    if s == [] then Some([])
    else if |s| == 1 then None
    else
      var n := |s| - 2;
      var head, last := DecodeHex(s[..n]), DecodePair(s[n], s[n + 1]);
      if head.Some? && last.Some? then Some(head.value + [last.value]) else None
  }

  /** `NewHexBytesFromString`: the prefix is optional, the empty string is an error. */
  function HexBytesFromString(s: Text): Option<Bytes> {
    if s == [] then None else DecodeHex(RemovePrefix(s))
  }

  /** Hex digits of n without leading zeros, "0" for zero. */
  function HexDigits(n: nat): (s: Text)
    ensures s != []
  {
    if n < 16 then [Digit(n)] else HexDigits(n / 16) + [Digit(n % 16)]
  }

  function HexNumber(n: nat): Text {
    PREFIX + HexDigits(n)
  }

  /** `fmt.Sprintf("%#x", i)` of a big integer, sign first. */
  function HexInt(i: int): Text {
    if i < 0 then [45] + HexNumber(-i) else HexNumber(i)
  }

  /** `hexStringEvenLength`; its callers always pass a prefixed number. */
  function EvenLength(s: Text): Text
    requires |s| % 2 != 0 ==> |s| >= 2
  {
    if |s| % 2 != 0 then PREFIX + [48] + s[2..] else s
  }

  /** Bytes of an integer as the even-length pipeline produces them: zero is one zero byte. */
  function NumberBytes(n: nat): Bytes {
    if n == 0 then [0] else BytesOf(n)
  }

  lemma DecodeAppend(s: Text, pair: Text)
    requires |pair| == 2 && DecodeHex(s).Some? && DecodePair(pair[0], pair[1]).Some?
    ensures DecodeHex(s + pair) == Some(DecodeHex(s).value + [DecodePair(pair[0], pair[1]).value])
  {
    hide DecodePair;
    assert (s + pair)[..|s|] == s;
  }

  lemma {:induction false} DecodeEncodeHex(b: Bytes)
    ensures DecodeHex(EncodeHex(b)) == Some(b)
  {
    hide DecodePair, HexByte, DecodeHex;
    if b != [] {
      var n := |b| - 1;
      DecodeEncodeHex(b[..n]);
      PairOfByte(b[n]);
      DecodeAppend(EncodeHex(b[..n]), HexByte(b[n]));
      assert b == b[..n] + [b[n]];
    } else {
      DecodeNothing();
    }
  }

  lemma DecodeNothing()
    ensures DecodeHex([]) == Some([])
  {
  }

  lemma {:induction false} DecodeHexIgnoresCase(s: Text)
    ensures DecodeHex(Lower(s)) == DecodeHex(s)
  {
    hide DecodePair, LowerChar;
    if |s| >= 2 {
      var n := |s| - 2;
      PairIgnoresCase(s[n], s[n + 1]);
      DecodeHexIgnoresCase(s[..n]);
      assert Lower(s)[..n] == Lower(s[..n]);
    }
  }

  /** What decodes is determined up to letter case by what it decodes to. */
  lemma {:induction false} EncodeDecodeHex(s: Text)
    requires DecodeHex(s).Some?
    ensures EncodeHex(DecodeHex(s).value) == Lower(s)
  {
    hide DecodePair, LowerChar, HexByte;
    if s != [] {
      var n := |s| - 2;
      PairIgnoresCase(s[n], s[n + 1]);
      EncodeDecodeHex(s[..n]);
      var b := DecodeHex(s).value;
      assert b[..|b| - 1] == DecodeHex(s[..n]).value;
      assert Lower(s) == Lower(s[..n]) + [LowerChar(s[n]), LowerChar(s[n + 1])];
    }
  }

  lemma {:induction false} DecodeHexDefined(s: Text)
    ensures DecodeHex(s).Some? <==> |s| % 2 == 0 && IsHex(s)
  {
    hide DecodePair, IsHexChar;
    if |s| >= 2 {
      var n := |s| - 2;
      PairIgnoresCase(s[n], s[n + 1]);
      DecodeHexDefined(s[..n]);
      assert s == s[..n] + [s[n], s[n + 1]];
    }
  }

  /** Digits of n, zero-padded to an even count, are the hex text of its bytes. */
  lemma {:induction false} EvenDigits(n: nat)
    ensures EvenPad(HexDigits(n)) == EncodeHex(NumberBytes(n))
  {
    hide HexByte, HexDigits, NumberBytes, EncodeHex;
    if n < 256 {
      EvenDigitsOfByte(n);
    } else {
      EvenDigits(n / 256);
      TwoDigits(n);
      EncodeLast(n);
    }
  }

  lemma EvenDigitsOfByte(n: byte)
    ensures EvenPad(HexDigits(n)) == EncodeHex(NumberBytes(n))
  {
    assert [n][..0] == [];
    assert NumberBytes(n) == [n] by { assert BytesOf(0) == []; }
    if n >= 16 {
      assert HexDigits(n / 16) == [Digit(n / 16)];
    }
  }

  function EvenPad(digits: Text): Text {
    (if |digits| % 2 == 0 then [] else [48]) + digits
  }

  lemma TwoDigits(n: nat)
    requires n >= 256
    ensures HexDigits(n) == HexDigits(n / 256) + HexByte(n % 256)
  {
    assert n / 16 / 16 == n / 256 && n / 16 % 16 == n % 256 / 16 && n % 16 == n % 256 % 16;
  }

  lemma EncodeLast(n: nat)
    requires n >= 256
    ensures EncodeHex(NumberBytes(n)) == EncodeHex(NumberBytes(n / 256)) + HexByte(n % 256)
  {
    var b := BytesOf(n);
    assert b[..|b| - 1] == BytesOf(n / 256) && b[|b| - 1] == n % 256;
  }

  /** The even-length text of a number decodes to its bytes. */
  lemma NumberBytesOfText(n: nat)
    ensures HexBytesFromString(EvenLength(HexNumber(n))) == Some(NumberBytes(n))
  {
    hide HexDigits, EncodeHex, DecodeHex, NumberBytes;
    EvenDigits(n);
    DecodeEncodeHex(NumberBytes(n));
    var s := EvenLength(HexNumber(n));
    assert s[2..] == EncodeHex(NumberBytes(n));
  }

  /** A negative number never becomes bytes: the sign leaves a letter `x` behind. */
  lemma NegativeNumberRejected(i: int)
    requires i < 0
    ensures HexBytesFromString(EvenLength(HexInt(i))) == None
  {
    var s := EvenLength(HexInt(i));
    assert HexInt(i)[..3] == [45, 48, 120];
    var digits := RemovePrefix(s);
    var x := if |HexInt(i)| % 2 != 0 then 1 else 2;
    assert digits[x] == 120 && !IsHexChar(digits[x]);
    DecodeHexDefined(digits);
  }

  lemma DataBytesOfText(b: Bytes)
    ensures HexBytesFromString(PREFIX + EncodeHex(b)) == Some(b)
  {
    DecodeEncodeHex(b);
    assert (PREFIX + EncodeHex(b))[2..] == EncodeHex(b);
  }

  lemma NumberBytesInjective(m: nat, n: nat)
    requires NumberBytes(m) == NumberBytes(n)
    ensures m == n
  {
    if m != 0 { BytesOfHead(m); }
    if n != 0 { BytesOfHead(n); }
    if m != 0 && n != 0 { BytesOfInjective(m, n); }
  }

  /** The sixteen digits in ascending order, in either case. */
  const LOWER_DIGITS: Text := [48, 49, 50, 51, 52, 53, 54, 55, 56, 57, 97, 98, 99, 100, 101, 102]
  const UPPER_DIGITS: Text := [48, 49, 50, 51, 52, 53, 54, 55, 56, 57, 65, 66, 67, 68, 69, 70]

  /** A character is a digit exactly when it is listed, and is worth its place in the list. */
  lemma NibbleTable(c: byte, v: nat)
    ensures DecodeNibble(c) == Some(v) <==> v < 16 && (LOWER_DIGITS[v] == c || UPPER_DIGITS[v] == c)
    ensures v < 16 ==> Digit(v) == LOWER_DIGITS[v]
  {
  }

  /** Hex text is written high nibble first, byte by byte. */
  lemma {:induction false} EncodeHexAt(b: Bytes, i: nat)
    requires i < |b|
    ensures EncodeHex(b)[2 * i] == LOWER_DIGITS[b[i] / 16] && EncodeHex(b)[2 * i + 1] == LOWER_DIGITS[b[i] % 16]
  {
    var n := |b| - 1;
    if i < n {
      EncodeHexAt(b[..n], i);
    } else {
      NibbleTable(0, b[i] / 16);
      NibbleTable(0, b[i] % 16);
    }
  }
}
