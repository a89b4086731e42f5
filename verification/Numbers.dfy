/** 256-bit integers: the word-chunked hex parser and the padded big-endian form. */
module Numbers {
  import opened Wrappers
  import opened Bytes
  import opened Hex

  const TWO64: nat := 0x1_0000_0000_0000_0000
  const TWO255: nat := 0x8000_0000_0000_0000_0000_0000_0000_0000_0000_0000_0000_0000_0000_0000_0000_0000
  const TWO256: nat := 0x1_0000_0000_0000_0000_0000_0000_0000_0000_0000_0000_0000_0000_0000_0000_0000_0000

  type Word64 = w: nat | w < TWO64

  // ---------------------------------------------------------------- positional value

  function Pow16(k: nat): (p: nat)
    ensures p >= 1
  {
    if k == 0 then 1 else 16 * Pow16(k - 1)
  }

  /** Digit-by-digit value of a hex text; None at the first character that is no digit. */
  function HexValue(s: Text): Option<nat> {
    if s == [] then Some(0)
    else
      var head, last := HexValue(s[..|s| - 1]), DecodeNibble(s[|s| - 1]);
      if head.Some? && last.Some? then Some(16 * head.value + last.value) else None
  }

  /** Value of little-endian 64-bit words (`big.Int.SetBits`). */
  function WordsValue(ws: seq<Word64>): nat {
    if ws == [] then 0 else ws[0] + TWO64 * WordsValue(ws[1..])
  }

  lemma {:induction false} WordsValueAppend(ws: seq<Word64>, w: Word64)
    ensures WordsValue(ws + [w]) == w * Pow16(16 * |ws|) + WordsValue(ws)
  {
    if ws == [] {
      assert (ws + [w])[1..] == [];
      assert w * Pow16(0) == w;
    } else {
      assert (ws + [w])[1..] == ws[1..] + [w];
      WordsValueAppend(ws[1..], w);
      Pow16Sixteen(16 * (|ws| - 1));
      MulSwap(w, TWO64, Pow16(16 * (|ws| - 1)));
    }
  }

  lemma MulSwap(a: nat, b: nat, p: nat)
    ensures a * (b * p) == b * (a * p)
  {
  }

  lemma {:induction false} HexValueDefined(s: Text)
    ensures HexValue(s).Some? <==> IsHex(s)
    ensures HexValue(s).Some? ==> HexValue(s).value < Pow16(|s|)
  {
    if s != [] {
      HexValueDefined(s[..|s| - 1]);
      assert s == s[..|s| - 1] + [s[|s| - 1]];
    }
  }

  lemma {:induction false} HexValueAppend(a: Text, b: Text)
    requires HexValue(a).Some? && HexValue(b).Some?
    ensures HexValue(a + b) == Some(HexValue(a).value * Pow16(|b|) + HexValue(b).value)
  {
    if b == [] {
      assert a + b == a;
      assert HexValue(a).value * Pow16(0) == HexValue(a).value;
    } else {
      var n := |b| - 1;
      assert (a + b)[..|a + b| - 1] == a + b[..n];
      HexValueAppend(a, b[..n]);
      MulSwap(HexValue(a).value, 16, Pow16(n));
    }
  }

  lemma Pow16Sixteen(k: nat)
    ensures Pow16(k + 16) == TWO64 * Pow16(k)
  {
    Pow16Four(k); Pow16Four(k + 4); Pow16Four(k + 8); Pow16Four(k + 12);
  }

  lemma Pow16At16()
    ensures Pow16(16) == TWO64
  {
    Pow16Sixteen(0);
  }

  lemma Pow16Four(k: nat)
    ensures Pow16(k + 4) == 65536 * Pow16(k)
  {
    assert Pow16(k + 2) == 256 * Pow16(k);
    assert Pow16(k + 4) == 256 * Pow16(k + 2);
  }

  lemma Pow16Monotone(j: nat, k: nat)
    requires j <= k
    ensures Pow16(j) <= Pow16(k)
    decreases k - j
  {
    if j < k { Pow16Monotone(j, k - 1); }
  }

  // ---------------------------------------------------------------- parser

  datatype NumberError = EmptyString | MissingPrefix | EmptyNumber | LeadingZero | Range | Syntax

  datatype Parsed = Number(value: nat) | Rejected(error: NumberError)

  function CheckNumber(input: Text): Option<NumberError> {
    if input == [] then Some(EmptyString)
    else if !HasPrefix(input) then Some(MissingPrefix)
    else if |input| == 2 then Some(EmptyNumber)
    else if |input| > 3 && input[2] == 48 then Some(LeadingZero)
    else if |input| - 2 > 64 then Some(Range)
    else None
  }

  function ParseNumber(input: Text): Parsed {
    var error := CheckNumber(input);
    if error.Some? then Rejected(error.value)
    else
      var n := HexValue(input[2..]);
      if n.None? then Rejected(Syntax) else Number(n.value)
  }

  /** The inner loop: up to 16 nibbles accumulate in one 64-bit word. No step wraps around. */
  method ReadWord(raw: Text, start: nat, end: nat) returns (word: Option<Word64>)
    requires start <= end <= |raw| && end - start <= 16
    ensures word.Some? ==> HexValue(raw[start..end]) == Some(word.value)
    ensures word.None? ==> HexValue(raw) == None
  {
    hide HexValue, Pow16, DecodeNibble;
    var w: Word64 := 0;
    HexValueEmpty();
    assert raw[start..start] == [];
    for ri := start to end
      invariant HexValue(raw[start..ri]) == Some(w)
    {
      var nib := DecodeNibble(raw[ri]);
      NextNibble(raw, start, ri);
      if nib.None? { return None; }
      w := w * 16 % TWO64;
      w := (w + nib.value) % TWO64;
    }
    word := Some(w);
  }

  /** The outer loop: 16 nibbles to a word, lowest word first. */
  method ParseWords(raw: Text) returns (r: Option<nat>)
    ensures r == HexValue(raw)
  {
    hide HexValue, Pow16, WordsValue, DecodeNibble;
    var words := new Word64[|raw| / 16 + 1](i => 0);
    var end := |raw|;
    HexValueEmpty();
    assert raw[end..] == [] && words[..0] == [];
    for i := 0 to words.Length
      invariant end == if 16 * i <= |raw| then |raw| - 16 * i else 0
      invariant HexValue(raw[end..]) == Some(WordsValue(words[..i]))
    {
      var start := if end < 16 then 0 else end - 16;
      ghost var done := words[..i];
      var word := ReadWord(raw, start, end);
      if word.None? { return None; }
      words[i] := word.value;
      NextChunk(raw, start, end, done, words[i]);
      assert words[..i + 1] == done + [words[i]];
      end := start;
    }
    assert words[..words.Length] == words[..] && raw[0..] == raw;
    r := Some(WordsValue(words[..]));
  }

  lemma HexValueEmpty()
    ensures HexValue([]) == Some(0) && WordsValue([]) == 0
  {
  }

  lemma HexValueSnoc(s: Text, c: byte)
    requires HexValue(s).Some?
    ensures HexValue(s + [c])
         == if DecodeNibble(c).None? then None else Some(16 * HexValue(s).value + DecodeNibble(c).value)
  {
    assert (s + [c])[..|s|] == s;
  }

  lemma NibbleDefined(c: byte)
    ensures DecodeNibble(c).Some? <==> IsHexChar(c)
  {
  }

  /** One more nibble of a chunk still fits the word; a bad one spoils the whole text. */
  lemma NextNibble(raw: Text, start: nat, ri: nat)
    requires start <= ri < |raw| && ri - start < 16 && HexValue(raw[start..ri]).Some?
    ensures DecodeNibble(raw[ri]).None? ==> HexValue(raw) == None
    ensures DecodeNibble(raw[ri]).Some? ==>
              var next := 16 * HexValue(raw[start..ri]).value + DecodeNibble(raw[ri]).value;
              HexValue(raw[start..ri + 1]) == Some(next) && next < TWO64
  {
    hide Pow16, DecodeNibble, HexValue;
    assert raw[start..ri + 1] == raw[start..ri] + [raw[ri]];
    HexValueSnoc(raw[start..ri], raw[ri]);
    HexValueDefined(raw);
    HexValueDefined(raw[start..ri + 1]);
    NibbleDefined(raw[ri]);
    Pow16At16();
    Pow16Monotone(ri + 1 - start, 16);
  }

  lemma NextChunk(raw: Text, start: nat, end: nat, done: seq<Word64>, w: Word64)
    requires start <= end <= |raw| && start == if end < 16 then 0 else end - 16
    requires end == if 16 * |done| <= |raw| then |raw| - 16 * |done| else 0
    requires HexValue(raw[start..end]) == Some(w) && HexValue(raw[end..]) == Some(WordsValue(done))
    ensures HexValue(raw[start..]) == Some(WordsValue(done + [w]))
  {
    hide HexValue, WordsValue, Pow16;
    WordsValueAppend(done, w);
    assert raw[start..] == raw[start..end] + raw[end..];
    HexValueAppend(raw[start..end], raw[end..]);
    if start == end {
      assert raw[start..end] == [];
      HexValueEmpty();
    }
  }

  /** `NewHexInt256FromString` */
  method NewHexInt256FromString(input: Text) returns (r: Parsed)
    ensures r == ParseNumber(input)
  {
    var error := CheckNumber(input);
    if error.Some? { return Rejected(error.value); }
    var n := ParseWords(input[2..]);
    r := if n.None? then Rejected(Syntax) else Number(n.value);
  }

  /** `UnmarshalText`: the same, with the empty text read as zero. */
  method UnmarshalText(input: Text) returns (r: Parsed)
    ensures r == if input == [] then Number(0) else ParseNumber(input)
  {
    if input == [] {
      var n := ParseWords([]);
      HexValueEmpty();
      return Number(n.value);
    }
    r := NewHexInt256FromString(input);
  }

  /** A well-formed 256-bit number: prefix, one to 64 hex digits, no superfluous zero. */
  predicate WellFormed(s: Text) {
    HasPrefix(s) && 3 <= |s| <= 66 && IsHex(s[2..]) && (|s| > 3 ==> s[2] != 48)
  }

  lemma AcceptsExactly(s: Text)
    ensures ParseNumber(s).Number? <==> WellFormed(s)
    ensures ParseNumber(s).Number? ==> ParseNumber(s).value < TWO256
  {
    if |s| >= 2 {
      HexValueDefined(s[2..]);
      if |s| <= 66 {
        Pow16Monotone(|s| - 2, 64);
        Pow16At64();
      }
    }
  }

  /** What is wrong with a text that is no number, in the order in which it is looked for. */
  lemma RejectedExactly(s: Text)
    ensures ParseNumber(s) == Rejected(EmptyString) <==> s == []
    ensures ParseNumber(s) == Rejected(MissingPrefix) <==> s != [] && !HasPrefix(s)
    ensures ParseNumber(s) == Rejected(EmptyNumber) <==> HasPrefix(s) && |s| == 2
    ensures ParseNumber(s) == Rejected(LeadingZero) <==> HasPrefix(s) && |s| > 3 && s[2] == 48
    ensures ParseNumber(s) == Rejected(Range) <==> HasPrefix(s) && |s| > 66 && s[2] != 48
    ensures ParseNumber(s) == Rejected(Syntax) <==>
              HasPrefix(s) && 3 <= |s| <= 66 && (|s| > 3 ==> s[2] != 48) && !IsHex(s[2..])
  {
    if |s| >= 2 { HexValueDefined(s[2..]); }
  }

  lemma Pow16Sum(j: nat, k: nat)
    ensures Pow16(j + k) == Pow16(j) * Pow16(k)
  {
    if j > 0 {
      Pow16Sum(j - 1, k);
      assert 16 * (Pow16(j - 1) * Pow16(k)) == (16 * Pow16(j - 1)) * Pow16(k);
    }
  }

  lemma Pow16At64()
    ensures Pow16(64) == TWO256
  {
    Pow16At16();
    Pow16Sum(16, 16);
    Pow16Sum(32, 32);
  }

  lemma {:induction false} HexDigitsValue(n: nat)
    ensures HexValue(HexDigits(n)) == Some(n)
    ensures IsHex(HexDigits(n))
    ensures n > 0 ==> HexDigits(n)[0] != 48
  {
    var s := HexDigits(n);
    if n < 16 {
      assert s[..0] == [];
    } else {
      HexDigitsValue(n / 16);
      assert s[..|s| - 1] == HexDigits(n / 16);
    }
  }

  lemma {:induction false} HexDigitsLength(n: nat, k: nat)
    requires k >= 1
    ensures |HexDigits(n)| <= k <==> n < Pow16(k)
  {
    if n >= 16 && k > 1 {
      HexDigitsLength(n / 16, k - 1);
    } else if n < 16 {
      Pow16Monotone(1, k);
    }
  }

  /** Encoding then parsing returns every number below 2^256. */
  lemma ParseEncode(n: nat)
    requires n < TWO256
    ensures ParseNumber(HexNumber(n)) == Number(n)
  {
    HexDigitsValue(n);
    HexDigitsLength(n, 64);
    HexDigitsLength(n, 1);
    Pow16At64();
    assert HexNumber(n)[2..] == HexDigits(n);
  }

  /** Lower-cased digits without a superfluous zero are the digits of their value. */
  lemma {:induction false} DigitsOfValue(s: Text)
    requires s != [] && IsHex(s) && (|s| > 1 ==> s[0] != 48)
    ensures HexValue(s).Some? && HexDigits(HexValue(s).value) == Lower(s)
    ensures s[0] != 48 ==> HexValue(s).value > 0
  {
    HexValueDefined(s);
    var n := |s| - 1;
    if n == 0 {
      assert HexValue(s[..0]) == Some(0);
    } else {
      DigitsOfValue(s[..n]);
      assert Lower(s) == Lower(s[..n]) + [LowerChar(s[n])];
    }
  }

  /** Parsing then encoding returns the text up to letter and prefix case. */
  lemma EncodeParse(s: Text)
    requires ParseNumber(s).Number?
    ensures HexNumber(ParseNumber(s).value) == PREFIX + Lower(s[2..])
  {
    AcceptsExactly(s);
    DigitsOfValue(s[2..]);
  }

  // ---------------------------------------------------------------- padded bytes

  function Abs(x: int): nat {
    if x < 0 then -x else x
  }

  function BitLen(n: nat): nat {
    if n == 0 then 0 else 1 + BitLen(n / 2)
  }

  /** Little-endian words of n without leading zero words (`big.Int.Bits`). */
  function WordsOf(n: nat): seq<Word64> {
    if n == 0 then [] else [n % TWO64] + WordsOf(n / TWO64)
  }

  function Shift(n: nat, j: nat): nat {
    if j == 0 then n else Shift(n, j - 1) / 256
  }

  /** Byte j of n, counted from the low end. */
  function ByteAt(n: nat, j: nat): byte {
    Shift(n, j) % 256
  }

  lemma {:induction false} ByteLength(n: nat)
    ensures |BytesOf(n)| == (BitLen(n) + 7) / 8
  {
    if n >= 256 {
      ByteLength(n / 256);
      assert BitLen(n) == 4 + BitLen(n / 16) by {
        assert n / 2 / 2 == n / 4 && n / 4 / 2 == n / 8 && n / 8 / 2 == n / 16;
        assert BitLen(n) == 1 + BitLen(n / 2) && BitLen(n / 2) == 1 + BitLen(n / 4);
        assert BitLen(n / 4) == 1 + BitLen(n / 8) && BitLen(n / 8) == 1 + BitLen(n / 16);
      }
      assert BitLen(n / 16) == 4 + BitLen(n / 256) by {
        var m := n / 16;
        assert m / 2 / 2 == m / 4 && m / 4 / 2 == m / 8 && m / 8 / 2 == n / 256;
        assert BitLen(m) == 1 + BitLen(m / 2) && BitLen(m / 2) == 1 + BitLen(m / 4);
        assert BitLen(m / 4) == 1 + BitLen(m / 8) && BitLen(m / 8) == 1 + BitLen(n / 256);
      }
    } else if n > 0 {
      BitLenSmall(n);
      assert BytesOf(n) == BytesOf(0) + [n];
    }
  }

  lemma BitLenSmall(n: nat)
    requires 0 < n < 256
    ensures 1 <= BitLen(n) <= 8
  {
    var a, b := n / 2, n / 4;
    assert a / 2 == b && b / 2 == n / 8 && n / 8 / 2 == n / 16 && n / 16 / 2 == n / 32;
    assert n / 32 / 2 == n / 64 && n / 64 / 2 == n / 128 && n / 128 / 2 == 0;
    assert BitLen(n / 128) <= 1 && BitLen(n / 64) <= 2 && BitLen(n / 32) <= 3;
    assert BitLen(n / 16) <= 4 && BitLen(n / 8) <= 5 && BitLen(b) <= 6 && BitLen(a) <= 7;
  }

  lemma {:induction false} ShiftFirst(n: nat, j: nat)
    ensures Shift(n, j + 1) == Shift(n / 256, j)
  {
    if j > 0 { ShiftFirst(n, j - 1); }
  }

  lemma ShiftWord(n: nat, j: nat)
    ensures Shift(n, j + 8) == Shift(n / TWO64, j)
  {
    ShiftFirst(n, j + 7); ShiftFirst(n / 256, j + 6);
    ShiftFour(n, j + 4);
    ShiftFour(n / 0x1_0000_0000, j);
    assert n / 0x1_0000_0000 / 0x1_0000_0000 == n / TWO64;
  }

  lemma ShiftFour(n: nat, j: nat)
    ensures Shift(n, j + 4) == Shift(n / 0x1_0000_0000, j)
  {
    ShiftFirst(n, j + 3);
    ShiftFirst(n / 256, j + 2);
    ShiftFirst(n / 256 / 256, j + 1);
    ShiftFirst(n / 256 / 256 / 256, j);
    assert n / 256 / 256 / 256 / 256 == n / 0x1_0000_0000;
  }

  /** Bytes above position m do not reach the bytes below it. */
  lemma {:induction false} LowBytes(lo: nat, hi: nat, m: nat, j: nat)
    requires j < m
    ensures ByteAt(lo + hi * Pow256(m), j) == ByteAt(lo, j)
  {
    var p := hi * Pow256(m - 1);
    assert lo + hi * Pow256(m) == lo + 256 * p by { assert hi * (256 * Pow256(m - 1)) == 256 * p; }
    if j > 0 {
      ShiftFirst(lo + 256 * p, j - 1);
      ShiftFirst(lo, j - 1);
      assert (lo + 256 * p) / 256 == lo / 256 + p;
      LowBytes(lo / 256, hi, m - 1, j - 1);
    }
  }

  /** Byte j of word w is byte 8w + j of the number. */
  lemma {:induction false} WordBytes(n: nat, w: nat, j: nat)
    requires w < |WordsOf(n)| && j < 8
    ensures ByteAt(n, 8 * w + j) == ByteAt(WordsOf(n)[w], j)
  {
    if w > 0 {
      ShiftWord(n, 8 * (w - 1) + j);
      WordBytes(n / TWO64, w - 1, j);
    } else {
      Pow256Eight(0);
      LowBytes(n % TWO64, n / TWO64, 8, j);
      assert n == n % TWO64 + n / TWO64 * Pow256(8);
    }
  }

  lemma {:induction false} ZeroBytes(n: nat, j: nat)
    requires j >= 8 * |WordsOf(n)|
    ensures ByteAt(n, j) == 0
  {
    if n == 0 {
      ShiftZero(j);
    } else {
      ShiftWord(n, j - 8);
      ZeroBytes(n / TWO64, j - 8);
    }
  }

  lemma ShiftZero(j: nat)
    ensures Shift(0, j) == 0
  {
  }

  /** The padded minimal bytes, byte by byte from the low end. */
  lemma {:induction false} PaddedByteAt(n: nat, len: nat, j: nat)
    requires |BytesOf(n)| <= len && j < len
    ensures PadLeft(BytesOf(n), len)[len - 1 - j] == ByteAt(n, j)
  {
    if n == 0 {
      ShiftZero(j);
    } else {
      var b := BytesOf(n);
      if j > 0 {
        PaddedByteAt(n / 256, len - 1, j - 1);
        ShiftFirst(n, j - 1);
        assert PadLeft(b, len) == PadLeft(BytesOf(n / 256), len - 1) + [n % 256];
      }
    }
  }

  function U256Of(x: int): nat {
    x % TWO256
  }

  /** The 32-byte two's complement form. */
  function U256BytesOf(x: int): Bytes {
    PadLeft(BytesOf(U256Of(x)), 32)
  }

  function S256Of(x: int): int {
    if x < TWO255 then x else x - TWO256
  }

  class Int256 {
    var value: int

    constructor (value: int)
      ensures this.value == value
    {
      this.value := value;
    }

    /** Masks the receiver in place and returns it. */
    method U256() returns (r: nat)
      modifies this
      ensures r == value == U256Of(old(value))
    {
      value := value % TWO256;
      r := value;
    }

    /** Always 32 bytes, holding the value modulo 2^256; the receiver is masked on the way. */
    method U256Bytes() returns (b: Bytes)
      modifies this
      ensures value == U256Of(old(value))
      ensures b == U256BytesOf(old(value)) && |b| == 32 && ValueOf(b) == U256Of(old(value))
    {
      var masked := U256();
      var fresh256 := new Int256(masked);
      b := fresh256.PaddedBytes(32);
      BytesOfWord(masked);
    }

    method S256() returns (r: int)
      ensures r == S256Of(value)
    {
      if value < TWO255 { return value; }
      r := value - TWO256;
    }

    /** Big-endian absolute value, padded to at least n bytes, never cut. */
    method PaddedBytes(n: nat) returns (b: Bytes)
      ensures b == PadLeft(BytesOf(Abs(value)), n)
    {
      ByteLength(Abs(value));
      if BitLen(Abs(value)) / 8 >= n {
        return BytesOf(Abs(value));
      }
      var ret := new byte[n](i => 0);
      ReadBits(ret);
      b := ret[..];
      forall i | 0 <= i < n ensures b[i] == PadLeft(BytesOf(Abs(value)), n)[i] {
        var j := n - 1 - i;
        PaddedByteAt(Abs(value), n, j);
        if j >= 8 * |WordsOf(Abs(value))| { ZeroBytes(Abs(value), j); }
        assert ret[n - 1 - j] == ByteAt(Abs(value), j);
      }
    }

    /** Fills the buffer from its end with the bytes of the absolute value, word by word and
        byte by byte; bytes above the highest word keep what they held. */
    method ReadBits(buf: array<byte>)
      modifies buf
      ensures forall j :: 0 <= j < buf.Length && j < 8 * |WordsOf(Abs(value))| ==>
                buf[buf.Length - 1 - j] == ByteAt(Abs(value), j)
      ensures forall i :: 0 <= i < buf.Length - 8 * |WordsOf(Abs(value))| ==> buf[i] == old(buf[i])
    {
      ghost var n := Abs(value);
      var l := buf.Length;
      var words := WordsOf(Abs(value));
      for w := 0 to |words|
        invariant l == if 8 * w <= buf.Length then buf.Length - 8 * w else 0
        invariant forall i :: 0 <= i < l ==> buf[i] == old(buf[i])
        invariant forall i :: l <= i < buf.Length ==> buf[i] == ByteAt(n, buf.Length - 1 - i)
      {
        var d: nat := words[w];
        var j := 0;
        ghost var top := l;
        while j < 8 && l > 0
          invariant j <= 8 && 0 <= l == top - j
          invariant d == Shift(words[w], j)
          invariant forall i :: 0 <= i < l ==> buf[i] == old(buf[i])
          invariant forall i :: l <= i < buf.Length ==> buf[i] == ByteAt(n, buf.Length - 1 - i)
        {
          l := l - 1;
          buf[l] := d % 256;
          WordBytes(n, w, j);
          assert buf.Length - 1 - l == 8 * w + j;
          d := d / 256;
          j := j + 1;
        }
      }
      forall j | 0 <= j < buf.Length && j < 8 * |words|
        ensures buf[buf.Length - 1 - j] == ByteAt(n, j)
      {
        var i := buf.Length - 1 - j;
        assert l <= i;
      }
    }
  }

  lemma BytesOfWord(n: nat)
    requires n < TWO256
    ensures |PadLeft(BytesOf(n), 32)| == 32 && ValueOf(PadLeft(BytesOf(n), 32)) == n
  {
    Pow256At32();
    BytesOfLength(n, 32);
    ValueOfBytesOf(n);
    ValueOfPadLeft(BytesOf(n), 32);
  }

  /** Two's complement round trip: reading the bytes of x back as a signed number gives x
      exactly on [-2^255, 2^255), and the bytes are 32 for every x. */
  lemma SignedRoundTrip(x: int)
    ensures |U256BytesOf(x)| == 32
    ensures S256Of(ValueOf(U256BytesOf(x))) == x <==> 0 - TWO255 <= x < TWO255
  {
    hide PadLeft, BytesOf, ValueOf;
    BytesOfWord(U256Of(x));
  }
}
