/** Byte strings, and the two directions between naturals and big-endian bytes
    that the whole signing pipeline rests on. */
module Bytes {

  type byte = x: nat | x < 256

  type Bytes = seq<byte>

  /** A 32-byte word: what Keccak-256 returns and what EIP-712 concatenates. */
  type Word = w: Bytes | |w| == 32 witness seq(32, _ => 0)

  /** Any 32-byte hash function. Keccak-256 is a parameter of every definition that
      hashes; nothing is assumed about it beyond the length of its output. */
  type Hasher = Bytes -> Word

  function Pow256(k: nat): (p: nat)
    ensures p >= 1
  {
    if k == 0 then 1 else 256 * Pow256(k - 1)
  }

  /** Minimal big-endian bytes of n: empty for zero, no leading zero byte.
      Both `big.Int.Bytes` and the recursive `toBinary` of the RLP package. */
  function BytesOf(n: nat): Bytes {
    if n == 0 then [] else BytesOf(n / 256) + [n % 256]
  }

  /** Big-endian value of b, leading zero bytes allowed (`big.Int.SetBytes`). */
  function ValueOf(b: Bytes): nat {
    if b == [] then 0 else 256 * ValueOf(b[..|b| - 1]) + b[|b| - 1]
  }

  function Zeros(k: nat): (z: Bytes)
    ensures |z| == k
  {
    seq(k, _ => 0)
  }

  /** Left-pads b with zero bytes up to length n. */
  function PadLeft(b: Bytes, n: nat): (p: Bytes)
    ensures |p| == if |b| <= n then n else |b|
    ensures |b| < n ==> p[0] == 0
  {
    if |b| <= n then Zeros(n - |b|) + b else b
  }

  lemma {:induction false} ValueOfBytesOf(n: nat)
    ensures ValueOf(BytesOf(n)) == n
  {
    if n != 0 {
      ValueOfBytesOf(n / 256);
      assert BytesOf(n)[..|BytesOf(n)| - 1] == BytesOf(n / 256);
    }
  }

  lemma BytesOfInjective(m: nat, n: nat)
    requires BytesOf(m) == BytesOf(n)
    ensures m == n
  {
    ValueOfBytesOf(m);
    ValueOfBytesOf(n);
  }

  lemma {:induction false} BytesOfHead(n: nat)
    requires n > 0
    ensures BytesOf(n) != [] && BytesOf(n)[0] != 0
  {
    if n >= 256 {
      BytesOfHead(n / 256);
    } else {
      assert BytesOf(n / 256) == [];
    }
  }

  /** A value fits in k bytes exactly when it is below 256^k. */
  lemma {:induction false} BytesOfLength(n: nat, k: nat)
    ensures |BytesOf(n)| <= k <==> n < Pow256(k)
  {
    if n != 0 && k != 0 {
      BytesOfLength(n / 256, k - 1);
    }
  }

  lemma BytesOfLengthMonotone(m: nat, n: nat)
    requires m <= n
    ensures |BytesOf(m)| <= |BytesOf(n)|
  {
    BytesOfLength(n, |BytesOf(n)|);
    BytesOfLength(m, |BytesOf(n)|);
  }

  lemma {:induction false} ValueOfBound(b: Bytes)
    ensures ValueOf(b) < Pow256(|b|)
  {
    if b != [] {
      ValueOfBound(b[..|b| - 1]);
    }
  }

  lemma {:induction false} ValueOfZeros(k: nat, b: Bytes)
    ensures ValueOf(Zeros(k) + b) == ValueOf(b)
    decreases |b|, k
  {
    var z := Zeros(k) + b;
    if b != [] {
      assert z[..|z| - 1] == Zeros(k) + b[..|b| - 1];
      ValueOfZeros(k, b[..|b| - 1]);
    } else if k != 0 {
      assert z[..|z| - 1] == Zeros(k - 1) + b;
      ValueOfZeros(k - 1, b);
    }
  }

  lemma ValueOfPadLeft(b: Bytes, n: nat)
    ensures ValueOf(PadLeft(b, n)) == ValueOf(b)
  {
    if |b| <= n {
      ValueOfZeros(n - |b|, b);
    }
  }

  /** Equal lengths and equal values: equal bytes. */
  lemma {:induction false} ValueOfInjective(a: Bytes, b: Bytes)
    requires |a| == |b| && ValueOf(a) == ValueOf(b)
    ensures a == b
  {
    if a != [] {
      var n := |a| - 1;
      assert ValueOf(a) % 256 == a[n] && ValueOf(b) % 256 == b[n];
      ValueOfInjective(a[..n], b[..n]);
      assert a == a[..n] + [a[n]] && b == b[..n] + [b[n]];
    }
  }

  /** Padding a value back to its original width restores the bytes. */
  lemma PadLeftValueOf(b: Bytes)
    ensures PadLeft(BytesOf(ValueOf(b)), |b|) == b
  {
    var v := ValueOf(b);
    ValueOfBound(b);
    BytesOfLength(v, |b|);
    ValueOfBytesOf(v);
    ValueOfPadLeft(BytesOf(v), |b|);
    ValueOfInjective(PadLeft(BytesOf(v), |b|), b);
  }

  /** Big-endian: bytes in front weigh more, and one byte is worth itself. */
  lemma {:induction false} BigEndian(a: Bytes, b: Bytes)
    ensures ValueOf(a + b) == ValueOf(a) * Pow256(|b|) + ValueOf(b)
    ensures |b| == 1 ==> ValueOf(b) == b[0]
  {
    if b == [] {
      assert a + b == a;
      assert ValueOf(a) * Pow256(0) == ValueOf(a);
    } else {
      var n := |b| - 1;
      BigEndian(a, b[..n]);
      assert (a + b)[..|a + b| - 1] == a + b[..n];
      Distribute(ValueOf(a), Pow256(n), ValueOf(b[..n]));
    }
  }

  lemma Distribute(a: nat, p: nat, b: nat)
    ensures 256 * (a * p + b) == a * (256 * p) + 256 * b
  {
  }

  lemma Pow256Two(k: nat)
    ensures Pow256(k + 2) == 65536 * Pow256(k)
  {
  }

  lemma Pow256Eight(k: nat)
    ensures Pow256(k + 8) == 0x1_0000_0000_0000_0000 * Pow256(k)
  {
    Pow256Two(k); Pow256Two(k + 2); Pow256Two(k + 4); Pow256Two(k + 6);
  }

  lemma Pow256At32()
    ensures Pow256(32) == 0x1_0000_0000_0000_0000_0000_0000_0000_0000_0000_0000_0000_0000_0000_0000_0000_0000
  {
    Pow256Eight(0); Pow256Eight(8); Pow256Eight(16); Pow256Eight(24);
  }
}
