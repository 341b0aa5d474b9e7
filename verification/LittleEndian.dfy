/** Little-endian numbers in bytes, and reading them back. */
module LittleEndian {
  import opened Digits
  import opened Words

  function Le32(n: Word32): (b: seq<Byte>)
    ensures |b| == 4
  {
    [n % 256, n / 256 % 256, n / 65536 % 256, n / 16777216]
  }

  function U32(a: Byte, b: Byte, c: Byte, d: Byte): (n: Word32)
  {
    a + 256 * b + 65536 * c + 16777216 * d
  }

  /** Four little-endian bytes at position i. */
  function U32At(raw: seq<Byte>, i: nat): Word32
    requires i + 4 <= |raw|
  {
    U32(raw[i], raw[i + 1], raw[i + 2], raw[i + 3])
  }

  function Le64(n: Word64): (b: seq<Byte>)
    ensures |b| == 8
  {
    Le32(n % 0x1_0000_0000) + Le32(n / 0x1_0000_0000)
  }

  function U64At(raw: seq<Byte>, i: nat): Word64
    requires i + 8 <= |raw|
  {
    U32At(raw, i) + U32At(raw, i + 4) * 0x1_0000_0000
  }

  /** Two's complement. */
  function Unsigned32(n: Int32): Word32 { n % 0x1_0000_0000 }

  function Signed32(n: Word32): Int32 { if n < 0x8000_0000 then n else n - 0x1_0000_0000 }

  function Unsigned64(n: Int64): Word64 { n % 0x1_0000_0000_0000_0000 }

  function Signed64(n: Word64): Int64
  {
    if n < 0x8000_0000_0000_0000 then n else n - 0x1_0000_0000_0000_0000
  }

  lemma SignedUnsigned32(n: Int32)
    ensures Signed32(Unsigned32(n)) == n
  {
  }

  lemma SignedUnsigned64(n: Int64)
    ensures Signed64(Unsigned64(n)) == n
  {
  }

  // Reading back.

  /** The bytes at position i. */
  predicate Holds(raw: seq<Byte>, i: nat, b: seq<Byte>)
  {
    i + |b| <= |raw| && raw[i..i + |b|] == b
  }

  lemma HoldsConcat(raw: seq<Byte>, i: nat, a: seq<Byte>, b: seq<Byte>)
    ensures Holds(raw, i, a + b) <==> Holds(raw, i, a) && Holds(raw, i + |a|, b)
  {
    if i + |a + b| <= |raw| {
      var whole := raw[i..i + |a + b|];
      assert whole == raw[i..i + |a|] + raw[i + |a|..i + |a| + |b|];
      assert whole[..|a|] == raw[i..i + |a|] && whole[|a|..] == raw[i + |a|..i + |a| + |b|];
      assert (a + b)[..|a|] == a && (a + b)[|a|..] == b;
    }
  }

  lemma HoldsAt(raw: seq<Byte>, i: nat, b: seq<Byte>, k: nat)
    requires Holds(raw, i, b) && k < |b|
    ensures raw[i + k] == b[k]
  {
    assert raw[i..i + |b|][k] == raw[i + k];
  }

  lemma Split32(n: Word32)
    ensures U32(n % 256, n / 256 % 256, n / 65536 % 256, n / 16777216) == n
  {
    assert n / 65536 == n / 256 / 256 && n / 16777216 == n / 256 / 256 / 256;
  }

  lemma Read32(raw: seq<Byte>, i: nat, n: Word32)
    requires Holds(raw, i, Le32(n))
    ensures U32At(raw, i) == n
  {
    HoldsAt(raw, i, Le32(n), 0);
    HoldsAt(raw, i, Le32(n), 1);
    HoldsAt(raw, i, Le32(n), 2);
    HoldsAt(raw, i, Le32(n), 3);
    Split32(n);
  }

  lemma Read64(raw: seq<Byte>, i: nat, n: Word64)
    requires Holds(raw, i, Le64(n))
    ensures U64At(raw, i) == n
  {
    HoldsConcat(raw, i, Le32(n % 0x1_0000_0000), Le32(n / 0x1_0000_0000));
    Read32(raw, i, n % 0x1_0000_0000);
    Read32(raw, i + 4, n / 0x1_0000_0000);
  }

  // Which byte is which.

  function Pow2(n: nat): (p: nat)
    ensures p >= 1
  {
    if n == 0 then 1 else 2 * Pow2(n - 1)
  }

  lemma {:induction false} Pow2Add(a: nat, b: nat)
    ensures Pow2(a + b) == Pow2(a) * Pow2(b)
  {
    if a > 0 {
      Pow2Add(a - 1, b);
      Double(Pow2(a - 1), Pow2(b));
    }
  }

  lemma Double(x: nat, y: nat)
    ensures 2 * (x * y) == (2 * x) * y
  {
  }

  lemma Pow2Byte(n: nat)
    ensures Pow2(n + 8) == 256 * Pow2(n)
  {
    assert Pow2(3) == 8;
    Pow2Add(3, 5);
    assert Pow2(5) == 32;
    Pow2Add(n, 8);
  }

  lemma NoBits()
    ensures Pow2(0) == 1
  {
  }

  /** Byte k of a number stored with the low-order byte first. */
  lemma LowFirst32(n: Word32, k: nat)
    requires k < 4
    ensures Le32(n)[k] == n / Pow2(8 * k) % 256
  {
    hide Pow2;
    ByteWeights();
    if k == 3 {
      assert n / 0x100_0000 < 256;
    }
  }

  lemma ByteWeights()
    ensures Pow2(0) == 1 && Pow2(8) == 0x100 && Pow2(16) == 0x1_0000 && Pow2(24) == 0x100_0000
    ensures Pow2(32) == 0x1_0000_0000 && Pow2(64) == TWO_64
  {
    hide Pow2;
    NoBits();
    Pow2Byte(0);
    Pow2Byte(8);
    Pow2Byte(16);
    Pow2Byte(24);
    Pow2Add(32, 32);
  }

  /** A byte of a number is not changed by what lies above it. */
  lemma ByteBelow(x: nat, p: nat, c: nat)
    requires p > 0 && c > 0
    ensures 0 < p * (256 * c) && x % (p * (256 * c)) / p % 256 == x / p % 256
  {
    var y := x / p % (256 * c);
    DivTwice(x, p, 256 * c);
    DivUnique(x % (p * (256 * c)), p, y, x % p);
    DivTwice(x / p, 256, c);
    DivUnique(y, 256, x / p / 256 % c, x / p % 256);
  }

  lemma LowFirst64(n: Word64, k: nat)
    requires k < 8
    ensures Le64(n)[k] == n / Pow2(8 * k) % 256
  {
    hide Pow2, Le32;
    ByteWeights();
    if k < 4 {
      LowFirst32(n % 0x1_0000_0000, k);
      Weights(k, 4);
      ByteBelow(n, Pow2(8 * k), Pow2(24 - 8 * k));
    } else {
      LowFirst32(n / 0x1_0000_0000, k - 4);
      Pow2Add(32, 8 * (k - 4));
      DivTwice(n, 0x1_0000_0000, Pow2(8 * (k - 4)));
    }
  }

  /** The weight of the highest byte, in terms of another. */
  lemma Weights(k: nat, bytes: nat)
    requires k < bytes
    ensures Pow2(8 * k) * (256 * Pow2(8 * (bytes - 1) - 8 * k)) == Pow2(8 * bytes)
  {
    hide Pow2;
    Pow2Byte(8 * (bytes - 1) - 8 * k);
    Pow2Add(8 * k, 8 * bytes - 8 * k);
  }

  /** Bytes as one binary number, the high-order bit of each byte first. */
  function Binary(b: seq<Byte>): nat
  {
    if b == [] then 0 else 256 * Binary(b[..|b| - 1]) + b[|b| - 1]
  }

  /** A byte string behind another shifts it by its own bits. */
  lemma {:induction false} BinaryConcat(a: seq<Byte>, b: seq<Byte>)
    ensures Binary(a + b) == Binary(a) * Pow2(8 * |b|) + Binary(b)
  {
    hide Pow2;
    if b == [] {
      assert a + b == a;
      NoShift();
    } else {
      var b', d := b[..|b| - 1], b[|b| - 1];
      BinaryConcat(a, b');
      assert (a + b)[..|a + b| - 1] == a + b';
      Pow2Byte(8 * |b'|);
      Shift(Binary(a), Pow2(8 * |b'|), Binary(b'), d);
    }
  }

  lemma Shift(x: nat, p: nat, y: nat, d: nat)
    ensures 256 * (x * p + y) + d == x * (256 * p) + (256 * y + d)
  {
  }

  lemma NoShift()
    ensures Pow2(0) == 1 && Binary([]) == 0
  {
  }
}
