/**
 What the padding and the digest of MD5 are, bit by bit: RFC 1321, sections 3.1 to 3.3 and 3.5, with
 bytes read as binary numbers.
 */
module Md5Padding {
  import opened LittleEndian
  import opened Md5
  import opened Words

  /** The padding is a one bit and then zeros. */
  lemma {:induction false} PaddingIsOneBit(k: nat)
    requires k >= 1
    ensures |PadBytes(k)| == k && Binary(PadBytes(k)) == Pow2(8 * k - 1)
  {
    if k == 1 {
      assert PadBytes(1) == [0x80] && [0x80][..0] == [];
      assert Pow2(7) == 2 * (2 * (2 * Pow2(4))) && Pow2(4) == 16;
    } else {
      PaddingIsOneBit(k - 1);
      assert PadBytes(k)[..k - 1] == PadBytes(k - 1);
      Pow2Byte(8 * k - 9);
    }
  }

  /**
   Sections 3.1 and 3.2: behind the message come a one bit and zeros, at least 1 byte and at most 64, up to 8 bytes
   short of a block; and then its length in bits modulo 2^64, low-order byte first.
   */
  lemma PaddedIsRfc(m: seq<Byte>)
    ensures var k := PadLength(|m|);
            && 1 <= k <= 64 && (|m| + k) % 64 == 56 && |Padded(m)| == |m| + k + 8
            && Binary(Padded(m)[..|m| + k]) == Binary(m) * Pow2(8 * k) + Pow2(8 * k - 1)
            && Padded(m)[..|m|] == m
    ensures forall j :: 0 <= j < 8 ==> Padded(m)[|m| + PadLength(|m|) + j] == 8 * |m| / Pow2(8 * j) % 256
  {
    hide Pow2, Binary, PadBytes, PadLength, Le64, Lengthened;
    var k := PadLength(|m|);
    assert Padded(m)[..|m| + k] == m + PadBytes(k);
    BinaryConcat(m, PadBytes(k));
    PaddingIsOneBit(k);
    forall j | 0 <= j < 8 ensures Padded(m)[|m| + k + j] == 8 * |m| / Pow2(8 * j) % 256 {
      LengthByte(|m|, j);
    }
  }

  /** The bytes of a length, taken modulo 2^64. */
  lemma LengthByte(n: nat, j: nat)
    requires j < 8
    ensures Le64(Lengthened(0, n))[j] == 8 * n / Pow2(8 * j) % 256
  {
    hide Pow2, Le64;
    LowFirst64(Lengthened(0, n), j);
    ByteWeights();
    Weights(j, 8);
    ByteBelow(8 * n, Pow2(8 * j), Pow2(56 - 8 * j));
  }

  // The digest.

  function WordAt(c: Chain, i: nat): Word32
    requires i < 4
  {
    if i == 0 then c.a else if i == 1 then c.b else if i == 2 then c.c else c.d
  }

  /** Section 3.3: the bytes of the first chaining value. */
  lemma StartBytes()
    ensures ChainBytes(START) ==
            [0x01, 0x23, 0x45, 0x67, 0x89, 0xab, 0xcd, 0xef, 0xfe, 0xdc, 0xba, 0x98, 0x76, 0x54, 0x32, 0x10]
  {
  }

  /** The chaining value after some blocks; the last one comes in last. */
  function Chained(f: (Chain, Block) -> Chain, blocks: seq<Block>): Chain
  {
    if blocks == [] then START else f(Chained(f, blocks[..|blocks| - 1]), blocks[|blocks| - 1])
  }

  function Flat(blocks: seq<Block>): (m: seq<Byte>)
    ensures |m| == 64 * |blocks|
  {
    if blocks == [] then [] else Flat(blocks[..|blocks| - 1]) + blocks[|blocks| - 1]
  }

  lemma {:induction false} FoldIsChained(f: (Chain, Block) -> Chain, blocks: seq<Block>)
    ensures Fold(f, START, Flat(blocks)) == Chained(f, blocks)
  {
    hide Fold;
    if blocks == [] {
      FoldNothing(f, START);
    } else {
      var before, b := blocks[..|blocks| - 1], blocks[|blocks| - 1];
      FoldIsChained(f, before);
      FoldConcat(f, START, Flat(before), b);
      FoldOne(f, Chained(f, before), b);
    }
  }

  lemma FoldNothing(f: (Chain, Block) -> Chain, c: Chain)
    ensures Fold(f, c, []) == c
  {
  }

  lemma FoldOne(f: (Chain, Block) -> Chain, c: Chain, b: Block)
    ensures Fold(f, c, b) == f(c, b)
  {
    assert b[..64] == b && b[64..] == [];
  }

  /**
   Sections 3.4 and 3.5: the digest is the chaining value after the blocks of the padded message, taken in
   order, low-order byte of each word first.
   */
  lemma DigestIsRfc(f: (Chain, Block) -> Chain, m: seq<Byte>, blocks: seq<Block>)
    requires Flat(blocks) == Padded(m)
    ensures |Digest(f, m)| == 16
    ensures forall k :: 0 <= k < 16 ==>
              Digest(f, m)[k] == WordAt(Chained(f, blocks), k / 4) / Pow2(8 * (k % 4)) % 256
  {
    hide Pow2, Le32, Fold, Padded, Chained;
    FoldIsChained(f, blocks);
    var c := Chained(f, blocks);
    forall k | 0 <= k < 16 ensures ChainBytes(c)[k] == WordAt(c, k / 4) / Pow2(8 * (k % 4)) % 256 {
      ChainByte(c, k);
    }
  }

  lemma ChainByte(c: Chain, k: nat)
    requires k < 16
    ensures ChainBytes(c)[k] == WordAt(c, k / 4) / Pow2(8 * (k % 4)) % 256
  {
    hide Pow2, Le32;
    LowFirst32(WordAt(c, k / 4), k % 4);
  }

  /** The padded message is made of blocks. */
  lemma {:induction false} Blocks(m: seq<Byte>) returns (blocks: seq<Block>)
    requires |m| % 64 == 0
    ensures Flat(blocks) == m
  {
    if m == [] {
      blocks := [];
    } else {
      var before := Blocks(m[..|m| - 64]);
      var last: Block := m[|m| - 64..];
      blocks := before + [last];
      assert blocks[..|blocks| - 1] == before;
      assert m == m[..|m| - 64] + last;
    }
  }
}
