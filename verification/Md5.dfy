/**
 The buffered MD5 of bson-md5.c against the one-shot definition of RFC 1321, sections 3.1 to
 3.4. The block function is a parameter: everything here holds whatever it computes.
 */
module Md5 {
  import opened LittleEndian
  import opened Words

  datatype Chain = Chain(a: Word32, b: Word32, c: Word32, d: Word32)

  const START := Chain(0x6745_2301, 0xefcd_ab89, 0x98ba_dcfe, 0x1032_5476)

  type Block = b: seq<Byte> | |b| == 64 witness seq(64, _ => 0)

  // The one-shot definition.

  /** The block function over all blocks of some bytes, in order; an unfinished last block is not used. */
  function Fold(f: (Chain, Block) -> Chain, c: Chain, m: seq<Byte>): Chain
    decreases |m|
  {
    if |m| < 64 then c else Fold(f, f(c, m[..64]), m[64..])
  }

  /** Section 3.1: a one bit, and zeros up to 56 bytes mod 64. */
  function PadLength(n: nat): (k: nat)
    ensures 1 <= k <= 64 && (n + k) % 64 == 56
  {
    if n % 64 < 56 then 56 - n % 64 else 120 - n % 64
  }

  function PadBytes(k: nat): (pad: seq<Byte>)
    requires k >= 1
    ensures |pad| == k
  {
    [0x80] + seq(k - 1, _ => 0)
  }

  /** Sections 3.1 and 3.2: the padding, and the length in bits modulo 2^64, low word first. */
  function Padded(m: seq<Byte>): seq<Byte>
  {
    m + PadBytes(PadLength(|m|)) + Le64(Lengthened(0, |m|))
  }

  /** A length in bits, n bytes later, modulo 2^64. */
  function Lengthened(bits: Word64, n: nat): Word64 { (bits + 8 * n) % TWO_64 }

  function ChainBytes(c: Chain): (b: seq<Byte>)
    ensures |b| == 16
  {
    Le32(c.a) + Le32(c.b) + Le32(c.c) + Le32(c.d)
  }

  /** Sections 3.3 to 3.5: the digest of a message. */
  function Digest(f: (Chain, Block) -> Chain, m: seq<Byte>): seq<Byte>
  {
    ChainBytes(Fold(f, START, Padded(m)))
  }

  // The running state.

  /** The chaining value, the length in bits, and the bytes that wait for their block to fill up. */
  datatype Running = Running(chain: Chain, bits: Word64, waiting: seq<Byte>)

  predicate Proper(r: Running) { |r.waiting| < 64 && r.bits % 512 == 8 * |r.waiting| }

  const EMPTY := Running(START, 0, [])

  /** The bytes of the last block, if it is unfinished. */
  function Rest(m: seq<Byte>): (r: seq<Byte>)
    ensures |r| == |m| % 64
  {
    m[|m| - |m| % 64..]
  }

  /** What appending data comes to. */
  function Absorb(f: (Chain, Block) -> Chain, r: Running, data: seq<Byte>): Running
  {
    Running(Fold(f, r.chain, r.waiting + data), Lengthened(r.bits, |data|), Rest(r.waiting + data))
  }

  function AbsorbAll(f: (Chain, Block) -> Chain, r: Running, chunks: seq<seq<Byte>>): Running
    decreases |chunks|
  {
    if chunks == [] then r else AbsorbAll(f, Absorb(f, r, chunks[0]), chunks[1..])
  }

  function Joined(chunks: seq<seq<Byte>>): seq<Byte>
  {
    if chunks == [] then [] else chunks[0] + Joined(chunks[1..])
  }

  // Chunk independence.

  lemma {:induction false} FoldConcat(f: (Chain, Block) -> Chain, c: Chain, a: seq<Byte>, b: seq<Byte>)
    requires |a| % 64 == 0
    ensures Fold(f, c, a + b) == Fold(f, Fold(f, c, a), b)
    decreases |a|
  {
    if |a| < 64 {
      assert a + b == b;
    } else {
      assert (a + b)[..64] == a[..64] && (a + b)[64..] == a[64..] + b;
      FoldConcat(f, f(c, a[..64]), a[64..], b);
    }
  }

  /** Only the full blocks matter to the chaining value. */
  lemma FoldWithoutRest(f: (Chain, Block) -> Chain, c: Chain, m: seq<Byte>)
    ensures Fold(f, c, m) == Fold(f, c, m[..|m| - |m| % 64])
  {
    var full := m[..|m| - |m| % 64];
    assert m == full + Rest(m);
    FoldConcat(f, c, full, Rest(m));
  }

  /** Folding some bytes, and then more together with what was left over, is folding all of them. */
  lemma FoldOn(f: (Chain, Block) -> Chain, c: Chain, m: seq<Byte>, more: seq<Byte>)
    ensures Fold(f, Fold(f, c, m), Rest(m) + more) == Fold(f, c, m + more)
    ensures Rest(Rest(m) + more) == Rest(m + more)
  {
    var full := m[..|m| - |m| % 64];
    assert m + more == full + (Rest(m) + more);
    FoldWithoutRest(f, c, m);
    FoldConcat(f, c, full, Rest(m) + more);
    RestOf(full, Rest(m) + more);
  }

  lemma RestOf(full: seq<Byte>, more: seq<Byte>)
    requires |full| % 64 == 0
    ensures Rest(full + more) == Rest(more)
  {
    assert |full + more| % 64 == |more| % 64;
  }

  /** Two appends are one append of both. */
  lemma AbsorbTwice(f: (Chain, Block) -> Chain, r: Running, a: seq<Byte>, b: seq<Byte>)
    ensures Absorb(f, Absorb(f, r, a), b) == Absorb(f, r, a + b)
  {
    FoldOn(f, r.chain, r.waiting + a, b);
    assert r.waiting + a + b == r.waiting + (a + b);
    SumWraps(r.bits, 8 * |a|, 8 * |b|);
  }

  lemma SumWraps(x: nat, y: nat, z: nat)
    ensures ((x + y) % TWO_64 + z) % TWO_64 == (x + (y + z)) % TWO_64
  {
    var q := (x + y) / TWO_64;
    assert (x + y) % TWO_64 + z == x + (y + z) - q * TWO_64;
  }

  /** However a message is split into appends, the state afterwards is that of one append. */
  lemma {:induction false} ChunkIndependence(f: (Chain, Block) -> Chain, r: Running, chunks: seq<seq<Byte>>)
    requires Proper(r)
    ensures AbsorbAll(f, r, chunks) == Absorb(f, r, Joined(chunks))
    decreases |chunks|
  {
    if chunks == [] {
      AbsorbNothing(f, r);
    } else {
      AbsorbProper(f, r, chunks[0]);
      ChunkIndependence(f, Absorb(f, r, chunks[0]), chunks[1..]);
      AbsorbTwice(f, r, chunks[0], Joined(chunks[1..]));
    }
  }

  lemma AbsorbNothing(f: (Chain, Block) -> Chain, r: Running)
    requires Proper(r)
    ensures Absorb(f, r, []) == r
  {
    assert r.waiting + [] == r.waiting;
  }

  lemma AbsorbProper(f: (Chain, Block) -> Chain, r: Running, data: seq<Byte>)
    requires Proper(r)
    ensures Proper(Absorb(f, r, data))
  {
    var n := |r.waiting + data|;
    BitsOf(r.bits, |r.waiting|, |data|);
  }

  lemma BitsOf(bits: nat, waiting: nat, more: nat)
    requires bits % 512 == 8 * waiting
    ensures (bits + 8 * more) % TWO_64 % 512 == 8 * ((waiting + more) % 64)
  {
    var total := bits + 8 * more;
    assert total == bits / 512 * 512 + 8 * (waiting + more);
    var q := (waiting + more) / 64;
    assert total == (bits / 512 + q) * 512 + 8 * ((waiting + more) % 64);
    var w := total / TWO_64;
    assert total % TWO_64 == (bits / 512 + q - w * 0x80_0000_0000_0000) * 512 + 8 * ((waiting + more) % 64);
  }

  // The end.

  /** Appending the padding and the length leaves the digest as the chaining value. */
  lemma FinishIsRfc(f: (Chain, Block) -> Chain, m: seq<Byte>)
    ensures var r := Absorb(f, EMPTY, m);
            var pad := PadBytes(PadLength(|m|));
            ChainBytes(Absorb(f, Absorb(f, r, pad), Le64(r.bits)).chain) == Digest(f, m)
  {
    var pad, length := PadBytes(PadLength(|m|)), Le64(Lengthened(0, |m|));
    AbsorbTwice(f, EMPTY, m, pad);
    AbsorbTwice(f, EMPTY, m + pad, length);
    assert [] + (m + pad + length) == Padded(m);
  }

  /** The state after a message: its full blocks folded, its length, and its rest. */
  lemma AfterMessage(f: (Chain, Block) -> Chain, m: seq<Byte>)
    ensures Absorb(f, EMPTY, m) == Running(Fold(f, START, m), Lengthened(0, |m|), Rest(m))
  {
    hide Fold, Rest, Lengthened;
    assert [] + m == m;
  }
}
