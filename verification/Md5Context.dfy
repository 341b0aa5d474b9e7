/** bson_md5_t as an object, proved against the one-shot definition in module Md5. */
module Md5Context {
  import opened LittleEndian
  import opened Md5
  import opened Words

  /** The two words of the bit count, with the carry between them, count modulo 2^64. */
  lemma CountCarries(low: Word32, high: Word32, n: nat)
    requires n < 0x8000_0000
    ensures var nbits := 8 * n % TWO_32;
            var newLow := (low + nbits) % TWO_32;
            var newHigh := (high + n / 0x2000_0000) % TWO_32;
            var carried := if newLow < nbits then (newHigh + 1) % TWO_32 else newHigh;
            carried * TWO_32 + newLow == (high * TWO_32 + low + 8 * n) % TWO_64
  {
    var q, nbits := n / 0x2000_0000, 8 * n % TWO_32;
    assert 8 * n == q * TWO_32 + nbits;
    var carry := if low + nbits >= TWO_32 then 1 else 0;
    assert (low + nbits) % TWO_32 == low + nbits - carry * TWO_32;
    HighWord(high, q, carry, (low + nbits) % TWO_32);
  }

  lemma HighWord(high: Word32, q: nat, carry: nat, low: Word32)
    requires q < 4 && carry <= 1
    ensures var newHigh := (high + q) % TWO_32;
            (if carry == 1 then (newHigh + 1) % TWO_32 else newHigh) * TWO_32 + low
            == ((high + q + carry) * TWO_32 + low) % TWO_64
  {
    var sum := high + q + carry;
    var w := if sum >= TWO_32 then 1 else 0;
    assert sum % TWO_32 == sum - w * TWO_32;
    assert (sum * TWO_32 + low) % TWO_64 == (sum - w * TWO_32) * TWO_32 + low by {
      assert 0 <= (sum - w * TWO_32) * TWO_32 + low < TWO_64;
      assert sum * TWO_32 + low == (sum - w * TWO_32) * TWO_32 + low + w * TWO_64;
    }
  }

  lemma ModShift(a: nat, k: int)
    requires a + 64 * k >= 0
    ensures (a + 64 * k) % 64 == a % 64
  {
  }

  /** The place in the buffer moves on by the bytes counted. */
  lemma OffsetMoves(count: Word32, n: nat)
    requires count % 8 == 0
    ensures var c := (count + 8 * n % TWO_32) % TWO_32;
            c % 8 == 0 && c / 8 % 64 == (count / 8 % 64 + n) % 64
  {
    var t := count + 8 * n % TWO_32;
    var wraps := 8 * n / TWO_32 + t / TWO_32;
    CountedBytes(count / 8, n, wraps, t % TWO_32);
  }

  lemma CountedBytes(bytes: nat, n: nat, wraps: nat, c: nat)
    requires c == 8 * bytes + 8 * n - wraps * TWO_32
    ensures c % 8 == 0 && c / 8 % 64 == (bytes % 64 + n) % 64
  {
    var k := bytes / 64 - wraps * 0x80_0000;
    assert c == 8 * (bytes % 64 + n + 64 * k);
    ModShift(bytes % 64 + n, k);
  }

  class Context {
    const block: (Chain, Block) -> Chain
    var low: Word32
    var high: Word32
    var abcd: Chain
    const buf: array<Byte>

    predicate Valid()
      reads this
    {
      buf.Length == 64 && low % 8 == 0
    }

    function Offset(): (offset: nat)
      reads `low
      ensures offset < 64
    {
      low / 8 % 64
    }

    function View(): Running
      requires Valid()
      reads this, buf
    {
      Running(abcd, high * TWO_32 + low, buf[..Offset()])
    }

    /** bson_md5_init. */
    constructor (f: (Chain, Block) -> Chain)
      ensures Valid() && fresh(buf) && block == f && View() == EMPTY
    {
      block := f;
      low, high := 0, 0;
      abcd := START;
      buf := new Byte[64](_ => 0);
    }

    method Process(data: Block)
      requires Valid()
      modifies this`abcd
      ensures abcd == block(old(abcd), data)
    {
      abcd := block(abcd, data);
    }

    /** memcpy into the buffer. */
    method Fill(at: nat, data: seq<Byte>)
      requires Valid() && at + |data| <= 64
      modifies buf
      ensures buf[at..at + |data|] == data
      ensures buf[..at] == old(buf[..at])
    {
      var i := 0;
      while i < |data|
        invariant 0 <= i <= |data|
        invariant forall k :: 0 <= k < i ==> buf[at + k] == data[k]
        invariant forall k :: 0 <= k < at ==> buf[k] == old(buf[k])
      {
        buf[at + i] := data[i];
        i := i + 1;
      }
    }

    /** The message length. */
    method Count(nbytes: nat)
      requires Valid() && nbytes < 0x8000_0000
      modifies this`low, this`high
      ensures Valid() && high * TWO_32 + low == Lengthened(old(high) * TWO_32 + old(low), nbytes)
      ensures Offset() == (old(Offset()) + nbytes) % 64
    {
      CountCarries(low, high, nbytes);
      var nbits := nbytes * 8 % TWO_32;
      high := (high + nbytes / 0x2000_0000) % TWO_32;
      low := (low + nbits) % TWO_32;
      if low < nbits {
        high := (high + 1) % TWO_32;
      }
      OffsetMoves(old(low), nbytes);
    }

    /** The full blocks, straight from the data, and the start of an unfinished one. */
    method AppendBlocks(data: seq<Byte>, from: nat)
      requires Valid() && from <= |data|
      modifies this`abcd, buf
      ensures abcd == Fold(block, old(abcd), data[from..])
      ensures buf[..|data[from..]| % 64] == Rest(data[from..])
    {
      var p, left := from, |data| - from;
      ghost var goal := Fold(block, abcd, data[from..]);
      while left >= 64
        invariant from <= p <= |data| && left == |data| - p
        invariant Fold(block, abcd, data[p..]) == goal && Rest(data[p..]) == Rest(data[from..])
      {
        FirstBlock([], data[p..], 64);
        assert [] + data[p..] == data[p..] && data[p..][64..] == data[p + 64..];
        assert [] + data[p..][..64] == data[p..p + 64];
        Process(data[p..p + 64]);
        p, left := p + 64, left - 64;
      }
      if left != 0 {
        Fill(0, data[p..]);
      }
      assert Rest(data[from..]) == data[p..];
    }

    /** An initial partial block: the buffer is filled up and processed, or all of the data is put into it. */
    method FillPartial(data: seq<Byte>, offset: nat) returns (p: nat, full: bool)
      requires Valid() && 0 < offset < 64
      modifies this`abcd, buf
      ensures var waiting := old(buf[..offset]);
              full == (offset + |data| >= 64)
              && (full ==> p == 64 - offset && abcd == block(old(abcd), waiting + data[..p]))
              && (!full ==> buf[..offset + |data|] == waiting + data && abcd == old(abcd))
    {
      var copy := if offset + |data| > 64 then 64 - offset else |data|;
      Fill(offset, data[..copy]);
      assert buf[..offset + copy] == buf[..offset] + buf[offset..offset + copy];
      full := offset + copy >= 64;
      p := copy;
      if full {
        assert buf[..64] == buf[..];
        Process(buf[..]);
      }
    }

    /** bson_md5_append. */
    method Append(data: seq<Byte>)
      requires Valid() && |data| < 0x8000_0000
      modifies this, buf
      ensures Valid() && View() == Absorb(block, old(View()), data)
    {
      hide Fold, Rest, Lengthened, Offset;
      var p, offset := 0, Offset();
      ghost var waiting := buf[..offset];
      if |data| <= 0 {
        NothingAppended();
        return;
      }
      Count(|data|);
      Waiting(waiting, data);
      if offset != 0 {
        var full;
        p, full := FillPartial(data, offset);
        if !full {
          return;
        }
      }
      AppendBlocks(data, p);
    }

    lemma NothingAppended()
      requires Valid()
      ensures Absorb(block, View(), []) == View()
    {
      AbsorbNothing(block, View());
    }

    /** What becomes of the bytes that wait: they fill a block, or wait on, or there are none. */
    lemma Waiting(waiting: seq<Byte>, data: seq<Byte>)
      requires |waiting| < 64
      ensures var all, p := waiting + data, if waiting == [] then 0 else 64 - |waiting|;
              if waiting != [] && |all| < 64 then
                Rest(all) == all && Fold(block, abcd, all) == abcd && (|waiting| + |data|) % 64 == |all|
              else
                && p <= |data| && Rest(all) == Rest(data[p..]) && (|waiting| + |data|) % 64 == |data[p..]| % 64
                && Fold(block, abcd, all) ==
                   Fold(block, if waiting == [] then abcd else block(abcd, waiting + data[..p]), data[p..])
    {
      hide Fold;
      var all := waiting + data;
      if waiting == [] {
        assert all == data == data[0..];
      } else if |all| < 64 {
        Unfilled(waiting, data);
      } else {
        var p := 64 - |waiting|;
        FirstBlock(waiting, data, p);
        ModShift(|data[p..]|, 1);
      }
    }

    /** A first block of what waits and what comes. */
    lemma FirstBlock(waiting: seq<Byte>, data: seq<Byte>, copy: nat)
      requires copy <= |data| && |waiting| + copy == 64
      ensures Fold(block, abcd, waiting + data) == Fold(block, block(abcd, waiting + data[..copy]), data[copy..])
      ensures Rest(waiting + data) == Rest(data[copy..])
    {
      assert (waiting + data)[..64] == waiting + data[..copy] && (waiting + data)[64..] == data[copy..];
      assert waiting + data == (waiting + data[..copy]) + data[copy..];
      RestOf(waiting + data[..copy], data[copy..]);
    }

    lemma Unfilled(waiting: seq<Byte>, data: seq<Byte>)
      requires |waiting + data| < 64
      ensures Rest(waiting + data) == waiting + data && Fold(block, abcd, waiting + data) == abcd
    {
    }

    /** The bytes of a word, lowest first. */
    method PutWord(digest: array<Byte>, at: nat, word: Word32)
      requires at + 4 <= digest.Length
      modifies digest
      ensures digest[at..at + 4] == Le32(word)
      ensures forall k :: 0 <= k < digest.Length && !(at <= k < at + 4) ==> digest[k] == old(digest[k])
    {
      digest[at] := word % 256;
      digest[at + 1] := word / 256 % 256;
      digest[at + 2] := word / 65536 % 256;
      digest[at + 3] := word / 16777216;
    }

    lemma BytesCounted(m: seq<Byte>)
      requires Valid() && View() == Absorb(block, EMPTY, m)
      ensures low / 8 % 64 == |m| % 64
    {
      hide Fold, Rest, Absorb;
      AfterMessage(block, m);
      assert View().waiting == Rest(m);
      assert |buf[..Offset()]| == Offset();
    }

    method PutChain(digest: array<Byte>)
      requires Valid() && digest.Length == 16 && digest != buf
      modifies digest
      ensures digest[..] == ChainBytes(abcd)
    {
      hide Le32;
      PutWord(digest, 0, abcd.a);
      PutWord(digest, 4, abcd.b);
      assert digest[0..4] == Le32(abcd.a);
      PutWord(digest, 8, abcd.c);
      assert digest[0..4] == Le32(abcd.a) && digest[4..8] == Le32(abcd.b);
      PutWord(digest, 12, abcd.d);
      assert digest[..] == digest[0..4] + digest[4..8] + digest[8..12] + digest[12..16];
    }

    /** bson_md5_finish: the digest that RFC 1321 defines for everything that was appended. */
    method Finish(digest: array<Byte>, ghost m: seq<Byte>)
      requires Valid() && View() == Absorb(block, EMPTY, m) && digest.Length == 16 && digest != buf
      modifies this, buf, digest
      ensures digest[..] == Digest(block, m)
    {
      hide Fold, Rest, Absorb, PadLength, PadBytes, Le32, Le64, Digest, ChainBytes;
      FinishIsRfc(block, m);
      BytesCounted(m);
      var data := Le32(low) + Le32(high);
      ghost var bits := View().bits;
      LengthBytes(low, high);
      // the count of bytes, padded to 56 modulo 64
      var pad := (55 - low / 8) % 64 + 1;
      PadCount(low / 8, |m|);
      assert pad == PadLength(|m|);
      Append(PadBytes(pad));
      Append(data);
      PutChain(digest);
    }
  }

  lemma LengthBytes(low: Word32, high: Word32)
    ensures Le32(low) + Le32(high) == Le64(high * TWO_32 + low)
  {
    assert (high * TWO_32 + low) % TWO_32 == low && (high * TWO_32 + low) / TWO_32 == high;
  }

  /** The padding length, counted from the low word alone. */
  lemma PadCount(bytes: nat, n: nat)
    requires bytes % 64 == n % 64
    ensures (55 - bytes) % 64 + 1 == PadLength(n)
  {
    assert 55 - bytes == 55 - n % 64 - 64 * (bytes / 64);
  }
}
