/**
 One step of the BSON iterator as a function of the bytes: where the field at an offset starts
 and ends, or why it is refused. Offsets are those of bson_iter_t.
 */
module BsonCursor {
  import opened BsonBytes
  import opened LittleEndian
  import opened Words

  /** The bytes from the start of a document to the end of the memory it lies in. */
  predicate InMemory(raw: seq<Byte>, len: nat) { len <= |raw| && len <= MAX_LENGTH }

  /** A byte, which two checks read before the bounds are known; outside the memory it may be anything. */
  function Peek(raw: seq<Byte>, i: nat, stray: Byte): Byte { if i < |raw| then raw[i] else stray }

  /** The first NUL from position i on, or len. */
  function NulFrom(raw: seq<Byte>, i: nat, len: nat): (e: nat)
    requires len <= |raw|
    ensures i < len ==> i <= e <= len
    ensures i >= len ==> e == i
    ensures e < len ==> raw[e] == 0
    ensures forall k :: i <= k < e && k < len ==> raw[k] != 0
    decreases len - i
  {
    if i < len && raw[i] != 0 then NulFrom(raw, i + 1, len) else i
  }

  const NO_DATA: nat := 0xffff_ffff

  /** The data offsets of a field, where the next one starts, and where an overflow is reported. */
  datatype Extent =
    | Corrupt(err: nat, unsupported: bool)
    | Extent(d1: nat, d2: nat, d3: nat, d4: nat, next: nat, at: nat)

  function Fixed(o: nat, size: nat): Extent { Extent(o, 0, 0, 0, o + size, o) }

  function Bad(err: nat): Extent { Corrupt(err, false) }

  function StringExtent(raw: seq<Byte>, len: nat, o: nat): (r: Extent)
    requires InMemory(raw, len) && 0 < o <= len
    ensures if r.Corrupt? then r.err > 0 else r.at == o <= r.next
  {
    if o + 4 >= len then Bad(o)
    else
      var l := U32At(raw, o);
      if l > len - (o + 4) then Bad(o)
      else if l == 0 || o + 4 + l >= len then Bad(o)
      else if raw[o + 4 + l - 1] != 0 then Bad(o + 4 + l - 1)
      else Extent(o, o + 4, 0, 0, o + 4 + l, o)
  }

  function BinaryExtent(raw: seq<Byte>, len: nat, o: nat): (r: Extent)
    requires InMemory(raw, len) && 0 < o <= len
    ensures if r.Corrupt? then r.err > 0 else r.at == o <= r.next
  {
    if o + 4 >= len then Bad(o)
    else
      var l := U32At(raw, o);
      if l >= len - o then Bad(o)
      else if raw[o + 4] == 2 && l < 4 then Bad(o)
      else Extent(o, o + 4, o + 5, 0, o + 5 + l, o)
  }

  function DocumentExtent(raw: seq<Byte>, len: nat, o: nat): (r: Extent)
    requires InMemory(raw, len) && 0 < o <= len
    ensures if r.Corrupt? then r.err > 0 else r.at == o <= r.next
  {
    if o + 4 >= len then Bad(o)
    else
      var l := U32At(raw, o);
      if l > len || l > len - o then Bad(o) else Extent(o, 0, 0, 0, o + l, o)
  }

  function RegexExtent(raw: seq<Byte>, len: nat, off: nat, o: nat): (r: Extent)
    requires InMemory(raw, len) && 0 < o <= len
    ensures if r.Corrupt? then r.err == off else o <= r.at == r.next - 1
  {
    var pattern := NulFrom(raw, o, len);
    if pattern >= len then Bad(off)
    else
      var options := NulFrom(raw, pattern + 1, len);
      if options >= len then Bad(off) else Extent(o, pattern + 1, 0, 0, options + 1, options)
  }

  function DbPointerExtent(raw: seq<Byte>, len: nat, o: nat, stray: Byte): (r: Extent)
    requires InMemory(raw, len) && 0 < o <= len
    ensures if r.Corrupt? then r.err > 0 else r.at == o <= r.next
  {
    if o + 4 >= len then Bad(o)
    else
      var l := U32At(raw, o);
      if l > len || l > len - o then Bad(o)
      else if Peek(raw, o + l + 3, stray) != 0 then Bad(o + l + 3)
      else Extent(o, o + 4, o + 4 + l, 0, o + 4 + l + 12, o)
  }

  /** The sum with the scope length wraps at 32 bits. */
  function ScopeExtent(raw: seq<Byte>, len: nat, o: nat): (r: Extent)
    requires InMemory(raw, len) && 0 < o <= len
    ensures if r.Corrupt? then r.err > 0 else r.at == o <= r.next
  {
    if len < 19 || o + 14 >= len then Bad(o)
    else
      var total := U32At(raw, o);
      if total < 14 || total >= len - o then Bad(o)
      else
        var l := U32At(raw, o + 4);
        if l >= len - o - 8 then Bad(o)
        else if o + 8 + l + 4 >= o + total then Bad(o + 4)
        else if (o + 8 + l + U32At(raw, o + 8 + l)) % 0x1_0000_0000 != o + total then Bad(o + 8 + l)
        else Extent(o, o + 4, o + 8, o + 8 + l, o + total, o)
  }

  /** The switch over the type; o is where the key has ended. */
  function Measure(raw: seq<Byte>, len: nat, off: nat, o: nat, stray: Byte): (r: Extent)
    requires InMemory(raw, len) && 0 < off < o <= len
    ensures if r.Corrupt? then r.err > 0 else o <= r.at && o <= r.next
  {
    var t := raw[off];
    if t == 0x09 || t == 0x01 || t == 0x12 || t == 0x11 then Fixed(o, 8)
    else if t == 0x0d || t == 0x0e || t == 0x02 then StringExtent(raw, len, o)
    else if t == 0x05 then BinaryExtent(raw, len, o)
    else if t == 0x04 || t == 0x03 then DocumentExtent(raw, len, o)
    else if t == 0x07 then Fixed(o, 12)
    else if t == 0x08 then
      var b := Peek(raw, o, stray);
      if b != 0 && b != 1 then Bad(o) else Fixed(o, 1)
    else if t == 0x0b then RegexExtent(raw, len, off, o)
    else if t == 0x0c then DbPointerExtent(raw, len, o, stray)
    else if t == 0x0f then ScopeExtent(raw, len, o)
    else if t == 0x10 then Fixed(o, 4)
    else if t == 0x13 then Fixed(o, 16)
    else if t == 0x7f || t == 0xff || t == 0x0a || t == 0x06 then Extent(NO_DATA, 0, 0, 0, o, o)
    else Corrupt(o, t != 0)
  }

  /** The field at offset off: its key runs from off + 1 to keyEnd. */
  datatype Decoded =
    | Ended // no NUL before the end: the error offset stays as it was
    | Refused(err: nat, unsupported: bool)
    | Decoded(keyEnd: nat, extent: Extent)

  /** _bson_iter_next_internal from next_off == off. */
  function Decode(raw: seq<Byte>, len: nat, off: nat, stray: Byte): (r: Decoded)
    requires InMemory(raw, len) && 0 < off
  {
    var keyEnd := NulFrom(raw, off + 1, len);
    if keyEnd >= len then Ended
    else
      var extent := Measure(raw, len, off, keyEnd + 1, stray);
      if extent.Corrupt? then Refused(extent.err, extent.unsupported)
      else if extent.next >= len then Refused(extent.at, false)
      else Decoded(keyEnd, extent)
  }

  // What every step keeps.

  /** A successful step moves strictly ahead and stays before the last byte; an error has an offset. */
  lemma DecodeAdvances(raw: seq<Byte>, len: nat, off: nat, stray: Byte)
    requires InMemory(raw, len) && 0 < off
    ensures var r := Decode(raw, len, off, stray);
            && (r.Decoded? ==> r.extent.Extent? && off + 2 <= r.keyEnd + 1 <= r.extent.next < len)
            && (r.Refused? ==> r.err > 0)
  {
    hide Measure;
  }

  /** Reading outside the memory decides nothing but the offset of an error. */
  lemma StrayIsHarmless(raw: seq<Byte>, len: nat, off: nat, a: Byte, b: Byte)
    requires InMemory(raw, len) && 0 < off
    ensures var r, s := Decode(raw, len, off, a), Decode(raw, len, off, b);
            r == s || (r.Refused? && s.Refused?)
  {
    hide StringExtent, BinaryExtent, DocumentExtent, RegexExtent, ScopeExtent;
  }
}
