/**
 What the iterator's accessors see after a step: every slice they report lies inside the field,
 and the values read from the bytes of a document are the values it was built from.
 */
module BsonFields {
  import opened BsonCursor
  import opened LittleEndian
  import opened Words

  predicate IsString(t: Byte) { t == 0x02 || t == 0x0d || t == 0x0e }

  /** The bytes of a fixed-size value, by type. */
  function FixedSize(t: Byte): nat
  {
    if t == 0x01 || t == 0x09 || t == 0x11 || t == 0x12 then 8
    else if t == 0x07 then 12
    else if t == 0x08 then 1
    else if t == 0x10 then 4
    else if t == 0x13 then 16
    else 0
  }

  predicate NoData(t: Byte) { t == 0x06 || t == 0x0a || t == 0x7f || t == 0xff }

  predicate KnownType(t: Byte) { 0x01 <= t <= 0x13 || t == 0x7f || t == 0xff }

  /** A sized string and its NUL fill the field. */
  predicate StringBounds(raw: seq<Byte>, x: Extent)
    requires x.Extent? && x.next <= |raw|
  {
    x.d2 == x.d1 + 4 && x.d2 < x.next && x.d2 + U32At(raw, x.d1) == x.next && raw[x.next - 1] == 0
  }

  /** The data and, for the deprecated subtype, its inner length fill the field. */
  predicate BinaryBounds(raw: seq<Byte>, x: Extent)
    requires x.Extent? && x.next <= |raw|
  {
    && x.d2 == x.d1 + 4 && x.d3 == x.d1 + 5 <= x.next && x.d3 + U32At(raw, x.d1) == x.next
    && (raw[x.d2] == 2 ==> x.d3 + 4 <= x.next)
  }

  predicate DocumentBounds(raw: seq<Byte>, x: Extent)
    requires x.Extent? && x.next < |raw|
  {
    x.d1 + 4 <= |raw| && x.d1 + U32At(raw, x.d1) == x.next
  }

  /** Two C strings, each ended by its first NUL. */
  predicate RegexBounds(raw: seq<Byte>, x: Extent)
    requires x.Extent? && x.next <= |raw|
  {
    && x.d1 < x.d2 < x.next && raw[x.d2 - 1] == 0 && raw[x.next - 1] == 0
    && (forall k :: x.d1 <= k < x.d2 - 1 ==> raw[k] != 0)
    && (forall k :: x.d2 <= k < x.next - 1 ==> raw[k] != 0)
  }

  predicate DbPointerBounds(raw: seq<Byte>, x: Extent)
    requires x.Extent? && x.next <= |raw|
  {
    x.d2 == x.d1 + 4 <= x.next && x.d2 + U32At(raw, x.d1) == x.d3 && x.d3 + 12 == x.next && raw[x.d3 - 1] == 0
  }

  /** The code and its scope fill the field; nothing is said of the last byte of the code. */
  predicate ScopeBounds(raw: seq<Byte>, x: Extent)
    requires x.Extent? && x.next <= |raw|
  {
    && x.d2 == x.d1 + 4 && x.d3 == x.d1 + 8 <= x.next && x.d1 + U32At(raw, x.d1) == x.next
    && x.d3 + U32At(raw, x.d2) == x.d4 && x.d4 + 4 < x.next && x.d4 + U32At(raw, x.d4) == x.next
  }

  /** Every slice the accessors report lies between the data offset and the next field. */
  predicate Bounded(raw: seq<Byte>, len: nat, t: Byte, x: Extent)
  {
    && InMemory(raw, len) && x.Extent? && x.next < len && KnownType(t)
    && (FixedSize(t) > 0 ==> x.d1 + FixedSize(t) == x.next)
    && (t == 0x08 ==> raw[x.d1] <= 1)
    && (IsString(t) ==> StringBounds(raw, x))
    && (t == 0x03 || t == 0x04 ==> DocumentBounds(raw, x))
    && (t == 0x05 ==> BinaryBounds(raw, x))
    && (t == 0x0b ==> RegexBounds(raw, x))
    && (t == 0x0c ==> DbPointerBounds(raw, x))
    && (t == 0x0f ==> ScopeBounds(raw, x))
  }

  lemma StringFits(raw: seq<Byte>, len: nat, o: nat)
    requires InMemory(raw, len) && 0 < o <= len
    ensures var x := StringExtent(raw, len, o); x.Extent? && x.next < len ==> x.d1 == o && StringBounds(raw, x)
  {
  }

  lemma BinaryFits(raw: seq<Byte>, len: nat, o: nat)
    requires InMemory(raw, len) && 0 < o <= len
    ensures var x := BinaryExtent(raw, len, o); x.Extent? && x.next < len ==> x.d1 == o && BinaryBounds(raw, x)
  {
  }

  lemma DocumentFits(raw: seq<Byte>, len: nat, o: nat)
    requires InMemory(raw, len) && 0 < o <= len
    ensures var x := DocumentExtent(raw, len, o); x.Extent? && x.next < len ==> x.d1 == o && DocumentBounds(raw, x)
  {
  }

  lemma RegexFits(raw: seq<Byte>, len: nat, off: nat, o: nat)
    requires InMemory(raw, len) && 0 < o <= len
    ensures var x := RegexExtent(raw, len, off, o); x.Extent? && x.next < len ==> x.d1 == o && RegexBounds(raw, x)
  {
  }

  lemma DbPointerFits(raw: seq<Byte>, len: nat, o: nat, stray: Byte)
    requires InMemory(raw, len) && 0 < o <= len
    ensures var x := DbPointerExtent(raw, len, o, stray);
            x.Extent? && x.next < len ==> x.d1 == o && DbPointerBounds(raw, x)
  {
  }

  /** A successful step bounds every field of its type, on any bytes whatever; the key ends at its first NUL. */
  lemma FieldBounds(raw: seq<Byte>, len: nat, off: nat, stray: Byte)
    requires InMemory(raw, len) && 0 < off && Decode(raw, len, off, stray).Decoded?
    ensures var r := Decode(raw, len, off, stray);
            && Bounded(raw, len, raw[off], r.extent)
            && raw[r.keyEnd] == 0 && (forall k :: off + 1 <= k < r.keyEnd ==> raw[k] != 0)
            && r.extent.d1 == if NoData(raw[off]) then NO_DATA else r.keyEnd + 1
  {
    hide Measure, Bounded;
    MeasureBounds(raw, len, off, Decode(raw, len, off, stray).keyEnd + 1, stray);
  }

  lemma MeasureBounds(raw: seq<Byte>, len: nat, off: nat, o: nat, stray: Byte)
    requires InMemory(raw, len) && 0 < off < o <= len
    requires Measure(raw, len, off, o, stray).Extent? && Measure(raw, len, off, o, stray).next < len
    ensures var x := Measure(raw, len, off, o, stray);
            Bounded(raw, len, raw[off], x) && x.d1 == if NoData(raw[off]) then NO_DATA else o
  {
    hide StringExtent, BinaryExtent, DocumentExtent, RegexExtent, DbPointerExtent, ScopeExtent;
    hide StringBounds, BinaryBounds, DocumentBounds, RegexBounds, DbPointerBounds, ScopeBounds;
    var t := raw[off];
    if IsString(t) {
      StringFits(raw, len, o);
    } else if t == 0x05 {
      BinaryFits(raw, len, o);
    } else if t == 0x03 || t == 0x04 {
      DocumentFits(raw, len, o);
    } else if t == 0x0b {
      RegexFits(raw, len, off, o);
    } else if t == 0x0c {
      DbPointerFits(raw, len, o, stray);
    } else if t == 0x0f {
      ScopeFits(raw, len, o);
    }
  }

  /** The wrapped sum of the scope test equals the total only when the plain sum does. */
  lemma ScopeFits(raw: seq<Byte>, len: nat, o: nat)
    requires InMemory(raw, len) && 0 < o <= len
    ensures var x := ScopeExtent(raw, len, o); x.Extent? && x.next < len ==> x.d1 == o && ScopeBounds(raw, x)
  {
    var x := ScopeExtent(raw, len, o);
    if x.Extent? {
      WrapExact(x.d4, U32At(raw, x.d4), x.next);
    }
  }

  lemma WrapExact(a: nat, b: Word32, n: nat)
    requires a < n < 0x8000_0000 && (a + b) % 0x1_0000_0000 == n
    ensures a + b == n
  {
    assert a + b == (a + b) / 0x1_0000_0000 * 0x1_0000_0000 + n;
  }
}
