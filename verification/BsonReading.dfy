/**
 Iteration inverts the format: stepping through the bytes of any storable fields, and recursing
 into documents, arrays and scopes, gives back those fields; and on any document at all the
 fields that were stepped over tile the bytes.
 */
module BsonReading {
  import opened Bson
  import opened BsonBytes
  import opened BsonCursor
  import opened BsonFields
  import opened LittleEndian
  import opened Words

  // The accessors.

  predicate HasFields(t: Byte) { t == 0x03 || t == 0x04 || t == 0x0f }

  /** bson_iter_utf8, bson_iter_code and bson_iter_symbol: the bytes before the stored NUL. */
  function StringAt(raw: seq<Byte>, x: Extent): string
    requires x.Extent? && x.next <= |raw| && StringBounds(raw, x)
  {
    TextOf(raw[x.d2..x.d2 + U32At(raw, x.d1) - 1])
  }

  /** bson_iter_binary. */
  function BinaryAt(raw: seq<Byte>, x: Extent): Value
    requires x.Extent? && x.next <= |raw| && BinaryBounds(raw, x)
  {
    var l := U32At(raw, x.d1);
    if raw[x.d2] == 2 then Binary(2, raw[x.d3 + 4..x.d3 + 4 + (l - 4)]) else Binary(raw[x.d2], raw[x.d3..x.d3 + l])
  }

  /** bson_iter_regex: two C strings. */
  function RegexAt(raw: seq<Byte>, x: Extent): Value
    requires x.Extent? && x.next <= |raw| && RegexBounds(raw, x)
  {
    Regex(TextOf(raw[x.d1..x.d2 - 1]), TextOf(raw[x.d2..x.next - 1]))
  }

  /** bson_iter_dbpointer: a stored length of zero is not decremented. */
  function DbPointerAt(raw: seq<Byte>, x: Extent): Value
    requires x.Extent? && x.next <= |raw| && DbPointerBounds(raw, x)
  {
    var l := U32At(raw, x.d1);
    DbPointer(TextOf(raw[x.d2..x.d2 + if l > 0 then l - 1 else l]), raw[x.d3..x.d3 + 12])
  }

  /** The accessors of the types of fixed size. */
  function FixedAt(raw: seq<Byte>, t: Byte, o: nat): Value
    requires o + FixedSize(t) <= |raw|
  {
    if t == 0x01 then Double(U64At(raw, o))
    else if t == 0x07 then ObjectId(raw[o..o + 12])
    else if t == 0x08 then Boolean(raw[o] != 0)
    else if t == 0x09 then DateTime(Signed64(U64At(raw, o)))
    else if t == 0x10 then Int32Value(Signed32(U32At(raw, o)))
    else if t == 0x11 then Timestamp(U64At(raw, o) / 0x1_0000_0000, U64At(raw, o) % 0x1_0000_0000)
    else if t == 0x12 then Int64Value(Signed64(U64At(raw, o)))
    else if t == 0x13 then Decimal128(U64At(raw, o + 8), U64At(raw, o))
    else if t == 0x06 then Undefined
    else if t == 0x0a then Null
    else if t == 0x7f then MaxKey
    else MinKey
  }

  function ScalarAt(raw: seq<Byte>, len: nat, t: Byte, x: Extent): Value
    requires Bounded(raw, len, t, x) && !HasFields(t)
  {
    if t == 0x02 then Utf8(StringAt(raw, x))
    else if t == 0x0d then Code(StringAt(raw, x))
    else if t == 0x0e then Symbol(StringAt(raw, x))
    else if t == 0x05 then BinaryAt(raw, x)
    else if t == 0x0b then RegexAt(raw, x)
    else if t == 0x0c then DbPointerAt(raw, x)
    else FixedAt(raw, t, if NoData(t) then 0 else x.d1)
  }

  /** Where bson_iter_recurse starts, or the scope of bson_iter_codewscope. */
  function ChildStart(t: Byte, x: Extent): nat
    requires x.Extent?
  {
    if t == 0x0f then x.d4 else x.d1
  }

  /** A value, through the accessors and the iterators of its children. */
  function ReadValue(raw: seq<Byte>, len: nat, t: Byte, x: Extent, stray: Byte): Option<Value>
    requires Bounded(raw, len, t, x)
    decreases len, 0
  {
    if !HasFields(t) then Some(ScalarAt(raw, len, t, x))
    else
      var start := ChildStart(t, x);
      var fields := ReadFields(raw[start..], U32At(raw, start), 4, stray);
      if fields.None? then None
      else if t == 0x03 then Some(Document(fields.value))
      else if t == 0x04 then Some(Array(fields.value))
      else Some(CodeWithScope(TextOf(raw[x.d3..if x.d3 < x.d4 then x.d4 - 1 else x.d3]), fields.value))
  }

  /** All fields from offset off on; None when a field is refused. */
  function ReadFields(raw: seq<Byte>, len: nat, off: nat, stray: Byte): Option<seq<Field>>
    requires InMemory(raw, len) && 0 < off
    decreases len, if off < len then len - off else 0
  {
    match Decode(raw, len, off, stray)
    case Ended => Some([])
    case Refused(_, _) => None
    case Decoded(keyEnd, x) =>
      FieldBounds(raw, len, off, stray);
      DecodeAdvances(raw, len, off, stray);
      var v, rest := ReadValue(raw, len, raw[off], x, stray), ReadFields(raw, len, x.next, stray);
      if v.Some? && rest.Some? then Some([Field(TextOf(raw[off + 1..keyEnd]), v.value)] + rest.value) else None
  }

  // Each kind of payload is measured and read back as it was written.

  /** The texts of a slice and of its bytes. */
  lemma TextSlice(raw: seq<Byte>, i: nat, s: string)
    requires Narrow(s) && Holds(raw, i, Octets(s))
    ensures TextOf(raw[i..i + |s|]) == s
  {
    TextOfOctets(s);
  }

  lemma SizedParts(raw: seq<Byte>, o: nat, s: string)
    requires Narrow(s) && |s| < 0x7fff_ffff && Holds(raw, o, SizedBytes(s))
    ensures U32At(raw, o) == |s| + 1 && TextOf(raw[o + 4..o + 4 + |s|]) == s && raw[o + 4 + |s|] == 0
  {
    HoldsConcat(raw, o, Le32(|s| + 1) + Octets(s), [0]);
    HoldsConcat(raw, o, Le32(|s| + 1), Octets(s));
    Read32(raw, o, |s| + 1);
    TextSlice(raw, o + 4, s);
    HoldsAt(raw, o + 4 + |s|, [0], 0);
  }

  lemma StringBack(raw: seq<Byte>, len: nat, o: nat, s: string)
    requires InMemory(raw, len) && 0 < o && o + 5 + |s| < len
    requires Narrow(s) && Holds(raw, o, SizedBytes(s))
    ensures StringExtent(raw, len, o) == Extent(o, o + 4, 0, 0, o + 5 + |s|, o)
    ensures StringBounds(raw, StringExtent(raw, len, o)) && StringAt(raw, StringExtent(raw, len, o)) == s
  {
    hide U32At;
    SizedParts(raw, o, s);
  }

  lemma OldBinaryBack(raw: seq<Byte>, len: nat, o: nat, b: seq<Byte>)
    requires InMemory(raw, len) && 0 < o && |b| < MAX_LENGTH - 5 && o + 9 + |b| < len
    requires Holds(raw, o, Le32(|b| + 4) + [2] + Le32(|b|) + b)
    ensures U32At(raw, o) == |b| + 4 && raw[o + 4] == 2 && raw[o + 9..o + 9 + |b|] == b
  {
    hide U32At, Le32;
    HoldsConcat(raw, o, Le32(|b| + 4) + [2] + Le32(|b|), b);
    HoldsConcat(raw, o, Le32(|b| + 4) + [2], Le32(|b|));
    HoldsConcat(raw, o, Le32(|b| + 4), [2]);
    Read32(raw, o, |b| + 4);
    HoldsAt(raw, o + 4, [2], 0);
  }

  lemma NewBinaryBack(raw: seq<Byte>, len: nat, o: nat, subtype: Byte, b: seq<Byte>)
    requires InMemory(raw, len) && 0 < o && |b| < MAX_LENGTH - 5 && o + 5 + |b| < len
    requires Holds(raw, o, Le32(|b|) + [subtype] + b)
    ensures U32At(raw, o) == |b| && raw[o + 4] == subtype && raw[o + 5..o + 5 + |b|] == b
  {
    hide U32At, Le32;
    HoldsConcat(raw, o, Le32(|b|) + [subtype], b);
    HoldsConcat(raw, o, Le32(|b|), [subtype]);
    Read32(raw, o, |b|);
    HoldsAt(raw, o + 4, [subtype], 0);
  }

  lemma BinaryBack(raw: seq<Byte>, len: nat, o: nat, subtype: Byte, b: seq<Byte>)
    requires InMemory(raw, len) && 0 < o && |b| < MAX_LENGTH - 5 && o + |BinaryBytes(subtype, b)| < len
    requires Holds(raw, o, BinaryBytes(subtype, b))
    ensures var x := BinaryExtent(raw, len, o);
            x.Extent? && x.next == o + |BinaryBytes(subtype, b)| && BinaryBounds(raw, x)
              && BinaryAt(raw, x) == Binary(subtype, b)
  {
    hide U32At, Le32, Holds;
    if subtype == 2 {
      OldBinaryBack(raw, len, o, b);
    } else {
      NewBinaryBack(raw, len, o, subtype, b);
    }
  }

  /** A C string ends at its NUL. */
  lemma CNameEnds(raw: seq<Byte>, len: nat, i: nat, s: string)
    requires len <= |raw| && CName(s) && i + |s| < len && Holds(raw, i, CBytes(s))
    ensures NulFrom(raw, i, len) == i + |s| && TextOf(raw[i..i + |s|]) == s
  {
    HoldsConcat(raw, i, Octets(s), [0]);
    HoldsAt(raw, i + |s|, [0], 0);
    TextSlice(raw, i, s);
    forall k | i <= k < i + |s| ensures raw[k] != 0 {
      HoldsAt(raw, i, Octets(s), k - i);
      assert s[k - i] in s;
    }
    assert raw[i + |s|] == 0;
  }

  lemma RegexBack(raw: seq<Byte>, len: nat, off: nat, o: nat, p: string, q: string)
    requires InMemory(raw, len) && 0 < o && CName(p) && CName(q) && o + |p| + |q| + 2 < len
    requires Holds(raw, o, CBytes(p) + CBytes(q))
    ensures var x := RegexExtent(raw, len, off, o);
            x.Extent? && x.next == o + |p| + |q| + 2 && RegexBounds(raw, x) && RegexAt(raw, x) == Regex(p, q)
  {
    hide TextOf, Octets, NulFrom;
    HoldsConcat(raw, o, CBytes(p), CBytes(q));
    CNameEnds(raw, len, o, p);
    CNameEnds(raw, len, o + |p| + 1, q);
  }

  lemma DbPointerBack(raw: seq<Byte>, len: nat, o: nat, c: string, oid: seq<Byte>, stray: Byte)
    requires InMemory(raw, len) && 0 < o && CName(c) && |oid| == 12 && o + 17 + |c| < len
    requires Holds(raw, o, SizedBytes(c) + oid)
    ensures var x := DbPointerExtent(raw, len, o, stray);
            x.Extent? && x.next == o + 17 + |c| && DbPointerBounds(raw, x) && DbPointerAt(raw, x) == DbPointer(c, oid)
  {
    hide U32At;
    HoldsConcat(raw, o, SizedBytes(c), oid);
    SizedParts(raw, o, c);
  }

  lemma StampBack(raw: seq<Byte>, o: nat, t: Word32, i: Word32)
    requires Holds(raw, o, Le32(i) + Le32(t))
    ensures o + 8 <= |raw| && U64At(raw, o) / 0x1_0000_0000 == t && U64At(raw, o) % 0x1_0000_0000 == i
  {
    hide U32At;
    HoldsConcat(raw, o, Le32(i), Le32(t));
    Read32(raw, o, i);
    Read32(raw, o + 4, t);
  }

  lemma FixedBack(raw: seq<Byte>, o: nat, v: Value)
    requires Storable(v) && FixedSize(TypeCode(v)) > 0 && Holds(raw, o, ScalarBytes(v))
    ensures FixedAt(raw, TypeCode(v), o) == v && Size(v) == FixedSize(TypeCode(v))
    ensures v.Boolean? ==> raw[o] <= 1
  {
    hide U32At, U64At, Le32, Le64, Signed32, Signed64, Unsigned32, Unsigned64;
    match v
    case Double(bits) => Read64(raw, o, bits);
    case ObjectId(oid) =>
    case Boolean(truth) => HoldsAt(raw, o, ScalarBytes(v), 0);
    case DateTime(n) =>
      Read64(raw, o, Unsigned64(n));
      SignedUnsigned64(n);
    case Int32Value(n) =>
      Read32(raw, o, Unsigned32(n));
      SignedUnsigned32(n);
    case Timestamp(t, i) => StampBack(raw, o, t, i);
    case Int64Value(n) =>
      Read64(raw, o, Unsigned64(n));
      SignedUnsigned64(n);
    case Decimal128(high, low) =>
      HoldsConcat(raw, o, Le64(low), Le64(high));
      Read64(raw, o, low);
      Read64(raw, o + 8, high);
  }

  /** Any value without fields of its own, at o, is measured and read back. */
  lemma ScalarBack(raw: seq<Byte>, len: nat, off: nat, o: nat, v: Value, stray: Byte)
    requires InMemory(raw, len) && 0 < off < o && o + Size(v) < len && raw[off] == TypeCode(v)
    requires Storable(v) && Size(v) < MAX_LENGTH && !HoldsFields(v) && Holds(raw, o, ScalarBytes(v))
    ensures var x := Measure(raw, len, off, o, stray);
            && x.Extent? && x.next == o + Size(v) && Bounded(raw, len, TypeCode(v), x)
            && !HasFields(TypeCode(v)) && ScalarAt(raw, len, TypeCode(v), x) == v
  {
    hide StringExtent, BinaryExtent, RegexExtent, DbPointerExtent, FixedAt, StringAt, BinaryAt, RegexAt, DbPointerAt;
    hide StringBounds, BinaryBounds, RegexBounds, DbPointerBounds, SizedBytes, BinaryBytes, CBytes, Holds, InMemory;
    match v
    case Utf8(s) => StringBack(raw, len, o, s);
    case Code(s) => StringBack(raw, len, o, s);
    case Symbol(s) => StringBack(raw, len, o, s);
    case Binary(subtype, b) => BinaryBack(raw, len, o, subtype, b);
    case Regex(p, q) => RegexBack(raw, len, off, o, p, q);
    case DbPointer(c, oid) => DbPointerBack(raw, len, o, c, oid, stray);
    case _ => FixedScalar(raw, len, off, o, v, stray);
  }

  lemma FixedScalar(raw: seq<Byte>, len: nat, off: nat, o: nat, v: Value, stray: Byte)
    requires InMemory(raw, len) && 0 < off < o && o + Size(v) < len && raw[off] == TypeCode(v)
    requires Storable(v) && Size(v) < MAX_LENGTH && !HoldsFields(v) && Holds(raw, o, ScalarBytes(v))
    requires FixedSize(TypeCode(v)) > 0 || NoData(TypeCode(v))
    ensures var x := Measure(raw, len, off, o, stray);
            && x.Extent? && x.next == o + Size(v) && Bounded(raw, len, TypeCode(v), x)
            && !HasFields(TypeCode(v)) && ScalarAt(raw, len, TypeCode(v), x) == v
  {
    hide ScalarBytes, U32At, U64At;
    if FixedSize(TypeCode(v)) > 0 {
      FixedBack(raw, o, v);
    }
  }

  lemma DocumentBack(raw: seq<Byte>, len: nat, o: nat, fs: seq<Field>)
    requires InMemory(raw, len) && 0 < o && o + 5 + FieldsSize(fs) < len
    requires StorableFields(fs) && Holds(raw, o, DocumentBytes(fs))
    ensures DocumentExtent(raw, len, o) == Extent(o, 0, 0, 0, o + 5 + FieldsSize(fs), o)
    ensures DocumentBounds(raw, DocumentExtent(raw, len, o)) && U32At(raw, o) == 5 + FieldsSize(fs)
    ensures Holds(raw[o..], 4, FieldsBytes(fs))
  {
    hide U32At;
    DocumentParts(raw, o, fs);
  }

  lemma DocumentParts(raw: seq<Byte>, o: nat, fs: seq<Field>)
    requires StorableFields(fs) && 5 + FieldsSize(fs) <= MAX_LENGTH && Holds(raw, o, DocumentBytes(fs))
    ensures U32At(raw, o) == 5 + FieldsSize(fs) && Holds(raw[o..], 4, FieldsBytes(fs))
  {
    hide U32At, FieldsBytes;
    HoldsConcat(raw, o, Le32(5 + FieldsSize(fs)) + FieldsBytes(fs), [0]);
    HoldsConcat(raw, o, Le32(5 + FieldsSize(fs)), FieldsBytes(fs));
    Read32(raw, o, 5 + FieldsSize(fs));
    assert raw[o..][4..4 + FieldsSize(fs)] == raw[o + 4..o + 4 + FieldsSize(fs)];
  }

  lemma ScopeBack(raw: seq<Byte>, len: nat, o: nat, s: string, fs: seq<Field>)
    requires InMemory(raw, len) && 5 <= o && o + 14 + |s| + FieldsSize(fs) < len && Narrow(s) && StorableFields(fs)
    requires Holds(raw, o, Le32(14 + |s| + FieldsSize(fs)) + SizedBytes(s) + DocumentBytes(fs))
    ensures var x := ScopeExtent(raw, len, o);
            && x == Extent(o, o + 4, o + 8, o + 9 + |s|, o + 14 + |s| + FieldsSize(fs), o) && ScopeBounds(raw, x)
            && U32At(raw, x.d4) == 5 + FieldsSize(fs) && Holds(raw[x.d4..], 4, FieldsBytes(fs))
            && TextOf(raw[x.d3..x.d4 - 1]) == s
  {
    hide U32At, Holds, TextOf, Le32, FieldsBytes;
    var total := 14 + |s| + FieldsSize(fs);
    HoldsConcat(raw, o, Le32(total) + SizedBytes(s), DocumentBytes(fs));
    HoldsConcat(raw, o, Le32(total), SizedBytes(s));
    Read32(raw, o, total);
    SizedParts(raw, o + 4, s);
    DocumentParts(raw, o + 9 + |s|, fs);
  }

  // The induction.

  function FieldBytes(f: Field): seq<Byte>
    requires CName(f.key) && Storable(f.value) && Size(f.value) < MAX_LENGTH
  {
    [TypeCode(f.value)] + CBytes(f.key) + Payload(f.value)
  }

  /** The first of some fields is decoded, and its value is read back, children and all. */
  lemma {:induction false} FirstBack(raw: seq<Byte>, len: nat, off: nat, f: Field, stray: Byte)
    requires InMemory(raw, len) && 4 <= off && CName(f.key) && Storable(f.value) && Size(f.value) < MAX_LENGTH
    requires off + 2 + |f.key| + Size(f.value) < len && Holds(raw, off, FieldBytes(f))
    ensures var r, next := Decode(raw, len, off, stray), off + 2 + |f.key| + Size(f.value);
            && r.Decoded? && r.extent.Extent? && r.extent.next == next && TextOf(raw[off + 1..r.keyEnd]) == f.key
            && Bounded(raw, len, raw[off], r.extent)
            && ReadValue(raw, len, raw[off], r.extent, stray) == Some(f.value)
    decreases f, 1
  {
    hide Measure, ReadValue, Payload, Bounded, Holds, TypeCode, Size, Storable, TextOf;
    HoldsConcat(raw, off, [TypeCode(f.value)] + CBytes(f.key), Payload(f.value));
    HoldsConcat(raw, off, [TypeCode(f.value)], CBytes(f.key));
    HoldsAt(raw, off, [TypeCode(f.value)], 0);
    CNameEnds(raw, len, off + 1, f.key);
    ValueBack(raw, len, off, off + 2 + |f.key|, f.value, stray);
  }

  lemma {:induction false} ValueBack(raw: seq<Byte>, len: nat, off: nat, o: nat, v: Value, stray: Byte)
    requires InMemory(raw, len) && 4 <= off < o && o + Size(v) < len && raw[off] == TypeCode(v)
    requires Storable(v) && Size(v) < MAX_LENGTH && Holds(raw, o, Payload(v))
    ensures var x := Measure(raw, len, off, o, stray);
            && x.Extent? && x.next == o + Size(v) && Bounded(raw, len, TypeCode(v), x)
            && ReadValue(raw, len, TypeCode(v), x, stray) == Some(v)
    decreases v, 2
  {
    hide Measure, ReadValue, Bounded, Holds, ScalarBytes;
    hide ScalarAt, DocumentExtent, ScopeExtent, DocumentBounds, ScopeBounds;
    hide U32At, TextOf, ReadFields, DocumentBytes, FieldsBytes, SizedBytes, Le32;
    if v.CodeWithScope? {
      ScopeBack(raw, len, o, v.text, v.fields);
      TailBack(raw[o + 9 + |v.text|..], 5 + FieldsSize(v.fields), 4, v.fields, stray);
      ReadScope(raw, len, off, o, v, stray);
    } else if HoldsFields(v) {
      DocumentBack(raw, len, o, v.fields);
      TailBack(raw[o..], 5 + FieldsSize(v.fields), 4, v.fields, stray);
      ReadDocument(raw, len, off, o, v, stray);
    } else {
      ScalarBack(raw, len, off, o, v, stray);
      ReadScalar(raw, len, TypeCode(v), Measure(raw, len, off, o, stray), stray);
    }
  }

  lemma ReadScalar(raw: seq<Byte>, len: nat, t: Byte, x: Extent, stray: Byte)
    requires Bounded(raw, len, t, x) && !HasFields(t)
    ensures ReadValue(raw, len, t, x, stray) == Some(ScalarAt(raw, len, t, x))
  {
    hide ScalarAt, Bounded;
  }

  lemma ReadDocument(raw: seq<Byte>, len: nat, off: nat, o: nat, v: Value, stray: Byte)
    requires InMemory(raw, len) && 4 <= off < o && o + Size(v) < len && raw[off] == TypeCode(v)
    requires v.Document? || v.Array?
    requires DocumentExtent(raw, len, o) == Extent(o, 0, 0, 0, o + Size(v), o)
    requires DocumentBounds(raw, DocumentExtent(raw, len, o)) && U32At(raw, o) == Size(v)
    requires ReadFields(raw[o..], Size(v), 4, stray) == Some(v.fields)
    ensures var x := Measure(raw, len, off, o, stray);
            && x.Extent? && x.next == o + Size(v) && Bounded(raw, len, TypeCode(v), x)
            && ReadValue(raw, len, TypeCode(v), x, stray) == Some(v)
  {
    hide DocumentExtent, DocumentBounds, ReadFields, U32At;
  }

  lemma ReadScope(raw: seq<Byte>, len: nat, off: nat, o: nat, v: Value, stray: Byte)
    requires InMemory(raw, len) && 4 <= off < o && o + Size(v) < len && raw[off] == TypeCode(v)
    requires v.CodeWithScope?
    requires var x := ScopeExtent(raw, len, o);
             && x == Extent(o, o + 4, o + 8, o + 9 + |v.text|, o + Size(v), o) && ScopeBounds(raw, x)
             && U32At(raw, x.d4) == 5 + FieldsSize(v.fields) && TextOf(raw[x.d3..x.d4 - 1]) == v.text
    requires ReadFields(raw[o + 9 + |v.text|..], 5 + FieldsSize(v.fields), 4, stray) == Some(v.fields)
    ensures var x := Measure(raw, len, off, o, stray);
            && x.Extent? && x.next == o + Size(v) && Bounded(raw, len, TypeCode(v), x)
            && ReadValue(raw, len, TypeCode(v), x, stray) == Some(v)
  {
    hide ScopeExtent, ScopeBounds, ReadFields, U32At, TextOf;
  }

  lemma EndsHere(raw: seq<Byte>, len: nat, off: nat, stray: Byte)
    requires InMemory(raw, len) && 0 < off && off + 1 == len
    ensures Decode(raw, len, off, stray) == Ended
  {
  }

  /** Fields that reach up to the last byte are all read back, and then iteration ends. */
  lemma {:induction false} TailBack(raw: seq<Byte>, len: nat, off: nat, fs: seq<Field>, stray: Byte)
    requires InMemory(raw, len) && 4 <= off && StorableFields(fs) && FieldsSize(fs) < MAX_LENGTH
    requires off + FieldsSize(fs) + 1 == len && Holds(raw, off, FieldsBytes(fs))
    ensures ReadFields(raw, len, off, stray) == Some(fs)
    decreases fs, 0
  {
    hide Decode, ReadValue, Bounded, Payload, Holds, CBytes, TypeCode, TextOf;
    if fs == [] {
      EndsHere(raw, len, off, stray);
    } else {
      var f, rest := fs[0], fs[1..];
      assert FieldsBytes(fs) == FieldBytes(f) + FieldsBytes(rest);
      HoldsConcat(raw, off, FieldBytes(f), FieldsBytes(rest));
      FirstBack(raw, len, off, f, stray);
      TailBack(raw, len, off + |FieldBytes(f)|, rest, stray);
      assert fs == [f] + rest;
    }
  }

  /** Iterating the bytes of a document, whatever follows them in memory, gives back its fields. */
  lemma IterationInvertsTheFormat(fs: seq<Field>, after: seq<Byte>, stray: Byte)
    requires StorableFields(fs) && 5 + FieldsSize(fs) <= MAX_LENGTH
    ensures ReadFields(DocumentBytes(fs) + after, |DocumentBytes(fs)|, 4, stray) == Some(fs)
  {
    var raw := DocumentBytes(fs) + after;
    assert raw[0..|DocumentBytes(fs)|] == DocumentBytes(fs);
    DocumentParts(raw, 0, fs);
    assert raw[0..] == raw;
    TailBack(raw, |DocumentBytes(fs)|, 4, fs, stray);
  }
}
