/**
 The bytes of BSON values, as version 1.1 of the BSON specification lays them out: little-endian
 numbers, sized strings, and documents with their length in front and a zero byte behind.
 */
module BsonBytes {
  import opened Bson
  import opened LittleEndian
  import opened Words

  // Texts.

  predicate Narrow(s: string) { forall k :: 0 <= k < |s| ==> s[k] < (256 as char) }

  function Octets(s: string): (b: seq<Byte>)
    requires Narrow(s)
    ensures |b| == |s|
  {
    seq(|s|, k requires 0 <= k < |s| => s[k] as int)
  }

  function TextOf(b: seq<Byte>): (s: string)
    ensures |s| == |b| && Narrow(s)
  {
    seq(|b|, k requires 0 <= k < |b| => b[k] as char)
  }

  lemma TextOfOctets(s: string)
    requires Narrow(s)
    ensures TextOf(Octets(s)) == s
  {
  }

  /** A text that can end in a NUL of its own: a key, a pattern. */
  predicate CName(s: string) { Narrow(s) && '\0' !in s }

  function CBytes(s: string): (b: seq<Byte>)
    requires CName(s)
    ensures |b| == |s| + 1
  {
    Octets(s) + [0]
  }

  /** A string with its length in front, NUL included. */
  function SizedBytes(s: string): (b: seq<Byte>)
    requires Narrow(s) && |s| < 0x7fff_ffff
    ensures |b| == 5 + |s|
  {
    Le32(|s| + 1) + Octets(s) + [0]
  }

  /** Binary data; the deprecated subtype repeats the length inside. */
  function BinaryBytes(subtype: Byte, b: seq<Byte>): (bytes: seq<Byte>)
    requires |b| + 9 < 0x1_0000_0000
    ensures |bytes| == 5 + |b| + if subtype == 2 then 4 else 0
  {
    if subtype == 2 then Le32(|b| + 4) + [subtype] + Le32(|b|) + b else Le32(|b|) + [subtype] + b
  }

  // Values.

  /** The longest document. */
  const MAX_LENGTH: nat := 0x7fff_ffff

  function TypeCode(v: Value): Byte
  {
    match v
    case Double(_) => 0x01
    case Utf8(_) => 0x02
    case Document(_) => 0x03
    case Array(_) => 0x04
    case Binary(_, _) => 0x05
    case Undefined => 0x06
    case ObjectId(_) => 0x07
    case Boolean(_) => 0x08
    case DateTime(_) => 0x09
    case Null => 0x0a
    case Regex(_, _) => 0x0b
    case DbPointer(_, _) => 0x0c
    case Code(_) => 0x0d
    case Symbol(_) => 0x0e
    case CodeWithScope(_, _) => 0x0f
    case Int32Value(_) => 0x10
    case Timestamp(_, _) => 0x11
    case Int64Value(_) => 0x12
    case Decimal128(_, _) => 0x13
    case MaxKey => 0x7f
    case MinKey => 0xff
  }

  /** The bytes a value needs. */
  function Size(v: Value): nat
  {
    match v
    case Double(_) => 8
    case Utf8(s) => 5 + |s|
    case Document(fs) => 5 + FieldsSize(fs)
    case Array(fs) => 5 + FieldsSize(fs)
    case Binary(subtype, b) => 5 + |b| + if subtype == 2 then 4 else 0
    case ObjectId(_) => 12
    case Boolean(_) => 1
    case DateTime(_) => 8
    case Regex(p, o) => |p| + |o| + 2
    case DbPointer(c, _) => 17 + |c|
    case Code(s) => 5 + |s|
    case Symbol(s) => 5 + |s|
    case CodeWithScope(s, fs) => 14 + |s| + FieldsSize(fs)
    case Int32Value(_) => 4
    case Timestamp(_, _) => 8
    case Int64Value(_) => 8
    case Decimal128(_, _) => 16
    case _ => 0
  }

  /** The number in an integer of either width. */
  function NumberOf(v: Value): Option<Int64>
  {
    match v
    case Int32Value(n) => Some(n)
    case Int64Value(n) => Some(n)
    case _ => None
  }

  function FieldsSize(fs: seq<Field>): nat
  {
    if fs == [] then 0 else 2 + |fs[0].key| + Size(fs[0].value) + FieldsSize(fs[1..])
  }

  /** The values the format can hold: names without NUL, object ids of 12 bytes. */
  predicate Storable(v: Value)
  {
    match v
    case Utf8(s) => Narrow(s)
    case Document(fs) => StorableFields(fs)
    case Array(fs) => StorableFields(fs)
    case ObjectId(oid) => |oid| == 12
    case Regex(p, o) => CName(p) && CName(o)
    case DbPointer(c, oid) => CName(c) && |oid| == 12
    case Code(s) => Narrow(s)
    case Symbol(s) => Narrow(s)
    case CodeWithScope(s, fs) => Narrow(s) && StorableFields(fs)
    case _ => true
  }

  predicate StorableFields(fs: seq<Field>)
  {
    fs == [] || (CName(fs[0].key) && Storable(fs[0].value) && StorableFields(fs[1..]))
  }

  predicate HoldsFields(v: Value) { v.Document? || v.Array? || v.CodeWithScope? }

  /** The payload of a value without fields of its own. */
  function ScalarBytes(v: Value): (b: seq<Byte>)
    requires Storable(v) && Size(v) < MAX_LENGTH && !HoldsFields(v)
    ensures |b| == Size(v)
  {
    match v
    case Double(bits) => Le64(bits)
    case Utf8(s) => SizedBytes(s)
    case Binary(subtype, b) => BinaryBytes(subtype, b)
    case ObjectId(oid) => oid
    case Boolean(truth) => [if truth then 1 else 0]
    case DateTime(n) => Le64(Unsigned64(n))
    case Regex(p, o) => CBytes(p) + CBytes(o)
    case DbPointer(c, oid) => SizedBytes(c) + oid
    case Code(s) => SizedBytes(s)
    case Symbol(s) => SizedBytes(s)
    case Int32Value(n) => Le32(Unsigned32(n))
    case Timestamp(t, i) => Le32(i) + Le32(t)
    case Int64Value(n) => Le64(Unsigned64(n))
    case Decimal128(high, low) => Le64(low) + Le64(high)
    case _ => []
  }

  /** The payload of a value. */
  function Payload(v: Value): (b: seq<Byte>)
    requires Storable(v) && Size(v) < MAX_LENGTH
    ensures |b| == Size(v)
    decreases v, 0
  {
    if v.CodeWithScope? then Le32(14 + |v.text| + FieldsSize(v.fields)) + SizedBytes(v.text) + DocumentBytes(v.fields)
    else if HoldsFields(v) then DocumentBytes(v.fields)
    else ScalarBytes(v)
  }

  function FieldsBytes(fs: seq<Field>): (b: seq<Byte>)
    requires StorableFields(fs) && FieldsSize(fs) < MAX_LENGTH
    ensures |b| == FieldsSize(fs)
    decreases fs, 0
  {
    if fs == [] then []
    else [TypeCode(fs[0].value)] + CBytes(fs[0].key) + Payload(fs[0].value) + FieldsBytes(fs[1..])
  }

  /** A document: its length, its fields, and a zero byte. */
  function DocumentBytes(fs: seq<Field>): (b: seq<Byte>)
    requires StorableFields(fs) && 5 + FieldsSize(fs) <= MAX_LENGTH
    ensures |b| == 5 + FieldsSize(fs)
    decreases fs, 1
  {
    Le32(5 + FieldsSize(fs)) + FieldsBytes(fs) + [0]
  }
}
