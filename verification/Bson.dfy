/**
 BSON values as trees: what the append functions of libbson build, whatever bytes they lie in.
 Documents and arrays keep their fields in order; a text is a string of bytes.
 */
module Bson {
  import opened Words

  datatype Value =
    | Double(bits: Word64)
    | Utf8(text: string)
    | Document(fields: seq<Field>)
    | Array(fields: seq<Field>)
    | Binary(subtype: Byte, bytes: seq<Byte>)
    | Undefined
    | ObjectId(oid: seq<Byte>)
    | Boolean(truth: bool)
    | DateTime(milliseconds: Int64)
    | Null
    | Regex(pattern: string, options: string)
    | DbPointer(collection: string, oid: seq<Byte>)
    | Code(text: string)
    | Symbol(text: string)
    | CodeWithScope(text: string, fields: seq<Field>)
    | Int32Value(small: Int32)
    | Timestamp(t: Word32, i: Word32)
    | Int64Value(long: Int64)
    | Decimal128(high: Word64, low: Word64)
    | MinKey
    | MaxKey

  datatype Field = Field(key: string, value: Value)
}
