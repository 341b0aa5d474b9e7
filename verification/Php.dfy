/**
 PHP arrays to BSON and back, as src/bson.c does it on 64-bit PHP 7 with a type map that makes
 native arrays of documents and arrays: a PHP array is an ordered list of keys and values.
 */
module Php {
  import opened Bson
  import opened BsonBuilding
  import opened CText
  import opened Digits
  import opened Words

  datatype Php =
    | PhpNull
    | PhpBool(truth: bool)
    | PhpInt(n: Int64)
    | PhpFloat(bits: Word64)
    | PhpString(s: string)
    | PhpArray(entries: seq<Entry>)
    | PhpObject(value: BsonObject)
    | PhpOther // a resource, say: a type that BSON has no place for

  /** What an object of one of the BSON classes holds; the scope of a Javascript object is a document. */
  type BsonObject = v: Value | IsBsonObject(v) witness MinKey

  predicate IsBsonObject(v: Value)
  {
    || v.ObjectId? || v.DateTime? || v.Binary? || v.Decimal128? || v.Regex? || v.Code? || v.CodeWithScope?
    || v.Timestamp? || v.MinKey? || v.MaxKey?
  }

  datatype Key = StringKey(s: string) | IntKey(n: Int64)

  datatype Entry = Entry(key: Key, value: Php)

  /** bson_utf8_validate: a text, and whether it may hold NULs. */
  type Validator = (string, bool) -> bool

  // Keys.

  /** zend_long_to_str. */
  function LongText(n: Int64): string
  {
    var m: int := n;
    if m < 0 then "-" + IndexKey(-m) else IndexKey(m)
  }

  function KeyText(key: Key): string
  {
    match key case StringKey(s) => s case IntKey(n) => LongText(n)
  }

  predicate IsDecimal(s: string)
  {
    && s != "" && (forall k :: 0 <= k < |s| ==> IsDigitChar(s[k]))
    && (s[0] == '0' ==> s == "0")
  }

  function DecimalOf(s: string): nat
    requires IsDecimal(s)
  {
    Nat(seq(|s|, k requires 0 <= k < |s| => DigitOf(s[k])))
  }

  /** The symbol table's keys: the decimal text of a long is that long. */
  function SymbolKey(s: string): Key
  {
    var negative := s != "" && s[0] == '-';
    var digits := if negative then s[1..] else s;
    if !IsDecimal(digits) || (negative && digits == "0") then StringKey(s)
    else
      var magnitude: int := DecimalOf(digits);
      var n := if negative then -magnitude else magnitude;
      if -0x8000_0000_0000_0000 <= n < 0x8000_0000_0000_0000 then IntKey(n) else StringKey(s)
  }

  /** qsort over the flags of a regular expression. */
  function Alphabetized(flags: string): string
  {
    if flags == "" then "" else Inserted(flags[0], Alphabetized(flags[1..]))
  }

  function Inserted(c: char, flags: string): string
  {
    if flags == "" || c <= flags[0] then [c] + flags else [flags[0]] + Inserted(c, flags[1..])
  }

  /** The objects PHP makes: a pattern and alphabetized flags, both free of NUL, and ids of 12 bytes. */
  predicate WellMadeObject(v: BsonObject)
  {
    && (v.Regex? ==> '\0' !in v.pattern && '\0' !in v.options && Alphabetized(v.options) == v.options)
    && (v.ObjectId? ==> |v.oid| == 12)
  }

  /** The values PHP makes: in an array no two keys are the same, and no string key is the text of a long. */
  predicate WellMade(v: Php)
  {
    match v
    case PhpArray(es) => WellMadeEntries(es) && DistinctKeys(es)
    case PhpObject(value) => WellMadeObject(value)
    case _ => true
  }

  predicate WellMadeEntry(e: Entry) { SymbolKey(KeyText(e.key)) == e.key && WellMade(e.value) }

  predicate WellMadeEntries(es: seq<Entry>)
  {
    es == [] || (WellMadeEntry(es[0]) && WellMadeEntries(es[1..]))
  }

  predicate DistinctKeys(es: seq<Entry>)
  {
    forall j, k :: 0 <= j < k < |es| ==> es[j].key != es[k].key
  }

  // Encoding.

  /** php_phongo_is_array_or_document: the keys are 0, 1, 2 and so on, in order. */
  predicate IsList(es: seq<Entry>)
  {
    forall k :: 0 <= k < |es| ==> es[k].key.IntKey? && es[k].key.n == k
  }

  /** What encoding appends, and whether an exception was thrown on the way. */
  datatype Encoded = Encoded(fields: seq<Field>, thrown: bool)

  /** phongo_bson_append: a text that is not UTF-8 throws, as does an unsupported type; neither is appended. */
  function EncodeValue(key: string, v: Php, valid: Validator): Encoded
    decreases v, 0
  {
    match v
    case PhpNull => Encoded([Field(key, Null)], false)
    case PhpBool(b) => Encoded([Field(key, Boolean(b))], false)
    case PhpInt(n) =>
      Encoded([Field(key, if -0x8000_0000 <= n < 0x8000_0000 then Int32Value(n) else Int64Value(n))], false)
    case PhpFloat(bits) => Encoded([Field(key, Double(bits))], false)
    case PhpString(s) => if valid(s, true) then Encoded([Field(key, Utf8(s))], false) else Encoded([], true)
    case PhpArray(es) =>
      var inner := EncodeEntries(es, valid);
      Encoded([Field(key, Container(IsList(es), inner.fields))], inner.thrown)
    case PhpObject(value) => Encoded([Field(key, Appended(value))], false)
    case PhpOther => Encoded([], true)
  }

  /** The append functions take C strings for patterns, flags and code, whatever length the object keeps. */
  function Appended(v: BsonObject): Value
  {
    match v
    case Regex(pattern, flags) => Regex(UpToNul(pattern), UpToNul(flags))
    case Code(text) => Code(UpToNul(text))
    case CodeWithScope(text, scope) => CodeWithScope(UpToNul(text), scope)
    case _ => v
  }

  predicate HasNul(key: Key) { key.StringKey? && '\0' in key.s }

  function EncodeEntry(e: Entry, valid: Validator): Encoded
    decreases e, 0
  {
    EncodeValue(KeyText(e.key), e.value, valid)
  }

  /** phongo_zval_to_bson: a key with a NUL throws, and ends the entries there. */
  function EncodeEntries(es: seq<Entry>, valid: Validator): Encoded
    decreases es, 0
  {
    if es == [] then Encoded([], false)
    else if HasNul(es[0].key) then Encoded([], true)
    else
      var first, rest := EncodeEntry(es[0], valid), EncodeEntries(es[1..], valid);
      Encoded(first.fields + rest.fields, first.thrown || rest.thrown)
  }

  // Decoding.

  /** add_assoc: an entry of that key is replaced where it stands; a new one comes last. */
  function AddAssoc(es: seq<Entry>, key: Key, v: Php): seq<Entry>
  {
    if es == [] then [Entry(key, v)]
    else if es[0].key == key then [Entry(key, v)] + es[1..]
    else [es[0]] + AddAssoc(es[1..], key, v)
  }

  /** add_next_index: one more than the largest index, or 0. */
  function NextIndex(es: seq<Entry>): nat
  {
    if es == [] then 0
    else
      var rest := NextIndex(es[1..]);
      if es[0].key.IntKey? && es[0].key.n >= rest then es[0].key.n + 1 else rest
  }

  /**
   One visited value joins the array under construction; an array that would need an index too large
   is not modelled.
   */
  function Visited(es: seq<Entry>, inArray: bool, key: string, v: Php): Option<seq<Entry>>
  {
    if !inArray then Some(AddAssoc(es, SymbolKey(key), v))
    else
      var next: int := NextIndex(es);
      if next < 0x8000_0000_0000_0000 then Some(es + [Entry(IntKey(next), v)]) else None
  }

  /** What a visitor does: it stops the iteration, adds nothing, or makes a value that joins the array. */
  datatype Visit = Stop | Nothing | Made(value: Php)

  /** The visitors. There is none for the deprecated types, so their fields are skipped. */
  function DecodeValue(v: Value, valid: Validator): Visit
    decreases v, 0
  {
    match v
    case Null => Made(PhpNull)
    case Boolean(b) => Made(PhpBool(b))
    case Int32Value(n) => Made(PhpInt(n))
    case Int64Value(n) => Made(PhpInt(n))
    case Double(bits) => Made(PhpFloat(bits))
    case Utf8(s) => if valid(s, true) then Made(PhpString(s)) else Stop
    case Document(fs) => DecodeChild(fs, false, valid)
    case Array(fs) => DecodeChild(fs, true, valid)
    case Regex(pattern, flags) => Made(PhpObject(Regex(pattern, Alphabetized(flags))))
    case Undefined => Nothing
    case DbPointer(_, _) => Nothing
    case Symbol(_) => Nothing
    case _ => Made(PhpObject(v))
  }

  function DecodeChild(fs: seq<Field>, inArray: bool, valid: Validator): Visit
    decreases fs, 1
  {
    var es := DecodeFields(fs, inArray, [], valid);
    if es.None? then Stop else Made(PhpArray(es.value))
  }

  /** The array after a visit; None when the iteration stops. */
  function Joined(es: seq<Entry>, inArray: bool, key: string, visit: Visit): Option<seq<Entry>>
  {
    match visit
    case Stop => None
    case Nothing => Some(es)
    case Made(v) => Visited(es, inArray, key, v)
  }

  /** bson_iter_visit_all with the visitors: a key that is not UTF-8 stops it. */
  function DecodeFields(fs: seq<Field>, inArray: bool, es: seq<Entry>, valid: Validator): Option<seq<Entry>>
    decreases fs, 0
  {
    if fs == [] then Some(es)
    else if fs[0].key != "" && !valid(fs[0].key, false) then None
    else
      var next := Joined(es, inArray, fs[0].key, DecodeValue(fs[0].value, valid));
      if next.None? then None else DecodeFields(fs[1..], inArray, next.value, valid)
  }

  /** The root of a document, as a native array. */
  function DecodeArray(fs: seq<Field>, valid: Validator): Option<Php>
  {
    var es := DecodeFields(fs, false, [], valid);
    if es.None? then None else Some(PhpArray(es.value))
  }
}
