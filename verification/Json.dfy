/**
 JSON trees, the events a parser delivers for them, and the BSON tree each one stands for:
 the plain recursion that the callbacks of bson-json.c must agree with.
 */
module Json {
  import opened Bson
  import opened BsonBuilding
  import opened CText
  import opened Words
  import Base64
  import DecimalParse
  import Strtoll

  /** A text the parser delivers: bytes, at most 2 GB of them. */
  type Text = s: string | |s| < 0x8000_0000

  datatype Tree =
    | NullTree
    | BooleanTree(truth: bool)
    | IntegerTree(n: Int64)
    | DoubleTree(bits: Word64)
    | TextTree(text: Text)
    | ObjectTree(members: seq<Member>)
    | ArrayTree(items: seq<Tree>)

  datatype Member = Member(key: Text, value: Tree)

  // Events.

  datatype Event =
    | NullEvent
    | BooleanEvent(truth: bool)
    | IntegerEvent(n: Int64)
    | DoubleEvent(bits: Word64)
    | TextEvent(text: Text)
    | StartMap
    | MapKey(key: Text)
    | EndMap
    | StartArray
    | EndArray

  function Events(v: Tree): seq<Event>
  {
    match v
    case NullTree => [NullEvent]
    case BooleanTree(b) => [BooleanEvent(b)]
    case IntegerTree(n) => [IntegerEvent(n)]
    case DoubleTree(d) => [DoubleEvent(d)]
    case TextTree(s) => [TextEvent(s)]
    case ObjectTree(members) => [StartMap] + MemberEvents(members) + [EndMap]
    case ArrayTree(items) => [StartArray] + ItemEvents(items) + [EndArray]
  }

  function MemberEvents(members: seq<Member>): seq<Event>
  {
    if members == [] then []
    else [MapKey(members[0].key)] + Events(members[0].value) + MemberEvents(members[1..])
  }

  function ItemEvents(items: seq<Tree>): seq<Event>
  {
    if items == [] then [] else Events(items[0]) + ItemEvents(items[1..])
  }

  // The special keys.

  datatype Special =
    | RegexKey | OptionsKey | OidKey | BinaryKey | TypeKey | DateKey
    | UndefinedKey | MinKeyKey | MaxKeyKey | TimestampKey | LongKey | DecimalKey

  function SpecialKey(key: string): Option<Special>
  {
    if key == "$regex" then Some(RegexKey)
    else if key == "$options" then Some(OptionsKey)
    else if key == "$oid" then Some(OidKey)
    else if key == "$binary" then Some(BinaryKey)
    else if key == "$type" then Some(TypeKey)
    else if key == "$date" then Some(DateKey)
    else if key == "$undefined" then Some(UndefinedKey)
    else if key == "$minKey" then Some(MinKeyKey)
    else if key == "$maxKey" then Some(MaxKeyKey)
    else if key == "$timestamp" then Some(TimestampKey)
    else if key == "$numberLong" then Some(LongKey)
    else if key == "$numberDecimal" then Some(DecimalKey)
    else None
  }

  /** The type of the special object: bson_type, NoType being its zero. */
  datatype SpecialType =
    | NoType | RegexType | OidType | BinaryType | DateType | UndefinedType | MinKeyType | MaxKeyType
    | LongType | DecimalType | TimestampType

  function TypeFor(key: Special): SpecialType
  {
    match key
    case RegexKey => RegexType
    case OptionsKey => RegexType
    case OidKey => OidType
    case BinaryKey => BinaryType
    case TypeKey => BinaryType
    case DateKey => DateType
    case UndefinedKey => UndefinedType
    case MinKeyKey => MinKeyType
    case MaxKeyKey => MaxKeyType
    case LongKey => LongType
    case DecimalKey => DecimalType
    case TimestampKey => TimestampType
  }

  predicate IsSpecial(members: seq<Member>) { members != [] && SpecialKey(members[0].key).Some? }

  // The texts inside special objects.

  /** How the texts inside special objects are read; None is a text that is refused. */
  datatype Platform = Platform(
    date: Text -> Option<Int64>,
    long: Text -> Option<Int64>,
    hex: Text -> Option<Word32>,
    binary: Text -> Option<seq<Byte>>,
    decimal: Text -> Value)

  /**
   What the readers of libbson take from elsewhere: the dates of bson-iso8601.c, sscanf with "%02x",
   base64 texts with bytes from 128 on, which index before the reverse map, and the two values that
   the decimal parser may pick up outside its variables.
   */
  datatype Environment = Environment(
    date: Text -> Option<Int64>,
    hex: CString -> Option<Word32>,
    high: CString -> Option<seq<Byte>>,
    wild: Int32,
    beyond: Word16)

  /** The readers libbson has. */
  function Libbson(env: Environment): Platform
  {
    Platform(
      env.date,
      (s: Text) => Strtoll.WholeNumber(s),
      (s: Text) => env.hex(CStringOf(s)),
      (s: Text) => if IsAscii(CStringOf(s)) then BinaryOf(CStringOf(s)) else env.high(CStringOf(s)),
      (s: Text) => DecimalOf(s, env.wild, env.beyond))
  }

  predicate IsAscii(s: CString) { forall k :: 0 <= k < |s| ==> s[k] < (128 as char) }

  function CStringOf(s: Text): (c: CString) { UpToNul(s) }

  function Nibble(c: char): (n: nat)
    ensures n < 16
  {
    if '0' <= c <= '9' then c as int - '0' as int
    else if 'a' <= c <= 'f' then c as int - 'a' as int + 10
    else if 'A' <= c <= 'F' then c as int - 'A' as int + 10
    else 0
  }

  /** bson_oid_init_from_string: a character that is no hexadecimal digit counts as zero. */
  function OidOf(s: string): seq<Byte>
    requires |s| == 24
  {
    seq(12, k requires 0 <= k < 12 => OidByte(s[2 * k], s[2 * k + 1]))
  }

  function OidByte(c: char, d: char): Byte { 16 * Nibble(c) + Nibble(d) }

  /** The bytes of a $binary text: what the sizing pass accepts, whatever the leftover bits. */
  function BinaryOf(s: CString): Option<seq<Byte>>
  {
    match Base64.DecodedLength(s)
    case None => None
    case Some(_) => Some(Base64.Data(Base64.ScanFrom(s, 0, []).q))
  }

  /** The words of a $numberDecimal text; a text that is refused leaves NaN. */
  function DecimalOf(s: Text, wild: Int32, beyond: Word16): Value
  {
    var d := DecimalParse.Parse(CStringOf(s), wild, beyond).1;
    Decimal128(d.high, d.low)
  }

  // The BSON value of a tree.

  function IntegerValue(n: Int64): Value
  {
    if -0x8000_0000 <= n < 0x8000_0000 then Int32Value(n) else Int64Value(n)
  }

  // Special objects.

  /** What a special object amounts to. */
  datatype Assembly =
    | Incomplete             // it is refused
    | Aliased                // bytes of another type are read: what they say is not modelled
    | Complete(value: Value)

  /** The value that a special key and its scalar make by themselves. */
  function OneValue(key: Special, v: Tree, x: Platform): Option<Value>
  {
    match (key, v)
    case (OidKey, TextTree(s)) => if |s| == 24 then Some(ObjectId(OidOf(s))) else None
    case (UndefinedKey, BooleanTree(_)) => Some(Undefined)
    case (MinKeyKey, IntegerTree(_)) => Some(MinKey)
    case (MaxKeyKey, IntegerTree(_)) => Some(MaxKey)
    case (LongKey, TextTree(s)) => if x.long(s).Some? then Some(Int64Value(x.long(s).value)) else None
    case (DecimalKey, TextTree(s)) => Some(x.decimal(s))
    case (DateKey, IntegerTree(n)) => Some(DateTime(n))
    case (DateKey, TextTree(s)) => if x.date(s).Some? then Some(DateTime(x.date(s).value)) else None
    case _ => None
  }

  /** The scalars a special key takes, be they a whole value or a part of one. */
  predicate Takes(key: Special, v: Tree, x: Platform)
  {
    match key
    case RegexKey => v.TextTree?
    case OptionsKey => v.TextTree?
    case BinaryKey => v.TextTree? && x.binary(v.text).Some?
    case TypeKey => v.TextTree? && x.hex(v.text).Some?
    case _ => OneValue(key, v, x).Some?
  }

  predicate Taken(m: Member, x: Platform) { SpecialKey(m.key).Some? && Takes(SpecialKey(m.key).value, m.value, x) }

  predicate AllTaken(ms: seq<Member>, x: Platform) { forall k :: 0 <= k < |ms| ==> Taken(ms[k], x) }

  function TypeOf(m: Member): SpecialType
  {
    match SpecialKey(m.key) case None => NoType case Some(key) => TypeFor(key)
  }

  /** The members at the end whose keys are all of one type. */
  function Tail(ms: seq<Member>, t: SpecialType): (tail: seq<Member>)
    ensures |tail| <= |ms|
  {
    if ms == [] || TypeOf(ms[|ms| - 1]) != t then [] else Tail(ms[..|ms| - 1], t) + [ms[|ms| - 1]]
  }

  /** The text of the last member with a key, if there is one. */
  function LastText(ms: seq<Member>, key: Special): Option<Text>
  {
    if ms == [] then None
    else
      var last := ms[|ms| - 1];
      if SpecialKey(last.key) == Some(key) && last.value.TextTree? then Some(last.value.text)
      else LastText(ms[..|ms| - 1], key)
  }

  /**
   Members that are all taken. The last key decides the type. A type of one part has the value of the last
   member; one of two parts takes the last of each among the members at the end that are of its type, and
   where a part is missing there, what shows is what members of other types left, if there are any.
   */
  function ScalarAssembly(ms: seq<Member>, x: Platform): Assembly
    requires ms != [] && AllTaken(ms, x)
  {
    var last := ms[|ms| - 1];
    var tail := Tail(ms, TypeOf(last));
    var missing := if |tail| < |ms| then Aliased else Incomplete;
    match TypeOf(last)
    case RegexType => RegexAssembly(LastText(tail, RegexKey), LastText(tail, OptionsKey), missing)
    case BinaryType => BinaryAssembly(LastText(tail, BinaryKey), LastText(tail, TypeKey), missing, x)
    case _ => Complete(OneValue(SpecialKey(last.key).value, last.value, x).value)
  }

  /** Options may be left out, but only where nothing else shows in their place. */
  function RegexAssembly(regex: Option<Text>, options: Option<Text>, missing: Assembly): Assembly
  {
    if regex.None? || (options.None? && missing.Aliased?) then missing
    else Complete(Regex(CStringOf(regex.value), if options.Some? then CStringOf(options.value) else ""))
  }

  function BinaryAssembly(text: Option<Text>, subtype: Option<Text>, missing: Assembly, x: Platform): Assembly
  {
    if text.None? || subtype.None? || x.binary(text.value).None? || x.hex(subtype.value).None? then missing
    else Complete(Binary(x.hex(subtype.value).value % 256, x.binary(text.value).value))
  }

  /** The cast to uint32_t. */
  function Wrapped(n: Int64): Word32 { n % 0x1_0000_0000 }

  /** What the object inside a $date or $timestamp takes. */
  predicate InnerTaken(key: Special, m: Member, x: Platform)
  {
    if key == DateKey then SpecialKey(m.key) == Some(LongKey) && m.value.TextTree? && x.long(m.value.text).Some?
    else key == TimestampKey && (m.key == "t" || m.key == "i") && m.value.IntegerTree?
  }

  predicate AllInnerTaken(key: Special, ms: seq<Member>, x: Platform)
  {
    forall k :: 0 <= k < |ms| ==> InnerTaken(key, ms[k], x)
  }

  function LastInteger(ms: seq<Member>, key: string): Option<Int64>
  {
    if ms == [] then None
    else
      var last := ms[|ms| - 1];
      if last.key == key && last.value.IntegerTree? then Some(last.value.n) else LastInteger(ms[..|ms| - 1], key)
  }

  /** The last $numberLong; without one, the date noted before, or the zero the memory was cleared to. */
  function NestedDate(before: seq<Member>, inner: seq<Member>, x: Platform): Assembly
    requires AllTaken(before, x) && AllInnerTaken(DateKey, inner, x)
  {
    if inner != [] then Complete(DateTime(x.long(inner[|inner| - 1].value.text).value))
    else if before == [] then Complete(DateTime(0))
    else if TypeOf(before[|before| - 1]) == DateType then ScalarAssembly(before, x)
    else Aliased
  }

  function NestedTimestamp(before: seq<Member>, inner: seq<Member>): Assembly
  {
    var t, i := LastInteger(inner, "t"), LastInteger(inner, "i");
    if t.Some? && i.Some? then Complete(Timestamp(Wrapped(t.value), Wrapped(i.value)))
    else if before == [] then Incomplete
    else Aliased
  }

  predicate NoObjects(ms: seq<Member>) { forall k :: 0 <= k < |ms| ==> !ms[k].value.ObjectTree? }

  /** No member is an object, except that the last one may be one under $date or $timestamp. */
  predicate Shaped(ms: seq<Member>)
  {
    && ms != [] && NoObjects(ms[..|ms| - 1])
    && var last := ms[|ms| - 1];
       last.value.ObjectTree? ==>
         (SpecialKey(last.key) == Some(DateKey) || SpecialKey(last.key) == Some(TimestampKey))
         && NoObjects(last.value.members)
  }

  function NestedAssembly(key: Special, before: seq<Member>, inner: seq<Member>, x: Platform): Assembly
    requires AllTaken(before, x)
  {
    if !AllInnerTaken(key, inner, x) then Incomplete
    else if key == DateKey then NestedDate(before, inner, x)
    else NestedTimestamp(before, inner)
  }

  function SpecialAssembly(ms: seq<Member>, x: Platform): Assembly
    requires Shaped(ms)
  {
    var before, last := ms[..|ms| - 1], ms[|ms| - 1];
    if !AllTaken(before, x) then Incomplete
    else if last.value.ObjectTree? then NestedAssembly(SpecialKey(last.key).value, before, last.value.members, x)
    else if !Taken(last, x) then Incomplete
    else ScalarAssembly(ms, x)
  }

  /** The value of a special object; None for one that is refused or has no value here. */
  function SpecialValue(ms: seq<Member>, x: Platform): Option<Value>
  {
    if Shaped(ms) && SpecialAssembly(ms, x).Complete? then Some(SpecialAssembly(ms, x).value) else None
  }

  /** Every special object of a tree has a shape that is dealt with here, and reads no bytes of another type. */
  predicate Settled(v: Tree, x: Platform)
  {
    match v
    case ObjectTree(members) =>
      if IsSpecial(members) then Shaped(members) && !SpecialAssembly(members, x).Aliased?
      else MembersSettled(members, x)
    case ArrayTree(items) => ItemsSettled(items, x)
    case _ => true
  }

  predicate MembersSettled(members: seq<Member>, x: Platform)
  {
    members == [] || (Settled(members[0].value, x) && MembersSettled(members[1..], x))
  }

  predicate ItemsSettled(items: seq<Tree>, x: Platform)
  {
    items == [] || (Settled(items[0], x) && ItemsSettled(items[1..], x))
  }

  // Trees.

  /** The BSON value of a tree; None when some special object in it has none. */
  function Meaning(v: Tree, x: Platform): Option<Value>
  {
    match v
    case NullTree => Some(Null)
    case BooleanTree(b) => Some(Boolean(b))
    case IntegerTree(n) => Some(IntegerValue(n))
    case DoubleTree(d) => Some(Double(d))
    case TextTree(s) => Some(Utf8(s))
    case ObjectTree(members) =>
      if IsSpecial(members) then SpecialValue(members, x)
      else
        var fields := MemberFields(members, x);
        if fields.Some? then Some(Document(fields.value)) else None
    case ArrayTree(items) =>
      var fields := ItemFields(items, 0, x);
      if fields.Some? then Some(Array(fields.value)) else None
  }

  function MemberFields(members: seq<Member>, x: Platform): Option<seq<Field>>
  {
    if members == [] then Some([])
    else
      var v, rest := Meaning(members[0].value, x), MemberFields(members[1..], x);
      if v.Some? && rest.Some? then Some([Field(members[0].key, v.value)] + rest.value) else None
  }

  /** How many array indexes a tree uses up: one, but a special object one for each callback that fixes the key. */
  function IndexesUsed(v: Tree): (n: nat)
    ensures n >= 1
  {
    if v.ObjectTree? && IsSpecial(v.members) then 1 + SpecialIndexes(v.members) else 1
  }

  function SpecialIndexes(members: seq<Member>): nat
  {
    if members == [] then 0
    else
      (match members[0].value
       case ObjectTree(inner) => 1 + |inner|
       case _ => 1) + SpecialIndexes(members[1..])
  }

  /** The fields of an array from index i on. */
  function ItemFields(items: seq<Tree>, i: nat, x: Platform): Option<seq<Field>>
    decreases items
  {
    if items == [] then Some([])
    else
      var next := i + IndexesUsed(items[0]);
      var v, rest := Meaning(items[0], x), ItemFields(items[1..], next, x);
      if v.Some? && rest.Some? then Some([Field(IndexKey(next - 1), v.value)] + rest.value) else None
  }

  /** Levels of documents and arrays that are open at once. */
  function Depth(v: Tree): nat
  {
    match v
    case ObjectTree(members) => if IsSpecial(members) then 0 else 1 + MembersDepth(members)
    case ArrayTree(items) => 1 + ItemsDepth(items)
    case _ => 0
  }

  function MembersDepth(members: seq<Member>): nat
  {
    if members == [] then 0 else Max(Depth(members[0].value), MembersDepth(members[1..]))
  }

  function ItemsDepth(items: seq<Tree>): nat
  {
    if items == [] then 0 else Max(Depth(items[0]), ItemsDepth(items[1..]))
  }
}
