/**
 bson_as_json against the reader: the tree whose text it writes for a value, and which values come back
 when that tree is read. Texts are written with escapes, but control characters past the ninth are
 escaped in decimal and read in hexadecimal.
 */
module JsonWriting {
  import opened Bson
  import opened BsonBuilding
  import opened BsonBytes
  import opened Json
  import opened JsonMachine
  import opened JsonSpecials
  import opened JsonTheorems
  import opened Words
  import Base64
  import Decimal128
  import DecimalParse
  import DecimalRoundTrip

  // Texts.

  const HEX: string := "0123456789abcdef"

  /** printf's "%02x". */
  function HexByte(b: Byte): (s: string)
    ensures |s| == 2
  {
    [HEX[b / 16], HEX[b % 16]]
  }

  /** bson_oid_to_string. */
  function HexText(b: seq<Byte>): (s: string)
    ensures |s| == 2 * |b|
    ensures forall k :: 0 <= k < |b| ==> s[2 * k] == HEX[b[k] / 16] && s[2 * k + 1] == HEX[b[k] % 16]
  {
    if b == [] then "" else HexText(b[..|b| - 1]) + HexByte(b[|b| - 1])
  }

  /** Characters whose escape is their number, in decimal. */
  predicate Numbered(c: char) { c < ' ' && !(('\U{08}' <= c <= '\n') || c == '\U{0c}' || c == '\r') }

  /** A character as it is read back from its escape: four digits, read as hexadecimal. */
  function RereadChar(c: char): char
  {
    var n := c as int;
    if Numbered(c) then (n / 10 * 16 + n % 10) as char else c
  }

  /** A text written by bson_utf8_escape_for_json, as a JSON parser reads it. */
  function Reread(s: string): (t: string)
    ensures |t| == |s|
  {
    seq(|s|, k requires 0 <= k < |s| => RereadChar(s[k]))
  }

  /** A text that needs no escapes: some are written without. */
  predicate Plain(s: string) { |s| < 0x8000_0000 && forall c :: c in s ==> c >= ' ' && c != '"' && c != '\\' }

  // The tree.

  /** What fits into JSON as it is written: short texts, and no need of an escape where none is made. */
  predicate Writable(v: Value)
  {
    match v
    case Utf8(s) => |s| < 0x8000_0000
    case Document(fs) => AllWritable(fs)
    case Array(fs) => AllWritable(fs)
    case Binary(_, b) => |Base64.Encode(b)| < 0x8000_0000
    case ObjectId(oid) => |oid| == 12
    case Regex(pattern, options) => Plain(pattern) && Plain(options)
    case DbPointer(collection, oid) => Plain(collection) && |oid| == 12
    case Code(s) => |s| < 0x8000_0000
    case Symbol(s) => Plain(s)
    case CodeWithScope(s, fs) => |s| < 0x8000_0000 && AllWritable(fs)
    case _ => true
  }

  predicate AllWritable(fs: seq<Field>)
  {
    fs == [] || (|fs[0].key| < 0x8000_0000 && Writable(fs[0].value) && AllWritable(fs[1..]))
  }

  /** A double as its fifteen digits are read: an integer or a double. */
  type Printer = f: Word64 -> Tree | IsPrinter(f) ghost witness (bits: Word64) => DoubleTree(bits)

  ghost predicate IsPrinter(f: Word64 -> Tree) { forall bits :: f(bits).IntegerTree? || f(bits).DoubleTree? }

  function DecimalText(high: Word64, low: Word64): Text
  {
    var d := Decimal128.Dec128(high, low);
    DecimalRoundTrip.RoundTripIff(d, 0, 0);
    Decimal128.Text(Decimal128.Decode(d))
  }

  /** An object whose members are special keys, or look like them. */
  function SpecialJson(v: Value): Tree
    requires Writable(v)
  {
    match v
    case Binary(subtype, b) => PairJson("$binary", Base64.Encode(b), "$type", HexByte(subtype))
    case ObjectId(oid) => TextJson("$oid", HexText(oid))
    case Regex(pattern, options) => PairJson("$regex", pattern, "$options", options)
    case DbPointer(collection, oid) => PairJson("$ref", collection, "$id", HexText(oid))
    case Code(s) => TextJson("$code", Reread(s))
    case Decimal128(high, low) => TextJson("$numberDecimal", DecimalText(high, low))
    case _ => BareJson(v)
  }

  function BareJson(v: Value): Tree
  {
    match v
    case Undefined => ObjectTree([Member("$undefined", BooleanTree(true))])
    case DateTime(n) => NumberJson("$date", n)
    case MinKey => NumberJson("$minKey", 1)
    case _ => NumberJson("$maxKey", 1)
  }

  function NumberJson(key: Text, n: Int64): Tree { ObjectTree([Member(key, IntegerTree(n))]) }

  function TextJson(key: Text, s: Text): Tree { ObjectTree([Member(key, TextTree(s))]) }

  function PairJson(key: Text, s: Text, other: Text, t: Text): Tree
  {
    ObjectTree([Member(key, TextTree(s)), Member(other, TextTree(t))])
  }

  function StampJson(t: Word32, i: Word32): Tree
  {
    ObjectTree([Member("$timestamp", ObjectTree([Member("t", IntegerTree(t)), Member("i", IntegerTree(i))]))])
  }

  /** The visitors of bson_as_json. */
  function JsonOf(v: Value, number: Printer): Tree
    requires Writable(v)
  {
    match v
    case Null => NullTree
    case Boolean(b) => BooleanTree(b)
    case Int32Value(n) => IntegerTree(n)
    case Int64Value(n) => IntegerTree(n)
    case Double(bits) => number(bits)
    case Utf8(s) => TextTree(Reread(s))
    case Symbol(s) => TextTree(s)
    case Document(fs) => ObjectTree(MembersOf(fs, number))
    case Array(fs) => ArrayTree(ItemsOf(fs, number))
    case CodeWithScope(s, fs) => ScopeJson(s, MembersOf(fs, number))
    case Timestamp(t, i) => StampJson(t, i)
    case _ => SpecialJson(v)
  }

  function ScopeJson(s: Text, scope: seq<Member>): Tree
  {
    ObjectTree([Member("$code", TextTree(Reread(s))), Member("$scope", ObjectTree(scope))])
  }

  function MembersOf(fs: seq<Field>, number: Printer): seq<Member>
    requires AllWritable(fs)
  {
    if fs == [] then []
    else [Member(Reread(fs[0].key), JsonOf(fs[0].value, number))] + MembersOf(fs[1..], number)
  }

  /** In an array the keys are not written. */
  function ItemsOf(fs: seq<Field>, number: Printer): seq<Tree>
    requires AllWritable(fs)
  {
    if fs == [] then [] else [JsonOf(fs[0].value, number)] + ItemsOf(fs[1..], number)
  }

  // What comes back.

  /** No control character that is escaped with two digits. */
  predicate Kept(s: string) { forall c :: c in s ==> c != '\U{0b}' && !('\U{0e}' <= c <= '\U{1f}') }

  const SPECIAL_NAMES: set<string> :=
    {"$regex", "$options", "$oid", "$binary", "$type", "$date", "$undefined", "$minKey", "$maxKey", "$timestamp",
     "$numberLong", "$numberDecimal"}

  /** How many array indexes the reader uses up for a value. */
  function Uses(v: Value): (n: nat)
    ensures n >= 1
  {
    match v
    case Binary(_, _) => 3
    case Regex(_, _) => 3
    case Timestamp(_, _) => 4
    case ObjectId(_) => 2
    case DateTime(_) => 2
    case Undefined => 2
    case Decimal128(_, _) => 2
    case MinKey => 2
    case MaxKey => 2
    case _ => 1
  }

  /** The values that are read back as they were. */
  predicate Survives(v: Value, number: Printer)
  {
    match v
    case Utf8(s) => Kept(s)
    case Int64Value(n) => n < -0x8000_0000 || n > 0x7fff_ffff
    case Double(bits) => number(bits) == DoubleTree(bits)
    case Document(fs) => (fs != [] ==> fs[0].key !in SPECIAL_NAMES) && NamesSurvive(fs, number)
    case Array(fs) => ElementsSurvive(fs, 0, number)
    case Decimal128(high, low) => Decimal128.Canonical(Decimal128.Dec128(high, low))
    case DbPointer(_, _) => false
    case Code(_) => false
    case Symbol(_) => false
    case CodeWithScope(_, _) => false
    case _ => true
  }

  predicate NamesSurvive(fs: seq<Field>, number: Printer)
  {
    fs == [] || (Kept(fs[0].key) && Survives(fs[0].value, number) && NamesSurvive(fs[1..], number))
  }

  /** The keys must be those the reader counts out, which skips one for each callback inside a special object. */
  predicate ElementsSurvive(fs: seq<Field>, i: nat, number: Printer)
  {
    fs == [] ||
    (fs[0].key == IndexKey(i + Uses(fs[0].value) - 1) && Survives(fs[0].value, number)
     && ElementsSurvive(fs[1..], i + Uses(fs[0].value), number))
  }

  // Characters.

  lemma RereadSame(s: string)
    ensures Reread(s) == s <==> Kept(s)
  {
    forall c: char ensures RereadChar(c) == c <==> c != '\U{0b}' && !('\U{0e}' <= c <= '\U{1f}') {
      CharKept(c);
    }
    if Reread(s) == s {
      forall c | c in s ensures RereadChar(c) == c {
        var k :| 0 <= k < |s| && s[k] == c;
        assert Reread(s)[k] == s[k];
      }
    }
    if Kept(s) {
      assert forall k :: 0 <= k < |s| ==> s[k] in s;
      assert Reread(s) == s;
    }
  }

  lemma CharKept(c: char)
    ensures RereadChar(c) == c <==> c != '\U{0b}' && !('\U{0e}' <= c <= '\U{1f}')
  {
    if Numbered(c) && c >= '\U{0a}' {
      var n := c as int;
      assert n / 10 >= 1 && n / 10 * 16 + n % 10 == n + 6 * (n / 10);
    }
  }

  lemma NibbleOfHex(n: nat)
    requires n < 16
    ensures Nibble(HEX[n]) == n && Nibble("0123456789ABCDEF"[n]) == n
  {
  }

  /** A character of an id counts as its hexadecimal digit, in either case, and every other one as zero. */
  lemma NibbleIff(c: char)
    ensures Nibble(c) == 0 || c == HEX[Nibble(c)] || c == "0123456789ABCDEF"[Nibble(c)]
    ensures forall n :: 0 <= n < 16 && (c == HEX[n] || c == "0123456789ABCDEF"[n]) ==> Nibble(c) == n
  {
    forall n | 0 <= n < 16 && (c == HEX[n] || c == "0123456789ABCDEF"[n]) ensures Nibble(c) == n {
      NibbleOfHex(n);
    }
  }

  /** An id is read back from its hexadecimal text. */
  lemma OidOfHex(oid: seq<Byte>)
    requires |oid| == 12
    ensures OidOf(HexText(oid)) == oid
  {
    hide Nibble, HexText;
    forall k | 0 <= k < 12 ensures OidByte(HexText(oid)[2 * k], HexText(oid)[2 * k + 1]) == oid[k] {
      NibbleOfHex(oid[k] / 16);
      NibbleOfHex(oid[k] % 16);
    }
  }

  /** The names are those of the special keys. */
  lemma SpecialNames(key: string)
    ensures SpecialKey(key).Some? <==> key in SPECIAL_NAMES
  {
  }

  // Reading the tree.

  /** A special object of scalars. */
  lemma ScalarsMean(ms: seq<Member>, x: Platform)
    requires IsSpecial(ms) && NoObjects(ms)
    ensures Meaning(ObjectTree(ms), x) ==
            if AllTaken(ms, x) && ScalarAssembly(ms, x).Complete? then Some(ScalarAssembly(ms, x).value) else None
  {
    hide SpecialKey, Taken, ScalarAssembly;
    assert Shaped(ms);
    AllTakenSplit(ms, x);
  }

  lemma OneAssembly(m: Member, x: Platform)
    requires Taken(m, x)
    ensures ScalarAssembly([m], x) ==
            match SpecialKey(m.key).value
            case RegexKey => Complete(Regex(CStringOf(m.value.text), ""))
            case OptionsKey => Incomplete
            case BinaryKey => Incomplete
            case TypeKey => Incomplete
            case key => Complete(OneValue(key, m.value, x).value)
  {
    hide SpecialKey, LastText, CStringOf;
    var ms := [m];
    TailSnoc([], m, TypeOf(m));
    assert [] + [m] == ms && Tail([], TypeOf(m)) == [];
    NoText();
    LastTextSnoc([], m, RegexKey);
    LastTextSnoc([], m, OptionsKey);
    LastTextSnoc([], m, BinaryKey);
    LastTextSnoc([], m, TypeKey);
  }

  lemma OneSpecial(m: Member, x: Platform)
    requires SpecialKey(m.key).Some? && !m.value.ObjectTree? && SpecialKey(m.key) != Some(RegexKey)
    ensures Meaning(ObjectTree([m]), x) == OneValue(SpecialKey(m.key).value, m.value, x)
  {
    hide SpecialKey, ScalarAssembly, Meaning;
    ScalarsMean([m], x);
    assert AllTaken([m], x) <==> Taken(m, x);
    if Taken(m, x) {
      OneAssembly(m, x);
    }
  }

  /** The last of two members of one type, and what they say of the four parts. */
  lemma PairTail(m: Member, n: Member, x: Platform)
    requires Taken(m, x) && Taken(n, x) && m.value.TextTree? && n.value.TextTree? && TypeOf(m) == TypeOf(n)
    ensures [m, n][1] == n && Tail([m, n], TypeOf(n)) == [m, n] && AllTaken([m, n], x)
    ensures SpecialKey(m.key) == Some(RegexKey) && SpecialKey(n.key) == Some(OptionsKey) ==>
              LastText([m, n], RegexKey) == Some(m.value.text) && LastText([m, n], OptionsKey) == Some(n.value.text)
    ensures SpecialKey(m.key) == Some(BinaryKey) && SpecialKey(n.key) == Some(TypeKey) ==>
              LastText([m, n], BinaryKey) == Some(m.value.text) && LastText([m, n], TypeKey) == Some(n.value.text)
  {
    hide SpecialKey, LastText, OneValue, Takes, TypeOf, Tail, Taken;
    var t := TypeOf(n);
    NoTail(t);
    TailSnoc([], m, t);
    TailSnoc([m], n, t);
    assert [] + [m] == [m] && [m] + [n] == [m, n];
    LastTextSnoc([], m, RegexKey);
    LastTextSnoc([], m, BinaryKey);
    LastTextSnoc([m], n, RegexKey);
    LastTextSnoc([m], n, OptionsKey);
    LastTextSnoc([m], n, BinaryKey);
    LastTextSnoc([m], n, TypeKey);
  }

  lemma NoTail(t: SpecialType)
    ensures Tail([], t) == []
  {
  }

  /** Two parts of one type. */
  lemma PairAssembly(m: Member, n: Member, x: Platform)
    requires Taken(m, x) && Taken(n, x) && m.value.TextTree? && n.value.TextTree?
    ensures SpecialKey(m.key) == Some(RegexKey) && SpecialKey(n.key) == Some(OptionsKey) ==>
              ScalarAssembly([m, n], x) == Complete(Regex(CStringOf(m.value.text), CStringOf(n.value.text)))
    ensures SpecialKey(m.key) == Some(BinaryKey) && SpecialKey(n.key) == Some(TypeKey) ==>
              ScalarAssembly([m, n], x) ==
              Complete(Binary(x.hex(n.value.text).value % 256, x.binary(m.value.text).value))
  {
    hide SpecialKey, LastText, CStringOf, OneValue, Tail;
    if TypeOf(m) == TypeOf(n) {
      PairTail(m, n, x);
    }
  }

  lemma TwoSpecial(m: Member, n: Member, x: Platform)
    requires Taken(m, x) && Taken(n, x) && m.value.TextTree? && n.value.TextTree?
    requires || (SpecialKey(m.key) == Some(RegexKey) && SpecialKey(n.key) == Some(OptionsKey))
             || (SpecialKey(m.key) == Some(BinaryKey) && SpecialKey(n.key) == Some(TypeKey))
    ensures Meaning(ObjectTree([m, n]), x) ==
            if SpecialKey(m.key) == Some(RegexKey)
            then Some(Regex(CStringOf(m.value.text), CStringOf(n.value.text)))
            else Some(Binary(x.hex(n.value.text).value % 256, x.binary(m.value.text).value))
  {
    hide SpecialKey, ScalarAssembly, Meaning, Taken, CStringOf;
    ScalarsMean([m, n], x);
    PairAssembly(m, n, x);
  }

  lemma StampMeans(t: Word32, i: Word32, x: Platform)
    ensures Meaning(StampJson(t, i), x) == Some(Timestamp(t, i))
  {
    hide ScalarAssembly, OneValue;
    var first, second := Member("t", IntegerTree(t)), Member("i", IntegerTree(i));
    var inner := [first, second];
    var ms := [Member("$timestamp", ObjectTree(inner))];
    assert ms[..0] == [] && NoObjects([]) && NoObjects(inner) && AllTaken([], x) && Shaped(ms);
    assert AllInnerTaken(TimestampKey, inner, x);
    assert inner[..1] == [first];
    assert LastInteger([first], "t") == Some(t as Int64);
    assert LastInteger(inner, "t") == Some(t as Int64) && LastInteger(inner, "i") == Some(i as Int64);
  }

  // The texts in it.

  /** sscanf reads back what printf has written. */
  ghost predicate ReadsHex(env: Environment) { forall b: Byte :: env.hex(HexByte(b)) == Some(b) }

  lemma WholeText(s: string)
    requires '\0' !in s && |s| < 0x8000_0000
    ensures CStringOf(s) == s
  {
  }

  lemma HexHasNoNul(b: Byte)
    ensures '\0' !in HexByte(b)
  {
  }

  lemma HexBack(b: Byte, env: Environment)
    requires ReadsHex(env)
    ensures Libbson(env).hex(HexByte(b)) == Some(b)
  {
    hide CStringOf;
    HexHasNoNul(b);
    WholeText(HexByte(b));
    assert env.hex(HexByte(b)) == Some(b);
  }

  lemma EncodedText(b: seq<Byte>)
    ensures forall c :: c in Base64.Encode(b) ==> '\0' < c < '\U{80}'
  {
    hide Base64.CharOf, Base64.Sextets;
    var s, q := Base64.Encode(b), Base64.Sextets(b);
    forall k | 0 <= k < |s| ensures '\0' < s[k] < '\U{80}' {
      if k < |q| {
        SymbolText(q[k]);
      }
    }
  }

  lemma SymbolText(v: Base64.Sextet)
    ensures '\0' < Base64.CharOf(v) < '\U{80}'
  {
  }

  lemma BinaryBack(b: seq<Byte>, env: Environment)
    requires |Base64.Encode(b)| < 0x8000_0000
    ensures Libbson(env).binary(Base64.Encode(b)) == Some(b)
  {
    hide Base64.Encode, Base64.ScanFrom, Base64.TailOk, Base64.Data, CStringOf;
    var s := Base64.Encode(b);
    EncodedText(b);
    WholeText(s);
    Base64.DecodeEncode(b);
    assert forall k :: 0 <= k < |s| ==> s[k] in s;
    assert IsAscii(s) && BinaryOf(s) == Some(b);
  }

  lemma DecimalBack(high: Word64, low: Word64, env: Environment)
    ensures Libbson(env).decimal(DecimalText(high, low)) == Decimal128(high, low)
            <==> Decimal128.Canonical(Decimal128.Dec128(high, low))
    ensures Libbson(env).decimal(DecimalText(high, low)).Decimal128?
  {
    hide Decimal128.Canonical, Decimal128.Text, Decimal128.Decode, DecimalParse.Parse;
    var d := Decimal128.Dec128(high, low);
    DecimalRoundTrip.RoundTripIff(d, env.wild, env.beyond);
    WholeText(DecimalText(high, low));
  }

  // What comes back, case by case.

  /** The values that are written as special objects, or like them. */
  predicate IsTagged(v: Value)
  {
    v.Binary? || v.ObjectId? || v.Regex? || v.DbPointer? || v.Code? || v.Decimal128? || v.Undefined? || v.DateTime?
    || v.MinKey? || v.MaxKey?
  }

  lemma TaggedBack(v: Value, number: Printer, env: Environment)
    requires Writable(v) && IsTagged(v) && ReadsHex(env)
    ensures Meaning(SpecialJson(v), Libbson(env)) == Some(v) <==> Survives(v, number)
    ensures !v.DbPointer? && !v.Code? ==> Meaning(SpecialJson(v), Libbson(env)).Some?
  {
    hide Meaning, SpecialJson, Libbson;
    match v
    case Binary(subtype, b) => BinaryMeans(subtype, b, env);
    case ObjectId(oid) => OidMeans(oid, Libbson(env));
    case Regex(pattern, options) => RegexMeans(pattern, options, Libbson(env));
    case DbPointer(_, _) => UnreadMeans(v, Libbson(env));
    case Code(_) => UnreadMeans(v, Libbson(env));
    case Decimal128(high, low) => DecimalMeans(high, low, env);
    case _ => BareMeans(v, Libbson(env));
  }

  lemma OidMeans(oid: seq<Byte>, x: Platform)
    requires |oid| == 12
    ensures Meaning(SpecialJson(ObjectId(oid)), x) == Some(ObjectId(oid))
  {
    hide Meaning, HexText, OidOf;
    OidOfHex(oid);
    OneTag("$oid", TextTree(HexText(oid)), OidKey, x);
  }

  lemma DecimalMeans(high: Word64, low: Word64, env: Environment)
    ensures var v := Meaning(SpecialJson(Decimal128(high, low)), Libbson(env));
            v.Some? && (v.value == Decimal128(high, low) <==> Decimal128.Canonical(Decimal128.Dec128(high, low)))
  {
    hide Meaning, DecimalText, Libbson, Decimal128.Canonical;
    DecimalBack(high, low, env);
    OneTag("$numberDecimal", TextTree(DecimalText(high, low)), DecimalKey, Libbson(env));
  }

  lemma BareMeans(v: Value, x: Platform)
    requires v.Undefined? || v.DateTime? || v.MinKey? || v.MaxKey?
    ensures Meaning(SpecialJson(v), x) == Some(v)
  {
    hide Meaning;
    match v
    case Undefined => OneTag("$undefined", BooleanTree(true), UndefinedKey, x);
    case DateTime(n) => OneTag("$date", IntegerTree(n), DateKey, x);
    case MinKey => OneTag("$minKey", IntegerTree(1), MinKeyKey, x);
    case MaxKey => OneTag("$maxKey", IntegerTree(1), MaxKeyKey, x);
  }

  lemma UnreadMeans(v: Value, x: Platform)
    requires Writable(v) && (v.DbPointer? || v.Code?)
    ensures Meaning(SpecialJson(v), x) != Some(v)
  {
    hide Meaning, HexText, Reread;
    NoTag(SpecialJson(v), if v.Code? then "$code" else "$ref", x);
  }

  lemma TaggedUses(v: Value)
    requires Writable(v) && IsTagged(v) && !v.DbPointer? && !v.Code?
    ensures IndexesUsed(SpecialJson(v)) == Uses(v)
  {
    hide DecimalText, HexText, HexByte, Base64.Encode, SpecialIndexes, SpecialKey;
    var ms := SpecialJson(v).members;
    PlainIndexes(ms);
    SpecialNames(ms[0].key);
  }

  /** An object whose first key is like a special one, but is none. */
  lemma NoTag(v: Tree, key: string, x: Platform)
    requires v.ObjectTree? && v.members != [] && v.members[0].key == key && (key == "$ref" || key == "$code")
    ensures Meaning(v, x).Some? ==> Meaning(v, x).value.Document?
    ensures IndexesUsed(v) == 1
  {
  }

  /** The special keys, by their names. */
  lemma OneTag(name: string, v: Tree, key: Special, x: Platform)
    requires || (name == "$oid" && key == OidKey) || (name == "$numberDecimal" && key == DecimalKey)
             || (name == "$undefined" && key == UndefinedKey) || (name == "$date" && key == DateKey)
             || (name == "$minKey" && key == MinKeyKey) || (name == "$maxKey" && key == MaxKeyKey)
    requires !v.ObjectTree?
    ensures Meaning(ObjectTree([Member(name, v)]), x) == OneValue(key, v, x)
  {
    hide Meaning, OneValue;
    OneSpecial(Member(name, v), x);
  }

  lemma BinaryMeans(subtype: Byte, b: seq<Byte>, env: Environment)
    requires |Base64.Encode(b)| < 0x8000_0000 && ReadsHex(env)
    ensures Meaning(SpecialJson(Binary(subtype, b)), Libbson(env)) == Some(Binary(subtype, b))
  {
    hide Meaning, CStringOf, Libbson, Base64.Encode, HexByte, OneValue, ReadsHex;
    var x := Libbson(env);
    var m, n := Member("$binary", TextTree(Base64.Encode(b))), Member("$type", TextTree(HexByte(subtype)));
    BinaryBack(b, env);
    HexBack(subtype, env);
    assert Taken(m, x) && Taken(n, x);
    TwoSpecial(m, n, x);
  }

  lemma RegexMeans(pattern: string, options: string, x: Platform)
    requires Plain(pattern) && Plain(options)
    ensures Meaning(SpecialJson(Regex(pattern, options)), x) == Some(Regex(pattern, options))
  {
    hide Meaning, CStringOf;
    var m, n := Member("$regex", TextTree(pattern)), Member("$options", TextTree(options));
    WholeText(pattern);
    WholeText(options);
    TwoSpecial(m, n, x);
  }

  /** A special object is no document and no array. */
  lemma SpecialIsScalar(ms: seq<Member>, env: Environment)
    requires IsSpecial(ms)
    ensures var v := Meaning(ObjectTree(ms), Libbson(env)); v.Some? ==> !v.value.Document? && !v.value.Array?
  {
    hide SpecialKey, Taken, Tail, LastText, RegexAssembly, BinaryAssembly;
    if Shaped(ms) && SpecialAssembly(ms, Libbson(env)).Complete? {
      AssemblyIsScalar(ms, env);
    }
  }

  lemma AssemblyIsScalar(ms: seq<Member>, env: Environment)
    requires Shaped(ms) && SpecialAssembly(ms, Libbson(env)).Complete?
    ensures !HoldsFields(SpecialAssembly(ms, Libbson(env)).value)
  {
    hide SpecialKey, Takes, Tail, LastText;
    var before := ms[..|ms| - 1];
    if AllTaken(ms, Libbson(env)) {
      ScalarAssemblyIsScalar(ms, env);
    }
    if before != [] && AllTaken(before, Libbson(env)) && ScalarAssembly(before, Libbson(env)).Complete? {
      ScalarAssemblyIsScalar(before, env);
    }
  }

  lemma ScalarAssemblyIsScalar(ms: seq<Member>, env: Environment)
    requires ms != [] && AllTaken(ms, Libbson(env)) && ScalarAssembly(ms, Libbson(env)).Complete?
    ensures !HoldsFields(ScalarAssembly(ms, Libbson(env)).value)
  {
    hide SpecialKey, Tail, LastText;
  }

  // The round trip.

  /** Writing a value as JSON and reading it gives the value back exactly when it survives. */
  lemma {:induction false} WrittenIsReadIff(v: Value, number: Printer, env: Environment)
    requires Writable(v) && ReadsHex(env)
    ensures Meaning(JsonOf(v, number), Libbson(env)) == Some(v) <==> Survives(v, number)
    ensures Survives(v, number) ==> IndexesUsed(JsonOf(v, number)) == Uses(v)
    decreases v, 1
  {
    hide Libbson, SpecialJson, ReadsHex, Meaning, Reread, IndexesUsed, MembersOf, ItemsOf;
    match v
    case Document(fs) => DocumentBack(fs, number, env);
    case Array(fs) => ArrayBack(fs, number, env);
    case _ =>
      if IsTagged(v) {
        TaggedBack(v, number, env);
        if !v.DbPointer? && !v.Code? {
          TaggedUses(v);
        }
      } else {
        UntaggedBack(v, number, env);
      }
  }

  lemma UntaggedBack(v: Value, number: Printer, env: Environment)
    requires Writable(v) && !IsTagged(v) && !v.Document? && !v.Array?
    ensures Meaning(JsonOf(v, number), Libbson(env)) == Some(v) <==> Survives(v, number)
    ensures Survives(v, number) ==> IndexesUsed(JsonOf(v, number)) == Uses(v)
  {
    hide Libbson, Reread, MembersOf, StampJson, Meaning, IndexesUsed;
    UntaggedMeans(v, number, Libbson(env));
    match v
    case Utf8(s) => RereadSame(s);
    case Timestamp(t, i) =>
      StampMeans(t, i, Libbson(env));
      StampUses(t, i);
    case CodeWithScope(s, fs) => NoTag(ScopeJson(s, MembersOf(fs, number)), "$code", Libbson(env));
    case _ =>
  }

  /** The values that JSON has. */
  lemma UntaggedMeans(v: Value, number: Printer, x: Platform)
    requires Writable(v) && !IsTagged(v) && !v.Document? && !v.Array?
    ensures v.Timestamp? || v.CodeWithScope? ||
            (IndexesUsed(JsonOf(v, number)) == 1
             && match JsonOf(v, number)
                case NullTree => Meaning(JsonOf(v, number), x) == Some(Null)
                case BooleanTree(b) => Meaning(JsonOf(v, number), x) == Some(Boolean(b))
                case IntegerTree(n) => Meaning(JsonOf(v, number), x) == Some(IntegerValue(n))
                case DoubleTree(bits) => Meaning(JsonOf(v, number), x) == Some(Double(bits))
                case TextTree(s) => Meaning(JsonOf(v, number), x) == Some(Utf8(s))
                case _ => false)
  {
    hide Reread, MembersOf, StampJson, ScopeJson;
    if v.Double? {
      assert number(v.bits).IntegerTree? || number(v.bits).DoubleTree?;
    }
  }

  lemma StampUses(t: Word32, i: Word32)
    ensures IndexesUsed(StampJson(t, i)) == 4
  {
    var ms := StampJson(t, i).members;
    assert ms[1..] == [] && SpecialIndexes(ms[1..]) == 0;
    assert |ms[0].value.members| == 2;
  }

  lemma {:induction false} DocumentBack(fs: seq<Field>, number: Printer, env: Environment)
    requires AllWritable(fs) && ReadsHex(env)
    ensures var v, tree := Document(fs), ObjectTree(MembersOf(fs, number));
            && (Meaning(tree, Libbson(env)) == Some(v) <==> Survives(v, number))
            && (Survives(v, number) ==> IndexesUsed(tree) == 1)
    decreases fs, 1
  {
    hide Libbson, SpecialKey, Reread, SpecialValue, ReadsHex;
    var ms := MembersOf(fs, number);
    NamesBack(fs, number, env);
    if fs != [] {
      SpecialNames(fs[0].key);
      RereadSame(fs[0].key);
      assert ms[0].key == Reread(fs[0].key);
      if IsSpecial(ms) {
        SpecialIsScalar(ms, env);
      }
    }
  }

  lemma {:induction false} NamesBack(fs: seq<Field>, number: Printer, env: Environment)
    requires AllWritable(fs) && ReadsHex(env)
    ensures MemberFields(MembersOf(fs, number), Libbson(env)) == Some(fs) <==> NamesSurvive(fs, number)
    decreases fs, 0
  {
    hide Libbson, Meaning, JsonOf, Survives, Reread, ReadsHex, Kept;
    if fs != [] {
      var ms := MembersOf(fs, number);
      FieldBack(fs[0], number, env);
      RereadSame(fs[0].key);
      NamesBack(fs[1..], number, env);
      var v, rest := Meaning(ms[0].value, Libbson(env)), MemberFields(ms[1..], Libbson(env));
      assert ms[1..] == MembersOf(fs[1..], number);
      if v.Some? && rest.Some? {
        FirstAndRest(fs, Field(ms[0].key, v.value), rest.value);
      }
    }
  }

  lemma {:induction false} ArrayBack(fs: seq<Field>, number: Printer, env: Environment)
    requires AllWritable(fs) && ReadsHex(env)
    ensures var v, tree := Array(fs), ArrayTree(ItemsOf(fs, number));
            (Meaning(tree, Libbson(env)) == Some(v) <==> Survives(v, number)) && IndexesUsed(tree) == 1
    decreases fs, 1
  {
    hide Libbson, ReadsHex;
    ElementsBack(fs, 0, number, env);
  }

  lemma {:induction false} ElementsBack(fs: seq<Field>, i: nat, number: Printer, env: Environment)
    requires AllWritable(fs) && ReadsHex(env)
    ensures ItemFields(ItemsOf(fs, number), i, Libbson(env)) == Some(fs) <==> ElementsSurvive(fs, i, number)
    decreases fs, 0
  {
    hide Libbson, Meaning, JsonOf, Survives, ReadsHex, IndexesUsed, Uses, IndexKey;
    if fs != [] {
      var items := ItemsOf(fs, number);
      assert items[0] == JsonOf(fs[0].value, number) && items[1..] == ItemsOf(fs[1..], number);
      FieldBack(fs[0], number, env);
      var next := i + IndexesUsed(items[0]);
      ElementsBack(fs[1..], next, number, env);
      var v, rest := Meaning(items[0], Libbson(env)), ItemFields(items[1..], next, Libbson(env));
      if v.Some? && rest.Some? {
        FirstAndRest(fs, Field(IndexKey(next - 1), v.value), rest.value);
      }
    }
  }

  lemma FirstAndRest(fs: seq<Field>, f: Field, rest: seq<Field>)
    requires fs != []
    ensures [f] + rest == fs <==> f == fs[0] && rest == fs[1..]
  {
    assert ([f] + rest)[1..] == rest;
    if f == fs[0] && rest == fs[1..] {
      assert [f] + rest == fs;
    }
  }

  lemma {:induction false} FieldBack(f: Field, number: Printer, env: Environment)
    requires Writable(f.value) && ReadsHex(env)
    ensures Meaning(JsonOf(f.value, number), Libbson(env)) == Some(f.value) <==> Survives(f.value, number)
    ensures Survives(f.value, number) ==> IndexesUsed(JsonOf(f.value, number)) == Uses(f.value)
    decreases f
  {
    WrittenIsReadIff(f.value, number, env);
  }

  // Reading it with the machine.

  lemma {:induction false} MeaningIsSettled(v: Tree, x: Platform)
    ensures Meaning(v, x).Some? ==> Settled(v, x)
    decreases v, 1
  {
    hide Shaped, SpecialAssembly, SpecialKey;
    match v
    case ObjectTree(members) => MembersAreSettled(members, x);
    case ArrayTree(items) => ItemsAreSettled(items, 0, x);
    case _ =>
  }

  lemma {:induction false} MembersAreSettled(members: seq<Member>, x: Platform)
    ensures MemberFields(members, x).Some? ==> MembersSettled(members, x)
    decreases members, 0
  {
    hide Meaning, Settled;
    if members != [] {
      MeaningIsSettled(members[0].value, x);
      MembersAreSettled(members[1..], x);
    }
  }

  lemma {:induction false} ItemsAreSettled(items: seq<Tree>, i: nat, x: Platform)
    ensures ItemFields(items, i, x).Some? ==> ItemsSettled(items, x)
    decreases items, 0
  {
    hide Meaning, Settled, IndexesUsed;
    if items != [] {
      MeaningIsSettled(items[0], x);
      ItemsAreSettled(items[1..], i + IndexesUsed(items[0]), x);
    }
  }

  /**
   A document that survives is written and read back field by field, if at most 100 levels of documents and
   arrays nest in it.
   */
  lemma DocumentsComeBack(st: State, fs: seq<Field>, number: Printer, env: Environment)
    requires Writable(Document(fs)) && Survives(Document(fs), number) && ReadsHex(env)
    requires st.readState == Regular && st.doc.stack == Bottom && Depth(JsonOf(Document(fs), number)) <= 100
    ensures Completes(Run(st, Events(JsonOf(Document(fs), number)), Libbson(env)), st.doc.target + fs)
  {
    hide Libbson, Survives, Settled, Depth, Run, Completes, ReadsHex, SpecialValue;
    var tree := JsonOf(Document(fs), number);
    WrittenIsReadIff(Document(fs), number, env);
    MeaningIsSettled(tree, Libbson(env));
    ContainerOf(tree, Libbson(env), fs, env);
    StreamingIsRecursion(st, tree, Libbson(env));
  }

  lemma ContainerOf(tree: Tree, x: Platform, fs: seq<Field>, env: Environment)
    requires tree.ObjectTree? && x == Libbson(env) && Meaning(tree, x) == Some(Document(fs))
    ensures IsContainer(tree)
  {
    hide Libbson, SpecialValue, SpecialKey;
    if IsSpecial(tree.members) {
      SpecialIsScalar(tree.members, env);
    }
  }
}
