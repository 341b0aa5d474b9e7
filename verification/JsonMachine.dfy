/**
 The callbacks of bson-json.c as steps of a state machine: ten read states, a stack of open
 documents and arrays, and the parts of the special object being read.
 */
module JsonMachine {
  import opened Bson
  import opened BsonBuilding
  import opened Json
  import opened Words

  const STACK_MAX: nat := 100

  datatype ReadState =
    | Regular
    | Done
    | Failed
    | InStartMap
    | InBsonType
    | InDateNumberLong
    | InDateEndMap
    | InTimestampStartMap
    | InTimestampValues
    | InTimestampEndMap
    | Outside // no state of the source: what it does from here on is not modelled

  /** The value awaited: bson_state. */
  datatype Awaited =
    | AwaitRegex | AwaitOptions | AwaitOid | AwaitBinary | AwaitType | AwaitDate | AwaitSeconds
    | AwaitIncrement | AwaitUndefined | AwaitMinKey | AwaitMaxKey | AwaitLong | AwaitDecimal

  /**
   bson_type_data and the buffers beside it; None is a has_ flag that is not set. The members of
   bson_type_data lie over each other: `member` is the one written last, and `mixed` says that another
   one was written before, so that bytes of it may show where `member` has not been written.
   */
  datatype Parts = Parts(
    member: SpecialType,
    mixed: bool,
    regex: Option<string>,
    options: Option<string>,
    oid: seq<Byte>,
    binary: Option<seq<Byte>>,
    subtype: Option<Word32>,
    date: Int64,
    seconds: Option<Word32>,
    increment: Option<Word32>,
    long: Int64,
    decimal: Value)

  const NO_PARTS := Parts(NoType, false, None, None, [0, 0, 0, 0, 0, 0, 0, 0, 0, 0, 0, 0], None, None, 0, None, None, 0,
                          Decimal128(0, 0))

  datatype State = State(
    doc: Building,
    key: Option<string>,
    readState: ReadState,
    awaited: Awaited,
    specialType: SpecialType,
    parts: Parts)

  /** What the parts are once a member is written, but for the fields that are written. */
  function Touch(p: Parts, member: SpecialType): Parts
  {
    if p.member == member || p.member == NoType then p.(member := member)
    else NO_PARTS.(member := member, mixed := true)
  }

  /** What a callback leaves, and whether it returned 1. */
  datatype Outcome = Outcome(go: bool, state: State)

  /** _bson_json_read_fixup_key: inside an array the key is the next index. */
  function Fixup(st: State): State
  {
    if st.doc.stack.Open? && st.doc.stack.top.isArray then
      st.(doc := Skip(st.doc, 1), key := Some(IndexKey(st.doc.stack.top.next)))
    else st
  }

  function Fail(st: State): Outcome { Outcome(false, st.(readState := Failed)) }

  function Leave(st: State): Outcome { Outcome(false, st.(readState := Outside)) }

  /** Appending under the pending key; with no level open there is nothing to append to. */
  function Append(st: State, v: Value): Outcome
    requires st.key.Some?
  {
    if st.doc.stack.Bottom? then Leave(st)
    else Outcome(true, st.(doc := AddFields(st.doc, [Field(st.key.value, v)])))
  }

  /** STACK_PUSH_ARRAY and STACK_PUSH_DOC: at most STACK_MAX levels. */
  function Push(st: State, isArray: bool): Outcome
  {
    if Height(st.doc.stack) >= STACK_MAX then Outcome(false, st)
    else
      var begun := if st.doc.stack.Bottom? || st.key.None? then "" else st.key.value;
      Outcome(true, st.(doc := OpenLevel(st.doc, isArray, begun)))
  }

  /** STACK_POP_ARRAY and STACK_POP_DOC: the level becomes a field of the one around it. */
  function Pop(st: State, isArray: bool): Outcome
  {
    if st.doc.stack.Bottom? then Leave(st)
    else
      var top, outer := st.doc.stack.top, st.doc.(stack := st.doc.stack.outer);
      if top.isArray != isArray then Outcome(false, st)
      else if outer.stack.Bottom? then Outcome(false, st.(doc := outer, readState := Done))
      else Outcome(true, st.(doc := AddFields(outer, [Field(top.begun, Container(isArray, top.fields))])))
  }

  // Scalars.

  /** A value that may only stand where a plain one is expected. */
  function PlainScalar(st: State, v: Value): Outcome
  {
    if st.readState != Regular || st.key.None? then Fail(st) else Append(st, v)
  }

  function ReadBoolean(st: State, b: bool): Outcome
  {
    if st.readState == InBsonType && st.awaited == AwaitUndefined then
      Outcome(true, st.(parts := Touch(st.parts, UndefinedType)))
    else PlainScalar(st, Boolean(b))
  }

  function ReadInteger(st: State, n: Int64): Outcome
  {
    if st.readState == Regular then PlainScalar(st, IntegerValue(n))
    else if st.readState == InBsonType || st.readState == InTimestampValues then
      match st.awaited
      case AwaitDate => Outcome(true, st.(parts := Touch(st.parts, DateType).(date := n)))
      case AwaitSeconds => Outcome(true, st.(parts := Touch(st.parts, TimestampType).(seconds := Some(Wrapped(n)))))
      case AwaitIncrement => Outcome(true, st.(parts := Touch(st.parts, TimestampType).(increment := Some(Wrapped(n)))))
      case AwaitMinKey => Outcome(true, st.(parts := Touch(st.parts, MinKeyType)))
      case AwaitMaxKey => Outcome(true, st.(parts := Touch(st.parts, MaxKeyType)))
      case _ => Fail(st)
    else Fail(st)
  }

  function ReadText(st: State, s: Text, x: Platform): Outcome
  {
    if st.readState == Regular then PlainScalar(st, Utf8(s))
    else if st.readState == InBsonType || st.readState == InTimestampValues || st.readState == InDateNumberLong then
      ReadSpecialText(st, s, x)
    else Fail(st)
  }

  function ReadSpecialText(st: State, s: Text, x: Platform): Outcome
  {
    match st.awaited
    case AwaitRegex => Outcome(true, st.(parts := Touch(st.parts, RegexType).(regex := Some(CStringOf(s)))))
    case AwaitOptions => Outcome(true, st.(parts := Touch(st.parts, RegexType).(options := Some(CStringOf(s)))))
    case AwaitOid =>
      if |s| != 24 then Fail(st) else Outcome(true, st.(parts := Touch(st.parts, OidType).(oid := OidOf(s))))
    case AwaitType =>
      var subtype := x.hex(s);
      if subtype.None? then Fail(st)
      else Outcome(true, st.(parts := Touch(st.parts, BinaryType).(subtype := subtype)))
    case AwaitBinary =>
      var bytes := x.binary(s);
      if bytes.None? then Fail(st)
      else Outcome(true, st.(parts := Touch(st.parts, BinaryType).(binary := bytes)))
    case AwaitLong => ReadLong(st, x.long(s))
    case AwaitDate =>
      var date := x.date(s);
      if date.None? then Fail(st) else Outcome(true, st.(parts := Touch(st.parts, DateType).(date := date.value)))
    case AwaitDecimal =>
      if st.readState != InBsonType then Fail(st)
      else Outcome(true, st.(parts := Touch(st.parts, DecimalType).(decimal := x.decimal(s))))
    case _ => Fail(st)
  }

  function ReadLong(st: State, n: Option<Int64>): Outcome
  {
    if n.None? then Fail(st)
    else if st.readState == InBsonType then
      Outcome(true, st.(parts := Touch(st.parts, LongType).(long := n.value)))
    else if st.readState == InDateNumberLong then
      Outcome(true, st.(parts := Touch(st.parts, DateType).(date := n.value)))
    else Fail(st)
  }

  // Objects.

  function ReadStartMap(st: State): State
  {
    if st.readState == InBsonType && st.awaited == AwaitDate then st.(readState := InDateNumberLong)
    else if st.readState == InTimestampStartMap then st.(readState := InTimestampValues)
    else st.(readState := InStartMap)
  }

  function AwaitedFor(key: Special): Awaited
  {
    match key
    case RegexKey => AwaitRegex
    case OptionsKey => AwaitOptions
    case OidKey => AwaitOid
    case BinaryKey => AwaitBinary
    case TypeKey => AwaitType
    case DateKey => AwaitDate
    case UndefinedKey => AwaitUndefined
    case MinKeyKey => AwaitMinKey
    case MaxKeyKey => AwaitMaxKey
    case LongKey => AwaitLong
    case DecimalKey => AwaitDecimal
    case TimestampKey => AwaitSeconds
  }

  /** A key inside a special object: the last one decides the type. */
  function ReadSpecialKey(st: State, key: Option<Special>): Outcome
  {
    if key.None? then Fail(st)
    else if key.value == TimestampKey then
      Outcome(true, st.(specialType := TimestampType, readState := InTimestampStartMap))
    else Outcome(true, st.(specialType := TypeFor(key.value), awaited := AwaitedFor(key.value)))
  }

  function ReadMapKey(st: State, key: Text): Outcome
  {
    match st.readState
    case InStartMap =>
      if SpecialKey(key).Some? then
        ReadSpecialKey(st.(readState := InBsonType, specialType := NoType, parts := NO_PARTS), SpecialKey(key))
      else
        var pushed := Push(st.(readState := Regular), false);
        if pushed.go then Outcome(true, pushed.state.(key := Some(key))) else pushed
    case InBsonType => ReadSpecialKey(st, SpecialKey(key))
    case InDateNumberLong =>
      if SpecialKey(key) == Some(LongKey) then Outcome(true, st.(specialType := DateType, awaited := AwaitLong))
      else Fail(st)
    case InTimestampValues =>
      if key == "t" then Outcome(true, st.(specialType := TimestampType, awaited := AwaitSeconds))
      else if key == "i" then Outcome(true, st.(specialType := TimestampType, awaited := AwaitIncrement))
      else Fail(st)
    case _ => Outcome(true, st.(key := Some(key)))
  }

  /** What a special object that has ended amounts to. */
  function Assembled(st: State): Assembly
  {
    match st.specialType
    case NoType => Incomplete
    case UndefinedType => Complete(Undefined)
    case MinKeyType => Complete(MinKey)
    case MaxKeyType => Complete(MaxKey)
    case _ =>
      if st.parts.member == st.specialType || st.parts.member == NoType then MemberValue(st.parts, st.specialType)
      else Aliased
  }

  /** The value of the member written last; a flag that is not set may show bytes of an earlier member. */
  function MemberValue(p: Parts, specialType: SpecialType): Assembly
  {
    var missing := if p.mixed then Aliased else Incomplete;
    match specialType
    case OidType => Complete(ObjectId(p.oid))
    case DateType => Complete(DateTime(p.date))
    case LongType => Complete(Int64Value(p.long))
    case DecimalType => Complete(p.decimal)
    case RegexType =>
      if p.regex.None? || (p.options.None? && p.mixed) then missing
      else Complete(Regex(p.regex.value, if p.options.Some? then p.options.value else ""))
    case BinaryType =>
      if p.binary.None? || p.subtype.None? then missing
      else Complete(Binary(p.subtype.value % 256, p.binary.value))
    case TimestampType =>
      if p.seconds.None? || p.increment.None? then missing
      else Complete(Timestamp(p.seconds.value, p.increment.value))
    case _ => missing
  }

  /** The value is appended, and reading goes on in the given state. */
  function AppendSpecial(st: State, next: ReadState, v: Assembly): Outcome
  {
    if st.key.None? then Outcome(false, st)
    else
      match v
      case Incomplete => Fail(st)
      case Aliased => Leave(st)
      case Complete(value) => Append(st.(readState := next), value)
  }

  function ReadEndMap(st: State): Outcome
  {
    match st.readState
    case InStartMap =>
      var pushed := Push(st.(readState := Regular), false);
      if pushed.go then Pop(pushed.state, false) else pushed
    case InBsonType => AppendSpecial(st, Regular, if st.specialType == TimestampType then Incomplete else Assembled(st))
    case InTimestampValues => AppendSpecial(st, InTimestampEndMap, Assembled(st.(specialType := TimestampType)))
    case InTimestampEndMap => Outcome(true, st.(readState := Regular))
    case InDateNumberLong => AppendSpecial(st, InDateEndMap, Assembled(st.(specialType := DateType)))
    case InDateEndMap => Outcome(true, st.(readState := Regular))
    case Regular => Pop(st, false)
    case _ => Fail(st)
  }

  // Arrays.

  function ReadStartArray(st: State): Outcome
  {
    if st.doc.stack.Bottom? then Push(st, true)
    else
      var fixed := Fixup(st);
      if fixed.readState != Regular || fixed.key.None? then Fail(fixed) else Push(fixed, true)
  }

  function ReadEndArray(st: State): Outcome
  {
    if st.readState != Regular then Fail(st) else Pop(st, true)
  }

  // Runs.

  function Step(st: State, e: Event, x: Platform): Outcome
  {
    match e
    case NullEvent => PlainScalar(Fixup(st), Null)
    case BooleanEvent(b) => ReadBoolean(Fixup(st), b)
    case IntegerEvent(n) => ReadInteger(Fixup(st), n)
    case DoubleEvent(d) => PlainScalar(Fixup(st), Double(d))
    case TextEvent(s) => ReadText(Fixup(st), s, x)
    case StartMap => Outcome(true, ReadStartMap(Fixup(st)))
    case MapKey(key) => ReadMapKey(st, key)
    case EndMap => ReadEndMap(st)
    case StartArray => ReadStartArray(st)
    case EndArray => ReadEndArray(st)
  }

  /** The parser delivers events until a callback returns 0. */
  function Run(st: State, events: seq<Event>, x: Platform): Outcome
    decreases |events|
  {
    if events == [] then Outcome(true, st)
    else
      var first := Step(st, events[0], x);
      if first.go then Run(first.state, events[1..], x) else first
  }

  /** bson_json_reader_read begins a document; the key and parts are those left by the last one. */
  function Start(st: State, target: seq<Field>): State
  {
    st.(doc := Building(target, Bottom), readState := Regular)
  }
}
