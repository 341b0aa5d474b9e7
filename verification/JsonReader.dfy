/**
 The reader of bson-json.c as an object that its callbacks update: a stack of 100 frames with
 the index n of the innermost one, the pending key and the states. Each callback is proved to
 take the machine of module JsonMachine one step.
 */
module JsonReader {
  import opened Bson
  import opened BsonBuilding
  import opened Json
  import opened JsonMachine
  import opened JsonTheorems
  import opened Words
  import Base64Codec
  import DecimalReader
  import JsonTexts
  import Strtoll

  class Reader {
    var bson: seq<Field>
    const stack: array<Frame>
    var n: int
    var key: Option<string>
    var readState: ReadState
    var bsonState: Awaited
    var bsonType: SpecialType
    var data: Parts

    predicate Valid()
      reads this
    {
      stack.Length == STACK_MAX && -1 <= n < STACK_MAX
    }

    function View(): State
      reads this, stack
      requires Valid()
    {
      State(Building(bson, StackOf(stack[..], n)), key, readState, bsonState, bsonType, data)
    }

    constructor ()
      ensures Valid() && fresh(stack) && key == None
    {
      bson, n, key, readState := [], -1, None, Regular;
      bsonState, bsonType, data := AwaitRegex, NoType, NO_PARTS;
      stack := new Frame[STACK_MAX](_ => Frame(0, false, "", []));
    }

    /** bson_json_reader_read, before the first event. */
    method Begin(target: seq<Field>)
      requires Valid()
      modifies this
      ensures Valid() && View() == Start(old(View()), target)
    {
      bson := target;
      n := -1;
      readState := Regular;
    }

    method FixupKey()
      requires Valid()
      modifies this, stack
      ensures Valid() && View() == Fixup(old(View()))
    {
      if n >= 0 && stack[n].isArray {
        ghost var before := stack[..];
        key := Some(IndexKey(stack[n].i));
        stack[n] := stack[n].(i := stack[n].i + 1);
        StackPrefix(before, stack[..], n - 1);
      }
    }

    method SetError()
      requires Valid()
      modifies this
      ensures Valid() && View() == Fail(old(View())).state
    {
      readState := Failed;
    }

    /** The append functions of libbson, on the innermost level. */
    method AppendField(v: Value) returns (ok: bool)
      requires Valid() && key.Some?
      modifies this, stack
      ensures Valid() && Outcome(ok, View()) == Append(old(View()), v)
    {
      ok := n >= 0;
      OuterLevels(stack[..], n);
      if n < 0 {
        readState := Outside;
      } else if n == 0 {
        bson := bson + [Field(key.value, v)];
      } else {
        ghost var before := stack[..];
        stack[n] := stack[n].(fields := stack[n].fields + [Field(key.value, v)]);
        StackPrefix(before, stack[..], n - 1);
      }
    }

    /** STACK_PUSH_ARRAY and STACK_PUSH_DOC with the begin function as statement. */
    method PushFrame(isArray: bool) returns (ok: bool)
      requires Valid()
      modifies this, stack
      ensures Valid() && Outcome(ok, View()) == Push(old(View()), isArray)
    {
      StackHeight(stack[..], n);
      if n >= STACK_MAX - 1 {
        return false;
      }
      ghost var before := stack[..];
      n := n + 1;
      stack[n] := stack[n].(isArray := isArray);
      if isArray {
        stack[n] := stack[n].(i := 0);
      }
      if n != 0 {
        stack[n] := stack[n].(begun := if key.Some? then key.value else "", fields := []);
      }
      StackPrefix(before, stack[..], n - 1);
      ok := true;
    }

    /** The end of a child, whose fields join the frame below. */
    method AddToOuter(child: Field)
      requires Valid() && n > 0 && StackOf(stack[..], n - 1).Open?
      modifies this`bson, stack
      ensures Valid()
      ensures Building(bson, StackOf(stack[..], n - 1)) ==
              AddFields(old(Building(bson, StackOf(stack[..], n - 1))), [child])
    {
      OuterLevels(stack[..], n - 1);
      if n == 1 {
        bson := bson + [child];
      } else {
        ghost var before := stack[..];
        stack[n - 1] := stack[n - 1].(fields := stack[n - 1].fields + [child]);
        StackPrefix(before, stack[..], n - 2);
      }
    }

    /** STACK_POP_ARRAY and STACK_POP_DOC with the end function as statement, and the test for DONE. */
    method PopFrame(isArray: bool) returns (ok: bool)
      requires Valid()
      modifies this, stack
      ensures Valid() && Outcome(ok, View()) == Pop(old(View()), isArray)
    {
      hide StackOf, AddFields;
      TopLevel(stack[..], n);
      if n < 0 {
        readState := Outside;
        return false;
      }
      if stack[n].isArray != isArray {
        return false;
      }
      TopLevel(stack[..], n - 1);
      if n > 0 {
        AddToOuter(Field(stack[n].begun, Container(isArray, stack[n].fields)));
      }
      n := n - 1;
      if n == -1 {
        readState := Done;
        return false;
      }
      ok := true;
    }

    // Scalars.

    /** The common end of the scalar callbacks: bail out if not normal, else append. */
    method AppendPlain(v: Value) returns (ok: bool)
      requires Valid()
      modifies this, stack
      ensures Valid() && Outcome(ok, View()) == PlainScalar(old(View()), v)
    {
      if readState != Regular {
        SetError();
        return false;
      } else if key.None? {
        SetError();
        return false;
      }
      ok := AppendField(v);
    }

    method ReadNull() returns (ok: bool)
      requires Valid()
      modifies this, stack
      ensures Valid() && forall x :: Outcome(ok, View()) == Step(old(View()), NullEvent, x)
    {
      FixupKey();
      ok := AppendPlain(Null);
    }

    method ReadBoolean(b: bool) returns (ok: bool)
      requires Valid()
      modifies this, stack
      ensures Valid() && forall x :: Outcome(ok, View()) == Step(old(View()), BooleanEvent(b), x)
    {
      FixupKey();
      if readState == InBsonType && bsonState == AwaitUndefined {
        data := Touch(data, UndefinedType);
        return true;
      }
      ok := AppendPlain(Boolean(b));
    }

    method ReadDouble(bits: Word64) returns (ok: bool)
      requires Valid()
      modifies this, stack
      ensures Valid() && forall x :: Outcome(ok, View()) == Step(old(View()), DoubleEvent(bits), x)
    {
      FixupKey();
      ok := AppendPlain(Double(bits));
    }

    method ReadInteger(val: Int64) returns (ok: bool)
      requires Valid()
      modifies this, stack
      ensures Valid() && forall x :: Outcome(ok, View()) == Step(old(View()), IntegerEvent(val), x)
    {
      FixupKey();
      if readState == Regular {
        if val <= 0x7fff_ffff && val >= -0x8000_0000 {
          ok := AppendPlain(Int32Value(val));
        } else {
          ok := AppendPlain(Int64Value(val));
        }
        return;
      }
      if readState != InBsonType && readState != InTimestampValues {
        SetError();
        return false;
      }
      match bsonState {
        case AwaitDate => data := Touch(data, DateType).(date := val);
        case AwaitSeconds => data := Touch(data, TimestampType).(seconds := Some(Wrapped(val)));
        case AwaitIncrement => data := Touch(data, TimestampType).(increment := Some(Wrapped(val)));
        case AwaitMinKey => data := Touch(data, MinKeyType);
        case AwaitMaxKey => data := Touch(data, MaxKeyType);
        case _ =>
          SetError();
          return false;
      }
      ok := true;
    }

    method ReadString(val: Text, env: Environment, rmap: array<int>) returns (ok: bool)
      requires Valid() && Base64Codec.IsReverseMap(rmap)
      modifies this, stack
      ensures Valid() && Outcome(ok, View()) == Step(old(View()), TextEvent(val), Libbson(env))
    {
      FixupKey();
      if readState == Regular {
        ok := AppendPlain(Utf8(val));
      } else if readState == InBsonType || readState == InTimestampValues || readState == InDateNumberLong {
        ok := ReadSpecialString(val, env, rmap);
      } else {
        SetError();
        ok := false;
      }
    }

    /** Both calls of b64_pton for a $binary text. */
    method ReadBinaryText(val: Text, env: Environment, rmap: array<int>) returns (bytes: Option<seq<Byte>>)
      requires Base64Codec.IsReverseMap(rmap)
      ensures bytes == Libbson(env).binary(val)
    {
      var text := CStringOf(val);
      if IsAscii(text) {
        bytes := JsonTexts.ReadBinary(text, rmap);
      } else {
        bytes := env.high(text);
      }
    }

    /** The switch over bson_state; a text that cannot be read is an error. */
    method ReadSpecialString(val: Text, env: Environment, rmap: array<int>) returns (ok: bool)
      requires Valid() && Base64Codec.IsReverseMap(rmap)
      modifies this
      ensures Valid() && Outcome(ok, View()) == ReadSpecialText(old(View()), val, Libbson(env))
    {
      ok := true;
      match bsonState {
        case AwaitRegex => data := Touch(data, RegexType).(regex := Some(CStringOf(val)));
        case AwaitOptions => data := Touch(data, RegexType).(options := Some(CStringOf(val)));
        case AwaitOid =>
          if |val| == 24 { data := Touch(data, OidType).(oid := OidOf(val)); } else { ok := false; }
        case AwaitType =>
          var subtype := env.hex(CStringOf(val));
          if subtype.Some? { data := Touch(data, BinaryType).(subtype := subtype); } else { ok := false; }
        case AwaitBinary =>
          var bytes := ReadBinaryText(val, env, rmap);
          if bytes.Some? { data := Touch(data, BinaryType).(binary := bytes); } else { ok := false; }
        case AwaitLong =>
          var v64 := Strtoll.LongFromString(val);
          if v64.None? {
            ok := false;
          } else if readState == InBsonType {
            data := Touch(data, LongType).(long := v64.value);
          } else if readState == InDateNumberLong {
            data := Touch(data, DateType).(date := v64.value);
          } else {
            ok := false;
          }
        case AwaitDate =>
          var v64 := env.date(val);
          if v64.Some? { data := Touch(data, DateType).(date := v64.value); } else { ok := false; }
        case AwaitDecimal =>
          var _, dec := DecimalReader.FromString(CStringOf(val), env.wild, env.beyond);
          if readState == InBsonType {
            data := Touch(data, DecimalType).(decimal := Decimal128(dec.high, dec.low));
          } else {
            ok := false;
          }
        case _ => ok := false;
      }
      if !ok {
        SetError();
      }
    }

    // Objects.

    method ReadStartMap()
      requires Valid()
      modifies this, stack
      ensures Valid() && forall x :: Outcome(true, View()) == Step(old(View()), StartMap, x)
    {
      FixupKey();
      if readState == InBsonType && bsonState == AwaitDate {
        readState := InDateNumberLong;
      } else if readState == InTimestampStartMap {
        readState := InTimestampValues;
      } else {
        readState := InStartMap;
      }
    }

    /**
     HANDLE_OPTION: the type and the value awaited. Its test for another type needs known_bson_type,
     which is never set.
     */
    method HandleOption(option: SpecialType, awaited: Awaited)
      requires Valid()
      modifies this
      ensures Valid() && View() == old(View()).(specialType := option, awaited := awaited)
    {
      bsonType := option;
      bsonState := awaited;
    }

    /** A key inside a special object. */
    method HandleSpecialKey(val: Text) returns (ok: bool)
      requires Valid()
      modifies this
      ensures Valid() && Outcome(ok, View()) == ReadSpecialKey(old(View()), SpecialKey(val))
    {
      ok := true;
      match SpecialKey(val) {
        case Some(RegexKey) => HandleOption(RegexType, AwaitRegex);
        case Some(OptionsKey) => HandleOption(RegexType, AwaitOptions);
        case Some(OidKey) => HandleOption(OidType, AwaitOid);
        case Some(BinaryKey) => HandleOption(BinaryType, AwaitBinary);
        case Some(TypeKey) => HandleOption(BinaryType, AwaitType);
        case Some(DateKey) => HandleOption(DateType, AwaitDate);
        case Some(UndefinedKey) => HandleOption(UndefinedType, AwaitUndefined);
        case Some(MinKeyKey) => HandleOption(MinKeyType, AwaitMinKey);
        case Some(MaxKeyKey) => HandleOption(MaxKeyType, AwaitMaxKey);
        case Some(LongKey) => HandleOption(LongType, AwaitLong);
        case Some(DecimalKey) => HandleOption(DecimalType, AwaitDecimal);
        case Some(TimestampKey) =>
          bsonType := TimestampType;
          readState := InTimestampStartMap;
        case None =>
          SetError();
          ok := false;
      }
    }

    static lemma LongKeyIs(val: Text)
      ensures SpecialKey(val) == Some(LongKey) <==> val == "$numberLong"
    {
    }

    method ReadMapKey(val: Text) returns (ok: bool)
      requires Valid()
      modifies this, stack
      ensures Valid() && forall x :: Outcome(ok, View()) == Step(old(View()), MapKey(val), x)
    {
      hide SpecialKey, ReadSpecialKey;
      LongKeyIs(val);
      if readState == InStartMap {
        if SpecialKey(val).Some? {
          readState := InBsonType;
          bsonType := NoType;
          data := NO_PARTS;
        } else {
          readState := Regular;
          ok := PushFrame(false);
          if !ok {
            return;
          }
        }
      }
      if readState == InBsonType {
        ok := HandleSpecialKey(val);
      } else if readState == InDateNumberLong {
        ok := val == "$numberLong";
        if ok {
          bsonType, bsonState := DateType, AwaitLong;
        } else {
          SetError();
        }
      } else if readState == InTimestampValues {
        ok := val == "t" || val == "i";
        if ok {
          bsonType, bsonState := TimestampType, if val == "t" then AwaitSeconds else AwaitIncrement;
        } else {
          SetError();
        }
      } else {
        key := Some(val);
        ok := true;
      }
    }

    /** The append functions for a special object that has ended; a missing part is an error. */
    method AppendSpecialValue(next: ReadState, v: Assembly) returns (ok: bool)
      requires Valid()
      modifies this, stack
      ensures Valid() && Outcome(ok, View()) == AppendSpecial(old(View()), next, v)
    {
      if key.None? {
        return false;
      }
      match v {
        case Incomplete =>
          SetError();
          ok := false;
        case Aliased =>
          readState := Outside;
          ok := false;
        case Complete(value) =>
          readState := next;
          ok := AppendField(value);
      }
    }

    /** The member of bson_type_data that the append function of a type reads. */
    function Member(specialType: SpecialType): Assembly
      reads this
    {
      if data.member == specialType || data.member == NoType then MemberValue(data, specialType) else Aliased
    }

    /** The switch over bson_type. */
    method AppendByType() returns (ok: bool)
      requires Valid()
      modifies this, stack
      ensures Valid()
      ensures var v := if old(bsonType) == TimestampType then Incomplete else Assembled(old(View()));
              Outcome(ok, View()) == AppendSpecial(old(View()), Regular, v)
    {
      var v;
      match bsonType {
        case RegexType => v := Member(RegexType);
        case OidType => v := Member(OidType);
        case BinaryType => v := Member(BinaryType);
        case DateType => v := Member(DateType);
        case UndefinedType => v := Complete(Undefined);
        case MinKeyType => v := Complete(MinKey);
        case MaxKeyType => v := Complete(MaxKey);
        case LongType => v := Member(LongType);
        case DecimalType => v := Member(DecimalType);
        case NoType => v := Incomplete;
        case TimestampType => v := Incomplete;
      }
      ok := AppendSpecialValue(Regular, v);
    }

    method ReadEndMap() returns (ok: bool)
      requires Valid()
      modifies this, stack
      ensures Valid() && forall x :: Outcome(ok, View()) == Step(old(View()), EndMap, x)
    {
      if readState == InStartMap {
        readState := Regular;
        ok := PushFrame(false);
        if !ok {
          return;
        }
      }
      if readState == InBsonType {
        ok := AppendByType();
      } else if readState == InTimestampValues {
        ok := AppendSpecialValue(InTimestampEndMap, Member(TimestampType));
      } else if readState == InTimestampEndMap {
        readState := Regular;
        ok := true;
      } else if readState == InDateNumberLong {
        ok := AppendSpecialValue(InDateEndMap, Member(DateType));
      } else if readState == InDateEndMap {
        readState := Regular;
        ok := true;
      } else if readState == Regular {
        ok := PopFrame(false);
      } else {
        SetError();
        ok := false;
      }
    }

    // Arrays.

    method ReadStartArray() returns (ok: bool)
      requires Valid()
      modifies this, stack
      ensures Valid() && forall x :: Outcome(ok, View()) == Step(old(View()), StartArray, x)
    {
      OuterLevels(stack[..], n);
      if n < 0 {
        ok := PushFrame(true);
      } else {
        FixupKey();
        if readState != Regular || key.None? {
          SetError();
          return false;
        }
        ok := PushFrame(true);
      }
    }

    method ReadEndArray() returns (ok: bool)
      requires Valid()
      modifies this, stack
      ensures Valid() && forall x :: Outcome(ok, View()) == Step(old(View()), EndArray, x)
    {
      if readState != Regular {
        SetError();
        return false;
      }
      ok := PopFrame(true);
    }

    // The parser.

    method Callback(e: Event, env: Environment, rmap: array<int>) returns (ok: bool)
      requires Valid() && Base64Codec.IsReverseMap(rmap)
      modifies this, stack
      ensures Valid() && Outcome(ok, View()) == Step(old(View()), e, Libbson(env))
    {
      match e {
        case NullEvent => ok := ReadNull();
        case BooleanEvent(b) => ok := ReadBoolean(b);
        case IntegerEvent(val) => ok := ReadInteger(val);
        case DoubleEvent(bits) => ok := ReadDouble(bits);
        case TextEvent(val) => ok := ReadString(val, env, rmap);
        case StartMap =>
          ReadStartMap();
          ok := true;
        case MapKey(val) => ok := ReadMapKey(val);
        case EndMap => ok := ReadEndMap();
        case StartArray => ok := ReadStartArray();
        case EndArray => ok := ReadEndArray();
      }
    }

    /** The parser delivers events until one is refused. */
    method Deliver(events: seq<Event>, env: Environment, rmap: array<int>) returns (ok: bool)
      requires Valid() && Base64Codec.IsReverseMap(rmap)
      modifies this, stack
      ensures Valid() && Outcome(ok, View()) == Run(old(View()), events, Libbson(env))
    {
      ok := true;
      var i := 0;
      while i < |events|
        invariant 0 <= i <= |events| && ok && Valid()
        invariant Run(old(View()), events, Libbson(env)) == Run(View(), events[i..], Libbson(env))
      {
        ghost var before := View();
        ok := Callback(events[i], env, rmap);
        assert events[i..][1..] == events[i + 1..];
        if !ok {
          return;
        }
        i := i + 1;
      }
    }

    /**
     Reading one document: true just for an array or plain object that has a meaning and nests at most
     STACK_MAX deep, whose fields are then appended to the target.
     */
    method Read(target: seq<Field>, v: Tree, env: Environment, rmap: array<int>)
      returns (done: bool)
      requires Valid() && Base64Codec.IsReverseMap(rmap)
      requires if IsContainer(v) then Settled(v, Libbson(env)) else key.None? && Meaning(v, Libbson(env)).Some?
      modifies this, stack
      ensures Valid()
      ensures done == (IsContainer(v) && Meaning(v, Libbson(env)).Some? && Depth(v) <= 100)
      ensures done ==> bson == target + Meaning(v, Libbson(env)).value.fields && n == -1 && readState == Done
    {
      Begin(target);
      ghost var start := View();
      var ok := Deliver(Events(v), env, rmap);
      if IsContainer(v) {
        StreamingIsRecursion(start, v, Libbson(env));
      } else {
        OnlyContainersAreDocuments(start, v, Libbson(env));
      }
      OuterLevels(stack[..], n);
      done := !ok && readState == Done;
    }
  }
}
