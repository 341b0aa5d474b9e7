/**
 Special objects: the callbacks, fed the events of an object whose first key is special, append
 exactly what the object amounts to, whatever types its keys mix.
 */
module JsonSpecials {
  import opened Bson
  import opened BsonBuilding
  import opened Json
  import opened JsonMachine
  import opened JsonRuns
  import opened Words

  /** Within a special object that started in st, after n callbacks that fixed the key. */
  predicate Inside(s: State, st: State, n: nat)
    requires Ready(st) && n >= 1
  {
    s.doc == Skip(st.doc, n) && s.key == Some(KeyAfter(st, n))
  }

  lemma FixupInside(s: State, st: State, n: nat)
    requires Ready(st) && n >= 1 && Inside(s, st, n)
    ensures Inside(Fixup(s), st, n + 1)
    ensures Fixup(s) == s.(doc := Fixup(s).doc, key := Fixup(s).key)
  {
  }

  /** Between two members of a special object that started in st. */
  predicate Amid(s: State, st: State, n: nat)
    requires Ready(st) && n >= 1
  {
    Inside(s, st, n) && s.readState == InBsonType
  }

  /** The value of a special key comes next. */
  predicate Awaits(s: State, st: State, n: nat, key: Special)
    requires Ready(st) && n >= 1
  {
    && Amid(s, st, n) && key != TimestampKey
    && s.specialType == TypeFor(key) && s.awaited == AwaitedFor(key)
  }

  /** The first event of a value; of a scalar it is the only one. */
  function First(v: Tree): Event { Events(v)[0] }

  lemma TakesScalar(key: Special, v: Tree, x: Platform)
    requires Takes(key, v, x)
    ensures key != TimestampKey && !v.ObjectTree? && !v.ArrayTree? && Events(v) == [First(v)]
  {
  }

  // One member.

  lemma NoteKey(s: State, st: State, n: nat, key: Text, x: Platform) returns (one: State)
    requires Ready(st) && n >= 1 && Amid(s, st, n)
    requires SpecialKey(key).Some? && SpecialKey(key) != Some(TimestampKey)
    ensures Step(s, MapKey(key), x) == Outcome(true, one)
    ensures Awaits(one, st, n, SpecialKey(key).value) && one.parts == s.parts
  {
    hide AddFields, Skip, SpecialKey;
    one := Step(s, MapKey(key), x).state;
  }

  /** What the parts are after a key and the scalar it takes. */
  function TakePart(p: Parts, key: Special, v: Tree, x: Platform): Parts
    requires Takes(key, v, x)
  {
    match key
    case RegexKey => Touch(p, RegexType).(regex := Some(CStringOf(v.text)))
    case OptionsKey => Touch(p, RegexType).(options := Some(CStringOf(v.text)))
    case OidKey => Touch(p, OidType).(oid := OidOf(v.text))
    case BinaryKey => Touch(p, BinaryType).(binary := x.binary(v.text))
    case TypeKey => Touch(p, BinaryType).(subtype := x.hex(v.text))
    case DateKey => Touch(p, DateType).(date := if v.IntegerTree? then v.n else x.date(v.text).value)
    case UndefinedKey => Touch(p, UndefinedType)
    case MinKeyKey => Touch(p, MinKeyType)
    case MaxKeyKey => Touch(p, MaxKeyType)
    case LongKey => Touch(p, LongType).(long := x.long(v.text).value)
    case DecimalKey => Touch(p, DecimalType).(decimal := x.decimal(v.text))
    case TimestampKey => p
  }

  lemma NoteValue(s: State, st: State, n: nat, key: Special, v: Tree, x: Platform) returns (two: State)
    requires Ready(st) && n >= 1 && Awaits(s, st, n, key) && Takes(key, v, x)
    ensures Step(s, First(v), x) == Outcome(true, two)
    ensures Amid(two, st, n + 1) && two.specialType == TypeFor(key) && two.parts == TakePart(s.parts, key, v, x)
  {
    hide AddFields, Skip, Fixup, Touch, CStringOf, OidOf;
    FixupInside(s, st, n);
    two := Step(s, First(v), x).state;
  }

  /** A key and the scalar it takes, whatever came before them. */
  lemma NoteTaken(s: State, st: State, n: nat, m: Member, x: Platform) returns (one: State, two: State)
    requires Ready(st) && n >= 1 && Amid(s, st, n) && Taken(m, x)
    ensures Events(m.value) == [First(m.value)]
    ensures Step(s, MapKey(m.key), x) == Outcome(true, one)
    ensures Step(one, First(m.value), x) == Outcome(true, two)
    ensures Amid(two, st, n + 1) && two.specialType == TypeOf(m)
    ensures two.parts == TakePart(s.parts, SpecialKey(m.key).value, m.value, x)
  {
    hide Step, First, SpecialKey, Amid, Takes, TakePart;
    var key := SpecialKey(m.key).value;
    TakesScalar(key, m.value, x);
    one := NoteKey(s, st, n, m.key, x);
    two := NoteValue(one, st, n, key, m.value, x);
  }

  /** A value that is no object and that the key does not take stops the reader. */
  lemma NotTakenFails(s: State, st: State, n: nat, key: Special, v: Tree, x: Platform)
    requires Ready(st) && n >= 1 && Awaits(s, st, n, key) && !v.ObjectTree? && !Takes(key, v, x)
    ensures Refused(Step(s, First(v), x))
  {
    hide AddFields, Skip, Fixup;
    FixupInside(s, st, n);
    OpenInside(s, st, n);
  }

  lemma OpenInside(s: State, st: State, n: nat)
    requires Ready(st) && n >= 1 && Inside(s, st, n)
    ensures s.doc.stack.Open?
  {
  }

  /** Where an object is awaited, anything else stops the reader. */
  lemma ObjectAwaited(s: State, st: State, n: nat, v: Tree, x: Platform)
    requires Ready(st) && n >= 1 && Inside(s, st, n) && s.readState == InTimestampStartMap && !v.ObjectTree?
    ensures Refused(Step(s, First(v), x))
  {
    hide AddFields, Skip, Fixup;
    FixupInside(s, st, n);
    OpenInside(s, st, n);
  }

  lemma TimestampKeyStep(s: State, st: State, n: nat, key: Text, x: Platform) returns (one: State)
    requires Ready(st) && n >= 1 && Amid(s, st, n) && SpecialKey(key) == Some(TimestampKey)
    ensures Step(s, MapKey(key), x) == Outcome(true, one)
    ensures Inside(one, st, n) && one.readState == InTimestampStartMap && one.parts == s.parts
  {
    hide AddFields, Skip, SpecialKey;
    one := Step(s, MapKey(key), x).state;
  }

  lemma UnknownKey(s: State, key: Text, x: Platform)
    requires s.readState == InBsonType && SpecialKey(key).None?
    ensures Refused(Step(s, MapKey(key), x))
  {
    hide SpecialKey;
  }

  lemma NotTakenStops(s: State, st: State, n: nat, m: Member, x: Platform)
    requires Ready(st) && n >= 1 && Amid(s, st, n) && !m.value.ObjectTree? && !Taken(m, x)
    ensures var keyed := Step(s, MapKey(m.key), x);
            if keyed.go then Refused(Step(keyed.state, First(m.value), x)) else Refused(keyed)
  {
    hide Step, SpecialKey, Takes, First;
    if SpecialKey(m.key).None? {
      UnknownKey(s, m.key, x);
    } else if SpecialKey(m.key) == Some(TimestampKey) {
      var one := TimestampKeyStep(s, st, n, m.key, x);
      ObjectAwaited(one, st, n, m.value, x);
    } else {
      var one := NoteKey(s, st, n, m.key, x);
      NotTakenFails(one, st, n, SpecialKey(m.key).value, m.value, x);
    }
  }

  // The members.

  lemma NoMembers()
    ensures MemberEvents([]) == []
  {
  }

  lemma SplitFirst(ms: seq<Member>)
    requires ms != []
    ensures MemberEvents(ms) == [MapKey(ms[0].key)] + (Events(ms[0].value) + MemberEvents(ms[1..]))
  {
  }

  lemma {:induction false} MemberEventsConcat(a: seq<Member>, b: seq<Member>)
    ensures MemberEvents(a + b) == MemberEvents(a) + MemberEvents(b)
  {
    hide MemberEvents, Events;
    if a == [] {
      NoMembers();
      assert a + b == b;
    } else {
      MemberEventsConcat(a[1..], b);
      assert (a + b)[0] == a[0] && (a + b)[1..] == a[1..] + b;
      SplitFirst(a);
      SplitFirst(a + b);
    }
  }

  /** The events of members are those of all but the last, and those of the last. */
  lemma MemberEventsSnoc(ms: seq<Member>)
    requires ms != []
    ensures var last := ms[|ms| - 1];
            MemberEvents(ms) == MemberEvents(ms[..|ms| - 1]) + ([MapKey(last.key)] + Events(last.value))
  {
    hide MemberEvents, Events;
    var last := ms[|ms| - 1];
    assert ms == ms[..|ms| - 1] + [last];
    MemberEventsConcat(ms[..|ms| - 1], [last]);
    SplitFirst([last]);
    assert [last][1..] == [];
    NoMembers();
  }

  function PartsAfter(ms: seq<Member>, x: Platform): Parts
    requires AllTaken(ms, x)
  {
    if ms == [] then NO_PARTS
    else
      var last := ms[|ms| - 1];
      TakePart(PartsAfter(ms[..|ms| - 1], x), SpecialKey(last.key).value, last.value, x)
  }

  /** The state after some members of a special object. */
  predicate After(s: State, st: State, ms: seq<Member>, x: Platform)
    requires Ready(st) && AllTaken(ms, x)
  {
    && Amid(s, st, 1 + |ms|) && s.parts == PartsAfter(ms, x)
    && (ms != [] ==> s.specialType == TypeOf(ms[|ms| - 1]))
  }

  lemma AfterOneMore(s: State, st: State, ms: seq<Member>, m: Member, two: State, x: Platform)
    requires Ready(st) && AllTaken(ms, x) && Taken(m, x) && After(s, st, ms, x)
    requires Amid(two, st, 2 + |ms|) && two.specialType == TypeOf(m)
    requires two.parts == TakePart(s.parts, SpecialKey(m.key).value, m.value, x)
    ensures AllTaken(ms + [m], x) && After(two, st, ms + [m], x)
  {
    hide SpecialKey, Takes, TakePart, Amid;
    assert (ms + [m])[..|ms|] == ms;
  }

  lemma {:induction false} RunTaken(s: State, st: State, ms: seq<Member>, x: Platform)
    requires Ready(st) && AllTaken(ms, x) && After(s, st, [], x)
    ensures var r := Run(s, MemberEvents(ms), x);
            r.go && After(r.state, st, ms, x)
    decreases |ms|
  {
    hide Step, Run, After, Taken, Events, MemberEvents;
    if ms == [] {
      NoMembers();
      RunNothing(s, x);
    } else {
      var before, m := ms[..|ms| - 1], ms[|ms| - 1];
      MemberEventsSnoc(ms);
      RunTaken(s, st, before, x);
      var s1 := Run(s, MemberEvents(before), x).state;
      RunConcat(s, MemberEvents(before), [MapKey(m.key)] + Events(m.value), x);
      var one, two := NextTaken(s1, st, before, m, x);
      RunThen(s1, MapKey(m.key), Events(m.value), x);
      RunOne(one, First(m.value), x);
      assert before + [m] == ms;
    }
  }

  lemma NextTaken(s: State, st: State, ms: seq<Member>, m: Member, x: Platform) returns (one: State, two: State)
    requires Ready(st) && AllTaken(ms, x) && Taken(m, x) && After(s, st, ms, x)
    ensures Events(m.value) == [First(m.value)]
    ensures Step(s, MapKey(m.key), x) == Outcome(true, one)
    ensures Step(one, First(m.value), x) == Outcome(true, two)
    ensures AllTaken(ms + [m], x) && After(two, st, ms + [m], x)
  {
    hide Step, First, Amid, Taken, TakePart, PartsAfter;
    one, two := NoteTaken(s, st, 1 + |ms|, m, x);
    AfterOneMore(s, st, ms, m, two, x);
  }

  lemma EventsStart(v: Tree)
    ensures Events(v) == [First(v)] + Events(v)[1..]
  {
  }

  /** A value that is refused at its first event is refused whatever follows. */
  lemma RefusedAtOnce(s: State, v: Tree, rest: seq<Event>, x: Platform)
    requires Refused(Step(s, First(v), x))
    ensures Refused(Run(s, Events(v) + rest, x))
  {
    hide Step, First, Events;
    EventsStart(v);
    assert Events(v) + rest == [First(v)] + (Events(v)[1..] + rest);
    RunThen(s, First(v), Events(v)[1..] + rest, x);
  }

  /** Members without objects, not all of them taken: the first that is not stops the reader. */
  lemma {:induction false} RunUntaken(s: State, st: State, n: nat, ms: seq<Member>, x: Platform)
    requires Ready(st) && n >= 1 && Amid(s, st, n) && NoObjects(ms) && !AllTaken(ms, x)
    ensures Refused(Run(s, MemberEvents(ms), x))
    decreases |ms|
  {
    hide Step, Run, Amid, Taken, First, Events, MemberEvents;
    var m, rest := ms[0], MemberEvents(ms[1..]);
    SplitFirst(ms);
    RunThen(s, MapKey(m.key), Events(m.value) + rest, x);
    var keyed := Step(s, MapKey(m.key), x);
    if Taken(m, x) {
      var one, two := NoteTaken(s, st, n, m, x);
      RunThen(one, First(m.value), rest, x);
      AllTakenSplit(ms, x);
      RunUntaken(two, st, n + 1, ms[1..], x);
    } else {
      NotTakenStops(s, st, n, m, x);
      if keyed.go {
        RefusedAtOnce(keyed.state, m.value, rest, x);
      }
    }
  }

  lemma AllTakenSplit(ms: seq<Member>, x: Platform)
    requires ms != []
    ensures AllTaken(ms, x) <==> Taken(ms[0], x) && AllTaken(ms[1..], x)
    ensures AllTaken(ms, x) <==> AllTaken(ms[..|ms| - 1], x) && Taken(ms[|ms| - 1], x)
  {
    hide Taken;
    if Taken(ms[0], x) && AllTaken(ms[1..], x) {
      forall k | 1 <= k < |ms| ensures Taken(ms[k], x) {
        assert ms[k] == ms[1..][k - 1];
      }
    }
  }

  // What the parts amount to.

  /** The parts after members that are all taken, in terms of the members at the end. */
  predicate Shows(p: Parts, ms: seq<Member>, x: Platform)
    requires ms != [] && AllTaken(ms, x)
  {
    var last := ms[|ms| - 1];
    var t := TypeOf(last);
    var tail := Tail(ms, t);
    && p.member == t && t != TimestampType && t != NoType && p.mixed == (|tail| < |ms|)
    && (t == RegexType ==>
          && p.regex == CTextOf(LastText(tail, RegexKey)) && p.options == CTextOf(LastText(tail, OptionsKey)))
    && (t == BinaryType ==>
          && p.binary == BytesOf(LastText(tail, BinaryKey), x) && p.subtype == CodeOf(LastText(tail, TypeKey), x))
    && (t != RegexType && t != BinaryType ==>
          MemberOrBare(p, t) == Complete(OneValue(SpecialKey(last.key).value, last.value, x).value))
  }

  function CTextOf(s: Option<Text>): Option<string> { if s.None? then None else Some(CStringOf(s.value)) }

  function BytesOf(s: Option<Text>, x: Platform): Option<seq<Byte>> { if s.None? then None else x.binary(s.value) }

  function CodeOf(s: Option<Text>, x: Platform): Option<Word32> { if s.None? then None else x.hex(s.value) }

  function MemberOrBare(p: Parts, t: SpecialType): Assembly
  {
    match t
    case UndefinedType => Complete(Undefined)
    case MinKeyType => Complete(MinKey)
    case MaxKeyType => Complete(MaxKey)
    case _ => MemberValue(p, t)
  }

  lemma TailSnoc(ms: seq<Member>, m: Member, t: SpecialType)
    ensures Tail(ms + [m], t) == if TypeOf(m) == t then Tail(ms, t) + [m] else []
  {
    assert (ms + [m])[..|ms|] == ms;
  }

  lemma LastTextSnoc(ms: seq<Member>, m: Member, key: Special)
    ensures LastText(ms + [m], key) ==
            if SpecialKey(m.key) == Some(key) && m.value.TextTree? then Some(m.value.text) else LastText(ms, key)
  {
    hide SpecialKey;
    assert (ms + [m])[..|ms|] == ms;
  }

  /** One more member of the same type as the last. */
  lemma ShowsOneMore(p: Parts, ms: seq<Member>, m: Member, x: Platform)
    requires ms != [] && AllTaken(ms, x) && Taken(m, x) && Shows(p, ms, x)
    requires TypeOf(m) == TypeOf(ms[|ms| - 1])
    ensures AllTaken(ms + [m], x)
    ensures Shows(TakePart(p, SpecialKey(m.key).value, m.value, x), ms + [m], x)
  {
    hide SpecialKey, Tail, LastText, CStringOf, OidOf;
    var tail := Tail(ms, TypeOf(m));
    TailSnoc(ms, m, TypeOf(m));
    LastTextSnoc(tail, m, RegexKey);
    LastTextSnoc(tail, m, OptionsKey);
    LastTextSnoc(tail, m, BinaryKey);
    LastTextSnoc(tail, m, TypeKey);
  }

  /** A member of another type than those before it, or the first one. */
  lemma ShowsAnew(p: Parts, ms: seq<Member>, m: Member, x: Platform)
    requires AllTaken(ms, x) && Taken(m, x)
    requires if ms == [] then p == NO_PARTS else Shows(p, ms, x) && TypeOf(m) != TypeOf(ms[|ms| - 1])
    ensures AllTaken(ms + [m], x)
    ensures Shows(TakePart(p, SpecialKey(m.key).value, m.value, x), ms + [m], x)
  {
    hide SpecialKey, Tail, LastText, CStringOf, OidOf;
    TailSnoc(ms, m, TypeOf(m));
    TailAnew(ms, TypeOf(m));
    var tail := [m];
    assert [] + [m] == tail;
    LastTextSnoc([], m, RegexKey);
    LastTextSnoc([], m, OptionsKey);
    LastTextSnoc([], m, BinaryKey);
    LastTextSnoc([], m, TypeKey);
    NoText();
  }

  lemma TailAnew(ms: seq<Member>, t: SpecialType)
    ensures ms == [] || TypeOf(ms[|ms| - 1]) != t ==> Tail(ms, t) == []
  {
  }

  lemma NoText()
    ensures forall key :: LastText([], key) == None
  {
  }

  lemma {:induction false} PartsShow(ms: seq<Member>, x: Platform)
    requires ms != [] && AllTaken(ms, x)
    ensures Shows(PartsAfter(ms, x), ms, x)
    decreases |ms|
  {
    hide Shows, TakePart, Taken;
    var before, m := ms[..|ms| - 1], ms[|ms| - 1];
    assert before + [m] == ms;
    if before != [] {
      PartsShow(before, x);
    }
    if before != [] && TypeOf(m) == TypeOf(before[|before| - 1]) {
      ShowsOneMore(PartsAfter(before, x), before, m, x);
    } else {
      ShowsAnew(PartsAfter(before, x), before, m, x);
    }
  }

  /** The machine's switch over the type yields what the members amount to. */
  lemma AssembledParts(s: State, ms: seq<Member>, x: Platform)
    requires ms != [] && AllTaken(ms, x) && s.parts == PartsAfter(ms, x) && s.specialType == TypeOf(ms[|ms| - 1])
    ensures Assembled(s) == ScalarAssembly(ms, x) && s.specialType != TimestampType
  {
    hide PartsAfter, SpecialKey, Tail, LastText, OneValue, CStringOf;
    PartsShow(ms, x);
  }

  // The ends.

  /** What the end of a special object makes of its assembly. */
  predicate EndsAs(r: Outcome, st: State, n: nat, a: Assembly)
    requires Ready(st) && n >= 1
  {
    match a
    case Complete(v) => Continues(r, WithField(st, n, v))
    case Incomplete => Refused(r)
    case Aliased => !r.go && r.state.readState == Outside
  }

  lemma EndSpecial(s: State, st: State, n: nat, x: Platform)
    requires Ready(st) && n >= 1 && Amid(s, st, n) && s.specialType != TimestampType
    ensures EndsAs(Run(s, [EndMap], x), st, n, Assembled(s))
  {
    hide Assembled, Skip, AddFields;
    OpenInside(s, st, n);
    RunOne(s, EndMap, x);
  }

  /** The type that the end of a nested object appends, and the state it is read in. */
  function NestedType(key: Special): SpecialType { if key == DateKey then DateType else TimestampType }

  function NestedState(key: Special): ReadState { if key == DateKey then InDateNumberLong else InTimestampValues }

  /** Within the object under $date or $timestamp. */
  predicate Nested(s: State, st: State, n: nat, key: Special)
    requires Ready(st) && n >= 1
  {
    Inside(s, st, n) && s.readState == NestedState(key) && (key == DateKey || key == TimestampKey)
  }

  lemma EndNested(s: State, st: State, n: nat, key: Special, x: Platform)
    requires Ready(st) && n >= 1 && Nested(s, st, n, key)
    ensures EndsAs(Run(s, [EndMap] + [EndMap], x), st, n, Assembled(s.(specialType := NestedType(key))))
  {
    hide Assembled, Skip, AddFields;
    OpenInside(s, st, n);
    RunThen(s, EndMap, [EndMap], x);
    var r := Step(s, EndMap, x);
    if r.go {
      RunOne(r.state, EndMap, x);
    }
  }

  // Nested objects.

  lemma BeginNested(s: State, st: State, n: nat, key: Text, x: Platform) returns (one: State, two: State)
    requires Ready(st) && n >= 1 && Amid(s, st, n)
    requires SpecialKey(key) == Some(DateKey) || SpecialKey(key) == Some(TimestampKey)
    ensures Step(s, MapKey(key), x) == Outcome(true, one)
    ensures Step(one, StartMap, x) == Outcome(true, two)
    ensures Nested(two, st, n + 1, SpecialKey(key).value) && two.parts == s.parts
  {
    hide AddFields, Skip, SpecialKey, Fixup;
    one := Step(s, MapKey(key), x).state;
    FixupInside(one, st, n);
    two := Step(one, StartMap, x).state;
  }

  function InnerPart(p: Parts, key: Special, m: Member, x: Platform): Parts
    requires InnerTaken(key, m, x)
  {
    if key == DateKey then Touch(p, DateType).(date := x.long(m.value.text).value)
    else if m.key == "t" then Touch(p, TimestampType).(seconds := Some(Wrapped(m.value.n)))
    else Touch(p, TimestampType).(increment := Some(Wrapped(m.value.n)))
  }

  lemma NoteInner(s: State, st: State, n: nat, key: Special, m: Member, x: Platform) returns (one: State, two: State)
    requires Ready(st) && n >= 1 && Nested(s, st, n, key) && InnerTaken(key, m, x)
    ensures Events(m.value) == [First(m.value)]
    ensures Step(s, MapKey(m.key), x) == Outcome(true, one)
    ensures Step(one, First(m.value), x) == Outcome(true, two)
    ensures Nested(two, st, n + 1, key) && two.parts == InnerPart(s.parts, key, m, x)
  {
    hide AddFields, Skip, SpecialKey, Fixup, Touch, Wrapped;
    one := Step(s, MapKey(m.key), x).state;
    FixupInside(one, st, n);
    two := Step(one, First(m.value), x).state;
  }

  lemma InnerStops(s: State, st: State, n: nat, key: Special, m: Member, x: Platform)
    requires Ready(st) && n >= 1 && Nested(s, st, n, key) && !m.value.ObjectTree? && !InnerTaken(key, m, x)
    ensures var keyed := Step(s, MapKey(m.key), x);
            if keyed.go then Refused(Step(keyed.state, First(m.value), x)) else Refused(keyed)
  {
    hide AddFields, Skip, SpecialKey, Fixup;
    var keyed := Step(s, MapKey(m.key), x);
    if keyed.go {
      FixupInside(keyed.state, st, n);
      OpenInside(keyed.state, st, n);
    }
  }

  function InnerAfter(p: Parts, key: Special, ms: seq<Member>, x: Platform): Parts
    requires AllInnerTaken(key, ms, x)
  {
    if ms == [] then p
    else InnerPart(InnerAfter(p, key, ms[..|ms| - 1], x), key, ms[|ms| - 1], x)
  }

  lemma {:induction false} RunInner(s: State, st: State, n: nat, key: Special, ms: seq<Member>, x: Platform)
    requires Ready(st) && n >= 1 && Nested(s, st, n, key) && AllInnerTaken(key, ms, x)
    ensures var r := Run(s, MemberEvents(ms), x);
            r.go && Nested(r.state, st, n + |ms|, key) && r.state.parts == InnerAfter(s.parts, key, ms, x)
    decreases |ms|
  {
    hide Step, Run, Nested, InnerTaken, InnerPart, Events, MemberEvents;
    if ms == [] {
      NoMembers();
      RunNothing(s, x);
    } else {
      var before, m := ms[..|ms| - 1], ms[|ms| - 1];
      MemberEventsSnoc(ms);
      RunInner(s, st, n, key, before, x);
      var s1 := Run(s, MemberEvents(before), x).state;
      RunConcat(s, MemberEvents(before), [MapKey(m.key)] + Events(m.value), x);
      var one, two := NoteInner(s1, st, n + |before|, key, m, x);
      RunThen(s1, MapKey(m.key), Events(m.value), x);
      RunOne(one, First(m.value), x);
    }
  }

  lemma {:induction false} InnerUntaken(s: State, st: State, n: nat, key: Special, ms: seq<Member>, x: Platform)
    requires Ready(st) && n >= 1 && Nested(s, st, n, key) && NoObjects(ms) && !AllInnerTaken(key, ms, x)
    ensures Refused(Run(s, MemberEvents(ms), x))
    decreases |ms|
  {
    hide Step, Run, Nested, InnerTaken, InnerPart, First, Events, MemberEvents;
    var m, rest := ms[0], MemberEvents(ms[1..]);
    SplitFirst(ms);
    RunThen(s, MapKey(m.key), Events(m.value) + rest, x);
    var keyed := Step(s, MapKey(m.key), x);
    if InnerTaken(key, m, x) {
      var one, two := NoteInner(s, st, n, key, m, x);
      RunThen(one, First(m.value), rest, x);
      assert forall k :: 1 <= k < |ms| ==> ms[k] == ms[1..][k - 1];
      InnerUntaken(two, st, n + 1, key, ms[1..], x);
    } else {
      InnerStops(s, st, n, key, m, x);
      if keyed.go {
        RefusedAtOnce(keyed.state, m.value, rest, x);
      }
    }
  }

  /** The date after a nested object: the last $numberLong in it, or what there was. */
  lemma {:induction false} InnerDate(p: Parts, ms: seq<Member>, x: Platform)
    requires AllInnerTaken(DateKey, ms, x)
    ensures var q := InnerAfter(p, DateKey, ms, x);
            if ms == [] then q == p else q.member == DateType && q.date == x.long(ms[|ms| - 1].value.text).value
    decreases |ms|
  {
    if ms != [] {
      InnerDate(p, ms[..|ms| - 1], x);
    }
  }

  lemma LastIntegerSnoc(ms: seq<Member>, m: Member, key: string)
    ensures LastInteger(ms + [m], key) ==
            if m.key == key && m.value.IntegerTree? then Some(m.value.n) else LastInteger(ms, key)
  {
    assert (ms + [m])[..|ms|] == ms;
  }

  function WordOf(n: Option<Int64>): Option<Word32> { if n.None? then None else Some(Wrapped(n.value)) }

  /** The two halves of a timestamp after a nested object; p has none yet. */
  lemma {:induction false} InnerStamp(p: Parts, ms: seq<Member>, x: Platform)
    requires AllInnerTaken(TimestampKey, ms, x) && p.seconds.None? && p.increment.None? && p.member != TimestampType
    ensures var q := InnerAfter(p, TimestampKey, ms, x);
            && q.seconds == WordOf(LastInteger(ms, "t")) && q.increment == WordOf(LastInteger(ms, "i"))
            && if ms == [] then q == p else q.member == TimestampType && q.mixed == (p.mixed || p.member != NoType)
    decreases |ms|
  {
    if ms != [] {
      var before, m := ms[..|ms| - 1], ms[|ms| - 1];
      hide Wrapped, LastInteger;
      assert ms == before + [m];
      LastIntegerSnoc(before, m, "t");
      LastIntegerSnoc(before, m, "i");
      InnerStamp(p, before, x);
    } else {
      NoInteger();
    }
  }

  lemma NoInteger()
    ensures forall key :: LastInteger([], key) == None
  {
  }

  /** No member of a special object but a nested one writes the halves of a timestamp. */
  lemma {:induction false} NoStampParts(ms: seq<Member>, x: Platform)
    requires AllTaken(ms, x)
    ensures var p := PartsAfter(ms, x);
            p.seconds.None? && p.increment.None? && p.member != TimestampType && (ms == [] <==> p.member == NoType)
    decreases |ms|
  {
    hide SpecialKey, CStringOf, OidOf;
    if ms != [] {
      TakesScalar(SpecialKey(ms[|ms| - 1].key).value, ms[|ms| - 1].value, x);
      NoStampParts(ms[..|ms| - 1], x);
    }
  }

  /** The machine's end of a nested object yields what it amounts to after the members before it. */
  lemma AssembledNested(s: State, key: Special, before: seq<Member>, inner: seq<Member>, x: Platform)
    requires AllTaken(before, x) && AllInnerTaken(key, inner, x) && (key == DateKey || key == TimestampKey)
    requires s.parts == InnerAfter(PartsAfter(before, x), key, inner, x)
    ensures Assembled(s.(specialType := NestedType(key))) == NestedAssembly(key, before, inner, x)
  {
    if key == DateKey {
      AssembledDate(s, before, inner, x);
    } else {
      AssembledStamp(s, before, inner, x);
    }
  }

  lemma AssembledStamp(s: State, before: seq<Member>, inner: seq<Member>, x: Platform)
    requires AllTaken(before, x) && AllInnerTaken(TimestampKey, inner, x)
    requires s.parts == InnerAfter(PartsAfter(before, x), TimestampKey, inner, x)
    ensures Assembled(s.(specialType := TimestampType)) == NestedTimestamp(before, inner)
  {
    hide PartsAfter, InnerAfter, LastInteger, Wrapped, SpecialKey;
    NoStampParts(before, x);
    InnerStamp(PartsAfter(before, x), inner, x);
    NoInteger();
    if before == [] {
      NoneMixed(before, x);
    }
  }

  lemma NoneMixed(ms: seq<Member>, x: Platform)
    requires AllTaken(ms, x) && ms == []
    ensures !PartsAfter(ms, x).mixed
  {
  }

  lemma AssembledDate(s: State, before: seq<Member>, inner: seq<Member>, x: Platform)
    requires AllTaken(before, x) && AllInnerTaken(DateKey, inner, x)
    requires s.parts == InnerAfter(PartsAfter(before, x), DateKey, inner, x)
    ensures Assembled(s.(specialType := DateType)) == NestedDate(before, inner, x)
  {
    hide PartsAfter, InnerAfter, SpecialKey, ScalarAssembly;
    InnerDate(PartsAfter(before, x), inner, x);
    if inner == [] {
      NoStampParts(before, x);
      if before == [] {
        NothingNoted(before, x);
      } else if TypeOf(before[|before| - 1]) == DateType {
        AssembledParts(s.(specialType := DateType), before, x);
      } else {
        PartsShow(before, x);
      }
    }
  }

  lemma NothingNoted(ms: seq<Member>, x: Platform)
    requires AllTaken(ms, x) && ms == []
    ensures PartsAfter(ms, x) == NO_PARTS
  {
  }

  // Whole special objects.

  /** The first special key clears what an earlier special object left. */
  lemma BeginMembers(st: State, ms: seq<Member>, rest: seq<Event>, x: Platform) returns (s: State)
    requires Ready(st) && IsSpecial(ms)
    ensures Amid(s, st, 1) && s.parts == NO_PARTS
    ensures Run(st, [StartMap] + (MemberEvents(ms) + rest), x) == Run(s, MemberEvents(ms) + rest, x)
  {
    hide AddFields, SpecialKey, MemberEvents, Events;
    var key := ms[0].key;
    SplitFirst(ms);
    var tail := Events(ms[0].value) + MemberEvents(ms[1..]) + rest;
    assert MemberEvents(ms) + rest == [MapKey(key)] + tail;
    RunThen(st, StartMap, [MapKey(key)] + tail, x);
    var begun := Step(st, StartMap, x).state;
    s := begun.(readState := InBsonType, specialType := NoType, parts := NO_PARTS);
    RunThen(begun, MapKey(key), tail, x);
    RunThen(s, MapKey(key), tail, x);
  }

  lemma {:induction false} IndexesConcat(a: seq<Member>, b: seq<Member>)
    ensures SpecialIndexes(a + b) == SpecialIndexes(a) + SpecialIndexes(b)
  {
    if a == [] {
      assert a + b == b;
    } else {
      IndexesConcat(a[1..], b);
      assert (a + b)[0] == a[0] && (a + b)[1..] == a[1..] + b;
    }
  }

  lemma {:induction false} PlainIndexes(ms: seq<Member>)
    requires NoObjects(ms)
    ensures SpecialIndexes(ms) == |ms|
  {
    if ms != [] {
      PlainIndexes(ms[1..]);
    }
  }

  lemma ShapedIndexes(ms: seq<Member>)
    requires Shaped(ms)
    ensures var last := ms[|ms| - 1].value;
            SpecialIndexes(ms) == |ms| + if last.ObjectTree? then |last.members| else 0
  {
    var before, last := ms[..|ms| - 1], ms[|ms| - 1];
    assert ms == before + [last] && [last][1..] == [];
    IndexesConcat(before, [last]);
    PlainIndexes(before);
    assert SpecialIndexes([last]) ==
           (match last.value case ObjectTree(inner) => 1 + |inner| case _ => 1) + SpecialIndexes([]);
  }

  /** From the first member of a special object to its end. */
  lemma RunMembersOf(s: State, st: State, ms: seq<Member>, x: Platform)
    requires Ready(st) && Shaped(ms) && Amid(s, st, 1) && s.parts == NO_PARTS
    ensures EndsAs(Run(s, MemberEvents(ms) + [EndMap], x), st, 1 + SpecialIndexes(ms), SpecialAssembly(ms, x))
  {
    hide Step, Run, Amid, After, Taken, Events, MemberEvents, EndsAs, SpecialIndexes, ScalarAssembly, NestedAssembly;
    var before, last := ms[..|ms| - 1], ms[|ms| - 1];
    ShapedIndexes(ms);
    AllTakenSplit(ms, x);
    if !AllTaken(before, x) {
      StopsBefore(s, st, ms, x);
    } else if last.value.ObjectTree? {
      RunNested(s, st, before, last, x);
      assert ms == before + [last];
    } else if AllTaken(ms, x) {
      RunScalars(s, st, ms, x);
    } else {
      assert NoObjects(ms);
      RunConcat(s, MemberEvents(ms), [EndMap], x);
      RunUntaken(s, st, 1, ms, x);
      RefusalEnds(Run(s, MemberEvents(ms), x), st, 1 + SpecialIndexes(ms));
    }
  }

  lemma RefusalEnds(r: Outcome, st: State, n: nat)
    requires Ready(st) && n >= 1 && Refused(r)
    ensures EndsAs(r, st, n, Incomplete)
  {
  }

  lemma StopsBefore(s: State, st: State, ms: seq<Member>, x: Platform)
    requires Ready(st) && Shaped(ms) && Amid(s, st, 1) && !AllTaken(ms[..|ms| - 1], x)
    ensures EndsAs(Run(s, MemberEvents(ms) + [EndMap], x), st, 1 + SpecialIndexes(ms), Incomplete)
  {
    hide Step, Run, Amid, Taken, Events, MemberEvents, SpecialIndexes;
    var before, last := ms[..|ms| - 1], ms[|ms| - 1];
    MemberEventsSnoc(ms);
    var more := [MapKey(last.key)] + Events(last.value) + [EndMap];
    assert MemberEvents(ms) + [EndMap] == MemberEvents(before) + more;
    RunConcat(s, MemberEvents(before), more, x);
    RunUntaken(s, st, 1, before, x);
  }

  lemma RunScalars(s: State, st: State, ms: seq<Member>, x: Platform)
    requires Ready(st) && ms != [] && AllTaken(ms, x) && Amid(s, st, 1) && s.parts == NO_PARTS
    ensures EndsAs(Run(s, MemberEvents(ms) + [EndMap], x), st, 1 + |ms|, ScalarAssembly(ms, x))
  {
    hide Step, Run, Taken, Events, MemberEvents, EndsAs, ScalarAssembly, Assembled, Inside;
    RunConcat(s, MemberEvents(ms), [EndMap], x);
    RunTaken(s, st, ms, x);
    var r := Run(s, MemberEvents(ms), x).state;
    AssembledParts(r, ms, x);
    EndSpecial(r, st, 1 + |ms|, x);
  }

  lemma RunNested(s: State, st: State, before: seq<Member>, last: Member, x: Platform)
    requires Ready(st) && AllTaken(before, x) && Amid(s, st, 1) && s.parts == NO_PARTS
    requires last.value.ObjectTree? && NoObjects(last.value.members)
    requires SpecialKey(last.key) == Some(DateKey) || SpecialKey(last.key) == Some(TimestampKey)
    ensures var inner := last.value.members;
            EndsAs(Run(s, MemberEvents(before + [last]) + [EndMap], x), st, 2 + |before| + |inner|,
                   NestedAssembly(SpecialKey(last.key).value, before, inner, x))
  {
    hide Step, Run, Taken, MemberEvents, EndsAs, Assembled, Inside, SpecialKey, InnerTaken;
    hide NestedDate, NestedTimestamp, InnerAfter, Nested, NestedType;
    var inner, key := last.value.members, SpecialKey(last.key).value;
    var ends := [EndMap] + [EndMap];
    NestedEvents(before, last);
    RunConcat(s, MemberEvents(before), [MapKey(last.key)] + ([StartMap] + (MemberEvents(inner) + ends)), x);
    RunTaken(s, st, before, x);
    var s1 := Run(s, MemberEvents(before), x).state;
    var one, two := BeginNested(s1, st, 1 + |before|, last.key, x);
    RunThen(s1, MapKey(last.key), [StartMap] + (MemberEvents(inner) + ends), x);
    RunThen(one, StartMap, MemberEvents(inner) + ends, x);
    RunConcat(two, MemberEvents(inner), ends, x);
    if AllInnerTaken(key, inner, x) {
      RunInner(two, st, 2 + |before|, key, inner, x);
      var r := Run(two, MemberEvents(inner), x).state;
      AssembledNested(r, key, before, inner, x);
      EndNested(r, st, 2 + |before| + |inner|, key, x);
    } else {
      InnerUntaken(two, st, 2 + |before|, key, inner, x);
      RefusalEnds(Run(two, MemberEvents(inner), x), st, 2 + |before| + |inner|);
    }
  }

  lemma NestedEvents(before: seq<Member>, last: Member)
    requires last.value.ObjectTree?
    ensures MemberEvents(before + [last]) + [EndMap] ==
            MemberEvents(before)
            + ([MapKey(last.key)] + ([StartMap] + (MemberEvents(last.value.members) + ([EndMap] + [EndMap]))))
  {
    var ms := before + [last];
    hide MemberEvents;
    MemberEventsSnoc(ms);
    assert ms[..|ms| - 1] == before;
    assert Events(last.value) == [StartMap] + MemberEvents(last.value.members) + [EndMap];
  }

  /**
   A special object without objects in it, but for one under a last $date or $timestamp, ends as what it
   amounts to: its value is appended and the reader is back where it was, or it is refused, or bytes that
   another type left would be read.
   */
  lemma RunSpecial(st: State, ms: seq<Member>, x: Platform)
    requires Ready(st) && IsSpecial(ms) && Shaped(ms)
    ensures EndsAs(Run(st, Events(ObjectTree(ms)), x), st, 1 + SpecialIndexes(ms), SpecialAssembly(ms, x))
  {
    hide Step, Run, SpecialKey, EndsAs, SpecialIndexes, SpecialAssembly, MemberEvents, Shaped, Inside;
    assert Events(ObjectTree(ms)) == [StartMap] + (MemberEvents(ms) + [EndMap]);
    var s := BeginMembers(st, ms, [EndMap], x);
    RunMembersOf(s, st, ms, x);
  }

  /**
   A special object of scalars and arrays, whatever types its keys mix, is refused unless every member is a
   special key with a scalar it takes, and then ends as its members amount to.
   */
  lemma ScalarMembersIff(st: State, ms: seq<Member>, x: Platform)
    requires Ready(st) && IsSpecial(ms) && NoObjects(ms)
    ensures EndsAs(Run(st, Events(ObjectTree(ms)), x), st, 1 + |ms|,
                   if AllTaken(ms, x) then ScalarAssembly(ms, x) else Incomplete)
  {
    hide Run, SpecialKey, EndsAs, SpecialIndexes, ScalarAssembly, Events, Taken;
    assert Shaped(ms);
    AllTakenSplit(ms, x);
    PlainIndexes(ms);
    RunSpecial(st, ms, x);
  }

  /** One special key with a scalar or an array is read exactly when that is a value by itself, else refused. */
  lemma SingleSpecialIff(st: State, m: Member, x: Platform)
    requires Ready(st) && SpecialKey(m.key).Some? && !m.value.ObjectTree?
    ensures var r, key := Run(st, Events(ObjectTree([m])), x), SpecialKey(m.key).value;
            if key == RegexKey && m.value.TextTree? then
              Continues(r, WithField(st, 2, Regex(CStringOf(m.value.text), "")))
            else if OneValue(key, m.value, x).Some? then
              Continues(r, WithField(st, 2, OneValue(key, m.value, x).value))
            else Refused(r)
  {
    hide Run, SpecialKey, Events, CStringOf, WithField, Continues;
    ScalarMembersIff(st, [m], x);
    var tail := Tail([m], TypeOf(m));
    TailSnoc([], m, TypeOf(m));
    assert [] + [m] == [m] && Tail([], TypeOf(m)) == [];
    NoText();
    LastTextSnoc([], m, RegexKey);
    LastTextSnoc([], m, OptionsKey);
    LastTextSnoc([], m, BinaryKey);
    LastTextSnoc([], m, TypeKey);
  }
}
