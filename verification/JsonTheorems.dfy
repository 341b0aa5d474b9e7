/**
 Streaming computes the same thing as the recursion over the tree: the callbacks, fed the
 events of a tree, build its meaning, provided no more than STACK_MAX levels are open at once.
 */
module JsonTheorems {
  import opened Bson
  import opened BsonBuilding
  import opened BsonBytes
  import opened Json
  import opened JsonMachine
  import opened JsonRuns
  import opened JsonSpecials
  import opened Words

  // The three inductions.

  /** The document with the value of v under its key. */
  function WithValue(st: State, v: Tree, x: Platform): Building
    requires Ready(st) && Meaning(v, x).Some?
  {
    WithField(st, IndexesUsed(v), Meaning(v, x).value)
  }

  /** A value in a document or an array adds just its meaning; one that has none, or nests too deeply, is refused. */
  lemma {:induction false} RunValue(st: State, v: Tree, x: Platform)
    requires Ready(st) && Settled(v, x)
    ensures var r := Run(st, Events(v), x);
            if Meaning(v, x).Some? && Height(st.doc.stack) + Depth(v) <= STACK_MAX
            then Continues(r, WithValue(st, v, x))
            else Refused(r)
    decreases v, 2
  {
    hide Step, Run, Events, WithField, SpecialAssembly, SpecialKey, Shaped;
    match v
    case ArrayTree(items) => RunArray(st, v, x);
    case ObjectTree(members) =>
      if IsSpecial(members) {
        RunSpecial(st, members, x);
      } else {
        RunObject(st, v, x);
      }
    case _ => RunScalar(st, v, x);
  }

  lemma RunScalar(st: State, v: Tree, x: Platform)
    requires Ready(st) && !v.ObjectTree? && !v.ArrayTree?
    ensures Continues(Run(st, Events(v), x), WithValue(st, v, x))
  {
    RunOne(st, First(v), x);
  }

  lemma {:induction false} RunArray(st: State, v: Tree, x: Platform)
    requires Ready(st) && v.ArrayTree? && Settled(v, x)
    ensures var r := Run(st, Events(v), x);
            if Meaning(v, x).Some? && Height(st.doc.stack) + Depth(v) <= STACK_MAX
            then Continues(r, WithValue(st, v, x))
            else Refused(r)
    decreases v, 1
  {
    hide Step;
    var inner := ItemEvents(v.items);
    assert Events(v) == [StartArray] + (inner + [EndArray]);
    RunThen(st, StartArray, inner + [EndArray], x);
    StartsArray(st, x);
    var pushed := Step(st, StartArray, x);
    if pushed.go {
      RunConcat(pushed.state, inner, [EndArray], x);
      RunItems(pushed.state, v.items, x);
      var last := Run(pushed.state, inner, x);
      RunOne(last.state, EndArray, x);
      if last.go {
        EndsLevel(st, pushed.state, last.state, true, TotalIndexes(v.items), ItemFields(v.items, 0, x).value, x);
      }
    }
  }

  /** A plain value that starts here: the key is fixed, and one more level is open. */
  predicate Opens(st: State, r: Outcome, isArray: bool)
    requires Ready(st)
  {
    if Height(st.doc.stack) < STACK_MAX then
      && r.go && r.state.readState == Regular && r.state.key.Some?
      && r.state.doc == OpenLevel(Skip(st.doc, 1), isArray, KeyAfter(st, 1))
      && Height(r.state.doc.stack) == Height(st.doc.stack) + 1
    else !r.go && r.state.readState == Regular
  }

  lemma StartsArray(st: State, x: Platform)
    requires Ready(st)
    ensures Opens(st, Step(st, StartArray, x), true)
  {
  }

  /** Closing a level makes one field of what was added to it. */
  lemma EndsLevel(st: State, pushed: State, last: State, isArray: bool, n: nat, fs: seq<Field>, x: Platform)
    requires Ready(st) && pushed.doc == OpenLevel(Skip(st.doc, 1), isArray, KeyAfter(st, 1))
    requires last.readState == Regular && last.key.Some? && last.doc == AddFields(Skip(pushed.doc, n), fs)
    ensures var e := if isArray then EndArray else EndMap;
            Continues(Step(last, e, x), WithField(st, 1, Container(isArray, fs)))
  {
    assert [] + fs == fs;
  }

  /** Members or elements were read that used n indexes and became fs. */
  predicate Adds(r: Outcome, st: State, n: nat, fs: seq<Field>)
    requires st.doc.stack.Open?
  {
    && r.go && r.state.readState == Regular && (st.key.Some? ==> r.state.key.Some?)
    && r.state.doc == AddFields(Skip(st.doc, n), fs)
  }

  lemma JoinItems(st: State, first: Outcome, second: Outcome, n: nat, f: Field, m: nat, gs: seq<Field>)
    requires Ready(st) && Continues(first, AddFields(Skip(st.doc, n), [f])) && Adds(second, first.state, m, gs)
    ensures Adds(second, st, n + m, [f] + gs)
  {
    AddTwice(st.doc, n, [f], m, gs);
  }

  lemma AfterItem(st: State, first: Outcome, n: nat, f: Field)
    requires Ready(st) && st.doc.stack.top.isArray && Continues(first, AddFields(Skip(st.doc, n), [f]))
    ensures Ready(first.state) && Height(first.state.doc.stack) == Height(st.doc.stack)
    ensures first.state.doc.stack.top.isArray && first.state.doc.stack.top.next == st.doc.stack.top.next + n
  {
  }

  lemma {:induction false} RunItems(st: State, items: seq<Tree>, x: Platform)
    requires Ready(st) && st.doc.stack.top.isArray && ItemsSettled(items, x)
    ensures var r, fs := Run(st, ItemEvents(items), x), ItemFields(items, st.doc.stack.top.next, x);
            if fs.Some? && Height(st.doc.stack) + ItemsDepth(items) <= STACK_MAX
            then Adds(r, st, TotalIndexes(items), fs.value)
            else Refused(r)
    decreases items, 0
  {
    hide Step, AddFields, Skip, Meaning, Settled, Events, IndexesUsed, Depth, Run;
    if items == [] {
      AddNothing(st.doc);
      RunNothing(st, x);
    } else {
      RunConcat(st, Events(items[0]), ItemEvents(items[1..]), x);
      RunValue(st, items[0], x);
      var first := Run(st, Events(items[0]), x);
      if first.go {
        var n, f := IndexesUsed(items[0]), Field(KeyAfter(st, IndexesUsed(items[0])), Meaning(items[0], x).value);
        AfterItem(st, first, n, f);
        RunItems(first.state, items[1..], x);
        var second := Run(first.state, ItemEvents(items[1..]), x);
        if second.go {
          JoinItems(st, first, second, n, f, TotalIndexes(items[1..]),
                    ItemFields(items[1..], st.doc.stack.top.next + n, x).value);
        }
      }
    }
  }

  function TotalIndexes(items: seq<Tree>): nat
  {
    if items == [] then 0 else IndexesUsed(items[0]) + TotalIndexes(items[1..])
  }

  lemma {:induction false} RunObject(st: State, v: Tree, x: Platform)
    requires Ready(st) && v.ObjectTree? && !IsSpecial(v.members) && Settled(v, x)
    ensures var r := Run(st, Events(v), x);
            if Meaning(v, x).Some? && Height(st.doc.stack) + Depth(v) <= STACK_MAX
            then Continues(r, WithValue(st, v, x))
            else Refused(r)
    decreases v, 1
  {
    hide Step;
    var inner := MemberEvents(v.members);
    assert Events(v) == [StartMap] + (inner + [EndMap]);
    RunThen(st, StartMap, inner + [EndMap], x);
    var pushed := FirstKeyOpens(st, v.members, x);
    PushOpens(st);
    if pushed.go {
      RunConcat(pushed.state, inner, [EndMap], x);
      RunMembers(pushed.state, v.members, x);
      var last := Run(pushed.state, inner, x);
      RunOne(last.state, EndMap, x);
      if last.go {
        EndsLevel(st, pushed.state, last.state, false, 0, MemberFields(v.members, x).value, x);
      }
    }
  }

  /** The level of a plain object is opened by its first key, or by its end. */
  lemma FirstKeyOpens(st: State, members: seq<Member>, x: Platform) returns (pushed: Outcome)
    requires st.readState == Regular && !IsSpecial(members)
    ensures Step(st, StartMap, x).go && pushed == Push(Fixup(st), false)
    ensures var events := MemberEvents(members) + [EndMap];
            Run(Step(st, StartMap, x).state, events, x) == if pushed.go then Run(pushed.state, events, x) else pushed
  {
    hide Fixup, Push, Pop;
    var begun := Step(st, StartMap, x).state;
    FixupKeeps(st);
    pushed := Push(Fixup(st), false);
    PushKeeps(Fixup(st));
    if members == [] {
      RunOne(begun, EndMap, x);
      RunOne(pushed.state, EndMap, x);
    } else {
      var key := members[0].key;
      var rest := Events(members[0].value) + MemberEvents(members[1..]) + [EndMap];
      assert MemberEvents(members) + [EndMap] == [MapKey(key)] + rest;
      RunThen(begun, MapKey(key), rest, x);
      RunThen(pushed.state, MapKey(key), rest, x);
    }
  }

  lemma FixupKeeps(st: State)
    ensures Fixup(st).readState == st.readState
    ensures Fixup(st).(readState := InStartMap).(readState := st.readState) == Fixup(st)
  {
  }

  lemma PushKeeps(st: State)
    ensures Push(st, false).state.readState == st.readState
  {
  }

  lemma PushOpens(st: State)
    requires Ready(st)
    ensures Opens(st, Push(Fixup(st), false), false)
  {
  }

  lemma {:induction false} RunMembers(st: State, members: seq<Member>, x: Platform)
    requires st.readState == Regular && st.doc.stack.Open? && Height(st.doc.stack) <= STACK_MAX
             && !st.doc.stack.top.isArray
    requires MembersSettled(members, x)
    ensures var r, fs := Run(st, MemberEvents(members), x), MemberFields(members, x);
            if fs.Some? && Height(st.doc.stack) + MembersDepth(members) <= STACK_MAX
            then Adds(r, st, 0, fs.value)
            else Refused(r)
    decreases members, 0
  {
    hide Step, Run, Meaning, Settled, Events, AddFields;
    if members == [] {
      AddNothing(st.doc);
      RunNothing(st, x);
    } else {
      var key, v := members[0].key, members[0].value;
      assert MemberEvents(members) == [MapKey(key)] + (Events(v) + MemberEvents(members[1..]));
      RunThen(st, MapKey(key), Events(v) + MemberEvents(members[1..]), x);
      NextKey(st, key, x);
      var keyed := Step(st, MapKey(key), x).state;
      RunConcat(keyed, Events(v), MemberEvents(members[1..]), x);
      RunValue(keyed, v, x);
      var first := Run(keyed, Events(v), x);
      if first.go {
        AfterMember(keyed, first, v, x);
        RunMembers(first.state, members[1..], x);
        if MemberFields(members[1..], x).Some? {
          AddTwice(st.doc, 0, [Field(key, Meaning(v, x).value)], 0, MemberFields(members[1..], x).value);
        }
      }
    }
  }

  lemma AfterMember(st: State, first: Outcome, v: Tree, x: Platform)
    requires Ready(st) && !st.doc.stack.top.isArray && Meaning(v, x).Some? && Continues(first, WithValue(st, v, x))
    ensures first.state.doc.stack.Open? && !first.state.doc.stack.top.isArray
    ensures Height(first.state.doc.stack) == Height(st.doc.stack)
    ensures first.state.doc == AddFields(Skip(st.doc, 0), [Field(st.key.value, Meaning(v, x).value)])
  {
  }

  lemma NextKey(st: State, key: Text, x: Platform)
    requires st.readState == Regular
    ensures Step(st, MapKey(key), x) == Outcome(true, st.(key := Some(key)))
  {
  }

  // Whole documents.

  predicate IsContainer(v: Tree)
  {
    v.ArrayTree? || (v.ObjectTree? && !IsSpecial(v.members))
  }

  /** The document was read to its end, and the target holds the given fields. */
  predicate Completes(r: Outcome, target: seq<Field>)
  {
    !r.go && r.state.readState == Done && r.state.doc == Building(target, Bottom)
  }

  /**
   From the start of a document, the events of an array or plain object build exactly its meaning
   and end in DONE when it has one and at most STACK_MAX levels nest; otherwise reading stops short of DONE.
   */
  lemma StreamingIsRecursion(st: State, v: Tree, x: Platform)
    requires st.readState == Regular && st.doc.stack == Bottom && IsContainer(v) && Settled(v, x)
    ensures var r := Run(st, Events(v), x);
            if Meaning(v, x).Some? && Depth(v) <= STACK_MAX
            then Completes(r, st.doc.target + Meaning(v, x).value.fields) else Refused(r)
  {
    hide Step;
    match v
    case ArrayTree(items) => RootArray(st, items, x);
    case ObjectTree(members) => RootObject(st, members, x);
  }

  /** The outermost level has been opened. */
  predicate RootOpened(st: State, pushed: Outcome, isArray: bool)
  {
    pushed.go && pushed.state == st.(doc := OpenLevel(st.doc, isArray, ""))
  }

  lemma RootPush(st: State, isArray: bool, x: Platform)
    requires st.readState == Regular && st.doc.stack == Bottom
    ensures RootOpened(st, Push(Fixup(st), isArray), isArray) && Step(st, StartArray, x) == Push(st, true)
            && Fixup(st) == st
  {
  }

  /** Closing the outermost level ends the document. */
  lemma RootClose(st: State, pushed: State, last: State, isArray: bool, n: nat, fs: seq<Field>, x: Platform)
    requires st.doc.stack == Bottom && pushed == st.(doc := OpenLevel(st.doc, isArray, ""))
    requires last.readState == Regular && last.doc == AddFields(Skip(pushed.doc, n), fs)
    ensures Completes(Step(last, if isArray then EndArray else EndMap, x), st.doc.target + fs)
  {
  }

  lemma RootArray(st: State, items: seq<Tree>, x: Platform)
    requires st.readState == Regular && st.doc.stack == Bottom && ItemsSettled(items, x)
    ensures var r, fs := Run(st, Events(ArrayTree(items)), x), ItemFields(items, 0, x);
            if fs.Some? && 1 + ItemsDepth(items) <= STACK_MAX then Completes(r, st.doc.target + fs.value)
            else Refused(r)
  {
    hide Step;
    var inner := ItemEvents(items);
    assert Events(ArrayTree(items)) == [StartArray] + (inner + [EndArray]);
    RunThen(st, StartArray, inner + [EndArray], x);
    RootPush(st, true, x);
    var pushed := Step(st, StartArray, x).state;
    RunConcat(pushed, inner, [EndArray], x);
    RunItems(pushed, items, x);
    var last := Run(pushed, inner, x);
    RunOne(last.state, EndArray, x);
    if last.go {
      RootClose(st, pushed, last.state, true, TotalIndexes(items), ItemFields(items, 0, x).value, x);
    }
  }

  lemma RootObject(st: State, members: seq<Member>, x: Platform)
    requires st.readState == Regular && st.doc.stack == Bottom && !IsSpecial(members) && MembersSettled(members, x)
    ensures var r, fs := Run(st, Events(ObjectTree(members)), x), MemberFields(members, x);
            if fs.Some? && 1 + MembersDepth(members) <= STACK_MAX then Completes(r, st.doc.target + fs.value)
            else Refused(r)
  {
    hide Step;
    var inner := MemberEvents(members);
    assert Events(ObjectTree(members)) == [StartMap] + (inner + [EndMap]);
    RunThen(st, StartMap, inner + [EndMap], x);
    var outermost := FirstKeyOpens(st, members, x);
    var pushed := outermost.state;
    RootPush(st, false, x);
    RunConcat(pushed, inner, [EndMap], x);
    RunMembers(pushed, members, x);
    var last := Run(pushed, inner, x);
    RunOne(last.state, EndMap, x);
    if last.go {
      RootClose(st, pushed, last.state, false, 0, MemberFields(members, x).value, x);
    }
  }

  // Scalars and special objects cannot be documents.

  /** Inside a special object at the outermost level of a fresh reader: there is no key to append under. */
  predicate Keyless(st: State)
  {
    && st.doc.stack == Bottom && st.key.None?
    && (st.readState == InBsonType || st.readState == InTimestampValues || st.readState == InDateNumberLong)
  }

  /** Nothing begins or ends, and no key awaits an object. */
  predicate OpensNothing(e: Event)
  {
    !e.StartMap? && !e.StartArray? && !e.EndMap? && !e.EndArray?
    && (e.MapKey? ==> SpecialKey(e.key) != Some(TimestampKey))
  }

  predicate NoStarts(events: seq<Event>)
  {
    forall k :: 0 <= k < |events| ==> OpensNothing(events[k])
  }

  lemma KeylessStep(st: State, e: Event, x: Platform)
    requires Keyless(st) && OpensNothing(e)
    ensures var r := Step(st, e, x);
            if r.go then Keyless(r.state) && r.state.readState == st.readState else Refused(r)
  {
    hide SpecialKey;
  }

  lemma {:induction false} KeylessRun(st: State, events: seq<Event>, x: Platform)
    requires Keyless(st) && NoStarts(events)
    ensures var r := Run(st, events, x);
            if r.go then Keyless(r.state) && r.state.readState == st.readState else Refused(r)
    decreases |events|
  {
    hide Step;
    if events != [] {
      KeylessStep(st, events[0], x);
      if Step(st, events[0], x).go {
        KeylessRun(Step(st, events[0], x).state, events[1..], x);
      }
    }
  }

  /** The end of a special object that has no key to append under. */
  lemma KeylessEnd(st: State, events: seq<Event>, rest: seq<Event>, x: Platform)
    requires Keyless(st) && NoStarts(events)
    ensures Refused(Run(st, events + ([EndMap] + rest), x))
  {
    hide Step, Run;
    KeylessRun(st, events, x);
    RunConcat(st, events, [EndMap] + rest, x);
    var r := Run(st, events, x);
    if r.go {
      RunThen(r.state, EndMap, rest, x);
      KeylessStop(r.state, x);
    }
  }

  lemma KeylessStop(st: State, x: Platform)
    requires Keyless(st)
    ensures Refused(Step(st, EndMap, x))
  {
  }

  /** The start of a special object at the outermost level. */
  lemma KeylessStart(st: State, ms: seq<Member>, rest: seq<Event>, x: Platform) returns (s: State)
    requires st.readState == Regular && st.doc.stack == Bottom && st.key.None? && IsSpecial(ms)
    ensures Keyless(s) && s.readState == InBsonType
    ensures Run(st, [StartMap] + (MemberEvents(ms) + rest), x) == Run(s, MemberEvents(ms) + rest, x)
  {
    hide SpecialKey, MemberEvents, Events;
    var key := ms[0].key;
    SplitFirst(ms);
    var tail := Events(ms[0].value) + MemberEvents(ms[1..]) + rest;
    assert MemberEvents(ms) + rest == [MapKey(key)] + tail;
    RunThen(st, StartMap, [MapKey(key)] + tail, x);
    var begun := Step(st, StartMap, x).state;
    s := begun.(readState := InBsonType, specialType := NoType, parts := NO_PARTS);
    RunThen(begun, MapKey(key), tail, x);
    RunThen(s, MapKey(key), tail, x);
  }

  /** The start of an object nested in it. */
  lemma KeylessNested(st: State, key: Text, x: Platform) returns (one: State, two: State)
    requires Keyless(st) && st.readState == InBsonType
    requires SpecialKey(key) == Some(DateKey) || SpecialKey(key) == Some(TimestampKey)
    ensures Step(st, MapKey(key), x) == Outcome(true, one)
    ensures Step(one, StartMap, x) == Outcome(true, two) && Keyless(two)
  {
    hide SpecialKey;
    one := Step(st, MapKey(key), x).state;
    two := Step(one, StartMap, x).state;
  }

  lemma {:induction false} TakenOpensNothing(ms: seq<Member>, x: Platform)
    requires AllTaken(ms, x)
    ensures NoStarts(MemberEvents(ms))
  {
    hide SpecialKey;
    if ms != [] {
      assert Taken(ms[0], x);
      TakenOpensNothing(ms[1..], x);
    }
  }

  lemma {:induction false} InnerOpensNothing(key: Special, ms: seq<Member>, x: Platform)
    requires AllInnerTaken(key, ms, x)
    ensures NoStarts(MemberEvents(ms))
  {
    if ms != [] {
      assert InnerTaken(key, ms[0], x);
      InnerOpensNothing(key, ms[1..], x);
    }
  }

  /** A special object is no document: a reader that has no key yet refuses it. */
  lemma SpecialIsNoDocument(st: State, ms: seq<Member>, x: Platform)
    requires st.readState == Regular && st.doc.stack == Bottom && st.key.None?
    requires IsSpecial(ms) && SpecialValue(ms, x).Some?
    ensures Refused(Run(st, Events(ObjectTree(ms)), x))
  {
    hide Step, Run, SpecialKey, MemberEvents, ScalarAssembly, NestedDate, NestedTimestamp;
    var before, last := ms[..|ms| - 1], ms[|ms| - 1];
    assert Events(ObjectTree(ms)) == [StartMap] + (MemberEvents(ms) + [EndMap]);
    var s := KeylessStart(st, ms, [EndMap], x);
    assert ms == before + [last];
    if last.value.ObjectTree? {
      var inner := last.value.members;
      NestedEvents(before, last);
      InnerOpensNothing(SpecialKey(last.key).value, inner, x);
      KeylessInner(s, before, last, x);
    } else {
      TakenOpensNothing(ms, x);
      assert [EndMap] + [] == [EndMap];
      KeylessEnd(s, MemberEvents(ms), [], x);
    }
  }

  lemma KeylessInner(s: State, before: seq<Member>, last: Member, x: Platform)
    requires Keyless(s) && s.readState == InBsonType && AllTaken(before, x)
    requires last.value.ObjectTree? && NoStarts(MemberEvents(last.value.members))
    requires SpecialKey(last.key) == Some(DateKey) || SpecialKey(last.key) == Some(TimestampKey)
    ensures var inner := MemberEvents(last.value.members) + ([EndMap] + [EndMap]);
            Refused(Run(s, MemberEvents(before) + ([MapKey(last.key)] + ([StartMap] + inner)), x))
  {
    hide Step, Run, SpecialKey, MemberEvents;
    var inner := MemberEvents(last.value.members) + ([EndMap] + [EndMap]);
    TakenOpensNothing(before, x);
    KeylessRun(s, MemberEvents(before), x);
    RunConcat(s, MemberEvents(before), [MapKey(last.key)] + ([StartMap] + inner), x);
    var r := Run(s, MemberEvents(before), x);
    if r.go {
      var one, two := KeylessNested(r.state, last.key, x);
      RunThen(r.state, MapKey(last.key), [StartMap] + inner, x);
      RunThen(one, StartMap, inner, x);
      KeylessEnd(two, MemberEvents(last.value.members), [EndMap], x);
    }
  }

  /** Neither is a scalar. */
  lemma OnlyContainersAreDocuments(st: State, v: Tree, x: Platform)
    requires st.readState == Regular && st.doc.stack == Bottom && st.key.None?
    requires !IsContainer(v) && Meaning(v, x).Some?
    ensures Refused(Run(st, Events(v), x))
  {
    if v.ObjectTree? {
      SpecialIsNoDocument(st, v.members, x);
    } else {
      RunOne(st, First(v), x);
    }
  }

  // Integers.

  /** Reading an integer appends the smallest of the BSON integers that are equal to it. */
  lemma IntegersAreSmallest(st: State, n: Int64, x: Platform) returns (v: Value)
    requires Ready(st)
    ensures Continues(Run(st, [IntegerEvent(n)], x), WithField(st, 1, v)) && Meaning(IntegerTree(n), x) == Some(v)
    ensures NumberOf(v) == Some(n) && forall w :: NumberOf(w) == Some(n) ==> Size(v) <= Size(w)
  {
    hide Run, WithField, Continues;
    v := Meaning(IntegerTree(n), x).value;
    assert Events(IntegerTree(n)) == [IntegerEvent(n)];
    RunScalar(st, IntegerTree(n), x);
  }

  /** A timestamp's numbers are taken modulo 2^32. */
  lemma WrappedIsModular(n: Int64)
    ensures exists k: int :: n == Wrapped(n) + k * 0x1_0000_0000
  {
    assert n == Wrapped(n) + n / 0x1_0000_0000 * 0x1_0000_0000;
  }

  // Array keys.

  /** Element k lies under the index reached after the elements before it. */
  lemma {:induction false} ItemKeys(items: seq<Tree>, i: nat, x: Platform, k: nat)
    requires ItemFields(items, i, x).Some? && k < |items|
    ensures |ItemFields(items, i, x).value| == |items|
    ensures ItemFields(items, i, x).value[k].key == IndexKey(i + TotalIndexes(items[..k + 1]) - 1)
    ensures Meaning(items[k], x) == Some(ItemFields(items, i, x).value[k].value)
    decreases |items|
  {
    hide Meaning, IndexKey, IndexesUsed;
    assert items[..k + 1][1..] == items[1..][..k];
    if k > 0 {
      ItemKeys(items[1..], i + IndexesUsed(items[0]), x, k - 1);
    } else {
      assert items[..1][1..] == [];
      if |items| > 1 {
        ItemKeys(items[1..], i + IndexesUsed(items[0]), x, 0);
      }
    }
  }

  lemma {:induction false} PlainTotal(items: seq<Tree>)
    ensures TotalIndexes(items) >= |items|
    ensures TotalIndexes(items) == |items| <==> forall k :: 0 <= k < |items| ==> IndexesUsed(items[k]) == 1
  {
    if items != [] {
      PlainTotal(items[1..]);
      assert forall k :: 1 <= k < |items| ==> items[k] == items[1..][k - 1];
    }
  }

  lemma KeysConsecutiveIff(items: seq<Tree>, x: Platform)
    requires ItemFields(items, 0, x).Some?
    ensures var fs := ItemFields(items, 0, x).value;
            && |fs| == |items|
            && ((forall k :: 0 <= k < |fs| ==> fs[k].key == IndexKey(k))
                <==> (forall k :: 0 <= k < |items| ==> IndexesUsed(items[k]) == 1))
  {
    hide Meaning, IndexKey, IndexesUsed;
    var fs := ItemFields(items, 0, x).value;
    if items != [] {
      ItemKeys(items, 0, x, 0);
    }
    if forall k :: 0 <= k < |items| ==> IndexesUsed(items[k]) == 1 {
      forall k | 0 <= k < |fs| ensures fs[k].key == IndexKey(k) {
        ItemKeys(items, 0, x, k);
        PlainTotal(items[..k + 1]);
      }
    } else {
      PlainTotal(items);
      var k := |items| - 1;
      ItemKeys(items, 0, x, k);
      assert items[..k + 1] == items;
      if fs[k].key == IndexKey(k) {
        IndexKeyInjective(k, TotalIndexes(items) - 1);
        assert false;
      }
    }
  }

  /** The keys of an array are 0, 1, 2 and so on exactly when no element is a special object. */
  lemma ArrayKeysAreConsecutiveIff(items: seq<Tree>, x: Platform)
    requires Meaning(ArrayTree(items), x).Some?
    ensures var fs := Meaning(ArrayTree(items), x).value.fields;
            && |fs| == |items|
            && ((forall k :: 0 <= k < |fs| ==> fs[k].key == IndexKey(k))
                <==> (forall k :: 0 <= k < |items| ==> !(items[k].ObjectTree? && IsSpecial(items[k].members))))
  {
    hide IndexKey, IndexesUsed;
    KeysConsecutiveIff(items, x);
    forall k | 0 <= k < |items|
      ensures IndexesUsed(items[k]) == 1 <==> !(items[k].ObjectTree? && IsSpecial(items[k].members))
    {
      SpecialUsesMore(items[k]);
    }
  }

  lemma SpecialUsesMore(v: Tree)
    ensures IndexesUsed(v) == 1 <==> !(v.ObjectTree? && IsSpecial(v.members))
  {
  }
}
