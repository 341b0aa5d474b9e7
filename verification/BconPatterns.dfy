/**
 Extraction with any pattern from any document: it matches exactly when the document holds what the
 pattern asks for, and then yields just that.
 */
module BconPatterns {
  import opened Bcon
  import opened BconTheorems
  import opened Bson
  import opened BsonBuilding
  import opened BsonBytes
  import BsonSearch
  import opened Words

  /** What a pattern asks for: a value, or what a document or an array holds. */
  datatype Ask = Single(want: Want) | InDocument(named: seq<NamedAsk>) | InArray(asks: seq<Ask>)

  datatype NamedAsk = NamedAsk(key: string, ask: Ask)

  // The pattern.

  function AskPatterns(ask: Ask): (ps: seq<Pattern>)
    ensures ps != []
  {
    match ask
    case Single(want) => [Place(want)]
    case InDocument(named) => [KeyMark("{")] + NamedPatterns(named) + [KeyMark("}")]
    case InArray(asks) => [KeyMark("[")] + ElementPatterns(asks) + [KeyMark("]")]
  }

  function NamedPattern(n: NamedAsk): (ps: seq<Pattern>)
  {
    [KeyMark(n.key)] + AskPatterns(n.ask)
  }

  function NamedPatterns(named: seq<NamedAsk>): seq<Pattern>
  {
    if named == [] then [] else NamedPattern(named[0]) + NamedPatterns(named[1..])
  }

  function ElementPatterns(asks: seq<Ask>): seq<Pattern>
  {
    if asks == [] then [] else AskPatterns(asks[0]) + ElementPatterns(asks[1..])
  }

  /** A name that is no bracket: it does not begin with one. */
  predicate IsName(key: string) { key == "" || key[0] !in "{}[]" }

  predicate ProperAsk(ask: Ask)
  {
    match ask
    case Single(_) => true
    case InDocument(named) => ProperNamed(named)
    case InArray(asks) => ProperElements(asks)
  }

  predicate ProperName(n: NamedAsk) { IsName(n.key) && ProperAsk(n.ask) }

  predicate ProperNamed(named: seq<NamedAsk>)
  {
    named == [] || (ProperName(named[0]) && ProperNamed(named[1..]))
  }

  predicate ProperElements(asks: seq<Ask>)
  {
    asks == [] || (ProperAsk(asks[0]) && ProperElements(asks[1..]))
  }

  /** Frames that looking into the document takes. */
  function Frames(ask: Ask): nat
  {
    match ask
    case Single(_) => 0
    case InDocument(named) => 1 + NamedFrames(named)
    case InArray(asks) => 1 + ElementFrames(asks)
  }

  function NameFrames(n: NamedAsk): nat { Frames(n.ask) }

  function NamedFrames(named: seq<NamedAsk>): nat
  {
    if named == [] then 0 else Max(NameFrames(named[0]), NamedFrames(named[1..]))
  }

  function ElementFrames(asks: seq<Ask>): nat
  {
    if asks == [] then 0 else Max(Frames(asks[0]), ElementFrames(asks[1..]))
  }

  // What it matches, and what it yields.

  /** A value is of the type asked for; a bracket wants a document or array that holds what is asked of it. */
  predicate Meets(v: Value, ask: Ask)
    decreases ask, 0
  {
    match ask
    case Single(OfType(code)) => TypeCode(v) == code
    case Single(SkipType(code)) => TypeCode(v) == code
    case Single(AnyValue) => true
    case InDocument(named) => TypeCode(v) == 0x03 && MeetsNamed(v.fields, named)
    case InArray(asks) => TypeCode(v) == 0x04 && MeetsElements(v.fields, asks, 0)
  }

  predicate MeetsName(fs: seq<Field>, n: NamedAsk)
    decreases n
  {
    BsonSearch.FirstField(fs, n.key).Some? && Meets(BsonSearch.FirstField(fs, n.key).value, n.ask)
  }

  /** Each name is that of a field, the first of which meets what is asked of it. */
  predicate MeetsNamed(fs: seq<Field>, named: seq<NamedAsk>)
    decreases named
  {
    named == [] || (MeetsName(fs, named[0]) && MeetsNamed(fs, named[1..]))
  }

  predicate MeetsElement(fs: seq<Field>, ask: Ask, i: nat)
    decreases ask, 1
  {
    BsonSearch.FirstField(fs, IndexKey(i)).Some? && Meets(BsonSearch.FirstField(fs, IndexKey(i)).value, ask)
  }

  /** The same for the indexes from i on. */
  predicate MeetsElements(fs: seq<Field>, asks: seq<Ask>, i: nat)
    decreases asks
  {
    asks == [] || (MeetsElement(fs, asks[0], i) && MeetsElements(fs, asks[1..], i + 1))
  }

  /** Undefined, null, max key and min key say all there is by their type. */
  predicate Silent(code: Byte) { code == 0x06 || code == 0x0a || code == 0x7f || code == 0xff }

  function Yields(v: Value, ask: Ask): seq<Value>
    requires Meets(v, ask)
    decreases ask, 0
  {
    match ask
    case Single(OfType(code)) => if Silent(code) then [] else [v]
    case Single(SkipType(_)) => []
    case Single(AnyValue) => [v]
    case InDocument(named) => YieldsNamed(v.fields, named)
    case InArray(asks) => YieldsElements(v.fields, asks, 0)
  }

  function YieldsName(fs: seq<Field>, n: NamedAsk): seq<Value>
    requires MeetsName(fs, n)
    decreases n
  {
    Yields(BsonSearch.FirstField(fs, n.key).value, n.ask)
  }

  function YieldsNamed(fs: seq<Field>, named: seq<NamedAsk>): seq<Value>
    requires MeetsNamed(fs, named)
    decreases named
  {
    if named == [] then [] else YieldsName(fs, named[0]) + YieldsNamed(fs, named[1..])
  }

  function YieldsElement(fs: seq<Field>, ask: Ask, i: nat): seq<Value>
    requires MeetsElement(fs, ask, i)
    decreases ask, 1
  {
    Yields(BsonSearch.FirstField(fs, IndexKey(i)).value, ask)
  }

  function YieldsElements(fs: seq<Field>, asks: seq<Ask>, i: nat): seq<Value>
    requires MeetsElements(fs, asks, i)
    decreases asks
  {
    if asks == [] then [] else YieldsElement(fs, asks[0], i) + YieldsElements(fs, asks[1..], i + 1)
  }

  // The extractor.

  lemma NameIsKey(key: string)
    ensures IsName(key) <==> IsKey(key)
  {
  }

  /** A bare string is the bracket or brace it begins with, whatever follows, and else a text or a name. */
  lemma BareStrings(s: string)
    ensures "{" <= s ==> TokenOf(Mark(s)) == DocStart && PatternOf(KeyMark(s)) == Opens(false)
    ensures "}" <= s ==> TokenOf(Mark(s)) == DocEnd && PatternOf(KeyMark(s)) == Closes(false)
    ensures "[" <= s ==> TokenOf(Mark(s)) == ArrayStart && PatternOf(KeyMark(s)) == Opens(true)
    ensures "]" <= s ==> TokenOf(Mark(s)) == ArrayEnd && PatternOf(KeyMark(s)) == Closes(true)
    ensures IsName(s) ==> TokenOf(Mark(s)) == TextToken(s) && PatternOf(KeyMark(s)) == Name(s)
  {
  }

  lemma ExtractPlace(v: Views, key: string, want: Want, rest: seq<Pattern>, y: seq<Value>)
    requires v.Views?
    ensures var f, ask := BsonSearch.FirstField(v.top.fields, key), Single(want);
            ExtractValue(v, key, AskPatterns(ask) + rest, y) ==
            if f.Some? && Meets(f.value, ask) then Extract(v, rest, y + Yields(f.value, ask)) else Mismatch
  {
    hide Extract, BsonSearch.FirstField;
    assert ([Place(want)] + rest)[1..] == rest;
  }

  lemma {:induction false} ExtractAsk(v: Views, key: string, ask: Ask, rest: seq<Pattern>, y: seq<Value>)
    requires v.Views? && ProperAsk(ask) && Depth(v) + Frames(ask) <= BCON_STACK_MAX
    ensures var f := BsonSearch.FirstField(v.top.fields, key);
            ExtractValue(v, key, AskPatterns(ask) + rest, y) ==
            if f.Some? && Meets(f.value, ask) then Extract(v, rest, y + Yields(f.value, ask)) else Mismatch
    decreases ask, 0
  {
    hide Extract, ExtractValue, BsonSearch.FirstField, MeetsNamed, MeetsElements;
    match ask
    case Single(want) => ExtractPlace(v, key, want, rest, y);
    case InDocument(named) => ExtractDocument(v, key, named, rest, y);
    case InArray(asks) => ExtractArray(v, key, asks, rest, y);
  }

  lemma {:induction false} ExtractDocument(v: Views, key: string, named: seq<NamedAsk>, rest: seq<Pattern>,
                                           y: seq<Value>)
    requires v.Views? && ProperNamed(named) && Depth(v) + 1 + NamedFrames(named) <= BCON_STACK_MAX
    ensures var f := BsonSearch.FirstField(v.top.fields, key);
            ExtractValue(v, key, AskPatterns(InDocument(named)) + rest, y) ==
            if f.Some? && f.value.Document? && MeetsNamed(f.value.fields, named)
            then Extract(v, rest, y + YieldsNamed(f.value.fields, named)) else Mismatch
    decreases named, 2
  {
    hide Extract, BsonSearch.FirstField;
    var f, ps := BsonSearch.FirstField(v.top.fields, key), AskPatterns(InDocument(named)) + rest;
    assert ps[1..] == NamedPatterns(named) + ([KeyMark("}")] + rest);
    if f.Some? && f.value.Document? {
      var fs := f.value.fields;
      ExtractAllNamed(Views(View(false, 0, fs), v), named, [KeyMark("}")] + rest, y);
      if MeetsNamed(fs, named) {
        LeavesDoc(v, fs, rest, y + YieldsNamed(fs, named));
      }
    }
  }

  lemma {:induction false} ExtractArray(v: Views, key: string, asks: seq<Ask>, rest: seq<Pattern>, y: seq<Value>)
    requires v.Views? && ProperElements(asks) && Depth(v) + 1 + ElementFrames(asks) <= BCON_STACK_MAX
    ensures var f := BsonSearch.FirstField(v.top.fields, key);
            ExtractValue(v, key, AskPatterns(InArray(asks)) + rest, y) ==
            if f.Some? && f.value.Array? && MeetsElements(f.value.fields, asks, 0)
            then Extract(v, rest, y + YieldsElements(f.value.fields, asks, 0)) else Mismatch
    decreases asks, 2
  {
    hide Extract, BsonSearch.FirstField;
    var f, ps := BsonSearch.FirstField(v.top.fields, key), AskPatterns(InArray(asks)) + rest;
    assert ps[1..] == ElementPatterns(asks) + ([KeyMark("]")] + rest);
    if f.Some? && f.value.Array? {
      var fs := f.value.fields;
      ExtractElements(Views(View(true, 0, fs), v), asks, [KeyMark("]")] + rest, y);
      if MeetsElements(fs, asks, 0) {
        LeavesArray(v, fs, |asks|, rest, y + YieldsElements(fs, asks, 0));
      }
    }
  }

  lemma {:induction false} ExtractName(v: Views, n: NamedAsk, rest: seq<Pattern>, y: seq<Value>)
    requires v.Views? && !v.top.isArray && ProperName(n) && Depth(v) + NameFrames(n) <= BCON_STACK_MAX
    ensures Extract(v, NamedPattern(n) + rest, y) ==
            if MeetsName(v.top.fields, n) then Extract(v, rest, y + YieldsName(v.top.fields, n)) else Mismatch
    decreases n
  {
    hide ExtractValue, BsonSearch.FirstField, Meets;
    NameIsKey(n.key);
    assert NamedPattern(n) + rest == [KeyMark(n.key)] + (AskPatterns(n.ask) + rest);
    assert ([KeyMark(n.key)] + (AskPatterns(n.ask) + rest))[1..] == AskPatterns(n.ask) + rest;
    ExtractAsk(v, n.key, n.ask, rest, y);
  }

  lemma {:induction false} ExtractAllNamed(v: Views, named: seq<NamedAsk>, rest: seq<Pattern>, y: seq<Value>)
    requires v.Views? && !v.top.isArray && ProperNamed(named) && Depth(v) + NamedFrames(named) <= BCON_STACK_MAX
    ensures Extract(v, NamedPatterns(named) + rest, y) ==
            if MeetsNamed(v.top.fields, named) then Extract(v, rest, y + YieldsNamed(v.top.fields, named)) else Mismatch
    decreases named, 0
  {
    hide Extract, NamedPattern, MeetsName, ProperName, NameFrames;
    if named == [] {
      assert NamedPatterns(named) + rest == rest && y + [] == y;
    } else {
      var more := NamedPatterns(named[1..]) + rest;
      assert NamedPatterns(named) + rest == NamedPattern(named[0]) + more;
      ExtractName(v, named[0], more, y);
      if MeetsName(v.top.fields, named[0]) {
        var first := YieldsName(v.top.fields, named[0]);
        ExtractAllNamed(v, named[1..], rest, y + first);
        if MeetsNamed(v.top.fields, named[1..]) {
          assert y + first + YieldsNamed(v.top.fields, named[1..]) == y + YieldsNamed(v.top.fields, named);
        }
      }
    }
  }

  lemma {:induction false} ExtractElement(v: Views, ask: Ask, rest: seq<Pattern>, y: seq<Value>)
    requires v.Views? && v.top.isArray && ProperAsk(ask) && Depth(v) + Frames(ask) <= BCON_STACK_MAX
    ensures var fs, i := v.top.fields, v.top.next;
            Extract(v, AskPatterns(ask) + rest, y) ==
            if MeetsElement(fs, ask, i) then Extract(Advance(v, 1), rest, y + YieldsElement(fs, ask, i)) else Mismatch
    decreases ask, 1
  {
    hide Extract, ExtractValue, Meets, ProperAsk, Frames, IndexKey, AskPatterns;
    TakesIndex(v, AskPatterns(ask) + rest, y);
    ExtractAsk(Advance(v, 1), IndexKey(v.top.next), ask, rest, y);
  }

  lemma {:induction false} ExtractElements(v: Views, asks: seq<Ask>, rest: seq<Pattern>, y: seq<Value>)
    requires v.Views? && v.top.isArray && ProperElements(asks) && Depth(v) + ElementFrames(asks) <= BCON_STACK_MAX
    ensures var fs, i := v.top.fields, v.top.next;
            Extract(v, ElementPatterns(asks) + rest, y) ==
            if MeetsElements(fs, asks, i) then Extract(Advance(v, |asks|), rest, y + YieldsElements(fs, asks, i))
            else Mismatch
    decreases asks, 0
  {
    hide Extract, MeetsElement, ProperAsk, Frames, Depth, AskPatterns;
    var fs, i := v.top.fields, v.top.next;
    if asks == [] {
      AdvanceNone(v);
      assert ElementPatterns(asks) + rest == rest && y + [] == y;
    } else {
      var more := ElementPatterns(asks[1..]) + rest;
      assert ElementPatterns(asks) + rest == AskPatterns(asks[0]) + more;
      ExtractElement(v, asks[0], more, y);
      if MeetsElement(fs, asks[0], i) {
        var first := YieldsElement(fs, asks[0], i);
        SameDepth(v);
        ExtractElements(Advance(v, 1), asks[1..], rest, y + first);
        if MeetsElements(fs, asks[1..], i + 1) {
          assert y + first + YieldsElements(fs, asks[1..], i + 1) == y + YieldsElements(fs, asks, i);
        }
      }
    }
  }

  lemma SameDepth(v: Views)
    requires v.Views?
    ensures Depth(Advance(v, 1)) == Depth(v)
  {
  }

  lemma TakesIndex(v: Views, ps: seq<Pattern>, y: seq<Value>)
    requires v.Views? && v.top.isArray && ps != []
    ensures Extract(v, ps, y) == ExtractValue(Advance(v, 1), IndexKey(v.top.next), ps, y)
    ensures Depth(Advance(v, 1)) == Depth(v)
  {
    hide ExtractValue;
    SameDepth(v);
  }

  /**
   Extraction from any document with any pattern of at most 100 frames: it matches exactly when each name and
   index asked for is there, each place finds a value of its type and each bracket a document or array; and
   then it yields the values asked for, in order.
   */
  lemma ExtractionIff(fs: seq<Field>, named: seq<NamedAsk>)
    requires ProperNamed(named) && 1 + NamedFrames(named) <= 100
    ensures Extract(Viewing(fs), NamedPatterns(named) + [Terminator], []) ==
            if MeetsNamed(fs, named) then Matched(YieldsNamed(fs, named), Viewing(fs)) else Mismatch
  {
    ExtractAllNamed(Viewing(fs), named, [Terminator], []);
    if MeetsNamed(fs, named) {
      assert [] + YieldsNamed(fs, named) == YieldsNamed(fs, named);
    }
  }

  // Arguments out of place.

  lemma TwoArgs<T>(a: T, b: T, rest: seq<T>)
    ensures ([a] + rest)[0] == a && ([a] + rest)[1..] == rest
    ensures ([a, b] + rest)[0] == a && ([a, b] + rest)[1..] == [b] + rest
    ensures ([b] + rest)[0] == b && ([b] + rest)[1..] == rest
  {
    assert ([a, b] + rest)[1..] == [b] + rest;
  }

  /**
   The builder asserts: an array ends with its own bracket, a name is followed by a value, the document itself is
   not closed, and no more than 100 frames are open.
   */
  lemma BuilderRefuses(d: Building, key: string, bad: Arg, rest: seq<Arg>)
    requires d.stack.Open? && IsName(key)
    ensures d.stack.top.isArray && (bad == Last || bad == Mark("}")) ==> Append(d, [bad] + rest) == Aborted
    ensures !d.stack.top.isArray && (bad == Mark("{") || bad == Mark("[") || bad == Mark("]")) ==>
              Append(d, [bad] + rest) == Aborted
    ensures !d.stack.top.isArray && (bad == Last || bad == Mark("]")) ==>
              Append(d, [Mark(key), bad] + rest) == Aborted
    ensures !d.stack.top.isArray && d.stack.outer.Bottom? ==> Append(d, [Mark("}")] + rest) == Aborted
    ensures Height(d.stack) >= 100 && (bad == Mark("{") || bad == Mark("[")) ==>
              Append(d, (if d.stack.top.isArray then [bad] else [Mark(key), bad]) + rest) == Aborted
    ensures Append(d, []) == Starved
  {
    hide IndexKey, AddFields;
    TwoArgs(Mark(key), bad, rest);
    TwoArgs(Mark("}"), bad, rest);
    BareStrings(key);
  }

  /** So does the extractor. */
  lemma ExtractorRefuses(v: Views, key: string, bad: Pattern, rest: seq<Pattern>, y: seq<Value>)
    requires v.Views? && IsName(key)
    ensures v.top.isArray && (bad == Terminator || bad == KeyMark("}")) ==> Extract(v, [bad] + rest, y) == Broken
    ensures !v.top.isArray && (bad == KeyMark("{") || bad == KeyMark("[") || bad == KeyMark("]")) ==>
              Extract(v, [bad] + rest, y) == Broken
    ensures !v.top.isArray && (bad == Terminator || bad == KeyMark("]")) ==>
              Extract(v, [KeyMark(key), bad] + rest, y) == Broken
    ensures !v.top.isArray && v.outer.NoViews? ==> Extract(v, [KeyMark("}")] + rest, y) == Broken
    ensures Extract(v, [], y) == Broken
  {
    hide IndexKey, BsonSearch.FirstField;
    TwoArgs(KeyMark(key), bad, rest);
    TwoArgs(KeyMark("}"), bad, rest);
    BareStrings(key);
  }
}
