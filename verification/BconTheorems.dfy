/**
 Building and extracting are inverse: from the document built for a tree, the pattern of the
 same shape yields every leaf, and both machines end at the frame they started from.
 */
module BconTheorems {
  import opened Bcon
  import opened Bson
  import opened BsonBuilding
  import opened Words
  import BsonBytes

  datatype Item = Leaf(value: Value) | Doc(entries: seq<Entry>) | Arr(parts: seq<Part>)

  /** A member of a document: a named item, or the fields of a document that is spliced in. */
  datatype Entry = Named(key: string, item: Item) | Merged(fields: seq<Field>)

  /** Elements of an array: one item, or the values of a document that is spliced in. */
  datatype Part = One(item: Item) | Several(fields: seq<Field>)

  // The arguments of a tree, what they build, and the pattern that reads it.

  function ArgsOf(item: Item): (args: seq<Arg>)
    ensures args != []
  {
    match item
    case Leaf(v) => [Typed(v)]
    case Doc(entries) => [Mark("{")] + EntryArgs(entries) + [Mark("}")]
    case Arr(parts) => [Mark("[")] + PartArgs(parts) + [Mark("]")]
  }

  function EntryArg(e: Entry): seq<Arg>
  {
    match e case Named(key, item) => [Mark(key)] + ArgsOf(item) case Merged(fs) => [Spliced(fs)]
  }

  function EntryArgs(entries: seq<Entry>): seq<Arg>
  {
    if entries == [] then [] else EntryArg(entries[0]) + EntryArgs(entries[1..])
  }

  function PartArg(p: Part): seq<Arg>
  {
    match p case One(item) => ArgsOf(item) case Several(fs) => [Spliced(fs)]
  }

  function PartArgs(parts: seq<Part>): seq<Arg>
  {
    if parts == [] then [] else PartArg(parts[0]) + PartArgs(parts[1..])
  }

  function Built(item: Item): Value
  {
    match item
    case Leaf(v) => v
    case Doc(entries) => Document(BuiltEntries(entries))
    case Arr(parts) => Array(BuiltParts(parts, 0))
  }

  function BuiltEntry(e: Entry): seq<Field>
  {
    match e case Named(key, item) => [Field(key, Built(item))] case Merged(fs) => fs
  }

  function BuiltEntries(entries: seq<Entry>): seq<Field>
  {
    if entries == [] then [] else BuiltEntry(entries[0]) + BuiltEntries(entries[1..])
  }

  /** How many elements a part makes. */
  function Elements(p: Part): nat
  {
    match p case One(_) => 1 case Several(fs) => |fs|
  }

  function TotalElements(parts: seq<Part>): nat
  {
    if parts == [] then 0 else Elements(parts[0]) + TotalElements(parts[1..])
  }

  function BuiltPart(p: Part, i: nat): seq<Field>
    decreases p
  {
    match p case One(item) => [Field(IndexKey(i), Built(item))] case Several(fs) => Renumbered(fs, i)
  }

  function BuiltParts(parts: seq<Part>, i: nat): seq<Field>
    decreases parts
  {
    if parts == [] then [] else BuiltPart(parts[0], i) + BuiltParts(parts[1..], i + Elements(parts[0]))
  }

  function Levels(item: Item): nat
  {
    match item
    case Leaf(_) => 0
    case Doc(entries) => 1 + EntryLevels(entries)
    case Arr(parts) => 1 + PartLevels(parts)
  }

  function EntryLevel(e: Entry): nat
  {
    match e case Named(_, item) => Levels(item) case Merged(_) => 0
  }

  function EntryLevels(entries: seq<Entry>): nat
  {
    if entries == [] then 0 else Max(EntryLevel(entries[0]), EntryLevels(entries[1..]))
  }

  function PartLevel(p: Part): nat
  {
    match p case One(item) => Levels(item) case Several(_) => 0
  }

  function PartLevels(parts: seq<Part>): nat
  {
    if parts == [] then 0 else Max(PartLevel(parts[0]), PartLevels(parts[1..]))
  }

  /** A key that the tokenizers take for a key. */
  predicate IsKey(s: string) { Bracket(s).None? }

  predicate GoodItem(item: Item)
  {
    match item
    case Leaf(_) => true
    case Doc(entries) => GoodEntries(entries)
    case Arr(parts) => GoodParts(parts)
  }

  predicate GoodEntry(e: Entry)
  {
    match e case Named(key, item) => IsKey(key) && GoodItem(item) case Merged(_) => true
  }

  predicate GoodEntries(entries: seq<Entry>)
  {
    entries == [] || (GoodEntry(entries[0]) && GoodEntries(entries[1..]))
  }

  predicate GoodPart(p: Part)
  {
    match p case One(item) => GoodItem(item) case Several(_) => true
  }

  predicate GoodParts(parts: seq<Part>)
  {
    parts == [] || (GoodPart(parts[0]) && GoodParts(parts[1..]))
  }

  // Building.

  lemma RenumberedLength(fs: seq<Field>, i: nat)
    ensures |Renumbered(fs, i)| == |fs|
    ensures forall k :: 0 <= k < |fs| ==> Renumbered(fs, i)[k] == Field(IndexKey(i + k), fs[k].value)
  {
    if fs != [] {
      RenumberedLength(fs[1..], i + 1);
    }
  }

  /** Nothing is added by an index that is used and given back. */
  lemma SpliceParts(d: Building, fs: seq<Field>)
    requires d.stack.Open? && d.stack.top.isArray
    ensures AppendValue(Skip(d, 1), IndexKey(d.stack.top.next), SpliceToken(fs))
            == Some(AddFields(Skip(d, |fs|), Renumbered(fs, d.stack.top.next)))
  {
    hide Renumbered, AddFields, IndexKey;
    assert WithNext(Skip(d, 1), d.stack.top.next + |fs|) == Skip(d, |fs|);
  }

  lemma PushedLevel(d: Building, isArray: bool, key: string)
    requires d.stack.Open? && Height(d.stack) < BCON_STACK_MAX
    ensures Pushed(d, isArray, key) == Some(OpenLevel(d, isArray, key))
    ensures Height(OpenLevel(d, isArray, key).stack) == Height(d.stack) + 1
  {
  }

  lemma OpenedLevel(d: Building, isArray: bool, key: string)
    ensures var e := OpenLevel(d, isArray, key);
            e.stack.Open? && e.stack.top.isArray == isArray && e.stack.top.next == 0
  {
  }

  /** Closing the level that was opened makes one field of what was added to it. */
  lemma ClosedLevel(d: Building, isArray: bool, key: string, n: nat, fs: seq<Field>)
    requires d.stack.Open?
    ensures Popped(AddFields(Skip(OpenLevel(d, isArray, key), n), fs), isArray)
            == Some(AddFields(d, [Field(key, Container(isArray, fs))]))
  {
    assert [] + fs == fs;
  }

  lemma HeightKept(d: Building, n: nat, fs: seq<Field>)
    requires d.stack.Open?
    ensures var e := AddFields(Skip(d, n), fs);
            e.stack.Open? && Height(e.stack) == Height(d.stack) && e.stack.top.isArray == d.stack.top.isArray
            && (d.stack.top.isArray ==> e.stack.top.next == d.stack.top.next + n)
  {
  }

  lemma {:induction false} AppendItem(d: Building, key: string, item: Item, rest: seq<Arg>)
    requires d.stack.Open? && GoodItem(item) && Height(d.stack) + Levels(item) <= BCON_STACK_MAX
    ensures AppendNext(d, key, ArgsOf(item) + rest) == Append(AddFields(d, [Field(key, Built(item))]), rest)
    decreases item
  {
    hide Append, AddFields, Skip, OpenLevel, Popped;
    var args := ArgsOf(item) + rest;
    match item
    case Leaf(v) =>
      assert args[1..] == rest;
    case Doc(entries) =>
      PushedLevel(d, false, key);
      OpenedLevel(d, false, key);
      var d1 := OpenLevel(d, false, key);
      assert args[1..] == EntryArgs(entries) + ([Mark("}")] + rest);
      AppendEntries(d1, entries, [Mark("}")] + rest);
      ClosesDoc(d, key, BuiltEntries(entries), rest);
    case Arr(parts) =>
      PushedLevel(d, true, key);
      OpenedLevel(d, true, key);
      var d1 := OpenLevel(d, true, key);
      assert args[1..] == PartArgs(parts) + ([Mark("]")] + rest);
      AppendParts(d1, parts, [Mark("]")] + rest);
      ClosesArray(d, key, TotalElements(parts), BuiltParts(parts, 0), rest);
  }

  lemma ClosesDoc(d: Building, key: string, fs: seq<Field>, rest: seq<Arg>)
    requires d.stack.Open?
    ensures var e := AddFields(Skip(OpenLevel(d, false, key), 0), fs);
            Append(e, [Mark("}")] + rest) == Append(AddFields(d, [Field(key, Document(fs))]), rest)
  {
    hide AddFields, Popped;
    ClosedLevel(d, false, key, 0, fs);
    HeightKept(OpenLevel(d, false, key), 0, fs);
    assert ([Mark("}")] + rest)[1..] == rest;
  }

  lemma ClosesArray(d: Building, key: string, n: nat, fs: seq<Field>, rest: seq<Arg>)
    requires d.stack.Open?
    ensures var e := AddFields(Skip(OpenLevel(d, true, key), n), fs);
            Append(e, [Mark("]")] + rest) == Append(AddFields(d, [Field(key, Array(fs))]), rest)
  {
    var e := AddFields(Skip(OpenLevel(d, true, key), n), fs);
    assert Skip(e, 1) == AddFields(Skip(OpenLevel(d, true, key), n + 1), fs);
    hide AddFields, Popped;
    ClosedLevel(d, true, key, n + 1, fs);
    HeightKept(OpenLevel(d, true, key), n, fs);
    assert ([Mark("]")] + rest)[1..] == rest;
  }

  lemma {:induction false} AppendEntries(d: Building, entries: seq<Entry>, rest: seq<Arg>)
    requires d.stack.Open? && !d.stack.top.isArray && GoodEntries(entries)
    requires Height(d.stack) + EntryLevels(entries) <= BCON_STACK_MAX
    ensures Append(d, EntryArgs(entries) + rest) == Append(AddFields(Skip(d, 0), BuiltEntries(entries)), rest)
    decreases entries
  {
    hide Append, AddFields;
    if entries == [] {
      AddNothing(d);
      assert EntryArgs(entries) + rest == rest;
    } else {
      var more := EntryArgs(entries[1..]) + rest;
      var fs := BuiltEntry(entries[0]);
      assert EntryArgs(entries) + rest == EntryArg(entries[0]) + more;
      AppendEntry(d, entries[0], more);
      HeightKept(d, 0, fs);
      AppendEntries(AddFields(Skip(d, 0), fs), entries[1..], rest);
      AddTwice(d, 0, fs, 0, BuiltEntries(entries[1..]));
    }
  }

  lemma {:induction false} AppendEntry(d: Building, e: Entry, rest: seq<Arg>)
    requires d.stack.Open? && !d.stack.top.isArray && GoodEntry(e) && Height(d.stack) + EntryLevel(e) <= BCON_STACK_MAX
    ensures Append(d, EntryArg(e) + rest) == Append(AddFields(Skip(d, 0), BuiltEntry(e)), rest)
    decreases e
  {
    hide AddFields, AppendNext;
    match e
    case Named(key, item) =>
      assert EntryArg(e) + rest == [Mark(key)] + (ArgsOf(item) + rest);
      assert ([Mark(key)] + (ArgsOf(item) + rest))[1..] == ArgsOf(item) + rest;
      AppendItem(d, key, item, rest);
    case Merged(fs) =>
      assert ([Spliced(fs)] + rest)[1..] == rest;
  }

  lemma {:induction false} AppendParts(d: Building, parts: seq<Part>, rest: seq<Arg>)
    requires d.stack.Open? && d.stack.top.isArray && GoodParts(parts)
    requires Height(d.stack) + PartLevels(parts) <= BCON_STACK_MAX
    ensures Append(d, PartArgs(parts) + rest)
            == Append(AddFields(Skip(d, TotalElements(parts)), BuiltParts(parts, d.stack.top.next)), rest)
    decreases parts
  {
    hide Append, AddFields, Skip;
    if parts == [] {
      AddNothing(d);
      assert PartArgs(parts) + rest == rest;
    } else {
      var more := PartArgs(parts[1..]) + rest;
      var i, n := d.stack.top.next, Elements(parts[0]);
      var fs := BuiltPart(parts[0], i);
      assert PartArgs(parts) + rest == PartArg(parts[0]) + more;
      AppendPart(d, parts[0], more);
      SkipKeeps(d, n);
      HeightKept(d, n, fs);
      AppendParts(AddFields(Skip(d, n), fs), parts[1..], rest);
      AddTwice(d, n, fs, TotalElements(parts[1..]), BuiltParts(parts[1..], i + n));
    }
  }

  lemma {:induction false} AppendPart(d: Building, p: Part, rest: seq<Arg>)
    requires d.stack.Open? && d.stack.top.isArray && GoodPart(p) && Height(d.stack) + PartLevel(p) <= BCON_STACK_MAX
    ensures Append(d, PartArg(p) + rest)
            == Append(AddFields(Skip(d, Elements(p)), BuiltPart(p, d.stack.top.next)), rest)
    decreases p
  {
    hide AddFields, AppendNext, AppendValue;
    SkipKeeps(d, 1);
    match p
    case One(item) => AppendItem(Skip(d, 1), IndexKey(d.stack.top.next), item, rest);
    case Several(fs) => AppendSplice(d, fs, rest);
  }

  lemma SkipKeeps(d: Building, n: nat)
    requires d.stack.Open?
    ensures Skip(d, n).stack.Open? && Height(Skip(d, n).stack) == Height(d.stack)
  {
  }

  lemma AppendSplice(d: Building, fs: seq<Field>, rest: seq<Arg>)
    requires d.stack.Open? && d.stack.top.isArray
    ensures Append(d, [Spliced(fs)] + rest) == Append(AddFields(Skip(d, |fs|), Renumbered(fs, d.stack.top.next)), rest)
  {
    hide AppendValue, AddFields, Renumbered, IndexKey, Skip;
    SpliceParts(d, fs);
    SkipKeeps(d, 1);
    assert ([Spliced(fs)] + rest)[1..] == rest;
  }

  /** The builder makes the fields of the tree and ends at the frame it started from. */
  lemma BuildingIsRecursion(target: seq<Field>, entries: seq<Entry>)
    requires GoodEntries(entries) && 1 + EntryLevels(entries) <= 100
    ensures Append(Beginning(target), EntryArgs(entries) + [Last])
            == Finished(Beginning(target + BuiltEntries(entries)))
  {
    AppendEntries(Beginning(target), entries, [Last]);
  }

  /** Splicing keeps the indexes of an array consecutive. */
  lemma {:induction false} IndexesAreConsecutive(parts: seq<Part>, i: nat)
    ensures |BuiltParts(parts, i)| == TotalElements(parts)
    ensures forall k :: 0 <= k < TotalElements(parts) ==> BuiltParts(parts, i)[k].key == IndexKey(i + k)
    decreases parts
  {
    hide IndexKey, Renumbered, Built;
    if parts != [] {
      var n, first, rest := Elements(parts[0]), BuiltPart(parts[0], i), BuiltParts(parts[1..], i + Elements(parts[0]));
      if parts[0].Several? {
        RenumberedLength(parts[0].fields, i);
      }
      IndexesAreConsecutive(parts[1..], i + n);
      assert forall k :: n <= k < TotalElements(parts) ==> (first + rest)[k] == rest[k - n];
    }
  }

  // Extracting.

  /** A place for values of the type of v. */
  function PlaceFor(v: Value): Pattern { Place(OfType(BsonBytes.TypeCode(v))) }

  /** What a place for v stores: nothing for the values that are alone in their type. */
  function Stored(v: Value): seq<Value>
  {
    if v.Null? || v.Undefined? || v.MinKey? || v.MaxKey? then [] else [v]
  }

  function PatternsOf(item: Item): (ps: seq<Pattern>)
    ensures ps != []
  {
    match item
    case Leaf(v) => [PlaceFor(v)]
    case Doc(entries) => [KeyMark("{")] + EntryPatterns(entries) + [KeyMark("}")]
    case Arr(parts) => [KeyMark("[")] + PartPatterns(parts) + [KeyMark("]")]
  }

  function EntryPattern(e: Entry): seq<Pattern>
  {
    match e case Named(key, item) => [KeyMark(key)] + PatternsOf(item) case Merged(fs) => FieldPatterns(fs)
  }

  function FieldPatterns(fs: seq<Field>): seq<Pattern>
  {
    if fs == [] then [] else [KeyMark(fs[0].key), PlaceFor(fs[0].value)] + FieldPatterns(fs[1..])
  }

  function EntryPatterns(entries: seq<Entry>): seq<Pattern>
  {
    if entries == [] then [] else EntryPattern(entries[0]) + EntryPatterns(entries[1..])
  }

  function PartPattern(p: Part): seq<Pattern>
  {
    match p case One(item) => PatternsOf(item) case Several(fs) => ValuePatterns(fs)
  }

  function ValuePatterns(fs: seq<Field>): seq<Pattern>
  {
    if fs == [] then [] else [PlaceFor(fs[0].value)] + ValuePatterns(fs[1..])
  }

  function PartPatterns(parts: seq<Part>): seq<Pattern>
  {
    if parts == [] then [] else PartPattern(parts[0]) + PartPatterns(parts[1..])
  }

  function Values(fs: seq<Field>): seq<Value>
  {
    if fs == [] then [] else Stored(fs[0].value) + Values(fs[1..])
  }

  /** The leaves of a tree that carry a value, in order. */
  function Leaves(item: Item): seq<Value>
  {
    match item
    case Leaf(v) => Stored(v)
    case Doc(entries) => EntryLeaves(entries)
    case Arr(parts) => PartLeaves(parts)
  }

  function EntryLeaf(e: Entry): seq<Value>
  {
    match e case Named(_, item) => Leaves(item) case Merged(fs) => Values(fs)
  }

  function EntryLeaves(entries: seq<Entry>): seq<Value>
  {
    if entries == [] then [] else EntryLeaf(entries[0]) + EntryLeaves(entries[1..])
  }

  function PartLeaf(p: Part): seq<Value>
  {
    match p case One(item) => Leaves(item) case Several(fs) => Values(fs)
  }

  function PartLeaves(parts: seq<Part>): seq<Value>
  {
    if parts == [] then [] else PartLeaf(parts[0]) + PartLeaves(parts[1..])
  }

  predicate Distinct(fs: seq<Field>)
  {
    forall j, k :: 0 <= j < k < |fs| ==> fs[j].key != fs[k].key
  }

  /** No document of the tree has two fields of one name, and every name is a key. */
  predicate Unambiguous(item: Item)
  {
    match item
    case Leaf(_) => true
    case Doc(entries) => Distinct(BuiltEntries(entries)) && UnambiguousEntries(entries)
    case Arr(parts) => UnambiguousParts(parts)
  }

  predicate UnambiguousEntry(e: Entry)
  {
    match e
    case Named(key, item) => IsKey(key) && Unambiguous(item)
    case Merged(fs) => forall k :: 0 <= k < |fs| ==> IsKey(fs[k].key)
  }

  predicate UnambiguousEntries(entries: seq<Entry>)
  {
    entries == [] || (UnambiguousEntry(entries[0]) && UnambiguousEntries(entries[1..]))
  }

  predicate UnambiguousPart(p: Part)
  {
    match p case One(item) => Unambiguous(item) case Several(_) => true
  }

  predicate UnambiguousParts(parts: seq<Part>)
  {
    parts == [] || (UnambiguousPart(parts[0]) && UnambiguousParts(parts[1..]))
  }

  lemma {:induction false} UnambiguousIsGood(entries: seq<Entry>)
    requires UnambiguousEntries(entries)
    ensures GoodEntries(entries)
    decreases entries, 0
  {
    if entries != [] {
      if entries[0].Named? {
        UnambiguousItemIsGood(entries[0].item);
      }
      UnambiguousIsGood(entries[1..]);
    }
  }

  lemma {:induction false} UnambiguousItemIsGood(item: Item)
    requires Unambiguous(item)
    ensures GoodItem(item)
    decreases item, 0
  {
    match item
    case Leaf(_) =>
    case Doc(entries) => UnambiguousIsGood(entries);
    case Arr(parts) => UnambiguousPartsAreGood(parts);
  }

  lemma {:induction false} UnambiguousPartsAreGood(parts: seq<Part>)
    requires UnambiguousParts(parts)
    ensures GoodParts(parts)
    decreases parts, 0
  {
    if parts != [] {
      UnambiguousPartIsGood(parts[0]);
      UnambiguousPartsAreGood(parts[1..]);
    }
  }

  lemma {:induction false} UnambiguousPartIsGood(p: Part)
    requires UnambiguousPart(p)
    ensures GoodPart(p)
    decreases p, 0
  {
    if p.One? {
      UnambiguousItemIsGood(p.item);
    }
  }

  lemma FoundAt(fs: seq<Field>, k: nat)
    requires Distinct(fs) && k < |fs|
    ensures Lookup(fs, fs[k].key) == Some(fs[k].value)
  {
    assert forall j :: 0 <= j < k ==> fs[j].key != fs[k].key;
  }

  lemma IndexedDistinct(fs: seq<Field>)
    requires forall k :: 0 <= k < |fs| ==> fs[k].key == IndexKey(k)
    ensures Distinct(fs)
  {
    forall j, k | 0 <= j < k < |fs| ensures fs[j].key != fs[k].key {
      if fs[j].key == fs[k].key {
        IndexKeyInjective(j, k);
      }
    }
  }

  /** A place takes the value it was made for. */
  lemma ExtractLeaf(v: Views, key: string, value: Value, rest: seq<Pattern>, y: seq<Value>)
    requires v.Views? && Lookup(v.top.fields, key) == Some(value)
    ensures ExtractValue(v, key, [PlaceFor(value)] + rest, y) == Extract(v, rest, y + Stored(value))
  {
    hide Extract, Lookup;
    assert ([PlaceFor(value)] + rest)[1..] == rest;
  }

  lemma {:induction false} ExtractItem(v: Views, key: string, item: Item, rest: seq<Pattern>, y: seq<Value>)
    requires v.Views? && Unambiguous(item) && Depth(v) + Levels(item) <= BCON_STACK_MAX
    requires Lookup(v.top.fields, key) == Some(Built(item))
    ensures ExtractValue(v, key, PatternsOf(item) + rest, y) == Extract(v, rest, y + Leaves(item))
    decreases item
  {
    hide Extract, Lookup, Distinct, PlaceFor, IndexKey;
    hide BuiltEntries, BuiltParts, EntryPatterns, PartPatterns, EntryLeaves, PartLeaves;
    var ps := PatternsOf(item) + rest;
    match item
    case Leaf(w) => ExtractLeaf(v, key, w, rest, y);
    case Doc(entries) =>
      var fs := BuiltEntries(entries);
      var inner := Views(View(false, 0, fs), v);
      assert ps[1..] == EntryPatterns(entries) + ([KeyMark("}")] + rest);
      ExtractEntries(inner, entries, 0, [KeyMark("}")] + rest, y);
      LeavesDoc(v, fs, rest, y + EntryLeaves(entries));
    case Arr(parts) =>
      var fs := BuiltParts(parts, 0);
      var inner := Views(View(true, 0, fs), v);
      assert ps[1..] == PartPatterns(parts) + ([KeyMark("]")] + rest);
      IndexesAreConsecutive(parts, 0);
      ExtractParts(inner, parts, [KeyMark("]")] + rest, y);
      LeavesArray(v, fs, TotalElements(parts), rest, y + PartLeaves(parts));
  }

  lemma LeavesDoc(v: Views, fs: seq<Field>, rest: seq<Pattern>, y: seq<Value>)
    requires v.Views?
    ensures Extract(Views(View(false, 0, fs), v), [KeyMark("}")] + rest, y) == Extract(v, rest, y)
  {
    assert ([KeyMark("}")] + rest)[1..] == rest;
  }

  lemma LeavesArray(v: Views, fs: seq<Field>, n: nat, rest: seq<Pattern>, y: seq<Value>)
    requires v.Views?
    ensures Extract(Views(View(true, n, fs), v), [KeyMark("]")] + rest, y) == Extract(v, rest, y)
  {
    assert ([KeyMark("]")] + rest)[1..] == rest;
  }

  lemma {:induction false} ExtractEntries(v: Views, entries: seq<Entry>, pos: nat, rest: seq<Pattern>, y: seq<Value>)
    requires v.Views? && !v.top.isArray && UnambiguousEntries(entries)
             && Depth(v) + EntryLevels(entries) <= BCON_STACK_MAX
    requires Distinct(v.top.fields) && pos <= |v.top.fields| && v.top.fields[pos..] == BuiltEntries(entries)
    ensures Extract(v, EntryPatterns(entries) + rest, y) == Extract(v, rest, y + EntryLeaves(entries))
    decreases entries
  {
    hide Extract, Distinct, EntryPattern, EntryLeaf, UnambiguousEntry, EntryLevel, BuiltEntry;
    if entries == [] {
      assert EntryPatterns(entries) + rest == rest && y + EntryLeaves(entries) == y;
    } else {
      var more := EntryPatterns(entries[1..]) + rest;
      var n := |BuiltEntry(entries[0])|;
      assert EntryPatterns(entries) + rest == EntryPattern(entries[0]) + more;
      assert v.top.fields[pos..][..n] == v.top.fields[pos..pos + n]
             && v.top.fields[pos..][n..] == v.top.fields[pos + n..];
      ExtractEntry(v, entries[0], pos, more, y);
      ExtractEntries(v, entries[1..], pos + n, rest, y + EntryLeaf(entries[0]));
      assert y + EntryLeaf(entries[0]) + EntryLeaves(entries[1..]) == y + EntryLeaves(entries);
    }
  }

  lemma {:induction false} ExtractEntry(v: Views, e: Entry, pos: nat, rest: seq<Pattern>, y: seq<Value>)
    requires v.Views? && !v.top.isArray && UnambiguousEntry(e) && Depth(v) + EntryLevel(e) <= BCON_STACK_MAX
    requires Distinct(v.top.fields) && pos + |BuiltEntry(e)| <= |v.top.fields|
    requires v.top.fields[pos..pos + |BuiltEntry(e)|] == BuiltEntry(e)
    ensures Extract(v, EntryPattern(e) + rest, y) == Extract(v, rest, y + EntryLeaf(e))
    decreases e
  {
    hide ExtractValue, Lookup, Distinct;
    match e
    case Named(key, item) =>
      assert v.top.fields[pos] == v.top.fields[pos..pos + 1][0];
      FoundAt(v.top.fields, pos);
      assert EntryPattern(e) + rest == [KeyMark(key)] + (PatternsOf(item) + rest);
      assert ([KeyMark(key)] + (PatternsOf(item) + rest))[1..] == PatternsOf(item) + rest;
      ExtractItem(v, key, item, rest, y);
    case Merged(fs) => ExtractMerged(v, fs, pos, rest, y);
  }

  lemma FirstFieldPattern(fs: seq<Field>, rest: seq<Pattern>)
    requires fs != []
    ensures FieldPatterns(fs) + rest ==
            [KeyMark(fs[0].key)] + ([PlaceFor(fs[0].value)] + (FieldPatterns(fs[1..]) + rest))
  {
    hide PlaceFor;
  }

  /** A key and the place for its value. */
  lemma ExtractNamed(v: Views, f: Field, rest: seq<Pattern>, y: seq<Value>)
    requires v.Views? && !v.top.isArray && IsKey(f.key) && Lookup(v.top.fields, f.key) == Some(f.value)
    ensures Extract(v, [KeyMark(f.key)] + ([PlaceFor(f.value)] + rest), y) == Extract(v, rest, y + Stored(f.value))
  {
    hide ExtractValue, Lookup, PlaceFor, Stored;
    assert ([KeyMark(f.key)] + ([PlaceFor(f.value)] + rest))[1..] == [PlaceFor(f.value)] + rest;
    ExtractLeaf(v, f.key, f.value, rest, y);
  }

  lemma MergedNothing(rest: seq<Pattern>, y: seq<Value>)
    ensures FieldPatterns([]) + rest == rest && y + Values([]) == y
  {
  }

  lemma ValuesStep(fs: seq<Field>, y: seq<Value>)
    requires fs != []
    ensures y + Values(fs) == y + Stored(fs[0].value) + Values(fs[1..])
  {
    hide Stored;
  }

  /** A slice of fields: its first one, and the slice of the others. */
  lemma SliceStep(all: seq<Field>, pos: nat, fs: seq<Field>)
    requires fs != [] && pos + |fs| <= |all| && all[pos..pos + |fs|] == fs
    ensures all[pos] == fs[0] && all[pos + 1..pos + |fs|] == fs[1..]
  {
    assert all[pos] == all[pos..pos + |fs|][0];
    assert all[pos + 1..pos + |fs|] == all[pos..pos + |fs|][1..];
  }

  lemma {:induction false} ExtractMerged(v: Views, fs: seq<Field>, pos: nat, rest: seq<Pattern>, y: seq<Value>)
    requires v.Views? && !v.top.isArray && Distinct(v.top.fields) && forall k :: 0 <= k < |fs| ==> IsKey(fs[k].key)
    requires pos + |fs| <= |v.top.fields| && v.top.fields[pos..pos + |fs|] == fs
    ensures Extract(v, FieldPatterns(fs) + rest, y) == Extract(v, rest, y + Values(fs))
    decreases |fs|
  {
    hide Extract, Distinct, PlaceFor, Stored, FieldPatterns, Values, IsKey, Lookup;
    if fs == [] {
      MergedNothing(rest, y);
    } else {
      var more := FieldPatterns(fs[1..]) + rest;
      FirstFieldPattern(fs, rest);
      SliceStep(v.top.fields, pos, fs);
      FoundAt(v.top.fields, pos);
      ExtractNamed(v, fs[0], more, y);
      ExtractMerged(v, fs[1..], pos + 1, rest, y + Stored(fs[0].value));
      ValuesStep(fs, y);
    }
  }

  function Advance(v: Views, n: nat): Views
    requires v.Views?
  {
    v.(top := v.top.(next := v.top.next + n))
  }

  predicate Indexed(v: Views)
    ensures Indexed(v) ==> v.Views?
  {
    v.Views? && v.top.isArray && forall k :: 0 <= k < |v.top.fields| ==> v.top.fields[k].key == IndexKey(k)
  }

  lemma Advances(v: Views, n: nat)
    requires Indexed(v)
    ensures Indexed(Advance(v, n)) && Depth(Advance(v, n)) == Depth(v)
    ensures Advance(v, n).top.next == v.top.next + n && Advance(v, n).top.fields == v.top.fields
    ensures forall m: nat {:trigger Advance(Advance(v, n), m)} :: Advance(Advance(v, n), m) == Advance(v, n + m)
  {
  }

  /** The next element of an array is found under its index. */
  lemma NextElement(v: Views, ps: seq<Pattern>, y: seq<Value>)
    requires Indexed(v) && v.top.next < |v.top.fields| && ps != []
    ensures Extract(v, ps, y) == ExtractValue(Advance(v, 1), IndexKey(v.top.next), ps, y)
    ensures Lookup(v.top.fields, IndexKey(v.top.next)) == Some(v.top.fields[v.top.next].value)
  {
    hide ExtractValue, Lookup;
    IndexedDistinct(v.top.fields);
    FoundAt(v.top.fields, v.top.next);
  }

  lemma {:induction false} ExtractParts(v: Views, parts: seq<Part>, rest: seq<Pattern>, y: seq<Value>)
    requires Indexed(v) && UnambiguousParts(parts) && Depth(v) + PartLevels(parts) <= BCON_STACK_MAX
    requires v.top.next <= |v.top.fields| && v.top.fields[v.top.next..] == BuiltParts(parts, v.top.next)
    ensures Extract(v, PartPatterns(parts) + rest, y) ==
            Extract(Advance(v, TotalElements(parts)), rest, y + PartLeaves(parts))
    decreases parts
  {
    hide Extract, Indexed, Advance, BuiltPart, PartPattern, PartLeaf, UnambiguousPart, PartLevel;
    if parts == [] {
      assert PartPatterns(parts) + rest == rest && y + PartLeaves(parts) == y;
      AdvanceNone(v);
    } else {
      var more := PartPatterns(parts[1..]) + rest;
      var i, n := v.top.next, Elements(parts[0]);
      PartSize(parts[0], i);
      Advances(v, n);
      assert PartPatterns(parts) + rest == PartPattern(parts[0]) + more;
      assert v.top.fields[i..][..n] == v.top.fields[i..i + n] && v.top.fields[i..][n..] == v.top.fields[i + n..];
      ExtractPart(v, parts[0], more, y);
      ExtractParts(Advance(v, n), parts[1..], rest, y + PartLeaf(parts[0]));
      assert y + PartLeaf(parts[0]) + PartLeaves(parts[1..]) == y + PartLeaves(parts);
    }
  }

  lemma {:induction false} ExtractPart(v: Views, p: Part, rest: seq<Pattern>, y: seq<Value>)
    requires Indexed(v) && UnambiguousPart(p) && Depth(v) + PartLevel(p) <= BCON_STACK_MAX
    requires v.top.next + Elements(p) <= |v.top.fields|
    requires v.top.fields[v.top.next..v.top.next + Elements(p)] == BuiltPart(p, v.top.next)
    ensures Extract(v, PartPattern(p) + rest, y) == Extract(Advance(v, Elements(p)), rest, y + PartLeaf(p))
    decreases p
  {
    hide Extract, ExtractValue, Lookup;
    match p
    case One(item) =>
      var i := v.top.next;
      assert v.top.fields[i] == v.top.fields[i..i + 1][0];
      NextElement(v, PartPattern(p) + rest, y);
      ExtractItem(Advance(v, 1), IndexKey(i), item, rest, y);
    case Several(fs) => ExtractSeveral(v, fs, rest, y);
  }

  lemma {:induction false} ExtractSeveral(v: Views, fs: seq<Field>, rest: seq<Pattern>, y: seq<Value>)
    requires Indexed(v) && v.top.next + |fs| <= |v.top.fields|
    requires v.top.fields[v.top.next..v.top.next + |fs|] == Renumbered(fs, v.top.next)
    ensures Extract(v, ValuePatterns(fs) + rest, y) == Extract(Advance(v, |fs|), rest, y + Values(fs))
    decreases |fs|
  {
    hide Extract, ExtractValue, Lookup, IndexKey, PlaceFor, Indexed, Advance, Values, Stored, ValuePatterns, Renumbered;
    if fs == [] {
      SeveralNothing(rest, y);
      AdvanceNone(v);
    } else {
      var more := ValuePatterns(fs[1..]) + rest;
      var i := v.top.next;
      SeveralStep(fs, i, rest);
      SliceStep(v.top.fields, i, Renumbered(fs, i));
      Advances(v, 1);
      NextElement(v, [PlaceFor(fs[0].value)] + more, y);
      ExtractLeaf(Advance(v, 1), IndexKey(i), fs[0].value, more, y);
      ExtractSeveral(Advance(v, 1), fs[1..], rest, y + Stored(fs[0].value));
      ValuesStep(fs, y);
    }
  }

  lemma SeveralNothing(rest: seq<Pattern>, y: seq<Value>)
    ensures ValuePatterns([]) + rest == rest && y + Values([]) == y
  {
  }

  lemma SeveralStep(fs: seq<Field>, i: nat, rest: seq<Pattern>)
    requires fs != []
    ensures ValuePatterns(fs) + rest == [PlaceFor(fs[0].value)] + (ValuePatterns(fs[1..]) + rest)
    ensures |Renumbered(fs, i)| == |fs| && Renumbered(fs, i)[0].value == fs[0].value
    ensures Renumbered(fs, i)[1..] == Renumbered(fs[1..], i + 1)
  {
    hide PlaceFor, IndexKey;
    RenumberedLength(fs, i);
    assert [PlaceFor(fs[0].value)] + ValuePatterns(fs[1..]) + rest ==
           [PlaceFor(fs[0].value)] + (ValuePatterns(fs[1..]) + rest);
  }

  lemma AdvanceNone(v: Views)
    requires v.Views?
    ensures Advance(v, 0) == v
  {
  }

  lemma PartSize(p: Part, i: nat)
    ensures |BuiltPart(p, i)| == Elements(p)
  {
    if p.Several? {
      RenumberedLength(p.fields, i);
    }
  }

  /** The document of a tree, as the extractor starts on it. */
  function Viewing(fs: seq<Field>): Views { Views(View(false, 0, fs), NoViews) }

  /**
   Building a tree and extracting with the pattern of the same shape yields every leaf in order that carries
   a value, and the extractor ends where it started: at frame 0, looking at the whole document.
   */
  lemma BuildThenExtract(entries: seq<Entry>)
    requires UnambiguousEntries(entries) && Distinct(BuiltEntries(entries))
    requires 1 + EntryLevels(entries) <= 100
    ensures var built := Append(Beginning([]), EntryArgs(entries) + [Last]);
            && built.Finished? && built.d.stack == Beginning([]).stack
            && Extract(Viewing(built.d.target), EntryPatterns(entries) + [Terminator], [])
               == Matched(EntryLeaves(entries), Viewing(built.d.target))
  {
    hide Distinct, Append;
    UnambiguousIsGood(entries);
    BuildingIsRecursion([], entries);
    var fs := BuiltEntries(entries);
    assert [] + fs == fs && fs[0..] == fs;
    ExtractEntries(Viewing(fs), entries, 0, [Terminator], []);
    assert [] + EntryLeaves(entries) == EntryLeaves(entries);
  }
}
