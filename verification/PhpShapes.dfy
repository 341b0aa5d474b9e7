/**
 What encoding makes of each PHP value, told by type bytes and contents, and what decoding makes of
 fields whose keys repeat and of fields that have no visitor.
 */
module PhpShapes {
  import opened Bson
  import opened BsonBytes
  import opened Php
  import opened PhpTheorems
  import opened Words

  // The type of every field.

  /** The keys 0, 1, 2 and so on, in order. */
  predicate CountsUp(es: seq<Entry>) { forall k :: 0 <= k < |es| ==> es[k].key.IntKey? && es[k].key.n == k }

  /** A BSON value stands for a PHP value: its type byte, its contents, and its children in order. */
  predicate StandsFor(w: Value, v: Php)
  {
    match v
    case PhpNull => TypeCode(w) == 0x0a
    case PhpBool(b) => TypeCode(w) == 0x08 && w.truth == b
    case PhpInt(n) => NumberOf(w) == Some(n) && Size(w) == (if Narrowest(n) then 4 else 8)
    case PhpFloat(bits) => TypeCode(w) == 0x01 && w.bits == bits
    case PhpString(s) => TypeCode(w) == 0x02 && w.text == s
    case PhpArray(es) =>
      && TypeCode(w) == (if CountsUp(es) then 0x04 else 0x03)
      && StandForAll(w.fields, es)
    case PhpObject(value) => TypeCode(w) == TypeCode(value) && w == Appended(value)
    case PhpOther => false
  }

  predicate StandForAll(fs: seq<Field>, es: seq<Entry>)
  {
    |fs| == |es| && (es == [] || (StandsForEntry(fs[0], es[0]) && StandForAll(fs[1..], es[1..])))
  }

  predicate StandsForEntry(f: Field, e: Entry) { f.key == KeyText(e.key) && StandsFor(f.value, e.value) }

  /** Four bytes are enough. */
  predicate Narrowest(n: Int64) { -0x8000_0000 <= n <= 0x7fff_ffff }

  /**
   What is encoded without an exception is one field under the key, and stands for the value at every depth: in
   particular a BSON array is made of just the PHP arrays whose keys count up from 0.
   */
  lemma {:induction false} EncodingStandsFor(key: string, v: Php, valid: Validator)
    requires !EncodeValue(key, v, valid).thrown
    ensures var fs := EncodeValue(key, v, valid).fields; |fs| == 1 && fs[0].key == key && StandsFor(fs[0].value, v)
    decreases v
  {
    hide EncodeEntries, StandForAll;
    if v.PhpArray? {
      EntriesStandFor(v.entries, valid);
      assert IsList(v.entries) <==> CountsUp(v.entries);
    }
  }

  lemma {:induction false} EntryStandsFor(e: Entry, valid: Validator)
    requires !EncodeEntry(e, valid).thrown
    ensures var fs := EncodeEntry(e, valid).fields; |fs| == 1 && StandsForEntry(fs[0], e)
    decreases e
  {
    EncodingStandsFor(KeyText(e.key), e.value, valid);
  }

  lemma {:induction false} EntriesStandFor(es: seq<Entry>, valid: Validator)
    requires !EncodeEntries(es, valid).thrown
    ensures StandForAll(EncodeEntries(es, valid).fields, es)
    decreases es
  {
    hide EncodeEntry, StandsForEntry;
    if es != [] {
      EntryStandsFor(es[0], valid);
      EntriesStandFor(es[1..], valid);
      var first, rest := EncodeEntry(es[0], valid).fields, EncodeEntries(es[1..], valid).fields;
      assert EncodeEntries(es, valid).fields == first + rest;
      assert (first + rest)[0] == first[0] && (first + rest)[1..] == rest;
    }
  }

  /** An integer takes the fewest bytes that hold it. */
  lemma SmallestInteger(key: string, n: Int64, valid: Validator, w: Value)
    requires NumberOf(w) == Some(n)
    ensures var fs := EncodeValue(key, PhpInt(n), valid).fields;
            |fs| == 1 && NumberOf(fs[0].value) == Some(n) && Size(fs[0].value) <= Size(w)
  {
  }

  // Encoding that throws.

  /** The entries before the first key with a NUL. */
  function Reached(es: seq<Entry>): (n: nat)
    ensures n <= |es| && (n < |es| ==> HasNul(es[n].key))
    ensures forall k :: 0 <= k < n ==> !HasNul(es[k].key)
  {
    if es == [] || HasNul(es[0].key) then 0 else 1 + Reached(es[1..])
  }

  /** What the first n entries are encoded to, one after the other. */
  function FieldsOf(es: seq<Entry>, n: nat, valid: Validator): seq<Field>
    requires n <= |es|
  {
    if n == 0 then [] else FieldsOf(es, n - 1, valid) + EncodeEntry(es[n - 1], valid).fields
  }

  lemma {:induction false} FieldsOfRest(es: seq<Entry>, n: nat, valid: Validator)
    requires 1 <= n <= |es|
    ensures FieldsOf(es, n, valid) == EncodeEntry(es[0], valid).fields + FieldsOf(es[1..], n - 1, valid)
  {
    if n > 1 {
      FieldsOfRest(es, n - 1, valid);
      assert es[1..][n - 2] == es[n - 1];
    }
  }

  /** A key with a NUL ends the encoding with an exception; an entry that throws does not. */
  lemma {:induction false} EntriesEncoded(es: seq<Entry>, valid: Validator)
    ensures var r, n := EncodeEntries(es, valid), Reached(es);
            && r.fields == FieldsOf(es, n, valid)
            && (r.thrown <==> n < |es| || exists k :: 0 <= k < n && EncodeEntry(es[k], valid).thrown)
  {
    hide EncodeEntry, HasNul;
    if es != [] && !HasNul(es[0].key) {
      EntriesEncoded(es[1..], valid);
      FieldsOfRest(es, Reached(es), valid);
      var n, rest := Reached(es), es[1..];
      assert forall k :: 1 <= k < n ==> es[k] == rest[k - 1];
      assert forall k :: 0 <= k < n - 1 ==> rest[k] == es[k + 1];
    }
  }

  /** Only a text that is not UTF-8 and a value without a BSON type leave no field; an array always leaves one. */
  lemma NoFieldIff(e: Entry, valid: Validator)
    ensures var r := EncodeEntry(e, valid);
            && |r.fields| <= 1 && (r.fields != [] ==> r.fields[0].key == KeyText(e.key))
            && (r.fields == [] <==> (e.value.PhpString? && !valid(e.value.s, true)) || e.value.PhpOther?)
            && (r.fields == [] ==> r.thrown)
  {
    hide EncodeEntries;
    if e.value.PhpArray? {
      assert |EncodeEntry(e, valid).fields| == 1;
    }
  }

  // Decoding.

  /** Types without a visitor. */
  predicate Deprecated(t: Byte) { t == 0x06 || t == 0x0c || t == 0x0e }

  /** What the fields make, in order and under their keys. */
  function MadeOf(fs: seq<Field>, valid: Validator): seq<Entry>
  {
    if fs == [] then []
    else
      (match DecodeValue(fs[0].value, valid)
       case Made(v) => [Entry(SymbolKey(fs[0].key), v)]
       case _ => []) + MadeOf(fs[1..], valid)
  }

  /** Only the deprecated types make nothing. */
  lemma NothingIff(v: Value, valid: Validator)
    ensures DecodeValue(v, valid).Nothing? <==> Deprecated(TypeCode(v))
  {
  }

  function FirstPlace(es: seq<Entry>, key: Key): (n: nat)
    ensures n <= |es| && (n < |es| ==> es[n].key == key)
    ensures forall k :: 0 <= k < n ==> es[k].key != key
  {
    if es == [] || es[0].key == key then 0 else 1 + FirstPlace(es[1..], key)
  }

  function LastValue(es: seq<Entry>, key: Key): Option<Php>
  {
    if es == [] then None
    else if es[|es| - 1].key == key then Some(es[|es| - 1].value)
    else LastValue(es[..|es| - 1], key)
  }

  /** Each key once, in the order in which the keys first come, with the value that comes last. */
  ghost predicate Merges(es: seq<Entry>, made: seq<Entry>)
  {
    && DistinctKeys(es)
    && (forall key :: FirstPlace(es, key) < |es| <==> FirstPlace(made, key) < |made|)
    && (forall k :: 0 <= k < |es| ==> LastValue(made, es[k].key) == Some(es[k].value))
    && (forall j, k :: 0 <= j < k < |es| ==> FirstPlace(made, es[j].key) < FirstPlace(made, es[k].key))
  }

  lemma {:induction false} FirstPlaceSnoc(es: seq<Entry>, e: Entry, key: Key)
    ensures FirstPlace(es + [e], key) ==
            if FirstPlace(es, key) < |es| then FirstPlace(es, key) else if e.key == key then |es| else |es| + 1
  {
    if es != [] && es[0].key != key {
      assert (es + [e])[1..] == es[1..] + [e];
      FirstPlaceSnoc(es[1..], e, key);
    }
  }

  lemma LastValueSnoc(es: seq<Entry>, e: Entry, key: Key)
    ensures LastValue(es + [e], key) == if e.key == key then Some(e.value) else LastValue(es, key)
  {
    assert (es + [e])[..|es|] == es;
  }

  /** add_assoc, from the place of the key. */
  lemma {:induction false} AddAssocAt(es: seq<Entry>, key: Key, v: Php)
    ensures var n := FirstPlace(es, key);
            AddAssoc(es, key, v) == if n < |es| then es[n := Entry(key, v)] else es + [Entry(key, v)]
  {
    if es != [] && es[0].key != key {
      var rest := es[1..];
      AddAssocAt(rest, key, v);
      assert es == [es[0]] + rest && [es[0]] + (rest + [Entry(key, v)]) == es + [Entry(key, v)];
    }
  }

  /** One more entry made: the first places stay, and the value of its key is the last. */
  lemma MadeOne(made: seq<Entry>, e: Entry)
    ensures forall key: Key ::
              FirstPlace(made + [e], key) ==
              if FirstPlace(made, key) < |made| then FirstPlace(made, key)
              else if e.key == key then |made| else |made| + 1
    ensures forall key: Key ::
              LastValue(made + [e], key) == if e.key == key then Some(e.value) else LastValue(made, key)
  {
    hide FirstPlace, LastValue;
    forall key: Key
      ensures FirstPlace(made + [e], key) ==
              if FirstPlace(made, key) < |made| then FirstPlace(made, key)
              else if e.key == key then |made| else |made| + 1
    {
      FirstPlaceSnoc(made, e, key);
    }
    forall key: Key
      ensures LastValue(made + [e], key) == if e.key == key then Some(e.value) else LastValue(made, key)
    {
      LastValueSnoc(made, e, key);
    }
  }

  lemma MergeOld(es: seq<Entry>, made: seq<Entry>, n: nat, e: Entry)
    requires Merges(es, made) && n < |es| && es[n].key == e.key
    ensures Merges(es[n := e], made + [e])
  {
    hide FirstPlace, LastValue;
    var out := es[n := e];
    MadeOne(made, e);
    forall key: Key ensures FirstPlace(out, key) == FirstPlace(es, key) {
      SameKeysSamePlace(out, es, key);
    }
    assert FirstPlace(es, e.key) < |es|;
    assert forall k :: 0 <= k < |es| ==> out[k].key == es[k].key && FirstPlace(es, es[k].key) < |es|;
  }

  /** The key of an entry that is new, and those of the others. */
  lemma NewPlaces(es: seq<Entry>, made: seq<Entry>, e: Entry)
    requires Merges(es, made) && FirstPlace(es, e.key) == |es|
    ensures FirstPlace(made + [e], e.key) == |made|
    ensures forall k :: 0 <= k < |es| ==>
              && es[k].key != e.key && FirstPlace(made + [e], es[k].key) == FirstPlace(made, es[k].key) < |made|
              && LastValue(made + [e], es[k].key) == Some(es[k].value)
  {
    hide FirstPlace, LastValue;
    MadeOne(made, e);
    assert FirstPlace(made, e.key) == |made|;
    forall k | 0 <= k < |es| ensures FirstPlace(made, es[k].key) < |made| {
      assert FirstPlace(es, es[k].key) < |es|;
    }
  }

  lemma MergeNew(es: seq<Entry>, made: seq<Entry>, e: Entry)
    requires Merges(es, made) && FirstPlace(es, e.key) == |es|
    ensures Merges(es + [e], made + [e])
  {
    hide FirstPlace, LastValue;
    var out, more := es + [e], made + [e];
    NewPlaces(es, made, e);
    assert LastValue(more, e.key) == Some(e.value) by { LastValueSnoc(made, e, e.key); }
    forall key: Key ensures FirstPlace(out, key) < |out| <==> FirstPlace(more, key) < |more| {
      FirstPlaceSnoc(es, e, key);
      FirstPlaceSnoc(made, e, key);
    }
    forall j, k | 0 <= j < k < |out|
      ensures out[j].key != out[k].key && FirstPlace(more, out[j].key) < FirstPlace(more, out[k].key)
    {
      assert out[j] == es[j] && (k < |es| ==> out[k] == es[k]) && (k == |es| ==> out[k] == e);
    }
    forall k | 0 <= k < |out| ensures LastValue(more, out[k].key) == Some(out[k].value) {
      assert k < |es| ==> out[k] == es[k];
    }
  }

  lemma MergeOne(es: seq<Entry>, made: seq<Entry>, key: Key, v: Php)
    requires Merges(es, made)
    ensures Merges(AddAssoc(es, key, v), made + [Entry(key, v)])
  {
    hide FirstPlace, LastValue, AddAssoc, Merges;
    AddAssocAt(es, key, v);
    if FirstPlace(es, key) < |es| {
      MergeOld(es, made, FirstPlace(es, key), Entry(key, v));
    } else {
      MergeNew(es, made, Entry(key, v));
    }
  }

  lemma {:induction false} SameKeysSamePlace(a: seq<Entry>, b: seq<Entry>, key: Key)
    requires SameKeys(a, b)
    ensures FirstPlace(a, key) == FirstPlace(b, key)
  {
    if a != [] && a[0].key != key {
      SameKeysSamePlace(a[1..], b[1..], key);
    }
  }

  lemma {:induction false} DecodingMerges(fs: seq<Field>, es: seq<Entry>, made: seq<Entry>, valid: Validator)
    requires Merges(es, made) && DecodeFields(fs, false, es, valid).Some?
    ensures Merges(DecodeFields(fs, false, es, valid).value, made + MadeOf(fs, valid))
    decreases fs
  {
    hide DecodeValue, Merges, AddAssoc;
    if fs == [] {
      assert made + [] == made;
    } else {
      match DecodeValue(fs[0].value, valid)
      case Made(v) =>
        MergeOne(es, made, SymbolKey(fs[0].key), v);
        var e := Entry(SymbolKey(fs[0].key), v);
        DecodingMerges(fs[1..], AddAssoc(es, SymbolKey(fs[0].key), v), made + [e], valid);
        assert made + MadeOf(fs, valid) == (made + [e]) + MadeOf(fs[1..], valid);
      case Nothing =>
        DecodingMerges(fs[1..], es, made, valid);
        assert MadeOf(fs, valid) == MadeOf(fs[1..], valid);
      case Stop =>
    }
  }

  /**
   Decoding a document whose keys may repeat: each key comes once, where it first came, with the value that
   came last.
   */
  lemma DocumentsMerge(fs: seq<Field>, valid: Validator)
    requires DecodeFields(fs, false, [], valid).Some?
    ensures Merges(DecodeFields(fs, false, [], valid).value, MadeOf(fs, valid))
  {
    assert Merges([], []);
    DecodingMerges(fs, [], [], valid);
    assert [] + MadeOf(fs, valid) == MadeOf(fs, valid);
  }

  /** The values of some entries behind those of an array, under the next indexes. */
  predicate Continues(out: seq<Entry>, es: seq<Entry>, made: seq<Entry>)
  {
    && CountsUp(out) && |out| == |es| + |made| && out[..|es|] == es
    && forall k :: 0 <= k < |made| ==> out[|es| + k].value == made[k].value
  }

  lemma ContinuesMore(out: seq<Entry>, es: seq<Entry>, e: Entry, m: Entry, made: seq<Entry>)
    requires Continues(out, es + [e], made) && m.value == e.value
    ensures Continues(out, es, [m] + made)
  {
    assert out[..|es|] == out[..|es + [e]|][..|es|] == es;
    assert out[|es|] == out[..|es + [e]|][|es|] == e;
    forall k | 0 <= k < |[m] + made| ensures out[|es| + k].value == ([m] + made)[k].value {
      if k > 0 {
        assert out[|es + [e]| + (k - 1)].value == made[k - 1].value;
      }
    }
  }

  lemma VisitedCounts(es: seq<Entry>, key: string, v: Php)
    requires CountsUp(es) && Visited(es, true, key, v).Some?
    ensures |es| < 0x8000_0000_0000_0000 && Visited(es, true, key, v) == Some(es + [Entry(IntKey(|es|), v)])
    ensures CountsUp(es + [Entry(IntKey(|es|), v)])
  {
    NextOfList(es, 0);
  }

  /** An array takes what its fields make, under new indexes, whatever the keys were. */
  lemma {:induction false} ArraysCountUp(fs: seq<Field>, es: seq<Entry>, valid: Validator)
    requires CountsUp(es) && DecodeFields(fs, true, es, valid).Some?
    ensures Continues(DecodeFields(fs, true, es, valid).value, es, MadeOf(fs, valid))
    decreases fs
  {
    hide DecodeValue, Visited, Continues, CountsUp;
    if fs == [] {
      ContinuesNothing(es);
    } else {
      match DecodeValue(fs[0].value, valid)
      case Made(v) =>
        VisitedCounts(es, fs[0].key, v);
        var e := Entry(IntKey(|es|), v);
        ArraysCountUp(fs[1..], es + [e], valid);
        var out := DecodeFields(fs, true, es, valid).value;
        ContinuesMore(out, es, e, Entry(SymbolKey(fs[0].key), v), MadeOf(fs[1..], valid));
      case Nothing =>
        ArraysCountUp(fs[1..], es, valid);
        assert MadeOf(fs, valid) == MadeOf(fs[1..], valid);
      case Stop =>
    }
  }

  lemma ContinuesNothing(es: seq<Entry>)
    requires CountsUp(es)
    ensures Continues(es, es, [])
  {
  }

  // Which fields can be visited.

  /** Every text in the value is valid UTF-8, and so is every key but the empty one. */
  predicate Visitable(v: Value, valid: Validator)
  {
    match v
    case Utf8(s) => valid(s, true)
    case Document(fs) => AllVisitable(fs, valid)
    case Array(fs) => AllVisitable(fs, valid)
    case _ => true
  }

  predicate AllVisitable(fs: seq<Field>, valid: Validator)
  {
    fs == [] ||
    ((fs[0].key != "" ==> valid(fs[0].key, false)) && Visitable(fs[0].value, valid) && AllVisitable(fs[1..], valid))
  }

  /** No array has more elements than there are indexes. */
  predicate Indexable(v: Value)
  {
    match v
    case Document(fs) => AllIndexable(fs)
    case Array(fs) => |fs| <= 0x7fff_ffff_ffff_ffff && AllIndexable(fs)
    case _ => true
  }

  predicate AllIndexable(fs: seq<Field>) { fs == [] || (Indexable(fs[0].value) && AllIndexable(fs[1..])) }

  /** The visitors go through a value exactly when its texts and keys are valid UTF-8. */
  lemma {:induction false} VisitableIff(v: Value, valid: Validator)
    requires Indexable(v)
    ensures !DecodeValue(v, valid).Stop? <==> Visitable(v, valid)
    decreases v
  {
    match v
    case Document(fs) => AllVisitableIff(fs, false, [], valid);
    case Array(fs) => AllVisitableIff(fs, true, [], valid);
    case _ =>
  }

  lemma {:induction false} AllVisitableIff(fs: seq<Field>, inArray: bool, es: seq<Entry>, valid: Validator)
    requires AllIndexable(fs) && (inArray ==> CountsUp(es) && |es| + |fs| <= 0x7fff_ffff_ffff_ffff)
    ensures DecodeFields(fs, inArray, es, valid).Some? <==> AllVisitable(fs, valid)
    decreases fs
  {
    hide DecodeValue, Visitable, Indexable;
    if fs != [] {
      VisitableFieldIff(fs[0], valid);
      if inArray {
        NextOfList(es, 0);
      }
      var next := Joined(es, inArray, fs[0].key, DecodeValue(fs[0].value, valid));
      if next.Some? {
        AllVisitableIff(fs[1..], inArray, next.value, valid);
      }
    }
  }

  lemma {:induction false} VisitableFieldIff(f: Field, valid: Validator)
    requires Indexable(f.value)
    ensures !DecodeValue(f.value, valid).Stop? <==> Visitable(f.value, valid)
    decreases f
  {
    VisitableIff(f.value, valid);
  }

  // Flags.

  predicate Sorted(s: string) { forall j, k :: 0 <= j < k < |s| ==> s[j] <= s[k] }

  lemma {:induction false} InsertedOnce(c: char, s: string)
    ensures multiset(Inserted(c, s)) == multiset(s) + multiset{c}
  {
    if s == "" || c <= s[0] {
      assert multiset([c] + s) == multiset([c]) + multiset(s);
    } else {
      InsertedOnce(c, s[1..]);
      assert s == [s[0]] + s[1..];
    }
  }

  /** All characters of s are at least a. */
  predicate From(a: char, s: string) { forall k :: 0 <= k < |s| ==> a <= s[k] }

  lemma {:induction false} InsertedFrom(a: char, c: char, s: string)
    requires a <= c && From(a, s)
    ensures From(a, Inserted(c, s))
  {
    if s != "" && c > s[0] {
      InsertedFrom(a, c, s[1..]);
    }
  }

  lemma {:induction false} InsertedSorted(c: char, s: string)
    requires Sorted(s)
    ensures Sorted(Inserted(c, s))
  {
    if s != "" && c > s[0] {
      InsertedSorted(c, s[1..]);
      InsertedFrom(s[0], c, s[1..]);
    }
  }

  /** The flags of a regular expression come out in order, none lost and none added. */
  lemma {:induction false} FlagsAreSorted(flags: string)
    ensures Sorted(Alphabetized(flags)) && multiset(Alphabetized(flags)) == multiset(flags)
  {
    if flags != "" {
      FlagsAreSorted(flags[1..]);
      InsertedSorted(flags[0], Alphabetized(flags[1..]));
      InsertedOnce(flags[0], Alphabetized(flags[1..]));
      assert flags == [flags[0]] + flags[1..];
    }
  }
}
