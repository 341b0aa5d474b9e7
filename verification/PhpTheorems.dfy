/**
 Encoding an array and visiting the result gives back that array, keys and order and all,
 exactly when its texts are valid UTF-8, its keys can be BSON keys and its code has no NUL.
 */
module PhpTheorems {
  import opened Bson
  import opened BsonBuilding
  import opened CText
  import opened Digits
  import opened Php
  import opened Words

  // Keys.

  /** The digits of a number are a decimal text, and denote it. */
  lemma IndexIsDecimal(n: nat)
    ensures IsDecimal(IndexKey(n)) && DecimalOf(IndexKey(n)) == n
  {
    var ds := OfNat(n);
    OfNatDenotes(n);
    var s := IndexKey(n);
    assert forall k :: 0 <= k < |s| ==> s[k] == CharOf(ds[k]);
    assert seq(|s|, k requires 0 <= k < |s| => DigitOf(s[k])) == ds;
    if s[0] == '0' {
      assert ds[0] == 0;
    }
  }

  lemma DigitsBack(ds: seq<Digit>)
    requires ds != [] && (ds[0] == 0 ==> |ds| == 1)
    ensures OfNat(Nat(ds)) == ds
  {
    if ds[0] == 0 {
      NatOne(0);
      assert ds == [0];
    } else {
      OfNatUnique(ds);
    }
  }

  /** A decimal text is that of its number. */
  lemma DecimalIsIndex(s: string)
    requires IsDecimal(s)
    ensures IndexKey(DecimalOf(s)) == s
  {
    hide Nat, OfNat;
    var ds := seq(|s|, k requires 0 <= k < |s| => DigitOf(s[k]));
    DigitsBack(ds);
    assert Chars(ds) == s;
  }

  lemma LongIsSymbolKey(n: Int64)
    ensures SymbolKey(LongText(n)) == IntKey(n)
  {
    hide IndexKey, IsDecimal, DecimalOf;
    var m: int := n;
    var s := LongText(n);
    var digits := IndexKey(if m < 0 then -m else m);
    IndexIsDecimal(if m < 0 then -m else m);
    DecimalStart(digits);
    if m < 0 {
      assert s[1..] == digits;
      if digits == "0" {
        ZeroText(-m);
      }
    }
  }

  lemma DecimalStart(s: string)
    requires IsDecimal(s)
    ensures s != "" && s[0] != '-'
  {
  }

  lemma SymbolKeyIsLong(s: string, n: Int64)
    requires SymbolKey(s) == IntKey(n)
    ensures s == LongText(n)
  {
    hide IndexKey, IsDecimal, DecimalOf;
    var negative := s != "" && s[0] == '-';
    var digits := if negative then s[1..] else s;
    DecimalIsIndex(digits);
    if negative {
      assert s == "-" + digits;
      NotZero(digits);
    }
  }

  lemma NotZero(digits: string)
    requires IsDecimal(digits) && digits != "0"
    ensures DecimalOf(digits) != 0
  {
    DecimalIsIndex(digits);
    assert IndexKey(0) == "0";
  }

  /** A text is an integer key exactly when it is the decimal text of that integer. */
  lemma SymbolKeyIsLongIff(s: string, n: Int64)
    ensures SymbolKey(s) == IntKey(n) <==> s == LongText(n)
  {
    hide SymbolKey, LongText;
    LongIsSymbolKey(n);
    if SymbolKey(s) == IntKey(n) {
      SymbolKeyIsLong(s, n);
    }
  }

  lemma ZeroText(n: nat)
    requires IndexKey(n) == "0"
    ensures n == 0
  {
    assert IndexKey(0) == "0";
    IndexKeyInjective(n, 0);
  }

  // Which arrays survive.

  /** The key can be a BSON key that the visitor accepts. */
  predicate CleanKey(key: Key, valid: Validator)
  {
    key.StringKey? ==> '\0' !in key.s && (key.s != "" ==> valid(key.s, false))
  }

  /** Every text in the value is valid UTF-8, every key is clean, and there is nothing without a BSON type. */
  predicate Passes(v: Php, valid: Validator)
  {
    match v
    case PhpString(s) => valid(s, true)
    case PhpArray(es) => PassesAll(es, valid)
    case PhpOther => false
    case _ => true
  }

  predicate PassesEntry(e: Entry, valid: Validator) { CleanKey(e.key, valid) && Passes(e.value, valid) }

  predicate PassesAll(es: seq<Entry>, valid: Validator)
  {
    es == [] || (PassesEntry(es[0], valid) && PassesAll(es[1..], valid))
  }

  predicate IsCode(v: Value) { v.Code? || v.CodeWithScope? }

  /** What a value comes back as: code is cut at its first NUL. */
  function Became(v: Php): Php
  {
    match v
    case PhpArray(es) => PhpArray(BecameAll(es))
    case PhpObject(value) => if IsCode(value) then PhpObject(Appended(value)) else v
    case _ => v
  }

  function BecameEntry(e: Entry): Entry { Entry(e.key, Became(e.value)) }

  function BecameAll(es: seq<Entry>): (r: seq<Entry>)
    ensures |r| == |es| && forall k :: 0 <= k < |es| ==> r[k].key == es[k].key
  {
    if es == [] then [] else [BecameEntry(es[0])] + BecameAll(es[1..])
  }

  /** No code holds a NUL. */
  predicate Whole(v: Php)
  {
    match v
    case PhpArray(es) => WholeAll(es)
    case PhpObject(value) => IsCode(value) ==> '\0' !in value.text
    case _ => true
  }

  predicate WholeEntry(e: Entry) { Whole(e.value) }

  predicate WholeAll(es: seq<Entry>) { es == [] || (WholeEntry(es[0]) && WholeAll(es[1..])) }

  predicate Clean(es: seq<Entry>, valid: Validator) { PassesAll(es, valid) && WholeAll(es) }

  lemma UpToNulWhole(s: string)
    ensures UpToNul(s) == s <==> '\0' !in s
  {
  }

  lemma {:induction false} BecameSame(v: Php)
    ensures Became(v) == v <==> Whole(v)
    decreases v
  {
    match v
    case PhpArray(es) => BecameAllSame(es);
    case PhpObject(value) => if IsCode(value) { UpToNulWhole(value.text); }
    case _ =>
  }

  lemma {:induction false} BecameEntrySame(e: Entry)
    ensures BecameEntry(e) == e <==> WholeEntry(e)
    decreases e
  {
    BecameSame(e.value);
  }

  lemma {:induction false} BecameAllSame(es: seq<Entry>)
    ensures BecameAll(es) == es <==> WholeAll(es)
    decreases es
  {
    if es != [] {
      BecameEntrySame(es[0]);
      BecameAllSame(es[1..]);
      assert es == [es[0]] + es[1..];
      assert BecameAll(es)[0] == BecameEntry(es[0]) && BecameAll(es)[1..] == BecameAll(es[1..]);
    }
  }

  /** The texts of integers are valid UTF-8. */
  ghost predicate ReadsDecimals(valid: Validator)
  {
    forall n: Int64 :: valid(LongText(n), false)
  }

  lemma CleanKeyText(key: Key, valid: Validator)
    requires CleanKey(key, valid) && ReadsDecimals(valid)
    ensures !HasNul(key) && (KeyText(key) != "" ==> valid(KeyText(key), false))
  {
    if key.IntKey? {
      var n := key.n;
      assert valid(LongText(n), false);
    }
  }

  // Adding entries.

  lemma {:induction false} AddAssocNew(es: seq<Entry>, key: Key, v: Php)
    requires forall k :: 0 <= k < |es| ==> es[k].key != key
    ensures AddAssoc(es, key, v) == es + [Entry(key, v)]
  {
    if es != [] {
      AddAssocNew(es[1..], key, v);
    }
  }

  lemma {:induction false} NextOfList(es: seq<Entry>, from: nat)
    requires forall k :: 0 <= k < |es| ==> es[k].key.IntKey? && es[k].key.n == from + k
    ensures NextIndex(es) == if es == [] then 0 else from + |es|
  {
    if es != [] {
      NextOfList(es[1..], from + 1);
    }
  }

  // What passes comes back.

  lemma {:induction false} ValuePasses(key: string, v: Php, valid: Validator)
    requires Passes(v, valid) && WellMade(v) && ReadsDecimals(valid)
    ensures var e := EncodeValue(key, v, valid);
            && !e.thrown && |e.fields| == 1 && e.fields[0].key == key
            && DecodeValue(e.fields[0].value, valid) == Made(Became(v))
    decreases v
  {
    hide EncodeEntries, DecodeFields, PassesAll, WellMadeEntries, DistinctKeys, IsList, ReadsDecimals, Alphabetized;
    match v
    case PhpArray(es) =>
      assert [] + es == es && [] + BecameAll(es) == BecameAll(es);
      EntriesPass([], [], es, IsList(es), valid);
    case PhpObject(value) => ObjectPasses(value, valid);
    case _ =>
  }

  lemma ObjectPasses(value: BsonObject, valid: Validator)
    requires WellMadeObject(value)
    ensures DecodeValue(Appended(value), valid) == Made(Became(PhpObject(value)))
  {
    hide Alphabetized;
    if value.Regex? {
      UpToNulWhole(value.pattern);
      UpToNulWhole(value.options);
    }
  }

  lemma {:induction false} EntryPasses(e: Entry, valid: Validator)
    requires PassesEntry(e, valid) && WellMadeEntry(e) && ReadsDecimals(valid)
    ensures var r := EncodeEntry(e, valid);
            && !r.thrown && |r.fields| == 1 && r.fields[0].key == KeyText(e.key)
            && DecodeValue(r.fields[0].value, valid) == Made(Became(e.value))
    decreases e
  {
    ValuePasses(KeyText(e.key), e.value, valid);
  }

  /** Two lists of entries under the same keys. */
  predicate SameKeys(a: seq<Entry>, b: seq<Entry>)
  {
    |a| == |b| && forall k :: 0 <= k < |a| ==> a[k].key == b[k].key
  }

  /** The first of some fields, when its key and value are accepted. */
  lemma FirstDecoded(f: Field, rest: seq<Field>, inArray: bool, done: seq<Entry>, v: Php, next: seq<Entry>,
                     valid: Validator)
    requires f.key != "" ==> valid(f.key, false)
    requires DecodeValue(f.value, valid) == Made(v) && Visited(done, inArray, f.key, v) == Some(next)
    ensures DecodeFields([f] + rest, inArray, done, valid) == DecodeFields(rest, inArray, next, valid)
  {
    hide DecodeValue, Visited;
    assert ([f] + rest)[1..] == rest;
  }

  lemma NothingLeft(done: seq<Entry>, inArray: bool, valid: Validator)
    ensures DecodeFields(EncodeEntries([], valid).fields, inArray, done, valid) == Some(done + BecameAll([]))
    ensures !EncodeEntries([], valid).thrown
  {
    assert done + BecameAll([]) == done;
  }

  /** Entries are decoded one after the other behind those already there. */
  lemma {:induction false} EntriesPass(done: seq<Entry>, before: seq<Entry>, es: seq<Entry>, inArray: bool,
                                       valid: Validator)
    requires PassesAll(es, valid) && WellMadeEntries(es) && DistinctKeys(before + es) && ReadsDecimals(valid)
    requires SameKeys(done, before) && (inArray ==> IsList(before + es))
    ensures var r := EncodeEntries(es, valid);
            !r.thrown && DecodeFields(r.fields, inArray, done, valid) == Some(done + BecameAll(es))
    decreases es, 1
  {
    hide EncodeEntries, EncodeEntry, DecodeValue, DecodeFields, Visited, WellMadeEntry, CleanKey, Passes;
    hide DistinctKeys, IsList, KeyText, Became, HasNul;
    if es == [] {
      NothingLeft(done, inArray, valid);
    } else {
      var e := es[0];
      EntryPasses(e, valid);
      assert before + es == (before + [e]) + es[1..];
      var next := done + [BecameEntry(e)];
      assert next + BecameAll(es[1..]) == done + BecameAll(es);
      EntriesPass(next, before + [e], es[1..], inArray, valid);
      FirstPasses(done, before, es, inArray, valid);
    }
  }

  /** The first entry of some makes the first field, and joins those before it. */
  lemma FirstPasses(done: seq<Entry>, before: seq<Entry>, es: seq<Entry>, inArray: bool, valid: Validator)
    requires es != [] && PassesEntry(es[0], valid) && WellMadeEntry(es[0]) && ReadsDecimals(valid)
    requires DistinctKeys(before + es) && SameKeys(done, before) && (inArray ==> IsList(before + es))
    ensures var r, rest := EncodeEntries(es, valid), EncodeEntries(es[1..], valid);
            && r.thrown == rest.thrown
            && DecodeFields(r.fields, inArray, done, valid) ==
               DecodeFields(rest.fields, inArray, done + [BecameEntry(es[0])], valid)
    decreases es, 0
  {
    hide EncodeEntry, DecodeValue, DecodeFields, Visited, WellMadeEntry, CleanKey, Passes, DistinctKeys, IsList;
    hide KeyText, Became, HasNul, ReadsDecimals;
    var e := es[0];
    CleanKeyText(e.key, valid);
    EntryPasses(e, valid);
    NextEntry(done, before, es, inArray, Became(e.value));
    var f := EncodeEntry(e, valid).fields[0];
    assert EncodeEntry(e, valid).fields == [f];
    FirstDecoded(f, EncodeEntries(es[1..], valid).fields, inArray, done, Became(e.value), done + [BecameEntry(e)],
                 valid);
  }

  /** The entry joins the ones before it under its own key. */
  lemma NextEntry(done: seq<Entry>, before: seq<Entry>, es: seq<Entry>, inArray: bool, v: Php)
    requires es != [] && WellMadeEntry(es[0]) && DistinctKeys(before + es) && (inArray ==> IsList(before + es))
    requires SameKeys(done, before)
    ensures Visited(done, inArray, KeyText(es[0].key), v) == Some(done + [Entry(es[0].key, v)])
  {
    var all := before + es;
    assert all[|before|] == es[0];
    assert forall k :: 0 <= k < |before| ==> all[k] == before[k];
    if inArray {
      NextOfList(done, 0);
      assert all[|before|].key.n == |before|;
    } else {
      AddAssocNew(done, es[0].key, v);
    }
  }

  // What comes back passes.

  lemma {:induction false} SurvivorPasses(key: string, v: Php, valid: Validator)
    requires var e := EncodeValue(key, v, valid);
             !e.thrown && !DecodeValue(e.fields[0].value, valid).Stop?
    ensures Passes(v, valid)
    decreases v
  {
    if v.PhpArray? {
      SurvivorsPass([], v.entries, IsList(v.entries), valid);
    }
  }

  lemma OneField(key: string, v: Php, valid: Validator)
    requires !EncodeValue(key, v, valid).thrown
    ensures |EncodeValue(key, v, valid).fields| == 1 && EncodeValue(key, v, valid).fields[0].key == key
  {
  }

  lemma {:induction false} SurvivingEntryPasses(e: Entry, valid: Validator)
    requires var r := EncodeEntry(e, valid);
             !r.thrown && !HasNul(e.key) && |r.fields| == 1 && !DecodeValue(r.fields[0].value, valid).Stop?
    requires KeyText(e.key) != "" ==> valid(KeyText(e.key), false)
    ensures PassesEntry(e, valid)
    decreases e
  {
    SurvivorPasses(KeyText(e.key), e.value, valid);
  }

  lemma {:induction false} SurvivorsPass(before: seq<Entry>, es: seq<Entry>, inArray: bool, valid: Validator)
    requires var r := EncodeEntries(es, valid);
             !r.thrown && DecodeFields(r.fields, inArray, before, valid).Some?
    ensures PassesAll(es, valid)
    decreases es
  {
    hide EncodeEntry, DecodeValue, Visited, CleanKey, Passes, KeyText;
    if es != [] {
      var e, rest := es[0], EncodeEntries(es[1..], valid);
      var first := EncodeEntry(e, valid);
      OneEntryField(e, valid);
      assert (first.fields + rest.fields)[1..] == rest.fields && (first.fields + rest.fields)[0] == first.fields[0];
      SurvivingEntryPasses(e, valid);
      var next := Joined(before, inArray, KeyText(e.key), DecodeValue(first.fields[0].value, valid)).value;
      SurvivorsPass(next, es[1..], inArray, valid);
    }
  }

  lemma OneEntryField(e: Entry, valid: Validator)
    requires !EncodeEntry(e, valid).thrown
    ensures |EncodeEntry(e, valid).fields| == 1 && EncodeEntry(e, valid).fields[0].key == KeyText(e.key)
  {
    OneField(KeyText(e.key), e.value, valid);
  }

  /**
   Encoding the entries of an array and decoding the document gives the same entries in the same order,
   without an exception, exactly when every text is valid UTF-8, every key is clean, every value has a
   BSON type and no code holds a NUL.
   */
  lemma RoundTripsIff(es: seq<Entry>, valid: Validator)
    requires WellMade(PhpArray(es)) && ReadsDecimals(valid)
    ensures var r := EncodeEntries(es, valid);
            (!r.thrown && DecodeArray(r.fields, valid) == Some(PhpArray(es))) <==> Clean(es, valid)
  {
    hide EncodeEntries, DecodeFields, PassesAll, WholeAll, WellMadeEntries, DistinctKeys;
    var r := EncodeEntries(es, valid);
    BecameAllSame(es);
    if PassesAll(es, valid) {
      assert [] + es == es && [] + BecameAll(es) == BecameAll(es);
      EntriesPass([], [], es, false, valid);
    } else if !r.thrown && DecodeArray(r.fields, valid).Some? {
      SurvivorsPass([], es, false, valid);
    }
  }
}
