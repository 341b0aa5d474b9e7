/**
 Visiting the bytes of a document, as bson_iter_visit_all does with the visitors of src/bson.c, and
 the round trip of an array through the bytes it is encoded to.
 */
module PhpBytes {
  import opened Bson
  import opened BsonBuilding
  import opened BsonBytes
  import opened BsonCursor
  import opened BsonFields
  import opened BsonReading
  import opened CText
  import opened LittleEndian
  import opened Php
  import opened PhpTheorems
  import opened Words

  /** bson_init_static: the length is plausible and the last byte is zero. */
  predicate InitStatic(raw: seq<Byte>, n: nat) { 5 <= n <= MAX_LENGTH && n <= |raw| && raw[n - 1] == 0 }

  /**
   A field's visitor. A child that bson_init_static refuses is passed over without a word. A scope whose
   fields cannot be read stops the visit here, where the object keeps its bytes.
   */
  function VisitAt(raw: seq<Byte>, len: nat, t: Byte, x: Extent, valid: Validator, stray: Byte): Visit
    requires Bounded(raw, len, t, x)
    decreases len, 0
  {
    if t == 0x0f then
      var code := ReadValue(raw, len, t, x, stray);
      if !InitStatic(raw[x.d4..], U32At(raw, x.d4)) then Nothing
      else if code.None? then Stop
      else Made(PhpObject(code.value))
    else if t == 0x03 || t == 0x04 then
      var child, n := raw[x.d1..], U32At(raw, x.d1);
      if !InitStatic(child, n) then Nothing
      else
        var es := VisitBytes(child, n, 4, t == 0x04, [], valid, stray);
        if es.None? then Stop else Made(PhpArray(es.value))
    else DecodeValue(ScalarAt(raw, len, t, x), valid)
  }

  /** bson_iter_visit_all from an offset on; None when it stops early or at corrupt bytes. */
  function VisitBytes(raw: seq<Byte>, len: nat, off: nat, inArray: bool, es: seq<Entry>, valid: Validator, stray: Byte)
    : Option<seq<Entry>>
    requires InMemory(raw, len) && 0 < off
    decreases len, if off < len then len - off else 0
  {
    match Decode(raw, len, off, stray)
    case Ended => Some(es)
    case Refused(_, _) => None
    case Decoded(keyEnd, x) =>
      FieldBounds(raw, len, off, stray);
      DecodeAdvances(raw, len, off, stray);
      var key := TextOf(raw[off + 1..keyEnd]);
      if key != "" && !valid(key, false) then None
      else
        var next := Joined(es, inArray, key, VisitAt(raw, len, raw[off], x, valid, stray));
        if next.None? then None else VisitBytes(raw, len, x.next, inArray, next.value, valid, stray)
  }

  /** The document bson_reader_read finds at the start of some bytes. */
  predicate HoldsDocument(data: seq<Byte>)
  {
    4 < |data| && InitStatic(data, U32At(data, 0))
  }

  /** phongo_bson_to_zval_ex with a root type of native array. */
  function BytesToPhp(data: seq<Byte>, valid: Validator, stray: Byte): Option<Php>
  {
    if !HoldsDocument(data) then None
    else
      var es := VisitBytes(data, U32At(data, 0), 4, false, [], valid, stray);
      if es.None? then None else Some(PhpArray(es.value))
  }

  /** Nothing is decoded but the bytes of a document: its length is plausible and its last byte is zero. */
  lemma DocumentsOnly(data: seq<Byte>, valid: Validator, stray: Byte)
    requires BytesToPhp(data, valid, stray).Some?
    ensures 5 <= |data| && 5 <= U32At(data, 0) <= |data| && data[U32At(data, 0) - 1] == 0
  {
  }

  /** A document, array or scope inside is passed over when it is too short or does not end in a zero byte. */
  lemma ChildIsPassedOverIff(raw: seq<Byte>, len: nat, t: Byte, x: Extent, valid: Validator, stray: Byte)
    requires Bounded(raw, len, t, x) && HasFields(t)
    ensures VisitAt(raw, len, t, x, valid, stray).Nothing? <==>
            x.next < (if t == 0x0f then x.d4 else x.d1) + 5 || raw[x.next - 1] != 0
  {
    hide U32At, VisitBytes;
  }

  // The bytes of fields.

  /** Visiting the bytes of a scalar does what visiting the scalar does. */
  lemma ScalarVisit(raw: seq<Byte>, len: nat, t: Byte, x: Extent, v: Value, valid: Validator, stray: Byte)
    requires Bounded(raw, len, t, x) && ReadValue(raw, len, t, x, stray) == Some(v) && !HasFields(t)
    ensures VisitAt(raw, len, t, x, valid, stray) == DecodeValue(v, valid)
  {
    hide Bounded, ScalarAt, DecodeValue;
  }

  /** The last byte of a document is zero. */
  lemma DocumentEnds(raw: seq<Byte>, o: nat, fs: seq<Field>)
    requires StorableFields(fs) && 5 + FieldsSize(fs) <= MAX_LENGTH && Holds(raw, o, DocumentBytes(fs))
    ensures InitStatic(raw[o..], 5 + FieldsSize(fs))
  {
    hide FieldsBytes, Le32;
    HoldsConcat(raw, o, Le32(5 + FieldsSize(fs)) + FieldsBytes(fs), [0]);
    HoldsAt(raw, o + 4 + FieldsSize(fs), [0], 0);
  }

  lemma {:induction false} ValueVisit(raw: seq<Byte>, len: nat, off: nat, o: nat, v: Value, valid: Validator,
                                      stray: Byte)
    requires InMemory(raw, len) && 4 <= off < o && o + Size(v) < len && raw[off] == TypeCode(v)
    requires Storable(v) && Size(v) < MAX_LENGTH && Holds(raw, o, Payload(v))
    ensures var x := Measure(raw, len, off, o, stray);
            && x.Extent? && x.next == o + Size(v) && Bounded(raw, len, TypeCode(v), x)
            && VisitAt(raw, len, TypeCode(v), x, valid, stray) == DecodeValue(v, valid)
    decreases v, 2
  {
    hide Measure, ReadValue, Bounded, Holds, VisitAt, DecodeValue, Payload;
    var x := Measure(raw, len, off, o, stray);
    ValueBack(raw, len, off, o, v, stray);
    if v.Document? || v.Array? {
      ChildVisit(raw, len, off, o, v, valid, stray);
    } else if v.CodeWithScope? {
      ScopeVisit(raw, len, off, o, v, valid, stray);
    } else {
      ScalarVisit(raw, len, TypeCode(v), x, v, valid, stray);
    }
  }

  lemma ScopeVisit(raw: seq<Byte>, len: nat, off: nat, o: nat, v: Value, valid: Validator, stray: Byte)
    requires InMemory(raw, len) && 4 <= off < o && o + Size(v) < len && v.CodeWithScope?
    requires Storable(v) && Size(v) < MAX_LENGTH && Holds(raw, o, Payload(v))
    requires var x := Measure(raw, len, off, o, stray);
             && x.Extent? && Bounded(raw, len, TypeCode(v), x) && raw[off] == TypeCode(v)
             && ReadValue(raw, len, TypeCode(v), x, stray) == Some(v)
    ensures VisitAt(raw, len, TypeCode(v), Measure(raw, len, off, o, stray), valid, stray) == DecodeValue(v, valid)
  {
    hide Holds, Bounded, ReadValue, U32At, DocumentBytes, FieldsSize, ScopeExtent, ScopeBounds, InitStatic, SizedBytes;
    ScopeBack(raw, len, o, v.text, v.fields);
    ScopeEnds(raw, o, v);
  }

  /** The scope of code is a document. */
  lemma ScopeEnds(raw: seq<Byte>, o: nat, v: Value)
    requires v.CodeWithScope? && Storable(v) && Size(v) < MAX_LENGTH && Holds(raw, o, Payload(v))
    ensures o + 9 + |v.text| <= |raw| && InitStatic(raw[o + 9 + |v.text|..], 5 + FieldsSize(v.fields))
  {
    hide DocumentBytes, FieldsSize, InitStatic;
    var sized := Le32(Size(v)) + SizedBytes(v.text);
    HoldsConcat(raw, o, sized, DocumentBytes(v.fields));
    DocumentEnds(raw, o + |sized|, v.fields);
  }

  lemma {:induction false} ChildVisit(raw: seq<Byte>, len: nat, off: nat, o: nat, v: Value, valid: Validator,
                                      stray: Byte)
    requires InMemory(raw, len) && 4 <= off < o && o + Size(v) < len && (v.Document? || v.Array?)
    requires Storable(v) && Size(v) < MAX_LENGTH && Holds(raw, o, Payload(v))
    requires var x := Measure(raw, len, off, o, stray);
             x.Extent? && Bounded(raw, len, TypeCode(v), x) && raw[off] == TypeCode(v)
    ensures VisitAt(raw, len, TypeCode(v), Measure(raw, len, off, o, stray), valid, stray) == DecodeValue(v, valid)
    decreases v, 1
  {
    hide Holds, Bounded, U32At, FieldsBytes, VisitBytes, DecodeFields, DocumentExtent;
    var fs := v.fields;
    DocumentBack(raw, len, o, fs);
    DocumentEnds(raw, o, fs);
    FieldsVisit(raw[o..], 5 + FieldsSize(fs), 4, fs, v.Array?, [], valid, stray);
  }

  /** The first of some fields: its key, and its visitor. */
  lemma {:induction false} FirstVisit(raw: seq<Byte>, len: nat, off: nat, f: Field, valid: Validator, stray: Byte)
    requires InMemory(raw, len) && 4 <= off && CName(f.key) && Storable(f.value) && Size(f.value) < MAX_LENGTH
    requires off + 2 + |f.key| + Size(f.value) < len && Holds(raw, off, FieldBytes(f))
    ensures var r, next := Decode(raw, len, off, stray), off + 2 + |f.key| + Size(f.value);
            && r.Decoded? && r.extent.Extent? && r.extent.next == next && TextOf(raw[off + 1..r.keyEnd]) == f.key
            && Bounded(raw, len, raw[off], r.extent)
            && VisitAt(raw, len, raw[off], r.extent, valid, stray) == DecodeValue(f.value, valid)
    decreases f, 1
  {
    hide Measure, VisitAt, Payload, Bounded, Holds, TypeCode, Size, Storable, TextOf, DecodeValue;
    HoldsConcat(raw, off, [TypeCode(f.value)] + CBytes(f.key), Payload(f.value));
    HoldsConcat(raw, off, [TypeCode(f.value)], CBytes(f.key));
    HoldsAt(raw, off, [TypeCode(f.value)], 0);
    CNameEnds(raw, len, off + 1, f.key);
    ValueVisit(raw, len, off, off + 2 + |f.key|, f.value, valid, stray);
  }

  /** Visiting the bytes of fields does what visiting the fields does. */
  lemma {:induction false} FieldsVisit(raw: seq<Byte>, len: nat, off: nat, fs: seq<Field>, inArray: bool,
                                       es: seq<Entry>, valid: Validator, stray: Byte)
    requires InMemory(raw, len) && 4 <= off && StorableFields(fs) && FieldsSize(fs) < MAX_LENGTH
    requires off + FieldsSize(fs) + 1 == len && Holds(raw, off, FieldsBytes(fs))
    ensures VisitBytes(raw, len, off, inArray, es, valid, stray) == DecodeFields(fs, inArray, es, valid)
    decreases fs, 0
  {
    hide Decode, VisitAt, Bounded, Payload, Holds, CBytes, TypeCode, TextOf, DecodeValue, Joined;
    if fs == [] {
      EndsHere(raw, len, off, stray);
    } else {
      var f, rest := fs[0], fs[1..];
      assert FieldsBytes(fs) == FieldBytes(f) + FieldsBytes(rest);
      HoldsConcat(raw, off, FieldBytes(f), FieldsBytes(rest));
      FirstVisit(raw, len, off, f, valid, stray);
      var next := Joined(es, inArray, f.key, DecodeValue(f.value, valid));
      if next.Some? {
        FieldsVisit(raw, len, off + |FieldBytes(f)|, rest, inArray, next.value, valid, stray);
      }
    }
  }

  /** Decoding the bytes of a document is visiting its fields, whatever follows them in memory. */
  lemma BytesAreFields(fs: seq<Field>, after: seq<Byte>, valid: Validator, stray: Byte)
    requires StorableFields(fs) && 5 + FieldsSize(fs) <= MAX_LENGTH
    ensures BytesToPhp(DocumentBytes(fs) + after, valid, stray) == DecodeArray(fs, valid)
  {
    hide VisitBytes, DecodeFields, U32At, FieldsBytes, Holds;
    var raw := DocumentBytes(fs) + after;
    assert Holds(raw, 0, DocumentBytes(fs)) by { StartsWith(DocumentBytes(fs), after); }
    DocumentParts(raw, 0, fs);
    DocumentEnds(raw, 0, fs);
    assert raw[0..] == raw;
    FieldsVisit(raw, |DocumentBytes(fs)|, 4, fs, false, [], valid, stray);
  }

  lemma StartsWith(b: seq<Byte>, after: seq<Byte>)
    ensures Holds(b + after, 0, b)
  {
    assert (b + after)[0..|b|] == b;
  }

  // What an array is encoded to can be stored.

  /** All characters are bytes. */
  predicate NarrowPhp(v: Php)
  {
    match v
    case PhpString(s) => Narrow(s)
    case PhpArray(es) => NarrowEntries(es)
    case PhpObject(value) =>
      && (value.Regex? ==> Narrow(value.pattern) && Narrow(value.options))
      && (IsCode(value) ==> Narrow(value.text))
      && (value.CodeWithScope? ==> StorableFields(value.fields))
    case _ => true
  }

  predicate NarrowEntry(e: Entry) { (e.key.StringKey? ==> Narrow(e.key.s)) && NarrowPhp(e.value) }

  predicate NarrowEntries(es: seq<Entry>) { es == [] || (NarrowEntry(es[0]) && NarrowEntries(es[1..])) }

  lemma LongIsName(n: Int64)
    ensures CName(LongText(n))
  {
  }

  lemma KeyIsName(key: Key)
    requires !HasNul(key) && (key.StringKey? ==> Narrow(key.s))
    ensures CName(KeyText(key))
  {
    if key.IntKey? {
      LongIsName(key.n);
    }
  }

  lemma {:induction false} StorableConcat(a: seq<Field>, b: seq<Field>)
    requires StorableFields(a) && StorableFields(b)
    ensures StorableFields(a + b)
  {
    if a == [] {
      assert a + b == b;
    } else {
      assert (a + b)[0] == a[0] && (a + b)[1..] == a[1..] + b;
      StorableConcat(a[1..], b);
    }
  }

  lemma {:induction false} ValueStorable(key: string, v: Php, valid: Validator)
    requires NarrowPhp(v) && WellMade(v) && CName(key)
    ensures StorableFields(EncodeValue(key, v, valid).fields)
    decreases v
  {
    hide IsList, EncodeEntries, Appended, StorableFields, NarrowEntries, WellMadeEntries, DistinctKeys;
    if v.PhpArray? {
      EntriesStorable(v.entries, valid);
      OneStorable(key, Container(IsList(v.entries), EncodeEntries(v.entries, valid).fields));
    } else if v.PhpObject? {
      ObjectStorable(v.value);
      OneStorable(key, Appended(v.value));
    } else {
      ScalarStorable(key, v, valid);
    }
  }

  lemma ScalarStorable(key: string, v: Php, valid: Validator)
    requires NarrowPhp(v) && CName(key) && !v.PhpArray? && !v.PhpObject?
    ensures StorableFields(EncodeValue(key, v, valid).fields)
  {
    if v.PhpNull? {
      OneStorable(key, Null);
    } else if v.PhpBool? {
      OneStorable(key, Boolean(v.truth));
    } else if v.PhpInt? {
      OneStorable(key, EncodeValue(key, v, valid).fields[0].value);
    } else if v.PhpFloat? {
      OneStorable(key, Double(v.bits));
    } else if v.PhpString? {
      OneStorable(key, Utf8(v.s));
    }
  }

  lemma OneStorable(key: string, v: Value)
    requires CName(key) && Storable(v)
    ensures StorableFields([Field(key, v)])
  {
  }

  lemma NarrowStart(s: string)
    requires Narrow(s)
    ensures CName(UpToNul(s))
  {
  }

  lemma ObjectStorable(v: BsonObject)
    requires NarrowPhp(PhpObject(v)) && WellMadeObject(v)
    ensures Storable(Appended(v))
  {
    hide Alphabetized, UpToNul;
    if v.Regex? {
      NarrowStart(v.pattern);
      NarrowStart(v.options);
    } else if IsCode(v) {
      NarrowStart(v.text);
    }
  }

  lemma {:induction false} EntryStorable(e: Entry, valid: Validator)
    requires NarrowEntry(e) && WellMadeEntry(e) && !HasNul(e.key)
    ensures StorableFields(EncodeEntry(e, valid).fields)
    decreases e
  {
    KeyIsName(e.key);
    ValueStorable(KeyText(e.key), e.value, valid);
  }

  lemma {:induction false} EntriesStorable(es: seq<Entry>, valid: Validator)
    requires NarrowEntries(es) && WellMadeEntries(es)
    ensures StorableFields(EncodeEntries(es, valid).fields)
    decreases es
  {
    hide EncodeEntry, NarrowEntry, WellMadeEntry;
    if es != [] && !HasNul(es[0].key) {
      EntryStorable(es[0], valid);
      EntriesStorable(es[1..], valid);
      StorableConcat(EncodeEntry(es[0], valid).fields, EncodeEntries(es[1..], valid).fields);
    }
  }

  /**
   The round trip through bytes: encoding the entries of an array whose characters are bytes, and that fits
   a document, and decoding the bytes of that document gives the array back without an exception exactly
   when it is clean.
   */
  lemma BytesRoundTripIff(es: seq<Entry>, after: seq<Byte>, valid: Validator, stray: Byte)
    requires WellMade(PhpArray(es)) && NarrowEntries(es) && ReadsDecimals(valid)
    requires 5 + FieldsSize(EncodeEntries(es, valid).fields) <= MAX_LENGTH
    ensures StorableFields(EncodeEntries(es, valid).fields)
    ensures var r := EncodeEntries(es, valid);
            !r.thrown && BytesToPhp(DocumentBytes(r.fields) + after, valid, stray) == Some(PhpArray(es))
            <==> Clean(es, valid)
  {
    hide EncodeEntries, BytesToPhp, DecodeArray, DocumentBytes, WellMadeEntries, NarrowEntries, Clean, ReadsDecimals;
    EntriesStorable(es, valid);
    BytesAreFields(EncodeEntries(es, valid).fields, after, valid, stray);
    RoundTripsIff(es, valid);
  }
}
