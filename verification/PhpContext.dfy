/**
 The encoder and the visitors of src/bson.c as they run: a loop over hash entries that appends to
 the BSON document and clears the flag for the id, and a visitor state that grows its array while
 an iterator steps through the bytes.
 */
module PhpContext {
  import opened Bson
  import opened BsonBuilding
  import opened BsonBytes
  import opened BsonCursor
  import opened BsonFields
  import opened BsonIter
  import opened BsonReading
  import BsonSearch
  import opened LittleEndian
  import opened Php
  import opened PhpBytes
  import opened PhpShapes
  import opened PhpTheorems
  import opened Words

  /** php_phongo_is_array_or_document, for an array: true is IS_ARRAY. */
  method IsArrayOrDocument(es: seq<Entry>) returns (isArray: bool)
    ensures isArray == IsList(es)
  {
    if |es| == 0 {
      return true;
    }
    var idx := 0;
    while idx < |es|
      invariant 0 <= idx <= |es| && IsList(es[..idx])
    {
      assert es[..idx + 1] == es[..idx] + [es[idx]];
      match es[idx].key {
        case StringKey(_) => return false;
        case IntKey(index) =>
          if index != idx {
            return false;
          }
      }
      idx := idx + 1;
    }
    assert es[..idx] == es;
    isArray := true;
  }

  // The id.

  /** The field name that keeps the encoder from adding an id of its own. */
  const ID: string := "_id"

  /** An id is added to the root when asked for, unless an entry is called _id or a key cut the loop short. */
  predicate AddsId(es: seq<Entry>, addId: bool)
  {
    addId && forall k :: 0 <= k < |es| ==> !HasNul(es[k].key) && es[k].key != StringKey(ID)
  }

  /** What the root is encoded to. */
  function EncodeRoot(es: seq<Entry>, addId: bool, oid: seq<Byte>, valid: Validator): Encoded
  {
    var r := EncodeEntries(es, valid);
    if AddsId(es, addId) then Encoded(r.fields + [Field(ID, ObjectId(oid))], r.thrown) else r
  }

  predicate IsId(f: Field) { f.key == "_id" }

  /** Field k is called _id, and no other. */
  predicate OnlyId(fs: seq<Field>, k: nat) { k < |fs| && forall j :: 0 <= j < |fs| ==> (IsId(fs[j]) <==> j == k) }

  lemma OwnId(es: seq<Entry>, k: nat, fs: seq<Field>)
    requires DistinctKeys(es) && k < |es| == |fs| && es[k].key == StringKey(ID)
    requires forall j :: 0 <= j < |es| ==> (IsId(fs[j]) <==> es[j].key == StringKey(ID))
    ensures OnlyId(fs, k)
  {
    hide IsId;
    forall j | 0 <= j < |fs| ensures IsId(fs[j]) <==> j == k {
      assert j < k ==> es[j].key != es[k].key;
      assert k < j ==> es[k].key != es[j].key;
    }
  }

  lemma AddedId(fs: seq<Field>, id: Field)
    requires IsId(id) && forall j :: 0 <= j < |fs| ==> !IsId(fs[j])
    ensures OnlyId(fs + [id], |fs|)
  {
    hide IsId;
  }

  /**
   Asked for an id, the encoder leaves a document with just one field of that name: the one there is, or an
   object id behind all the others.
   */
  lemma OneIdField(es: seq<Entry>, oid: seq<Byte>, valid: Validator)
    requires DistinctKeys(es) && !EncodeRoot(es, true, oid, valid).thrown
    ensures var fs := EncodeRoot(es, true, oid, valid).fields;
            && (exists k :: OnlyId(fs, k)) && |es| <= |fs| && fs[..|es|] == EncodeEntries(es, valid).fields
            && (|fs| > |es| ==> fs == fs[..|es|] + [Field("_id", ObjectId(oid))])
  {
    hide EncodeEntries, HasNul, KeyText, OnlyId, DistinctKeys;
    FieldPerEntry(es, valid);
    var fs := EncodeEntries(es, valid).fields;
    assert forall k :: 0 <= k < |es| ==> (IsId(fs[k]) <==> es[k].key == StringKey(ID));
    if AddsId(es, true) {
      AddedId(fs, Field(ID, ObjectId(oid)));
    } else {
      var k :| 0 <= k < |es| && (HasNul(es[k].key) || es[k].key == StringKey(ID));
      OwnId(es, k, fs);
    }
  }

  /** Without an exception every entry makes one field, under its own text; only the key _id has the text of the id. */
  lemma {:induction false} FieldPerEntry(es: seq<Entry>, valid: Validator)
    requires !EncodeEntries(es, valid).thrown
    ensures |EncodeEntries(es, valid).fields| == |es|
    ensures forall k :: 0 <= k < |es| ==>
              !HasNul(es[k].key) && (EncodeEntries(es, valid).fields[k].key == ID <==> es[k].key == StringKey(ID))
  {
    if es != [] {
      FieldPerEntry(es[1..], valid);
      var first := EncodeEntry(es[0], valid).fields;
      OneField(KeyText(es[0].key), es[0].value, valid);
      NoLongIsId(es[0].key);
      assert EncodeEntries(es, valid).fields == first + EncodeEntries(es[1..], valid).fields;
      assert forall k :: 1 <= k < |es| ==> es[k] == es[1..][k - 1];
    }
  }

  lemma NoLongIsId(key: Key)
    ensures KeyText(key) == ID <==> key == StringKey(ID)
  {
    if key.IntKey? {
      var m: int := key.n;
      var s := IndexKey(if m < 0 then -m else m);
      assert s[0] != '_';
      assert LongText(key.n)[0] != ID[0];
    }
  }

  // Encoding.

  /** phongo_bson_append. */
  method BsonAppend(bson: seq<Field>, key: string, v: Php, valid: Validator) returns (out: seq<Field>, thrown: bool)
    ensures var r := EncodeValue(key, v, valid); out == bson + r.fields && thrown == r.thrown
    decreases v, 0
  {
    out, thrown := bson, false;
    match v {
      case PhpNull => out := bson + [Field(key, Null)];
      case PhpBool(b) => out := bson + [Field(key, Boolean(b))];
      case PhpInt(n) =>
        if n > 0x7fff_ffff || n < -0x8000_0000 {
          out := bson + [Field(key, Int64Value(n))];
        } else {
          out := bson + [Field(key, Int32Value(n))];
        }
      case PhpFloat(bits) => out := bson + [Field(key, Double(bits))];
      case PhpString(s) =>
        if valid(s, true) {
          out := bson + [Field(key, Utf8(s))];
        } else {
          thrown := true;
        }
      case PhpArray(es) =>
        var isArray := IsArrayOrDocument(es);
        var child;
        child, thrown := ZvalToBson([], es, false, [], valid);
        assert [] + EncodeEntries(es, valid).fields == EncodeEntries(es, valid).fields;
        out := bson + [Field(key, Container(isArray, child))];
      case PhpObject(value) => out := bson + [Field(key, Appended(value))];
      case PhpOther => thrown := true;
    }
  }

  /** The encoding of the entries from k on joins what came before. */
  lemma EncodeFrom(es: seq<Entry>, k: nat, valid: Validator)
    requires k < |es|
    ensures var rest := EncodeEntries(es[k..], valid);
            if HasNul(es[k].key) then rest == Encoded([], true)
            else
              var first, more := EncodeEntry(es[k], valid), EncodeEntries(es[k + 1..], valid);
              rest == Encoded(first.fields + more.fields, first.thrown || more.thrown)
  {
    assert es[k..][1..] == es[k + 1..];
  }

  /** phongo_zval_to_bson, for an array; oid is the one that would be generated. */
  method ZvalToBson(bson: seq<Field>, es: seq<Entry>, addId: bool, oid: seq<Byte>, valid: Validator)
    returns (out: seq<Field>, thrown: bool)
    ensures var r := EncodeRoot(es, addId, oid, valid); out == bson + r.fields && thrown == r.thrown
    decreases es, 0
  {
    hide EncodeEntries, EncodeEntry;
    var pending := addId;
    out, thrown := bson, false;
    var k := 0;
    ghost var all := EncodeEntries(es, valid);
    assert es[0..] == es;
    while k < |es|
      invariant 0 <= k <= |es|
      invariant var rest := EncodeEntries(es[k..], valid);
                out + rest.fields == bson + all.fields && (thrown || rest.thrown) == all.thrown
      invariant pending == AddsId(es[..k], addId)
      invariant forall j :: 0 <= j < k ==> !HasNul(es[j].key)
    {
      EncodeFrom(es, k, valid);
      assert es[..k + 1] == es[..k] + [es[k]];
      if HasNul(es[k].key) {
        assert out + [] == out && !AddsId(es, addId);
        return out, true;
      }
      if pending && es[k].key == StringKey(ID) {
        pending := false;
      }
      var threw;
      out, threw := AppendEntry(out, es[k], valid);
      thrown := thrown || threw;
      k := k + 1;
    }
    NoEntries(es[k..], valid);
    assert es[..k] == es;
    assert out == out + [] == bson + all.fields;
    if pending {
      out := out + [Field(ID, ObjectId(oid))];
      assert out == bson + (all.fields + [Field(ID, ObjectId(oid))]);
    }
  }

  lemma NoEntries(es: seq<Entry>, valid: Validator)
    requires es == []
    ensures EncodeEntries(es, valid) == Encoded([], false)
  {
  }

  method AppendEntry(bson: seq<Field>, e: Entry, valid: Validator) returns (out: seq<Field>, thrown: bool)
    ensures var r := EncodeEntry(e, valid); out == bson + r.fields && thrown == r.thrown
    decreases e, 0
  {
    out, thrown := BsonAppend(bson, KeyText(e.key), e.value, valid);
  }

  // Visiting.

  /** php_phongo_bson_state: the array that grows, and whether keys are disregarded. */
  class VisitState {
    var zchild: seq<Entry>
    const isVisitingArray: bool

    constructor (inArray: bool)
      ensures zchild == [] && isVisitingArray == inArray
    {
      zchild, isVisitingArray := [], inArray;
    }

    /** add_assoc. */
    method AddKeyed(key: Key, v: Php)
      modifies this
      ensures zchild == AddAssoc(old(zchild), key, v)
    {
      AddAssocAt(zchild, key, v);
      var k := 0;
      while k < |zchild| && zchild[k].key != key
        invariant 0 <= k <= |zchild| && forall j :: 0 <= j < k ==> zchild[j].key != key
      {
        k := k + 1;
      }
      if k < |zchild| {
        zchild := zchild[k := Entry(key, v)];
      } else {
        zchild := zchild + [Entry(key, v)];
      }
    }

    /** The end of every visitor: the value joins the array. */
    method AddValue(key: string, v: Php) returns (stop: bool)
      modifies this
      ensures var next := Joined(old(zchild), isVisitingArray, key, Made(v));
              stop == next.None? && (!stop ==> zchild == next.value)
    {
      if isVisitingArray {
        var next: int := NextIndex(zchild);
        stop := next >= 0x8000_0000_0000_0000;
        if !stop {
          zchild := zchild + [Entry(IntKey(next), v)];
        }
      } else {
        AddKeyed(SymbolKey(key), v);
        stop := false;
      }
    }

    /** The visitors of values without fields; there is none for the deprecated types. */
    method VisitScalar(key: string, v: Value, valid: Validator) returns (stop: bool)
      requires !HoldsFields(v)
      modifies this
      ensures var next := Joined(old(zchild), isVisitingArray, key, DecodeValue(v, valid));
              stop == next.None? && (!stop ==> zchild == next.value)
    {
      stop := false;
      match v {
        case Null => stop := AddValue(key, PhpNull);
        case Boolean(b) => stop := AddValue(key, PhpBool(b));
        case Int32Value(n) => stop := AddValue(key, PhpInt(n));
        case Int64Value(n) => stop := AddValue(key, PhpInt(n));
        case Double(bits) => stop := AddValue(key, PhpFloat(bits));
        case Utf8(s) =>
          if !valid(s, true) {
            return true;
          }
          stop := AddValue(key, PhpString(s));
        case Regex(pattern, flags) => stop := AddValue(key, PhpObject(Regex(pattern, Alphabetized(flags))));
        case Undefined =>
        case DbPointer(_, _) =>
        case Symbol(_) =>
        case Binary(_, _) | ObjectId(_) | DateTime(_) | Code(_) | Timestamp(_, _) | Decimal128(_, _) | MinKey
             | MaxKey =>
          stop := AddValue(key, PhpObject(v));
      }
    }

    /** php_phongo_bson_visit_document and php_phongo_bson_visit_array, after bson_init_static. */
    method VisitChild(iter: Iter, key: string, valid: Validator, stray: Byte) returns (stop: bool)
      requires iter.OnField() && (iter.raw.value[iter.typ] == 0x03 || iter.raw.value[iter.typ] == 0x04)
      modifies this
      ensures Visits(iter, key, stop, old(zchild), valid, stray)
      decreases iter.len, 0
    {
      hide VisitBytes;
      BsonSearch.ChildInMemory(iter.raw.value, iter.len, iter.raw.value[iter.typ], iter.Here());
      var docbuf, doclen := iter.raw.value[iter.d1..], U32At(iter.raw.value, iter.d1);
      if !InitStatic(docbuf, doclen) {
        return false;
      }
      var child := new Iter();
      var ok := child.Init(docbuf, doclen);
      var state := new VisitState(iter.raw.value[iter.typ] == 0x04);
      stop := state.VisitAll(child, valid, stray);
      if stop || child.errOff != 0 {
        return true;
      }
      stop := AddValue(key, PhpArray(state.zchild));
    }

    /** The visitor has done what visiting the field of the iterator does. */
    predicate Visits(iter: Iter, key: string, stop: bool, before: seq<Entry>, valid: Validator, stray: Byte)
      requires iter.OnField()
      reads this, iter
    {
      var visit := VisitAt(iter.raw.value, iter.len, iter.raw.value[iter.typ], iter.Here(), valid, stray);
      var next := Joined(before, isVisitingArray, key, visit);
      stop == next.None? && (!stop ==> zchild == next.value)
    }

    /** The switch of bson_iter_visit_all. */
    method VisitField(iter: Iter, key: string, valid: Validator, stray: Byte) returns (stop: bool)
      requires iter.OnField()
      modifies this
      ensures Visits(iter, key, stop, old(zchild), valid, stray)
      decreases iter.len, 1
    {
      hide ScalarAt, ReadValue, Bounded, DecodeValue, Joined, VisitBytes;
      var raw, t := iter.raw.value, iter.raw.value[iter.typ];
      if t == 0x03 || t == 0x04 {
        stop := VisitChild(iter, key, valid, stray);
      } else if t == 0x0f {
        stop := VisitCode(iter, key, valid, stray);
      } else {
        var v := ScalarAt(raw, iter.len, t, iter.Here());
        ScalarHasNone(raw, iter.len, t, iter.Here());
        stop := VisitScalar(key, v, valid);
      }
    }

    /** php_phongo_bson_visit_codewscope, after bson_init_static. */
    method VisitCode(iter: Iter, key: string, valid: Validator, stray: Byte) returns (stop: bool)
      requires iter.OnField() && iter.raw.value[iter.typ] == 0x0f
      modifies this
      ensures Visits(iter, key, stop, old(zchild), valid, stray)
    {
      hide InitStatic, ReadFields;
      var raw := iter.raw.value;
      if !InitStatic(raw[iter.d4..], U32At(raw, iter.d4)) {
        return false;
      }
      var code := ReadValue(raw, iter.len, 0x0f, iter.Here(), stray);
      if code.None? {
        return true;
      }
      stop := AddValue(key, PhpObject(code.value));
    }

    /** bson_iter_visit_all: whether a visitor stopped it; corrupt bytes leave the iterator an error offset. */
    method VisitAll(iter: Iter, valid: Validator, stray: Byte) returns (stop: bool)
      requires iter.Valid() && iter.raw.Some? && 4 <= iter.nextOff && iter.errOff == 0
      modifies this, iter
      ensures var all := VisitBytes(old(iter.raw).value, old(iter.len), old(iter.nextOff), isVisitingArray,
                                    old(zchild), valid, stray);
              && (!stop && iter.errOff == 0 <==> all.Some?)
              && (all.Some? ==> zchild == all.value)
      decreases iter.len, 2
    {
      hide VisitBytes, VisitAt, Decode, Bounded, Joined, TextOf, NulFrom;
      ghost var bytes, length := iter.raw.value, iter.len;
      ghost var all := VisitBytes(bytes, length, iter.nextOff, isVisitingArray, zchild, valid, stray);
      while true
        invariant iter.Valid() && iter.raw == Some(bytes) && iter.len == length == old(iter.len)
        invariant 4 <= iter.nextOff && iter.errOff == 0
        invariant VisitBytes(bytes, length, iter.nextOff, isVisitingArray, zchild, valid, stray) == all
        decreases if iter.nextOff < length then length - iter.nextOff else 0
      {
        ghost var from, before := iter.nextOff, zchild;
        VisitStep(bytes, length, from, isVisitingArray, before, valid, stray);
        var ok, unsupported := iter.Next(stray);
        if !ok {
          return false;
        }
        iter.BoundedHere(bytes, length, Decode(bytes, length, from, stray).extent);
        var end := iter.ScanNul(iter.key);
        var key := TextOf(iter.raw.value[iter.key..end]);
        if key != "" && !valid(key, false) {
          iter.errOff := iter.off;
          return false;
        }
        SameVisit(bytes, length, bytes[from], iter.Here(), Decode(bytes, length, from, stray).extent, valid, stray);
        stop := VisitField(iter, key, valid, stray);
        if stop {
          return;
        }
      }
    }
  }

  lemma ScalarHasNone(raw: seq<Byte>, len: nat, t: Byte, x: Extent)
    requires Bounded(raw, len, t, x) && !HasFields(t)
    ensures !HoldsFields(ScalarAt(raw, len, t, x))
  {
    hide U32At, TextOf;
  }

  lemma SameVisit(raw: seq<Byte>, len: nat, t: Byte, x: Extent, y: Extent, valid: Validator, stray: Byte)
    requires Bounded(raw, len, t, x) && Bounded(raw, len, t, y) && SameSlices(x, y)
    ensures VisitAt(raw, len, t, x, valid, stray) == VisitAt(raw, len, t, y, valid, stray)
  {
    hide Bounded, ScalarAt, ReadValue, VisitBytes, U32At;
    if HasFields(t) {
      SameValue(raw, len, t, x, y, stray);
    } else {
      SameScalar(raw, len, t, x, y);
    }
  }

  /** Visiting at one field: it and the fields after it, or the end, or a refusal. */
  lemma VisitStep(bytes: seq<Byte>, length: nat, from: nat, inArray: bool, es: seq<Entry>, valid: Validator,
                  stray: Byte)
    requires InMemory(bytes, length) && 4 <= from
    ensures var r := Decode(bytes, length, from, stray);
            var all := VisitBytes(bytes, length, from, inArray, es, valid, stray);
            if r.Ended? then all == Some(es)
            else if r.Refused? then all.None? && r.err != 0
            else
              && r.extent.Extent? && from < r.extent.next < length && from < length
              && Bounded(bytes, length, bytes[from], r.extent)
              && NulFrom(bytes, from + 1, length) == r.keyEnd && from + 1 <= r.keyEnd < length
              && var key := TextOf(bytes[from + 1..r.keyEnd]);
                 var next := Joined(es, inArray, key, VisitAt(bytes, length, bytes[from], r.extent, valid, stray));
                 all == if (key != "" && !valid(key, false)) || next.None? then None
                        else VisitBytes(bytes, length, r.extent.next, inArray, next.value, valid, stray)
  {
    hide Measure, Bounded, VisitAt, Joined, TextOf;
    DecodeAdvances(bytes, length, from, stray);
    if Decode(bytes, length, from, stray).Decoded? {
      FieldBounds(bytes, length, from, stray);
    }
  }

  /** phongo_bson_to_zval_ex with a root type of native array; the reader looks at the first document of the data. */
  method BsonToZval(data: seq<Byte>, valid: Validator, stray: Byte) returns (ok: bool, root: Php)
    ensures BytesToPhp(data, valid, stray) == if ok then Some(root) else None
  {
    hide VisitBytes;
    root := PhpNull;
    if |data| <= 4 || !InitStatic(data, U32At(data, 0)) {
      return false, root;
    }
    var iter := new Iter();
    ok := iter.Init(data, U32At(data, 0));
    var state := new VisitState(false);
    var stop := state.VisitAll(iter, valid, stray);
    ok := !stop && iter.errOff == 0;
    root := PhpArray(state.zchild);
  }
}
