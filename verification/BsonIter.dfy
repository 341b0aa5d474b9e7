/**
 bson_iter_t as an object: each step moves its offsets over one field or invalidates it, and
 searching and recursing are loops over steps. Proved against modules BsonCursor and BsonSearch.
 */
module BsonIter {
  import opened Bson
  import opened BsonBytes
  import opened BsonCursor
  import opened BsonFields
  import opened BsonReading
  import opened BsonSearch
  import opened LittleEndian
  import opened Words

  class Iter {
    var raw: Option<seq<Byte>>
    var len: nat
    var off: nat
    var typ: nat
    var key: nat
    var d1: nat
    var d2: nat
    var d3: nat
    var d4: nat
    var nextOff: nat
    var errOff: nat

    predicate Valid()
      reads this
    {
      raw.Some? ==> InMemory(raw.value, len) && 0 < nextOff
    }

    function Here(): Extent
      reads this
    {
      Extent(d1, d2, d3, d4, nextOff, 0)
    }

    /** The iterator observes a field that a successful step left it on. */
    predicate OnField()
      reads this
    {
      raw.Some? && typ < |raw.value| && Bounded(raw.value, len, raw.value[typ], Here())
    }

    /** The iterator stands on the field that was found. */
    predicate On(bytes: seq<Byte>, length: nat, f: Found)
      reads this
    {
      && raw == Some(bytes) && len == length && f.Found? && f.extent.Extent?
      && off == typ == f.off && key == f.off + 1 && nextOff == f.extent.next && errOff == 0
      && d1 == f.extent.d1 && d2 == f.extent.d2 && d3 == f.extent.d3 && d4 == f.extent.d4
    }

    constructor ()
      ensures raw == None
    {
      raw, len, off, typ, key := None, 0, 0, 0, 0;
      d1, d2, d3, d4, nextOff, errOff := 0, 0, 0, 0, 0, 0;
    }

    /** bson_iter_init, on a document of the given length at the start of some memory. */
    method Init(bytes: seq<Byte>, length: nat) returns (ok: bool)
      requires InMemory(bytes, length)
      modifies this
      ensures ok == (5 <= length)
      ensures ok ==> Valid() && Fresh(bytes, length)
    {
      off, typ, key, d1, d2, d3, d4, errOff := 0, 0, 0, 0, 0, 0, 0, 0;
      if length < 5 {
        raw, len, nextOff := None, 0, 0;
        return false;
      }
      raw, len, nextOff := Some(bytes), length, 4;
      ok := true;
    }

    /** Before the first field of a document. */
    predicate Fresh(bytes: seq<Byte>, length: nat)
      reads this
    {
      raw == Some(bytes) && len == length && nextOff == 4 && errOff == 0
    }

    /** mark_invalid. */
    method MarkInvalid()
      modifies this`raw, this`len, this`nextOff
      ensures raw == None && len == 0 && nextOff == 0
    {
      raw, len, nextOff := None, 0, 0;
    }

    /** The loops that look for a NUL. */
    method ScanNul(from: nat) returns (o: nat)
      requires raw.Some? && len <= |raw.value|
      ensures o == NulFrom(raw.value, from, len)
    {
      o := from;
      while o < len && raw.value[o] != 0
        invariant from <= o && (from <= len ==> o <= len)
        invariant NulFrom(raw.value, from, len) == NulFrom(raw.value, o, len)
        decreases len - o
      {
        o := o + 1;
      }
    }

    /** The fields of a data type hold what its measure says; bad reports a refusal. */
    predicate Filled(x: Extent, bad: bool, at: nat, unsupported: bool)
      reads this
    {
      if x.Corrupt? then bad && errOff == x.err && unsupported == x.unsupported
      else
        && !bad && !unsupported && nextOff == x.next && at == x.at
        && d1 == x.d1 && d2 == x.d2 && d3 == x.d3 && d4 == x.d4
    }

    method FillString(o: nat) returns (bad: bool)
      requires raw.Some? && InMemory(raw.value, len) && 6 <= o <= len
      requires d1 == o && d2 == d3 == d4 == 0
      modifies this`d2, this`nextOff, this`errOff
      ensures Filled(StringExtent(raw.value, len, o), bad, o, false)
    {
      bad := true;
      if o + 4 >= len {
        errOff := o;
        return;
      }
      d2 := o + 4;
      var l := U32At(raw.value, d1);
      if l > len - (o + 4) {
        errOff := o;
        return;
      }
      nextOff := o + 4 + l;
      if l == 0 || nextOff >= len {
        errOff := o;
        return;
      }
      if raw.value[d2 + (l - 1)] != 0 {
        errOff := o + 4 + l - 1;
        return;
      }
      bad := false;
    }

    method FillBinary(o: nat) returns (bad: bool)
      requires raw.Some? && InMemory(raw.value, len) && 6 <= o <= len
      requires d1 == o && d2 == d3 == d4 == 0
      modifies this`d2, this`d3, this`nextOff, this`errOff
      ensures Filled(BinaryExtent(raw.value, len, o), bad, o, false)
    {
      bad := true;
      if o >= len - 4 {
        errOff := o;
        return;
      }
      d2 := o + 4;
      d3 := o + 5;
      var l := U32At(raw.value, d1);
      if l >= len - o {
        errOff := o;
        return;
      }
      var subtype := raw.value[d2];
      if subtype == 2 {
        if l < 4 {
          errOff := o;
          return;
        }
      }
      nextOff := o + 5 + l;
      bad := false;
    }

    method FillDocument(o: nat) returns (bad: bool)
      requires raw.Some? && InMemory(raw.value, len) && 6 <= o <= len
      requires d1 == o && d2 == d3 == d4 == 0
      modifies this`nextOff, this`errOff
      ensures Filled(DocumentExtent(raw.value, len, o), bad, o, false)
    {
      bad := true;
      if o >= len - 4 {
        errOff := o;
        return;
      }
      var l := U32At(raw.value, d1);
      if l > len || l > len - o {
        errOff := o;
        return;
      }
      nextOff := o + l;
      bad := false;
    }

    method FillRegex(start: nat) returns (bad: bool, o: nat)
      requires raw.Some? && InMemory(raw.value, len) && 6 <= start <= len
      requires d1 == start && d2 == d3 == d4 == 0 && nextOff == off
      modifies this`d2, this`nextOff, this`errOff
      ensures Filled(RegexExtent(raw.value, len, off, start), bad, o, false)
    {
      bad := true;
      o := ScanNul(start);
      if o >= len {
        errOff := nextOff;
        return;
      }
      o := o + 1;
      d2 := o;
      o := ScanNul(o);
      if o >= len {
        errOff := nextOff;
        return;
      }
      nextOff := o + 1;
      bad := false;
    }

    method FillDbPointer(o: nat, stray: Byte) returns (bad: bool)
      requires raw.Some? && InMemory(raw.value, len) && 6 <= o <= len
      requires d1 == o && d2 == d3 == d4 == 0
      modifies this`d2, this`d3, this`nextOff, this`errOff
      ensures Filled(DbPointerExtent(raw.value, len, o, stray), bad, o, false)
    {
      bad := true;
      if o >= len - 4 {
        errOff := o;
        return;
      }
      d2 := o + 4;
      var l := U32At(raw.value, d1);
      if l > len || l > len - o {
        errOff := o;
        return;
      }
      if Peek(raw.value, o + l + 3, stray) != 0 {
        errOff := o + l + 3;
        return;
      }
      d3 := o + 4 + l;
      nextOff := o + 4 + l + 12;
      bad := false;
    }

    method FillScope(o: nat) returns (bad: bool)
      requires raw.Some? && InMemory(raw.value, len) && 6 <= o <= len
      requires d1 == o && d2 == d3 == d4 == 0
      modifies this`d2, this`d3, this`d4, this`nextOff, this`errOff
      ensures Filled(ScopeExtent(raw.value, len, o), bad, o, false)
    {
      bad := true;
      if len < 19 || o >= len - 14 {
        errOff := o;
        return;
      }
      d2 := o + 4;
      d3 := o + 8;
      var l := U32At(raw.value, d1);
      if l < 14 || l >= len - o {
        errOff := o;
        return;
      }
      nextOff := o + l;
      if nextOff >= len {
        errOff := o;
        return;
      }
      l := U32At(raw.value, d2);
      if l >= len - o - 4 - 4 {
        errOff := o;
        return;
      }
      if o + 4 + 4 + l + 4 >= nextOff {
        errOff := o + 4;
        return;
      }
      d4 := o + 4 + 4 + l;
      var doclen := U32At(raw.value, d4);
      if (o + 4 + 4 + l + doclen) % 0x1_0000_0000 != nextOff {
        errOff := o + 4 + 4 + l;
        return;
      }
      bad := false;
    }

    /** fill_data_fields: the switch over the type. */
    method FillDataFields(start: nat, stray: Byte) returns (bad: bool, o: nat, unsupported: bool)
      requires raw.Some? && InMemory(raw.value, len) && 4 <= off && off + 2 <= start <= len && typ == off
      requires d1 == start && d2 == d3 == d4 == 0 && nextOff == off
      modifies this`d1, this`d2, this`d3, this`d4, this`nextOff, this`errOff
      ensures Filled(Measure(raw.value, len, off, start, stray), bad, o, unsupported)
    {
      bad, o, unsupported := false, start, false;
      hide StringExtent, BinaryExtent, DocumentExtent, RegexExtent, DbPointerExtent, ScopeExtent;
      var t := raw.value[typ];
      if t == 0x09 || t == 0x01 || t == 0x12 || t == 0x11 {
        nextOff := o + 8;
      } else if t == 0x0d || t == 0x0e || t == 0x02 {
        bad := FillString(o);
      } else if t == 0x05 {
        bad := FillBinary(o);
      } else if t == 0x04 || t == 0x03 {
        bad := FillDocument(o);
      } else if t == 0x07 {
        nextOff := o + 12;
      } else if t == 0x08 {
        var val := Peek(raw.value, d1, stray);
        if val != 0 && val != 1 {
          errOff, bad := o, true;
        } else {
          nextOff := o + 1;
        }
      } else if t == 0x0b {
        bad, o := FillRegex(o);
      } else if t == 0x0c {
        bad := FillDbPointer(o, stray);
      } else if t == 0x0f {
        bad := FillScope(o);
      } else if t == 0x10 {
        nextOff := o + 4;
      } else if t == 0x13 {
        nextOff := o + 16;
      } else if t == 0x7f || t == 0xff || t == 0x0a || t == 0x06 {
        d1 := NO_DATA;
        nextOff := o;
      } else {
        unsupported := t != 0;
        errOff, bad := o, true;
      }
    }

    /**
     bson_iter_next: over one field, or invalid. An invalid iterator keeps its error offset when
     the key had no end, and stays as it is when stepped again.
     */
    method Next(stray: Byte) returns (ok: bool, unsupported: bool)
      requires Valid() && (raw.Some? ==> 4 <= nextOff)
      modifies this
      ensures Valid() && (old(raw).None? ==> !ok && !unsupported && unchanged(this))
      ensures old(raw).Some? ==>
                var r := Decode(old(raw).value, old(len), old(nextOff), stray);
                && ok == r.Decoded?
                && unsupported == (r.Refused? && r.unsupported)
                && (ok ==> On(old(raw).value, old(len), Found(old(nextOff), r.keyEnd, r.extent)) && nextOff < len)
                && (!ok ==> raw == None && len == 0 && nextOff == 0
                            && errOff == match r case Refused(err, _) => err case _ => old(errOff))
    {
      hide Measure;
      unsupported := false;
      if raw.None? {
        return false, false;
      }
      var o := StartField();
      if o >= len {
        MarkInvalid();
        return false, false;
      }
      ok, unsupported := FinishField(o + 1, stray);
    }

    /** The offsets of the new field; its key is looked over for the NUL that ends it. */
    method StartField() returns (o: nat)
      requires raw.Some? && InMemory(raw.value, len)
      modifies this`off, this`typ, this`key, this`d1, this`d2, this`d3, this`d4
      ensures off == typ == nextOff && key == off + 1 && d2 == d3 == d4 == 0
      ensures o == NulFrom(raw.value, off + 1, len) && d1 == if o < len then o + 1 else 0
    {
      off := nextOff;
      typ := off;
      key := off + 1;
      d1, d2, d3, d4 := 0, 0, 0, 0;
      o := ScanNul(off + 1);
      if o < len {
        d1 := o + 1;
      }
    }

    /** The data of the field, and the check that it lies within the document. */
    method FinishField(start: nat, stray: Byte) returns (ok: bool, unsupported: bool)
      requires raw.Some? && InMemory(raw.value, len) && 4 <= off && off + 2 <= start <= len && typ == off
      requires d1 == start && d2 == d3 == d4 == 0 && nextOff == off
      modifies this
      ensures off == old(off) && typ == old(typ) && key == old(key)
      ensures var x := Measure(old(raw).value, old(len), off, start, stray);
              && ok == (x.Extent? && x.next < old(len))
              && unsupported == (x.Corrupt? && x.unsupported)
              && (if ok then raw == old(raw) && len == old(len) && errOff == 0 && nextOff == x.next
                             && d1 == x.d1 && d2 == x.d2 && d3 == x.d3 && d4 == x.d4
                  else raw == None && len == 0 && nextOff == 0 && errOff == if x.Corrupt? then x.err else x.at)
    {
      hide Measure;
      var bad, o;
      bad, o, unsupported := FillDataFields(start, stray);
      if !bad && nextOff >= len {
        errOff, bad := o, true;
      }
      if bad {
        MarkInvalid();
        return false, unsupported;
      }
      errOff := 0;
      ok := true;
    }

    /**
     Stepping to the end and reading every field through the accessors on the way: the fields of the
     document, and no error offset, when all of them can be read.
     */
    method ReadAll(stray: Byte) returns (fields: Option<seq<Field>>)
      requires Valid() && raw.Some? && 4 <= nextOff && errOff == 0
      modifies this
      ensures fields == ReadFields(old(raw).value, old(len), old(nextOff), stray)
      ensures fields.Some? ==> errOff == 0
    {
      hide Decode, ReadFields, ReadValue, Bounded, TextOf, NulFrom, Behind;
      ghost var whole := ReadFields(raw.value, len, nextOff, stray);
      var read := [];
      BehindNothing(whole);
      while true
        invariant Valid() && raw == old(raw) && len == old(len) && 4 <= nextOff && errOff == 0
        invariant whole == Behind(read, ReadFields(raw.value, len, nextOff, stray))
        decreases if nextOff < len then len - nextOff else 0
      {
        var more, f := ReadNext(read, stray);
        if !more {
          return f;
        }
        read := f.value;
      }
    }

    /** One round: a field more behind those read, or the end with all of them, or with none. */
    method ReadNext(read: seq<Field>, stray: Byte) returns (more: bool, now: Option<seq<Field>>)
      requires Valid() && raw.Some? && 4 <= nextOff && errOff == 0
      modifies this
      ensures Valid()
      ensures var whole := Behind(read, ReadFields(old(raw).value, old(len), old(nextOff), stray));
              if more then
                && raw == old(raw) && len == old(len) && old(nextOff) < nextOff < len && errOff == 0 && now.Some?
                && whole == Behind(now.value, ReadFields(raw.value, len, nextOff, stray))
              else now == whole && (now.Some? ==> errOff == 0)
    {
      hide Decode, ReadFields, ReadValue, Bounded, TextOf, NulFrom;
      ghost var bytes, length, from := raw.value, len, nextOff;
      ReadStep(bytes, length, from, stray);
      var ok, unsupported := Next(stray);
      if !ok {
        assert read + [] == read;
        return false, if errOff == 0 then Some(read) else None;
      }
      BoundedHere(bytes, length, Decode(bytes, length, from, stray).extent);
      ReadHere(Decode(bytes, length, from, stray).extent, stray);
      var f := FieldHere(stray);
      if f.None? {
        return false, None;
      }
      ghost var rest := ReadFields(bytes, length, nextOff, stray);
      assert rest.Some? ==> read + ([f.value] + rest.value) == (read + [f.value]) + rest.value;
      return true, Some(read + [f.value]);
    }

    lemma ReadHere(x: Extent, stray: Byte)
      requires OnField() && x.Extent? && x == Extent(d1, d2, d3, d4, nextOff, x.at)
      requires Bounded(raw.value, len, raw.value[typ], x)
      ensures ReadValue(raw.value, len, raw.value[typ], Here(), stray) ==
              ReadValue(raw.value, len, raw.value[typ], x, stray)
    {
      hide Bounded, ReadValue;
      SameValue(raw.value, len, raw.value[typ], Here(), x, stray);
    }

    /** The key and the value of the field the iterator observes. */
    method FieldHere(stray: Byte) returns (f: Option<Field>)
      requires OnField() && NulFrom(raw.value, key, len) < len
      ensures var v := ReadValue(raw.value, len, raw.value[typ], Here(), stray);
              f == if v.None? then None else Some(Field(TextOf(raw.value[key..NulFrom(raw.value, key, len)]), v.value))
    {
      var end := ScanNul(key);
      var v := ReadValue(raw.value, len, raw.value[typ], Here(), stray);
      return if v.None? then None else Some(Field(TextOf(raw.value[key..end]), v.value));
    }

    // Searching.

    /** Whether the key of the field is the given one: strncmp, and then the NUL. */
    method KeyIs(name: string) returns (same: bool)
      requires raw.Some? && len <= |raw.value| && NulFrom(raw.value, key, len) < len && CName(name)
      ensures same == (TextOf(raw.value[key..NulFrom(raw.value, key, len)]) == name)
    {
      ghost var end := NulFrom(raw.value, key, len);
      ghost var text := TextOf(raw.value[key..end]);
      var i := 0;
      while i < |name| && raw.value[key + i] == name[i] as int
        invariant 0 <= i <= |name| && key + i <= end && forall k :: 0 <= k < i ==> text[k] == name[k]
      {
        assert name[i] in name;
        i := i + 1;
      }
      same := i == |name| && raw.value[key + i] == 0;
      if key + i < end {
        assert raw.value[key + i] != 0 && text[i] as int == raw.value[key + i];
      } else if i < |name| {
        assert |text| == i;
      }
    }

    /** One round of the search: a step, and a comparison of its key. */
    method NextIs(name: string, stray: Byte) returns (ok: bool, same: bool)
      requires Valid() && raw.Some? && 4 <= nextOff && CName(name)
      modifies this
      ensures Valid()
      ensures var f := Find(old(raw).value, old(len), old(nextOff), name, stray);
              && (!ok ==> f.Missing? && !same)
              && (ok ==> raw == old(raw) && len == old(len) && old(nextOff) < nextOff < len)
              && (ok && same ==> f.Found? && On(raw.value, len, f) && OnField())
              && (ok && !same ==> f == Find(raw.value, len, nextOff, name, stray))
    {
      hide Decode, Find, Bounded, TextOf, NulFrom, CName;
      ghost var bytes, length, from := raw.value, len, nextOff;
      FindStep(bytes, length, from, name, stray);
      var unsupported;
      ok, unsupported := Next(stray);
      if !ok {
        return false, false;
      }
      BoundedHere(bytes, length, Decode(bytes, length, from, stray).extent);
      same := KeyIs(name);
    }

    /** _bson_iter_find_with_len with the length of the name; a length of 0 finds nothing. */
    method FindWithLen(name: string, stray: Byte) returns (found: bool)
      requires Valid() && raw.Some? && 4 <= nextOff && CName(name)
      modifies this
      ensures Valid()
      ensures var f := Find(old(raw).value, old(len), old(nextOff), name, stray);
              found == (name != "" && f.Found?) && (found ==> On(old(raw).value, old(len), f) && OnField())
    {
      if |name| == 0 {
        return false;
      }
      found := FindKey(name, stray);
    }

    /** bson_iter_find, which passes the length -1: the length of the name is taken, and the empty name is one too. */
    method FindKey(name: string, stray: Byte) returns (found: bool)
      requires Valid() && raw.Some? && 4 <= nextOff && CName(name)
      modifies this
      ensures Valid()
      ensures var f := Find(old(raw).value, old(len), old(nextOff), name, stray);
              found == f.Found? && (found ==> On(old(raw).value, old(len), f) && OnField())
    {
      hide Find, Bounded, CName;
      ghost var sought := Find(raw.value, len, nextOff, name, stray);
      while true
        invariant Valid() && raw == old(raw) && len == old(len) && 4 <= nextOff
        invariant Find(raw.value, len, nextOff, name, stray) == sought
        decreases if nextOff < len then len - nextOff else 0
      {
        var ok, same := NextIs(name, stray);
        if !ok || same {
          return ok;
        }
      }
    }

    lemma BoundedHere(bytes: seq<Byte>, length: nat, x: Extent)
      requires raw == Some(bytes) && len == length && typ < |bytes| && Bounded(bytes, length, bytes[typ], x)
      requires d1 == x.d1 && d2 == x.d2 && d3 == x.d3 && d4 == x.d4 && nextOff == x.next
      ensures OnField()
    {
    }

    /** bson_iter_recurse: a fresh iterator over the document or array. */
    method Recurse(child: Iter) returns (ok: bool)
      requires OnField() && child != this
      modifies child
      ensures ok == (raw.value[typ] == 0x03 || raw.value[typ] == 0x04)
      ensures ok ==> child.Valid() && child.Fresh(raw.value[d1..], U32At(raw.value, d1))
    {
      if raw.value[typ] != 0x03 && raw.value[typ] != 0x04 {
        return false;
      }
      ChildInMemory(raw.value, len, raw.value[typ], Here());
      child.raw, child.len := Some(raw.value[d1..]), U32At(raw.value, d1);
      child.off, child.typ, child.key := 0, 0, 0;
      child.d1, child.d2, child.d3, child.d4 := 0, 0, 0, 0;
      child.nextOff, child.errOff := 4, 0;
      ok := true;
    }

    /** bson_iter_find_descendant: the descendant iterator ends up on the field. */
    method FindDescendant(dotkey: string, descendant: Iter, stray: Byte) returns (found: bool)
      requires Valid() && raw.Some? && nextOff == 4 && CName(dotkey) && descendant != this
      modifies this, descendant
      ensures var p := BsonSearch.FindDescendant(old(raw).value, old(len), dotkey, stray);
              found == p.Place? && (found ==> descendant.On(p.raw, p.len, p.field))
      decreases |dotkey|
    {
      hide Find, Bounded, CName, DotIn;
      var dot := FirstDot(dotkey);
      PartIsName(dotkey, dot);
      var ok := FindWithLen(dotkey[..dot], stray);
      if !ok {
        return false;
      }
      if dot == |dotkey| {
        descendant.CopyFrom(this);
        return true;
      }
      var tmp := new Iter();
      ok := Recurse(tmp);
      if !ok {
        return false;
      }
      found := tmp.FindDescendant(dotkey[dot + 1..], descendant, stray);
    }

    /** The assignment of one iterator to another. */
    method CopyFrom(other: Iter)
      modifies this
      ensures raw == other.raw && len == other.len && off == other.off && typ == other.typ && key == other.key
      ensures d1 == other.d1 && d2 == other.d2 && d3 == other.d3 && d4 == other.d4
      ensures nextOff == other.nextOff && errOff == other.errOff
    {
      raw, len, off, typ, key := other.raw, other.len, other.off, other.typ, other.key;
      d1, d2, d3, d4 := other.d1, other.d2, other.d3, other.d4;
      nextOff, errOff := other.nextOff, other.errOff;
    }
  }

  /** Fields already read, and the ones still to come if they can be read. */
  function Behind(read: seq<Field>, rest: Option<seq<Field>>): Option<seq<Field>>
  {
    if rest.Some? then Some(read + rest.value) else None
  }

  lemma BehindNothing(rest: Option<seq<Field>>)
    ensures Behind([], rest) == rest
  {
    assert rest.Some? ==> [] + rest.value == rest.value;
  }

  /** Two extents with the same slices; where the measure would have reported an error does not matter. */
  predicate SameSlices(x: Extent, y: Extent)
  {
    && x.Extent? && y.Extent?
    && x.d1 == y.d1 && x.d2 == y.d2 && x.d3 == y.d3 && x.d4 == y.d4 && x.next == y.next
  }

  lemma SameString(raw: seq<Byte>, x: Extent, y: Extent)
    requires SameSlices(x, y) && x.next <= |raw| && StringBounds(raw, x) && StringBounds(raw, y)
    ensures StringAt(raw, x) == StringAt(raw, y)
  {
    hide TextOf, U32At;
  }

  lemma SameBinary(raw: seq<Byte>, x: Extent, y: Extent)
    requires SameSlices(x, y) && x.next <= |raw| && BinaryBounds(raw, x) && BinaryBounds(raw, y)
    ensures BinaryAt(raw, x) == BinaryAt(raw, y)
  {
    hide TextOf, U32At;
  }

  lemma SameRegex(raw: seq<Byte>, x: Extent, y: Extent)
    requires SameSlices(x, y) && x.next <= |raw| && RegexBounds(raw, x) && RegexBounds(raw, y)
    ensures RegexAt(raw, x) == RegexAt(raw, y)
  {
    hide TextOf, U32At;
  }

  lemma SameDbPointer(raw: seq<Byte>, x: Extent, y: Extent)
    requires SameSlices(x, y) && x.next <= |raw| && DbPointerBounds(raw, x) && DbPointerBounds(raw, y)
    ensures DbPointerAt(raw, x) == DbPointerAt(raw, y)
  {
    hide TextOf, U32At;
  }

  lemma SameScalar(raw: seq<Byte>, len: nat, t: Byte, x: Extent, y: Extent)
    requires Bounded(raw, len, t, x) && Bounded(raw, len, t, y) && !HasFields(t) && SameSlices(x, y)
    ensures ScalarAt(raw, len, t, x) == ScalarAt(raw, len, t, y)
  {
    hide StringAt, BinaryAt, RegexAt, DbPointerAt, FixedAt, StringBounds, BinaryBounds, RegexBounds, DbPointerBounds;
    if IsString(t) {
      SameString(raw, x, y);
    } else if t == 0x05 {
      SameBinary(raw, x, y);
    } else if t == 0x0b {
      SameRegex(raw, x, y);
    } else if t == 0x0c {
      SameDbPointer(raw, x, y);
    }
  }

  lemma SameValue(raw: seq<Byte>, len: nat, t: Byte, x: Extent, y: Extent, stray: Byte)
    requires Bounded(raw, len, t, x) && Bounded(raw, len, t, y) && SameSlices(x, y)
    ensures ReadValue(raw, len, t, x, stray) == ReadValue(raw, len, t, y, stray)
  {
    hide Bounded, ScalarAt, ReadFields, TextOf, U32At;
    if !HasFields(t) {
      SameScalar(raw, len, t, x, y);
    }
  }

  /** Reading at one field: it and the fields after it, or the end, or a refusal. */
  lemma ReadStep(bytes: seq<Byte>, length: nat, from: nat, stray: Byte)
    requires InMemory(bytes, length) && 4 <= from
    ensures var r, fs := Decode(bytes, length, from, stray), ReadFields(bytes, length, from, stray);
            if r.Ended? then fs == Some([])
            else if r.Refused? then fs.None? && r.err != 0
            else
              && r.extent.Extent? && from < r.extent.next < length && from < length
              && Bounded(bytes, length, bytes[from], r.extent)
              && NulFrom(bytes, from + 1, length) == r.keyEnd && from + 1 <= r.keyEnd < length
              && var v := ReadValue(bytes, length, bytes[from], r.extent, stray);
                 var rest := ReadFields(bytes, length, r.extent.next, stray);
                 fs == if v.Some? && rest.Some?
                       then Some([Field(TextOf(bytes[from + 1..r.keyEnd]), v.value)] + rest.value) else None
  {
    hide Measure, Bounded, ReadValue;
    DecodeAdvances(bytes, length, from, stray);
    if Decode(bytes, length, from, stray).Decoded? {
      FieldBounds(bytes, length, from, stray);
    }
  }

  /** The search at one field: its key decides, or the search goes on at the next. */
  lemma FindStep(bytes: seq<Byte>, length: nat, from: nat, name: string, stray: Byte)
    requires InMemory(bytes, length) && 4 <= from
    ensures var r := Decode(bytes, length, from, stray);
            if !r.Decoded? then Find(bytes, length, from, name, stray).Missing?
            else
              && r.extent.Extent? && from < r.extent.next < length && from < length
              && Bounded(bytes, length, bytes[from], r.extent)
              && NulFrom(bytes, from + 1, length) == r.keyEnd && from + 1 <= r.keyEnd < length
              && Find(bytes, length, from, name, stray) ==
                 if TextOf(bytes[from + 1..r.keyEnd]) == name then Found(from, r.keyEnd, r.extent)
                 else Find(bytes, length, r.extent.next, name, stray)
  {
    hide Measure, Bounded;
    DecodeAdvances(bytes, length, from, stray);
    if Decode(bytes, length, from, stray).Decoded? {
      FieldBounds(bytes, length, from, stray);
    }
  }

  /** strchr for a dot. */
  method FirstDot(dotkey: string) returns (dot: nat)
    ensures dot == DotIn(dotkey)
  {
    dot := 0;
    while dot < |dotkey| && dotkey[dot] != '.'
      invariant 0 <= dot <= |dotkey| && DotIn(dotkey) == dot + DotIn(dotkey[dot..])
    {
      assert dotkey[dot..][1..] == dotkey[dot + 1..];
      dot := dot + 1;
    }
  }

  lemma PartIsName(dotkey: string, dot: nat)
    requires CName(dotkey) && dot <= |dotkey|
    ensures CName(dotkey[..dot]) && (dot < |dotkey| ==> CName(dotkey[dot + 1..]))
  {
  }
}
