/**
 Walking and searching: the fields that iteration steps over tile a document exactly when it
 ends without error, and dotted lookup finds the first field of each name, level by level.
 */
module BsonSearch {
  import opened Bson
  import opened BsonBytes
  import opened BsonCursor
  import opened BsonFields
  import opened BsonReading
  import opened LittleEndian
  import opened Words

  // Tiling.

  datatype Span = Span(start: nat, end: nat)

  /** The fields stepped over from offset off on, and the error offset iteration stops with. */
  datatype Walked = Walked(spans: seq<Span>, err: nat)

  function Walk(raw: seq<Byte>, len: nat, off: nat, stray: Byte): Walked
    requires InMemory(raw, len) && 0 < off
    decreases if off < len then len - off else 0
  {
    match Decode(raw, len, off, stray)
    case Ended => Walked([], 0)
    case Refused(err, _) => Walked([], err)
    case Decoded(_, x) =>
      DecodeAdvances(raw, len, off, stray);
      var rest := Walk(raw, len, x.next, stray);
      Walked([Span(off, x.next)] + rest.spans, rest.err)
  }

  /** Spans that follow each other without gap or overlap, from one offset to another. */
  predicate Tile(spans: seq<Span>, from: nat, to: nat)
    decreases |spans|
  {
    if spans == [] then from == to
    else spans[0].start == from < spans[0].end && Tile(spans[1..], spans[0].end, to)
  }

  /** The spans tile the bytes from off to stop, the last byte exactly when there was no error. */
  predicate StopsAt(w: Walked, off: nat, stop: nat, len: nat)
  {
    off <= stop < len && Tile(w.spans, off, stop) && (w.err == 0 <==> stop == len - 1)
  }

  lemma NulBeforeEnd(raw: seq<Byte>, i: nat, len: nat)
    requires i < len <= |raw| && raw[len - 1] == 0
    ensures NulFrom(raw, i, len) < len
  {
    var e := NulFrom(raw, i, len);
    assert raw[len - 1] == 0;
  }

  /**
   On a document that ends in a zero byte the spans tile it from off to where iteration stops,
   which is the last byte exactly when there was no error.
   */
  lemma {:induction false} WalkTiles(raw: seq<Byte>, len: nat, off: nat, stray: Byte)
    requires InMemory(raw, len) && 0 < off < len && raw[len - 1] == 0
    ensures var w := Walk(raw, len, off, stray);
            exists stop :: StopsAt(w, off, stop, len)
    decreases len - off
  {
    hide Measure;
    var r := Decode(raw, len, off, stray);
    DecodeAdvances(raw, len, off, stray);
    if r.Decoded? {
      WalkTiles(raw, len, r.extent.next, stray);
      var rest := Walk(raw, len, r.extent.next, stray);
      var stop :| StopsAt(rest, r.extent.next, stop, len);
      assert ([Span(off, r.extent.next)] + rest.spans)[1..] == rest.spans;
      assert StopsAt(Walk(raw, len, off, stray), off, stop, len);
    } else {
      if off == len - 1 {
        EndsHere(raw, len, off, stray);
      } else {
        NulBeforeEnd(raw, off + 1, len);
      }
      assert StopsAt(Walk(raw, len, off, stray), off, off, len);
    }
  }

  /** In a tiling every offset lies in just one span. */
  lemma {:induction false} TileCovers(spans: seq<Span>, from: nat, to: nat, p: nat)
    requires Tile(spans, from, to)
    ensures from <= to
    ensures from <= p < to <==> exists k :: 0 <= k < |spans| && spans[k].start <= p < spans[k].end
    ensures forall j, k | 0 <= j < |spans| && 0 <= k < |spans| ::
              (spans[j].start <= p < spans[j].end && spans[k].start <= p < spans[k].end) ==> j == k
    decreases |spans|
  {
    if spans != [] {
      TileCovers(spans[1..], spans[0].end, to, p);
      assert forall k :: 1 <= k < |spans| ==> spans[k] == spans[1..][k - 1];
      assert forall k :: 0 <= k < |spans| - 1 ==> spans[1..][k] == spans[k + 1];
    }
  }

  /** Reading all fields takes one step a field and ends without error. */
  lemma {:induction false} ReadingWalks(raw: seq<Byte>, len: nat, off: nat, fs: seq<Field>, stray: Byte)
    requires InMemory(raw, len) && 0 < off && ReadFields(raw, len, off, stray) == Some(fs)
    ensures Walk(raw, len, off, stray).err == 0 && |Walk(raw, len, off, stray).spans| == |fs|
    decreases |fs|
  {
    hide Decode, ReadValue, Bounded, TextOf;
    var r := Decode(raw, len, off, stray);
    if r.Decoded? {
      DecodeAdvances(raw, len, off, stray);
      FieldBounds(raw, len, off, stray);
      ReadingWalks(raw, len, r.extent.next, fs[1..], stray);
    }
  }

  // Lookup.

  /** A field found: the offset of its type, the end of its key, its data. */
  datatype Found = Missing | Found(off: nat, keyEnd: nat, extent: Extent)

  /** bson_iter_find: the loop over the fields until one has the key. */
  function Find(raw: seq<Byte>, len: nat, off: nat, key: string, stray: Byte): (r: Found)
    requires InMemory(raw, len) && 0 < off
    ensures r.Found? ==> off <= r.off && r.off < |raw| && Bounded(raw, len, raw[r.off], r.extent)
    decreases if off < len then len - off else 0
  {
    match Decode(raw, len, off, stray)
    case Ended => Missing
    case Refused(_, _) => Missing
    case Decoded(keyEnd, x) =>
      DecodeAdvances(raw, len, off, stray);
      FieldBounds(raw, len, off, stray);
      if TextOf(raw[off + 1..keyEnd]) == key then Found(off, keyEnd, x)
      else Find(raw, len, x.next, key, stray)
  }

  /** Where the first dot is, or the length. */
  function DotIn(s: string): (i: nat)
    ensures i <= |s| && (i < |s| ==> s[i] == '.')
    ensures forall k :: 0 <= k < i ==> s[k] != '.'
  {
    if s == "" || s[0] == '.' then 0 else 1 + DotIn(s[1..])
  }

  /** A descendant found: the bytes of the document it lies in, and the field there. */
  datatype Place = Nowhere | Place(raw: seq<Byte>, len: nat, field: Found)

  /** bson_iter_find_descendant, from a fresh iterator; an empty part of the dotted key finds nothing. */
  function FindDescendant(raw: seq<Byte>, len: nat, dotkey: string, stray: Byte): (r: Place)
    requires InMemory(raw, len)
    ensures r.Place? ==>
            r.field.Found? && r.field.off < |r.raw| && Bounded(r.raw, r.len, r.raw[r.field.off], r.field.extent)
    decreases |dotkey|
  {
    var dot := DotIn(dotkey);
    var found := if dot == 0 then Missing else Find(raw, len, 4, dotkey[..dot], stray);
    if found.Missing? then Nowhere
    else if dot == |dotkey| then Place(raw, len, found)
    else if raw[found.off] == 0x03 || raw[found.off] == 0x04 then
      var d1 := found.extent.d1;
      FindDescendant(raw[d1..], U32At(raw, d1), dotkey[dot + 1..], stray)
    else Nowhere
  }

  // The same on trees.

  function FirstField(fs: seq<Field>, key: string): (r: Option<Value>)
    ensures r.Some? <==> exists f :: f in fs && f.key == key
    ensures forall k :: 0 <= k < |fs| && fs[k].key == key && (forall j :: 0 <= j < k ==> fs[j].key != key) ==>
            r == Some(fs[k].value)
  {
    if fs == [] then None else if fs[0].key == key then Some(fs[0].value) else FirstField(fs[1..], key)
  }

  /** Taking the first field of each name, and entering only documents and arrays; names are not empty. */
  function Descend(fs: seq<Field>, dotkey: string): Option<Value>
    decreases |dotkey|
  {
    var dot := DotIn(dotkey);
    var v := if dot == 0 then None else FirstField(fs, dotkey[..dot]);
    if v.None? || dot == |dotkey| then v
    else if v.value.Document? || v.value.Array? then Descend(v.value.fields, dotkey[dot + 1..])
    else None
  }

  /** What is found is the first field of that name, and reads as it. */
  predicate FindsFirst(raw: seq<Byte>, len: nat, found: Found, fs: seq<Field>, key: string, stray: Byte)
    requires found.Found? ==> found.off < |raw| && Bounded(raw, len, raw[found.off], found.extent)
  {
    if FirstField(fs, key).None? then found.Missing?
    else found.Found? && ReadValue(raw, len, raw[found.off], found.extent, stray) == FirstField(fs, key)
  }

  lemma {:induction false} FindReads(raw: seq<Byte>, len: nat, off: nat, fs: seq<Field>, key: string, stray: Byte)
    requires InMemory(raw, len) && 0 < off && ReadFields(raw, len, off, stray) == Some(fs)
    ensures FindsFirst(raw, len, Find(raw, len, off, key, stray), fs, key, stray)
    decreases |fs|
  {
    hide Decode, ReadValue, Bounded, TextOf;
    var r := Decode(raw, len, off, stray);
    if r.Decoded? {
      DecodeAdvances(raw, len, off, stray);
      FieldBounds(raw, len, off, stray);
      assert fs[0].key == TextOf(raw[off + 1..r.keyEnd]);
      if fs[0].key != key {
        FindReads(raw, len, r.extent.next, fs[1..], key, stray);
      }
    }
  }

  /** A document or array that reads back is entered through its own bytes. */
  lemma EntersFields(raw: seq<Byte>, len: nat, t: Byte, x: Extent, stray: Byte)
    requires Bounded(raw, len, t, x) && ReadValue(raw, len, t, x, stray).Some?
    ensures var v := ReadValue(raw, len, t, x, stray).value;
            (v.Document? || v.Array? <==> t == 0x03 || t == 0x04)
            && (v.Document? || v.Array? ==> ReadFields(raw[x.d1..], U32At(raw, x.d1), 4, stray) == Some(v.fields))
  {
    hide ReadFields;
  }

  /**
   Dotted lookup succeeds exactly when taking the first field of each name does, and lands on
   that field, on every document whose fields can all be read.
   */
  lemma {:induction false} DescendantIsFirstMatch(raw: seq<Byte>, len: nat, fs: seq<Field>, dotkey: string, stray: Byte)
    requires InMemory(raw, len) && ReadFields(raw, len, 4, stray) == Some(fs)
    ensures var p, v := FindDescendant(raw, len, dotkey, stray), Descend(fs, dotkey);
            && (p.Place? <==> v.Some?)
            && (p.Place? ==> ReadValue(p.raw, p.len, p.raw[p.field.off], p.field.extent, stray) == v)
    decreases |dotkey|
  {
    hide ReadFields, ReadValue, Bounded, Find, FirstField, DotIn, InMemory, U32At;
    var dot := DotIn(dotkey);
    FindReads(raw, len, 4, fs, dotkey[..dot], stray);
    var found := Find(raw, len, 4, dotkey[..dot], stray);
    if found.Found? && dot < |dotkey| {
      EntersFields(raw, len, raw[found.off], found.extent, stray);
      var v := ReadValue(raw, len, raw[found.off], found.extent, stray).value;
      if v.Document? || v.Array? {
        ChildInMemory(raw, len, raw[found.off], found.extent);
        DescendantIsFirstMatch(raw[found.extent.d1..], U32At(raw, found.extent.d1), v.fields, dotkey[dot + 1..], stray);
      }
    }
  }

  lemma ChildInMemory(raw: seq<Byte>, len: nat, t: Byte, x: Extent)
    requires Bounded(raw, len, t, x) && (t == 0x03 || t == 0x04)
    ensures x.Extent? && x.d1 + 4 <= |raw| && InMemory(raw[x.d1..], U32At(raw, x.d1))
  {
  }
}
