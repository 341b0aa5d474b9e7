/**
 Which fields an iterator steps over: on any bytes whatever, just those whose data, told by their type,
 end before the last byte of the document. And dotted lookup in terms of the names between the dots.
 */
module BsonAcceptance {
  import opened Bson
  import opened BsonBytes
  import opened BsonCursor
  import opened BsonFields
  import opened BsonReading
  import opened BsonSearch
  import opened LittleEndian
  import opened Words

  // One field.

  /** No NUL but the last byte. */
  predicate CStringFrom(raw: seq<Byte>, from: nat, end: nat)
    requires end <= |raw|
  {
    from < end && raw[end - 1] == 0 && forall k :: from <= k < end - 1 ==> raw[k] != 0
  }

  /** Data of type t that start at o and end before `next`; the scope and the child documents are not looked into. */
  predicate FitsAt(raw: seq<Byte>, len: nat, t: Byte, o: nat, next: nat)
    requires InMemory(raw, len)
  {
    && o <= next < len
    && if FixedSize(t) > 0 then next == o + FixedSize(t) && (t == 0x08 ==> raw[o] <= 1)
       else if NoData(t) then next == o
       else if IsString(t) then o + 4 < next && o + 4 + U32At(raw, o) == next && raw[next - 1] == 0
       else if t == 0x03 || t == 0x04 then o + 4 < len && o + U32At(raw, o) == next
       else if t == 0x05 then
         o + 5 <= next && o + 5 + U32At(raw, o) == next && (raw[o + 4] == 2 ==> 4 <= U32At(raw, o))
       else if t == 0x0b then
         exists m :: o < m < next && CStringFrom(raw, o, m) && CStringFrom(raw, m, next)
       else if t == 0x0c then
         o + 16 <= next && o + 16 + U32At(raw, o) == next && raw[next - 13] == 0
       else if t == 0x0f then FitsScope(raw, len, o, next)
       else false
  }

  predicate FitsScope(raw: seq<Byte>, len: nat, o: nat, next: nat)
    requires InMemory(raw, len) && next < len
  {
    && o + 14 <= next && o + U32At(raw, o) == next
    && var scope := o + 8 + U32At(raw, o + 4);
       scope + 4 < next && scope + U32At(raw, scope) == next
  }

  lemma {:induction false} NulAt(raw: seq<Byte>, from: nat, end: nat, len: nat)
    requires len <= |raw| && end <= len && CStringFrom(raw, from, end)
    ensures NulFrom(raw, from, len) == end - 1
    decreases end - from
  {
    if from < end - 1 {
      NulAt(raw, from + 1, end, len);
    }
  }

  lemma RegexIff(raw: seq<Byte>, len: nat, off: nat, o: nat, next: nat)
    requires InMemory(raw, len) && 0 < off < o <= len && raw[off] == 0x0b
    ensures FitsAt(raw, len, 0x0b, o, next) <==>
            var x := RegexExtent(raw, len, off, o); x.Extent? && x.next == next && next < len
  {
    var x := RegexExtent(raw, len, off, o);
    if FitsAt(raw, len, 0x0b, o, next) {
      var m :| o < m < next && CStringFrom(raw, o, m) && CStringFrom(raw, m, next);
      NulAt(raw, o, m, len);
      NulAt(raw, m, next, len);
    }
    if x.Extent? && x.next == next && next < len {
      assert CStringFrom(raw, o, x.d2) && CStringFrom(raw, x.d2, next);
    }
  }

  lemma WrapIff(a: nat, b: Word32, n: nat)
    requires a < n < 0x8000_0000
    ensures (a + b) % 0x1_0000_0000 == n <==> a + b == n
  {
    if (a + b) % 0x1_0000_0000 == n {
      WrapExact(a, b, n);
    }
  }

  lemma ScopeIff(raw: seq<Byte>, len: nat, o: nat, next: nat)
    requires InMemory(raw, len) && 6 <= o <= len
    ensures next < len && FitsScope(raw, len, o, next) <==>
            var x := ScopeExtent(raw, len, o); x.Extent? && x.next == next && next < len
  {
    hide U32At;
    if len >= 19 && o + 14 < len {
      var total, l := U32At(raw, o), U32At(raw, o + 4);
      if 14 <= total < len - o && l < len - o - 8 && o + 8 + l + 4 < o + total {
        WrapIff(o + 8 + l, U32At(raw, o + 8 + l), o + total);
      }
    }
  }

  lemma SizedIff(raw: seq<Byte>, len: nat, t: Byte, o: nat, next: nat, stray: Byte)
    requires InMemory(raw, len) && 6 <= o <= len && (IsString(t) || t == 0x03 || t == 0x04 || t == 0x05 || t == 0x0c)
    ensures FitsAt(raw, len, t, o, next) <==>
            var x := if IsString(t) then StringExtent(raw, len, o)
                     else if t == 0x05 then BinaryExtent(raw, len, o)
                     else if t == 0x0c then DbPointerExtent(raw, len, o, stray)
                     else DocumentExtent(raw, len, o);
            x.Extent? && x.next == next && next < len
  {
  }

  lemma MeasureIff(raw: seq<Byte>, len: nat, off: nat, o: nat, next: nat, stray: Byte)
    requires InMemory(raw, len) && 4 <= off && off + 2 <= o <= len
    ensures FitsAt(raw, len, raw[off], o, next) <==>
            var x := Measure(raw, len, off, o, stray); x.Extent? && x.next == next && next < len
  {
    hide StringExtent, BinaryExtent, DocumentExtent, RegexExtent, DbPointerExtent, ScopeExtent, U32At;
    var t := raw[off];
    if t == 0x0b {
      RegexIff(raw, len, off, o, next);
    } else if t == 0x0f {
      ScopeIff(raw, len, o, next);
    } else if IsString(t) || t == 0x03 || t == 0x04 || t == 0x05 || t == 0x0c {
      hide FitsAt;
      SizedIff(raw, len, t, o, next, stray);
    }
  }

  /** A step succeeds exactly when the key ends and the data fit, and then goes on where the data end. */
  lemma StepsIff(raw: seq<Byte>, len: nat, off: nat, next: nat, stray: Byte)
    requires InMemory(raw, len) && 4 <= off
    ensures var r, keyEnd := Decode(raw, len, off, stray), NulFrom(raw, off + 1, len);
            r.Decoded? && r.extent.Extent? && r.extent.next == next
            <==> keyEnd < len && FitsAt(raw, len, raw[off], keyEnd + 1, next)
  {
    hide Measure, FitsAt;
    var keyEnd := NulFrom(raw, off + 1, len);
    if keyEnd < len {
      MeasureIff(raw, len, off, keyEnd + 1, next, stray);
    }
  }

  /**
   Where errors are reported: at the data, but at the type byte for a pattern without an end, at the last byte for
   one that ends there, at the byte that should be a NUL, and at the length or the scope of code that do not fit.
   */
  lemma ErrorsAreAt(raw: seq<Byte>, len: nat, off: nat, stray: Byte)
    requires InMemory(raw, len) && 0 < off < len
    ensures var r, o, t := Decode(raw, len, off, stray), NulFrom(raw, off + 1, len) + 1, raw[off];
            r.Refused? ==>
              if t == 0x0b then r.err == off || (r.err == len - 1 && raw[len - 1] == 0)
              else
                || r.err == o
                || (IsString(t) && r.err == o + 3 + U32At(raw, o) < len && raw[r.err] != 0)
                || (t == 0x0c && r.err == o + 3 + U32At(raw, o) && Peek(raw, r.err, stray) != 0)
                || (t == 0x0f && (r.err == o + 4 || r.err == o + 8 + U32At(raw, o + 4)))
  {
    hide U32At;
  }

  /** A text is what lies between its length and its NUL. */
  lemma StringFills(raw: seq<Byte>, x: Extent)
    requires x.Extent? && x.next <= |raw| && StringBounds(raw, x)
    ensures StringAt(raw, x) == TextOf(raw[x.d1 + 4..x.next - 1])
  {
    hide U32At, TextOf;
  }

  /** Binary data is what follows its subtype; the deprecated one has another length before it, which is passed over. */
  lemma BinaryFills(raw: seq<Byte>, x: Extent)
    requires x.Extent? && x.next <= |raw| && BinaryBounds(raw, x)
    ensures BinaryAt(raw, x) == Binary(raw[x.d1 + 4], raw[x.d1 + (if raw[x.d1 + 4] == 2 then 9 else 5)..x.next])
  {
    hide U32At;
  }

  /** The name of a collection is what lies before its NUL; the id takes the last twelve bytes. */
  lemma DbPointerFills(raw: seq<Byte>, x: Extent)
    requires x.Extent? && x.next <= |raw| && DbPointerBounds(raw, x)
    ensures DbPointerAt(raw, x) ==
            DbPointer(TextOf(raw[x.d1 + 4..Max(x.d1 + 4, x.next - 13)]), raw[x.next - 12..x.next])
  {
    hide U32At, TextOf;
  }

  /** A value read has the type of its field. */
  lemma TypeIsKept(raw: seq<Byte>, len: nat, t: Byte, x: Extent)
    requires Bounded(raw, len, t, x) && !HasFields(t)
    ensures TypeCode(ScalarAt(raw, len, t, x)) == t
  {
    hide U32At, U64At, TextOf, StringAt;
  }

  // Dotted names.

  function Dotted(names: seq<string>): string
    requires names != []
  {
    if |names| == 1 then names[0] else names[0] + "." + Dotted(names[1..])
  }

  /** The first field of each name in turn; only documents and arrays have fields, and no name is empty. */
  function Along(fs: seq<Field>, names: seq<string>): Option<Value>
    requires names != []
    decreases |names|
  {
    var v := if names[0] == "" then None else FirstField(fs, names[0]);
    if |names| == 1 || v.None? then v
    else
      match v.value
      case Document(inner) => Along(inner, names[1..])
      case Array(inner) => Along(inner, names[1..])
      case _ => None
  }

  lemma {:induction false} DotAt(name: string, rest: string)
    requires '.' !in name && (rest != "" ==> rest[0] == '.')
    ensures DotIn(name + rest) == |name|
  {
    if name == "" {
      assert name + rest == rest;
    } else {
      assert (name + rest)[1..] == name[1..] + rest;
      DotAt(name[1..], rest);
    }
  }

  /** Names without dots, joined by dots, are looked up one after the other. */
  lemma {:induction false} LookupIsAlong(fs: seq<Field>, names: seq<string>)
    requires names != [] && forall k :: 0 <= k < |names| ==> '.' !in names[k]
    ensures Descend(fs, Dotted(names)) == Along(fs, names)
    decreases |names|
  {
    hide FirstField, DotIn;
    var name, key := names[0], Dotted(names);
    if |names| == 1 {
      DotAt(name, "");
      assert name + "" == name && key[..|name|] == name;
    } else {
      var rest := "." + Dotted(names[1..]);
      assert key == name + rest;
      DotAt(name, rest);
      assert key[..|name|] == name && key[|name| + 1..] == Dotted(names[1..]);
      var v := FirstField(fs, name);
      if v.Some? && (v.value.Document? || v.value.Array?) {
        LookupIsAlong(v.value.fields, names[1..]);
      }
    }
  }

  /** Every dotted key is made of such names. */
  lemma {:induction false} KeyIsDotted(key: string) returns (names: seq<string>)
    ensures names != [] && (forall k :: 0 <= k < |names| ==> '.' !in names[k]) && Dotted(names) == key
    decreases |key|
  {
    var dot := DotIn(key);
    if dot == |key| {
      names := [key];
    } else {
      var rest := KeyIsDotted(key[dot + 1..]);
      names := [key[..dot]] + rest;
      assert names[1..] == rest;
      assert key == key[..dot] + "." + key[dot + 1..];
    }
  }
}
