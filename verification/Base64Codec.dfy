/**
 The base64 routines as they run: b64_ntop fills a character buffer, b64_initialize_rmap
 fills the reverse map, b64_pton_do fills a byte buffer in four states, and b64_pton_len only
 counts. Each is proved against the functions of module Base64.
 */
module Base64Codec {
  import opened Base64
  import opened CText
  import opened Words

  const RMAP_SPECIAL := 0xf0
  const RMAP_END := 0xfd
  const RMAP_SPACE := 0xfe
  const RMAP_INVALID := 0xff

  // Encoding.

  /** The text of three bytes and more: their four symbols, then the text of the rest. */
  lemma EncodeQuad(x: seq<Byte>)
    requires 3 <= |x|
    ensures Encode(x) == Chars(Quad(x[0], x[1], x[2])) + Encode(x[3..])
  {
    var quad, rest := Quad(x[0], x[1], x[2]), Sextets(x[3..]);
    assert Sextets(x) == quad + rest;
    assert Chars(quad + rest) == Chars(quad) + Chars(rest);
    assert |quad + rest| % 4 == |rest| % 4;
  }

  lemma EncodeRest(x: seq<Byte>)
    requires 0 < |x| < 3
    ensures var quad := Quad(x[0], if |x| == 2 then x[1] else 0, 0);
            Encode(x) == [CharOf(quad[0]), CharOf(quad[1]), if |x| == 1 then PAD else CharOf(quad[2]), PAD]
  {
    var quad := Quad(x[0], if |x| == 2 then x[1] else 0, 0);
    if |x| == 1 {
      assert Chars(quad[..2]) == [CharOf(quad[0]), CharOf(quad[1])];
    } else {
      assert Chars(quad[..3]) == [CharOf(quad[0]), CharOf(quad[1]), CharOf(quad[2])];
    }
  }

  /** The four cells from d on hold a group, and no other cell has changed. */
  method PutGroup(target: array<char>, d: nat, group: string)
    requires |group| == 4 && d + 4 <= target.Length
    modifies target
    ensures forall k :: d <= k < d + 4 ==> target[k] == group[k - d]
    ensures forall k :: 0 <= k < target.Length && !(d <= k < d + 4) ==> target[k] == old(target[k])
  {
    target[d] := group[0];
    target[d + 1] := group[1];
    target[d + 2] := group[2];
    target[d + 3] := group[3];
  }

  /** From byte `at` and cell `d` on, the text is the encoding of the bytes left. */
  predicate Pending(src: seq<Byte>, at: nat, text: string, d: nat)
  {
    at <= |src| && d <= |text| && Encode(src[at..]) == text[d..]
  }

  predicate GroupAt(text: string, d: nat, group: string)
  {
    |group| == 4 && d + 4 <= |text| && forall k :: d <= k < d + 4 ==> text[k] == group[k - d]
  }

  lemma NextGroup(src: seq<Byte>, at: nat, text: string, d: nat)
    requires Pending(src, at, text, d) && at + 3 <= |src|
    ensures GroupAt(text, d, Chars(Quad(src[at], src[at + 1], src[at + 2])))
    ensures Pending(src, at + 3, text, d + 4)
  {
    var group := Chars(Quad(src[at], src[at + 1], src[at + 2]));
    EncodeQuad(src[at..]);
    assert src[at..][3..] == src[at + 3..];
    assert text[d..][..4] == group && text[d..][4..] == text[d + 4..];
    assert forall k :: d <= k < d + 4 ==> text[k] == text[d..][..4][k - d];
  }

  function LastGroup(rest: seq<Byte>): (group: string)
    requires 0 < |rest| < 3
    ensures |group| == 4
  {
    var quad := Quad(rest[0], if |rest| == 2 then rest[1] else 0, 0);
    [CharOf(quad[0]), CharOf(quad[1]), if |rest| == 1 then PAD else CharOf(quad[2]), PAD]
  }

  lemma FinalGroup(src: seq<Byte>, at: nat, text: string, d: nat)
    requires Pending(src, at, text, d) && |src| < at + 3
    ensures if at == |src| then d == |text| else d + 4 == |text| && GroupAt(text, d, LastGroup(src[at..]))
  {
    if at == |src| {
      assert Encode(src[at..]) == "";
    } else {
      EncodeRest(src[at..]);
      assert forall k :: d <= k < |text| ==> text[k] == text[d..][k - d];
    }
  }

  /** The cells below d hold the text so far; those from targsize on are as before. */
  twostate predicate Written(target: array<char>, targsize: nat, text: string, d: nat)
    reads target
  {
    && d <= |text| && d <= targsize <= target.Length
    && (forall k :: 0 <= k < d ==> target[k] == text[k])
    && (forall k :: targsize <= k < target.Length ==> target[k] == old(target[k]))
  }

  /** b64_ntop: -1 just when the text and its NUL do not fit. */
  method Ntop(src: seq<Byte>, target: array<char>, targsize: nat) returns (r: int)
    requires targsize <= target.Length
    modifies target
    ensures r == if targsize <= |Encode(src)| then -1 else |Encode(src)|
    ensures r != -1 ==> target[..r] == Encode(src) && target[r] == '\0'
    ensures forall k :: targsize <= k < target.Length ==> target[k] == old(target[k])
  {
    ghost var text := Encode(src);
    assert src[0..] == src && text[0..] == text;
    r := NtopFrom(src, target, targsize, text);
  }

  method NtopFrom(src: seq<Byte>, target: array<char>, targsize: nat, ghost text: string) returns (r: int)
    requires targsize <= target.Length && Pending(src, 0, text, 0)
    modifies target
    ensures r == if targsize <= |text| then -1 else |text|
    ensures r != -1 ==> target[..r] == text && target[r] == '\0'
    ensures forall k :: targsize <= k < target.Length ==> target[k] == old(target[k])
  {
    var at, d := 0, 0;
    while 2 < |src| - at
      invariant 0 <= at <= |src| && 0 <= d && Pending(src, at, text, d)
      invariant Written(target, targsize, text, d)
    {
      NextGroup(src, at, text, d);
      var group := Chars(Quad(src[at], src[at + 1], src[at + 2]));
      at := at + 3;
      if d + 4 > targsize {
        return -1;
      }
      PutGroup(target, d, group);
      d := d + 4;
    }
    FinalGroup(src, at, text, d);
    if at != |src| {
      if d + 4 > targsize {
        return -1;
      }
      PutGroup(target, d, LastGroup(src[at..]));
      d := d + 4;
    }
    if d >= targsize {
      return -1;
    }
    target[d] := '\0';
    return d;
  }

  // The reverse map.

  function Reverse(c: char): int
  {
    if c == '\0' || c == PAD then RMAP_END
    else if IsSpace(c) then RMAP_SPACE
    else if IsSymbol(c) then SymbolValue(c)
    else RMAP_INVALID
  }

  predicate IsReverseMap(rmap: array<int>)
    reads rmap
  {
    rmap.Length == 256 && forall i :: 0 <= i < 256 ==> rmap[i] == Reverse(i as char)
  }

  /** b64_initialize_rmap. */
  method InitializeRmap(rmap: array<int>)
    requires rmap.Length == 256
    modifies rmap
    ensures IsReverseMap(rmap)
  {
    rmap[0] := RMAP_END;
    var i := 1;
    while i < 256
      invariant 1 <= i <= 256
      invariant forall k :: 0 <= k < i ==> rmap[k] == if IsSymbol(k as char) then RMAP_INVALID else Reverse(k as char)
    {
      var ch := i as char;
      rmap[i] := if IsSpace(ch) then RMAP_SPACE else if ch == PAD then RMAP_END else RMAP_INVALID;
      i := i + 1;
    }
    AlphabetOrder();
    i := 0;
    while i < 64
      invariant 0 <= i <= 64
      invariant forall k :: 0 <= k < 256 ==>
                  rmap[k] == if IsSymbol(k as char) && i <= SymbolValue(k as char) then RMAP_INVALID
                             else Reverse(k as char)
    {
      rmap[CharOf(i) as int] := i;
      i := i + 1;
    }
  }

  // Decoding.

  /** How many cells the decoder writes for n symbols. */
  function BufferSize(n: nat): nat { n / 4 * 3 + n % 4 }

  predicate Holds(target: array<Byte>, b: seq<Byte>)
    reads target
  {
    |b| <= target.Length && forall k :: 0 <= k < |b| ==> target[k] == b[k]
  }

  /** How the cells change with symbol v in the given state; cell w is the current one. */
  predicate NextCells(b: seq<int>, c: seq<int>, state: nat, w: nat, v: Sextet)
  {
    && state < 4 && |b| == w + (if state == 0 then 0 else 1)
    && |c| == w + (if state == 0 || state == 3 then 1 else 2)
    && (forall k :: 0 <= k < w ==> c[k] == b[k])
    && c[w] == (if state == 0 then v * 4 else b[w] + if state == 1 then v / 16 else if state == 2 then v / 4 else v)
    && (state == 1 ==> c[w + 1] == v % 16 * 16)
    && (state == 2 ==> c[w + 1] == v % 4 * 64)
  }

  /** One symbol in one of the four states. */
  method PutSymbol(target: array<Byte>, targsize: nat, state: nat, tarindex: nat, v: Sextet,
                   ghost b: seq<Byte>, ghost c: seq<Byte>)
    returns (fits: bool, next: nat, index: nat)
    requires targsize <= target.Length && |b| <= targsize && Holds(target, b)
    requires NextCells(b, c, state, tarindex, v)
    modifies target
    ensures fits == (|c| <= targsize)
    ensures fits ==> Holds(target, c)
    ensures fits ==> next == (if state == 3 then 0 else state + 1) && index == tarindex + if state == 0 then 0 else 1
    ensures forall k :: targsize <= k < target.Length ==> target[k] == old(target[k])
  {
    fits, next, index := false, state, tarindex;
    if state == 0 {
      if tarindex >= targsize { return; }
      target[tarindex] := v * 4;
      next := 1;
    } else if state == 1 {
      if tarindex + 1 >= targsize { return; }
      target[tarindex] := target[tarindex] + v / 16;
      target[tarindex + 1] := v % 16 * 16;
      next, index := 2, tarindex + 1;
    } else if state == 2 {
      if tarindex + 1 >= targsize { return; }
      target[tarindex] := target[tarindex] + v / 4;
      target[tarindex + 1] := v % 4 * 64;
      next, index := 3, tarindex + 1;
    } else {
      if tarindex >= targsize { return; }
      target[tarindex] := target[tarindex] + v;
      next, index := 0, tarindex + 1;
    }
    fits := true;
  }

  lemma NextCounts(n: nat)
    ensures (n + 1) % 4 == if n % 4 == 3 then 0 else n % 4 + 1
    ensures WholeBytes(n + 1) == WholeBytes(n) + if n % 4 == 0 then 0 else 1
    ensures BufferSize(n + 1) == BufferSize(n) + if n % 4 == 3 then 0 else 1
    ensures BufferSize(n) == WholeBytes(n) + if n % 4 == 0 then 0 else 1
  {
  }

  lemma CellsNext(q: seq<Sextet>, v: Sextet)
    ensures NextCells(Buffer(q), Buffer(q + [v]), |q| % 4, WholeBytes(|q|), v)
  {
    NextCounts(|q|);
    BufferStep(q, v);
    StepCells(Buffer(q), |q| % 4, WholeBytes(|q|), v);
  }

  lemma StepCells(b: seq<int>, state: nat, w: nat, v: Sextet)
    requires state < 4 && |b| == w + if state == 0 then 0 else 1
    ensures NextCells(b, Step(b, state, v), state, w, v)
  {
  }

  /** Having read i characters leaves symbols q; state and tarindex count them. */
  predicate Scanning(src: string, i: nat, q: seq<Sextet>, state: nat, tarindex: nat)
  {
    i <= |src| && ScanFrom(src, 0, []) == ScanFrom(src, i, q) && state == |q| % 4 && tarindex == WholeBytes(|q|)
  }

  lemma ScanOne(src: string, i: nat, q: seq<Sextet>, state: nat, tarindex: nat)
    requires Scanning(src, i, q, state, tarindex)
    ensures var r, c := ScanFrom(src, 0, []), At(src, i);
            if i == |src| || c == PAD then r == Scanned(q, i)
            else if IsSpace(c) then Scanning(src, i + 1, q, state, tarindex)
            else if IsSymbol(c) then
              Scanning(src, i + 1, q + [SymbolValue(c)], if state == 3 then 0 else state + 1,
                       tarindex + if state == 0 then 0 else 1)
            else r == Invalid
  {
    NextCounts(|q|);
  }

  lemma SpaceEntry(rmap: array<int>, ch: char)
    requires IsReverseMap(rmap) && ch < (256 as char)
    ensures rmap.Length == 256 && (rmap[ch as int] == RMAP_SPACE <==> IsSpace(ch))
  {
  }

  /** The loops over white space, up to another character or the end. */
  method SkipSpaces(src: OctetString, rmap: array<int>, from: nat) returns (i: nat)
    requires IsReverseMap(rmap) && from <= |src|
    ensures i == SpacesEnd(src, from)
  {
    hide IsReverseMap, IsSpace;
    i := from;
    var ch := At(src, i);
    while ch != '\0'
      invariant i <= |src| && ch == At(src, i) && SpacesEnd(src, from) == SpacesEnd(src, i)
      decreases |src| - i
    {
      SpaceEntry(rmap, ch);
      if rmap[ch as int] != RMAP_SPACE {
        break;
      }
      i := i + 1;
      ch := At(src, i);
    }
  }

  /** What must follow the symbols: the same checks end both passes. */
  method TailAccepted(src: OctetString, rmap: array<int>, end: nat, state: nat) returns (ok: bool)
    requires IsReverseMap(rmap) && end <= |src| && (end < |src| ==> src[end] == PAD) && state < 4
    ensures ok == TailOk(src, end, state)
  {
    var ch, i := At(src, end), end + 1;
    if ch != PAD {
      return state == 0;
    }
    if state == 0 || state == 1 {
      return false;
    }
    if state == 2 {
      i := SkipSpaces(src, rmap, i);
      ch := At(src, i);
      if ch != PAD {
        return false;
      }
      i := i + 1;
    }
    i := SkipSpaces(src, rmap, i);
    ch := At(src, i);
    return ch == '\0';
  }

  lemma TailByState(s: string, end: nat, n: nat)
    requires end <= |s|
    ensures TailOk(s, end, n) == TailOk(s, end, n % 4)
  {
    assert n % 4 % 4 == n % 4;
  }

  /** The cells of the symbols are in place; those from targsize on are as before. */
  twostate predicate Collected(target: array<Byte>, targsize: nat, b: seq<Byte>)
    reads target
  {
    && |b| <= targsize <= target.Length && Holds(target, b)
    && forall k :: targsize <= k < target.Length ==> target[k] == old(target[k])
  }

  /** The main loop of b64_pton_do, up to the character that ends the symbols. */
  method CollectSymbols(src: OctetString, rmap: array<int>, target: array<Byte>, targsize: nat)
    returns (ok: bool, end: nat, state: nat, tarindex: nat, ghost q: seq<Sextet>)
    requires IsReverseMap(rmap) && targsize <= target.Length
    modifies target
    ensures ok == (ScanFrom(src, 0, []).Scanned? && BufferSize(|ScanFrom(src, 0, []).q|) <= targsize)
    ensures ok ==> ScanFrom(src, 0, []) == Scanned(q, end) && Collected(target, targsize, Buffer(q))
    ensures ok ==> state == |q| % 4 && tarindex == WholeBytes(|q|)
    ensures forall k :: targsize <= k < target.Length ==> target[k] == old(target[k])
  {
    ok, end, state, tarindex, q := false, 0, 0, 0, [];
    ghost var cells: seq<Byte> := [];
    while true
      invariant end <= |src| && state < 4 && Scanning(src, end, q, state, tarindex)
      invariant cells == Buffer(q) && Collected(target, targsize, cells)
      decreases |src| - end
    {
      ScanOne(src, end, q, state, tarindex);
      var ch := At(src, end);
      var ofs := rmap[ch as int];
      if ofs >= RMAP_SPECIAL {
        if ofs == RMAP_SPACE {
          end := end + 1;
          continue;
        }
        if ofs == RMAP_END {
          break;
        }
        return;
      }
      CellsNext(q, ofs);
      ghost var before := cells;
      end, q, cells := end + 1, q + [ofs], Buffer(q + [ofs]);
      var fits, next, index := PutSymbol(target, targsize, state, tarindex, ofs, before, cells);
      if !fits {
        LaterSize(src, end, q);
        return;
      }
      state, tarindex := next, index;
    }
    ok := true;
  }

  /**
   b64_pton_do: the decoded length, or -1 for a text that does not decode or does not fit.
   Even when only the leftover bits are refused, the buffer holds the bytes.
   */
  method PtonDo(src: OctetString, rmap: array<int>, target: array<Byte>, targsize: nat) returns (r: int)
    requires IsReverseMap(rmap) && targsize <= target.Length
    modifies target
    ensures var scan := ScanFrom(src, 0, []);
            var fits := scan.Scanned? && BufferSize(|scan.q|) <= targsize;
            && (fits ==> Holds(target, Buffer(scan.q)))
            && r == if fits && Decode(src).Some? then |Decode(src).value| else -1
    ensures forall k :: targsize <= k < target.Length ==> target[k] == old(target[k])
  {
    var fits, end, state, tarindex, q := CollectSymbols(src, rmap, target, targsize);
    if !fits {
      return -1;
    }
    TailByState(src, end, |q|);
    var ok := TailAccepted(src, rmap, end, state);
    if !ok {
      return -1;
    }
    if (state == 2 || state == 3) && target[tarindex] != 0 {
      return -1;
    }
    return tarindex;
  }

  /** Scanning on only needs more room. */
  lemma {:induction false} LaterSize(src: string, i: nat, q: seq<Sextet>)
    requires i <= |src|
    ensures ScanFrom(src, i, q).Scanned? ==> BufferSize(|q|) <= BufferSize(|ScanFrom(src, i, q).q|)
    decreases |src| - i
  {
    if i == |src| || src[i] == PAD {
    } else if IsSpace(src[i]) {
      LaterSize(src, i + 1, q);
    } else if IsSymbol(src[i]) {
      NextCounts(|q|);
      LaterSize(src, i + 1, q + [SymbolValue(src[i])]);
    }
  }

  /** b64_pton_len. */
  method PtonLen(src: OctetString, rmap: array<int>) returns (r: int)
    requires IsReverseMap(rmap)
    ensures r == match DecodedLength(src) case Some(n) => n case None => -1
  {
    var state: nat, tarindex: nat, i: nat := 0, 0, 0;
    ghost var q: seq<Sextet> := [];
    while true
      invariant i <= |src| && state < 4 && Scanning(src, i, q, state, tarindex)
      decreases |src| - i
    {
      ScanOne(src, i, q, state, tarindex);
      var ch := At(src, i);
      var ofs := rmap[ch as int];
      if ofs >= RMAP_SPECIAL {
        if ofs == RMAP_SPACE {
          i := i + 1;
          continue;
        }
        if ofs == RMAP_END {
          break;
        }
        return -1;
      }
      i := i + 1;
      q := q + [ofs];
      if state != 0 {
        tarindex := tarindex + 1;
      }
      state := if state == 3 then 0 else state + 1;
    }
    var ok := TailAccepted(src, rmap, i, state);
    TailByState(src, i, |q|);
    return if ok then tarindex else -1;
  }
}
