/**
 Base64 (section 4 of RFC 4648) as b64_ntop.h writes it and b64_pton.h reads it: the text of
 a byte string, what a text decodes to, and the laws that connect the two.
 */
module Base64 {
  import opened CText
  import opened Words

  type Sextet = v: int | 0 <= v < 64

  const ALPHABET: string := "ABCDEFGHIJKLMNOPQRSTUVWXYZ" + "abcdefghijklmnopqrstuvwxyz" + "0123456789" + "+/"
  const PAD: char := '='

  /** A C string as the bytes it holds, each an index into the reverse map where char is unsigned. */
  type OctetString = s: string | forall k :: 0 <= k < |s| ==> '\0' < s[k] < (256 as char)

  predicate IsSymbol(c: char)
  {
    'A' <= c <= 'Z' || 'a' <= c <= 'z' || '0' <= c <= '9' || c == '+' || c == '/'
  }

  function SymbolValue(c: char): (v: Sextet)
    requires IsSymbol(c)
    ensures CharOf(v) == c
  {
    if 'A' <= c <= 'Z' then c as int - 'A' as int
    else if 'a' <= c <= 'z' then c as int - 'a' as int + 26
    else if '0' <= c <= '9' then c as int - '0' as int + 52
    else if c == '+' then 62
    else 63
  }

  function CharOf(v: Sextet): (c: char)
    ensures IsSymbol(c)
  {
    if v < 26 then (v + 'A' as int) as char
    else if v < 52 then (v - 26 + 'a' as int) as char
    else if v < 62 then (v - 52 + '0' as int) as char
    else if v == 62 then '+'
    else '/'
  }

  lemma AlphabetOrder()
    ensures |ALPHABET| == 64
    ensures forall v: Sextet :: ALPHABET[v] == CharOf(v) && SymbolValue(CharOf(v)) == v
  {
  }

  function Chars(q: seq<Sextet>): (s: string)
    ensures |s| == |q|
    ensures forall k :: 0 <= k < |q| ==> s[k] == CharOf(q[k])
  {
    seq(|q|, k requires 0 <= k < |q| => CharOf(q[k]))
  }

  // Encoding.

  /** The four six-bit groups of three bytes. */
  function Quad(a: Byte, b: Byte, c: Byte): seq<Sextet>
  {
    [a / 4, a % 4 * 16 + b / 16, b % 16 * 4 + c / 64, c % 64]
  }

  /** All six-bit groups of a byte string; the last one is filled up with zero bits. */
  function Sextets(x: seq<Byte>): (q: seq<Sextet>)
    ensures |q| == |x| / 3 * 4 + (if |x| % 3 == 0 then 0 else |x| % 3 + 1)
  {
    if |x| == 0 then []
    else if |x| == 1 then Quad(x[0], 0, 0)[..2]
    else if |x| == 2 then Quad(x[0], x[1], 0)[..3]
    else Quad(x[0], x[1], x[2]) + Sextets(x[3..])
  }

  /** The padding that completes a final group of `n` symbols. */
  function Padding(n: nat): string
  {
    if n % 4 == 2 then "==" else if n % 4 == 3 then "=" else ""
  }

  function Encode(x: seq<Byte>): string
  {
    Chars(Sextets(x)) + Padding(|Sextets(x)|)
  }

  /** Padding fills a text up to whole groups of four. */
  lemma EncodedLength(x: seq<Byte>)
    ensures |Encode(x)| == (|x| + 2) / 3 * 4
  {
    GroupCount(|x| / 3, |x| % 3);
  }

  lemma GroupCount(k: nat, r: nat)
    requires r < 3
    ensures (3 * k + r + 2) / 3 == if r == 0 then k else k + 1
    ensures (4 * k + (if r == 0 then 0 else r + 1)) % 4 == if r == 0 then 0 else r + 1
  {
    if r == 0 {
    } else if r == 1 {
    } else {
    }
  }

  // Decoding.

  function Byte0(a: Sextet, b: Sextet): Byte { a * 4 + b / 16 }
  function Byte1(b: Sextet, c: Sextet): Byte { b % 16 * 16 + c / 4 }
  function Byte2(c: Sextet, d: Sextet): Byte { c % 4 * 64 + d }

  /** The bytes of one to four symbols; with fewer than four the last byte is only begun. */
  function GroupBytes(q: seq<Sextet>): (b: seq<Byte>)
    requires 1 <= |q| <= 4
    ensures |b| == if |q| == 4 then 3 else |q|
  {
    if |q| == 1 then [Byte0(q[0], 0)]
    else if |q| == 2 then [Byte0(q[0], q[1]), Byte1(q[1], 0)]
    else if |q| == 3 then [Byte0(q[0], q[1]), Byte1(q[1], q[2]), Byte2(q[2], 0)]
    else [Byte0(q[0], q[1]), Byte1(q[1], q[2]), Byte2(q[2], q[3])]
  }

  /** What the decoder's buffer holds after the symbols q, up to the cell it is filling. */
  function Buffer(q: seq<Sextet>): (b: seq<Byte>)
    ensures |b| == |q| / 4 * 3 + |q| % 4
  {
    if q == [] then []
    else if |q| < 4 then GroupBytes(q)
    else GroupBytes(q[..4]) + Buffer(q[4..])
  }

  /** The number of whole bytes in n six-bit groups. */
  function WholeBytes(n: nat): nat { n / 4 * 3 + if n % 4 == 0 then 0 else n % 4 - 1 }

  function Data(q: seq<Sextet>): (x: seq<Byte>)
    ensures |x| == WholeBytes(|q|)
  {
    Buffer(q)[..WholeBytes(|q|)]
  }

  /** The bits that slopped past the last whole byte. */
  function Leftover(q: seq<Sextet>): nat
  {
    if |q| % 4 == 0 then 0 else Buffer(q)[WholeBytes(|q|)]
  }

  datatype Scan = Invalid | Scanned(q: seq<Sextet>, end: nat)

  /** Collects symbols from position i on, skipping space, up to the first '=' or the end. */
  function ScanFrom(s: string, i: nat, q: seq<Sextet>): (r: Scan)
    requires i <= |s|
    ensures r.Scanned? ==> i <= r.end <= |s| && (r.end < |s| ==> s[r.end] == PAD)
    decreases |s| - i
  {
    if i == |s| || s[i] == PAD then Scanned(q, i)
    else if IsSpace(s[i]) then ScanFrom(s, i + 1, q)
    else if IsSymbol(s[i]) then ScanFrom(s, i + 1, q + [SymbolValue(s[i])])
    else Invalid
  }

  /** The padding that must follow the symbols, depending on how many there were. */
  predicate TailOk(s: string, end: nat, n: nat)
    requires end <= |s|
  {
    if At(s, end) != PAD then n % 4 == 0
    else if n % 4 == 2 then
      var j := SpacesEnd(s, end + 1);
      At(s, j) == PAD && SpacesEnd(s, j + 1) == |s|
    else n % 4 == 3 && SpacesEnd(s, end + 1) == |s|
  }

  /** b64_pton_len: how many bytes the text holds; the leftover bits are not looked at. */
  function DecodedLength(s: string): Option<nat>
  {
    var r := ScanFrom(s, 0, []);
    if r.Scanned? && TailOk(s, r.end, |r.q|) then Some(WholeBytes(|r.q|)) else None
  }

  /** b64_pton_do, given room enough. */
  function Decode(s: string): Option<seq<Byte>>
  {
    var r := ScanFrom(s, 0, []);
    if r.Scanned? && TailOk(s, r.end, |r.q|) && Leftover(r.q) == 0 then Some(Data(r.q)) else None
  }

  function StripSpaces(s: string): string
  {
    if s == "" then ""
    else StripSpaces(s[..|s| - 1]) + if IsSpace(s[|s| - 1]) then "" else [s[|s| - 1]]
  }

  // One symbol more.

  /** The decoder's step: how its buffer changes with one more symbol. */
  function Step(b: seq<int>, state: nat, v: Sextet): seq<int>
    requires state < 4 && (state == 0 || b != [])
  {
    var n := |b|;
    if state == 0 then b + [v * 4]
    else if state == 1 then b[n - 1 := b[n - 1] + v / 16] + [v % 16 * 16]
    else if state == 2 then b[n - 1 := b[n - 1] + v / 4] + [v % 4 * 64]
    else b[n - 1 := b[n - 1] + v]
  }

  lemma {:induction false} BufferStep(q: seq<Sextet>, v: Sextet)
    ensures |q| % 4 == 0 || Buffer(q) != []
    ensures Buffer(q + [v]) == Step(Buffer(q), |q| % 4, v)
  {
    hide Step, GroupBytes;
    if |q| >= 4 {
      BufferStep(q[4..], v);
      assert (q + [v])[4..] == q[4..] + [v] && (q + [v])[..4] == q[..4];
      StepAfterGroup(GroupBytes(q[..4]), Buffer(q[4..]), |q| % 4, v);
    } else {
      FirstGroupStep(q, v);
    }
  }

  lemma FirstGroupStep(q: seq<Sextet>, v: Sextet)
    requires |q| < 4
    ensures Buffer(q + [v]) == Step(Buffer(q), |q|, v)
  {
    GroupSteps(q, v);
    if |q| == 3 {
      assert (q + [v])[..4] == q + [v] && (q + [v])[4..] == [];
    }
  }

  lemma GroupSteps(q: seq<Sextet>, v: Sextet)
    requires |q| < 4
    ensures GroupBytes(q + [v]) == Step(if q == [] then [] else GroupBytes(q), |q|, v)
  {
    assert 0 % 16 == 0 / 4 == 0 % 4 == 0 / 16 == 0;
    if |q| == 0 {
      StepFrom(0, [], v);
    } else if |q| == 1 {
      StepFrom(1, GroupBytes(q), v);
    } else if |q| == 2 {
      StepFrom(2, GroupBytes(q), v);
    } else {
      StepFrom(3, GroupBytes(q), v);
    }
  }

  lemma StepFrom(state: nat, b: seq<int>, v: Sextet)
    requires state < 4 && |b| == state
    ensures Step(b, state, v) ==
            if state == 0 then [v * 4]
            else if state == 1 then [b[0] + v / 16, v % 16 * 16]
            else if state == 2 then [b[0], b[1] + v / 4, v % 4 * 64]
            else [b[0], b[1], b[2] + v]
  {
  }

  lemma StepAfterGroup(g: seq<int>, b: seq<int>, state: nat, v: Sextet)
    requires state < 4 && (state == 0 || b != [])
    ensures Step(g + b, state, v) == g + Step(b, state, v)
  {
    if state > 0 {
      UpdateAfter(g, b, b[|b| - 1] + if state == 1 then v / 16 else if state == 2 then v / 4 else v);
    }
  }

  lemma UpdateAfter(g: seq<int>, b: seq<int>, w: int)
    requires b != []
    ensures (g + b)[|g + b| - 1 := w] == g + b[|b| - 1 := w]
  {
  }

  // The two directions on groups.

  /** The shifts of the decoder undo those of the encoder. */
  lemma JoinBytes(a: Byte, b: Byte, c: Byte)
    ensures var q := Quad(a, b, c);
            Byte0(q[0], q[1]) == a && Byte1(q[1], q[2]) == b && Byte2(q[2], q[3]) == c
  {
    assert (a % 4 * 16 + b / 16) / 16 == a % 4 && (a % 4 * 16 + b / 16) % 16 == b / 16;
    assert (b % 16 * 4 + c / 64) / 4 == b % 16 && (b % 16 * 4 + c / 64) % 4 == c / 64;
  }

  lemma OneByte(a: Byte)
    ensures GroupBytes(Quad(a, 0, 0)[..2]) == [a, 0]
  {
    JoinBytes(a, 0, 0);
  }

  lemma TwoBytes(a: Byte, b: Byte)
    ensures GroupBytes(Quad(a, b, 0)[..3]) == [a, b, 0]
  {
    JoinBytes(a, b, 0);
  }

  lemma ThreeBytes(a: Byte, b: Byte, c: Byte)
    ensures GroupBytes(Quad(a, b, c)) == [a, b, c]
  {
    JoinBytes(a, b, c);
  }

  /** Reading back the groups of x gives x, and no leftover bits. */
  lemma {:induction false} BufferOfSextets(x: seq<Byte>)
    ensures Buffer(Sextets(x)) == x + if |x| % 3 == 0 then [] else [0]
  {
    if |x| == 0 {
    } else if |x| == 1 {
      OneByte(x[0]);
    } else if |x| == 2 {
      TwoBytes(x[0], x[1]);
    } else {
      var quad := Quad(x[0], x[1], x[2]);
      BufferOfSextets(x[3..]);
      ThreeBytes(x[0], x[1], x[2]);
      assert (quad + Sextets(x[3..]))[..4] == quad && (quad + Sextets(x[3..]))[4..] == Sextets(x[3..]);
      assert x == [x[0], x[1], x[2]] + x[3..];
    }
  }

  /** Groups that end on a byte boundary, up to zero bits, are the groups of their bytes. */
  lemma {:induction false} SextetsOfData(q: seq<Sextet>)
    requires |q| % 4 != 1 && Leftover(q) == 0
    ensures Sextets(Data(q)) == q
  {
    if q == [] {
    } else if |q| < 4 {
      ShortGroup(q);
    } else {
      DataOfLonger(q);
      SextetsOfData(q[4..]);
      QuadOfGroup(q[..4]);
      assert q == q[..4] + q[4..];
    }
  }

  lemma DataOfLonger(q: seq<Sextet>)
    requires 4 <= |q|
    ensures |Data(q)| >= 3 && Data(q)[..3] == GroupBytes(q[..4]) && Data(q)[3..] == Data(q[4..])
    ensures Leftover(q) == Leftover(q[4..])
  {
    assert WholeBytes(|q|) == 3 + WholeBytes(|q| - 4);
  }

  lemma ShortGroup(q: seq<Sextet>)
    requires 2 <= |q| < 4 && Leftover(q) == 0
    ensures Sextets(Data(q)) == q
  {
    if |q| == 2 {
      assert q == [q[0], q[1]] && Data(q) == [Byte0(q[0], q[1])];
      SplitBytes(q[0], q[1], 0, 0);
    } else {
      assert q == [q[0], q[1], q[2]] && Data(q) == [Byte0(q[0], q[1]), Byte1(q[1], q[2])];
      SplitBytes(q[0], q[1], q[2], 0);
    }
  }

  lemma QuadOfGroup(q: seq<Sextet>)
    requires |q| == 4
    ensures var g := GroupBytes(q);
            Quad(g[0], g[1], g[2]) == q
  {
    SplitBytes(q[0], q[1], q[2], q[3]);
  }

  /** The shifts of the encoder undo those of the decoder. */
  lemma SplitBytes(a: Sextet, b: Sextet, c: Sextet, d: Sextet)
    ensures Byte0(a, b) / 4 == a && Byte0(a, b) % 4 == b / 16
    ensures Byte1(b, c) / 16 == b % 16 && Byte1(b, c) % 16 == c / 4
    ensures Byte2(c, d) / 64 == c % 4 && Byte2(c, d) % 64 == d
    ensures b / 16 * 16 + b % 16 == b && c / 4 * 4 + c % 4 == c
  {
  }

  // From groups to text.

  /** Scanning a run of symbols collects them. */
  lemma {:induction false} ScanSymbols(s: string, i: nat, q: seq<Sextet>, rest: seq<Sextet>)
    requires i + |rest| <= |s| && s[i..i + |rest|] == Chars(rest)
    requires i + |rest| < |s| ==> s[i + |rest|] == PAD
    ensures ScanFrom(s, i, q) == Scanned(q + rest, i + |rest|)
    decreases |rest|
  {
    if rest == [] {
      assert q + rest == q;
    } else {
      assert s[i] == s[i..i + |rest|][0] == CharOf(rest[0]);
      AlphabetOrder();
      assert s[i + 1..i + |rest|] == s[i..i + |rest|][1..] == Chars(rest[1..]);
      assert i + 1 + |rest[1..]| == i + |rest|;
      ScanSymbols(s, i + 1, q + [rest[0]], rest[1..]);
      assert q + [rest[0]] + rest[1..] == q + rest;
    }
  }

  /** Symbols with their padding are scanned as such, and the padding is right. */
  lemma ScanPadded(s: string, q: seq<Sextet>)
    requires s == Chars(q) + Padding(|q|) && |q| % 4 != 1
    ensures ScanFrom(s, 0, []) == Scanned(q, |q|) && TailOk(s, |q|, |q|)
  {
    assert s[..|q|] == Chars(q) && s[|q|..] == Padding(|q|);
    assert |Padding(|q|)| > 0 ==> s[|q|] == s[|q|..][0];
    assert |Padding(|q|)| > 1 ==> s[|q| + 1] == s[|q|..][1];
    assert s[0..0 + |q|] == Chars(q) && [] + q == q;
    ScanSymbols(s, 0, [], q);
  }

  /** Decoding the text of x gives x, for every byte string x; so does the sizing pass. */
  lemma DecodeEncode(x: seq<Byte>)
    ensures Decode(Encode(x)) == Some(x)
    ensures DecodedLength(Encode(x)) == Some(|x|)
  {
    var q := Sextets(x);
    BufferOfSextets(x);
    ScanPadded(Encode(x), q);
    assert Data(q) == x;
  }

  lemma StripConcat(a: string, c: char)
    ensures StripSpaces(a + [c]) == StripSpaces(a) + if IsSpace(c) then "" else [c]
  {
    assert (a + [c])[..|a|] == a;
  }

  /** What was scanned is the text before the end, without its space. */
  lemma {:induction false} ScannedText(s: string, i: nat, q: seq<Sextet>)
    requires i <= |s| && ScanFrom(s, i, q).Scanned?
    requires StripSpaces(s[..i]) == Chars(q)
    ensures var r := ScanFrom(s, i, q);
            StripSpaces(s[..r.end]) == Chars(r.q)
    decreases |s| - i
  {
    if i < |s| && s[i] != PAD {
      StripConcat(s[..i], s[i]);
      assert s[..i + 1] == s[..i] + [s[i]];
      if IsSpace(s[i]) {
        ScannedText(s, i + 1, q);
      } else {
        assert Chars(q + [SymbolValue(s[i])]) == Chars(q) + [s[i]];
        ScannedText(s, i + 1, q + [SymbolValue(s[i])]);
      }
    }
  }

  lemma {:induction false} StripOnlySpaces(s: string, i: nat, j: nat)
    requires i <= j <= |s| && forall k :: i <= k < j ==> IsSpace(s[k])
    ensures StripSpaces(s[..j]) == StripSpaces(s[..i])
  {
    if i < j {
      StripOnlySpaces(s, i, j - 1);
      StripConcat(s[..j - 1], s[j - 1]);
      assert s[..j] == s[..j - 1] + [s[j - 1]];
    }
  }

  lemma StripOne(s: string, i: nat)
    requires i < |s|
    ensures StripSpaces(s[..i + 1]) == StripSpaces(s[..i]) + if IsSpace(s[i]) then "" else [s[i]]
  {
    StripConcat(s[..i], s[i]);
    assert s[..i + 1] == s[..i] + [s[i]];
  }

  /** A '=' and then only space adds just the '='. */
  lemma StripPad(s: string, i: nat, j: nat)
    requires i < j <= |s| && s[i] == PAD && forall k :: i < k < j ==> IsSpace(s[k])
    ensures StripSpaces(s[..j]) == StripSpaces(s[..i]) + "="
  {
    StripOne(s, i);
    StripOnlySpaces(s, i + 1, j);
  }

  /** An accepted tail is the padding, but for space. */
  lemma TailText(s: string, end: nat, n: nat)
    requires end <= |s| && (end < |s| ==> s[end] == PAD) && TailOk(s, end, n)
    ensures StripSpaces(s) == StripSpaces(s[..end]) + Padding(n)
  {
    assert s[..|s|] == s;
    if end < |s| {
      var j := SpacesEnd(s, end + 1);
      StripPad(s, end, j);
      if n % 4 == 2 {
        StripPad(s, j, |s|);
        PadTwice(StripSpaces(s[..end]));
      }
    }
  }

  lemma PadTwice(t: string)
    ensures t + "=" + "=" == t + "=="
  {
    assert "=" + "=" == "==";
    assert t + "=" + "=" == t + ("=" + "=");
  }

  /** Encoding what an accepted text decodes to gives that text back, without its space. */
  lemma EncodeDecode(s: string)
    requires Decode(s).Some?
    ensures Encode(Decode(s).value) == StripSpaces(s)
  {
    var r := ScanFrom(s, 0, []);
    assert s[..0] == "" && Chars([]) == "";
    ScannedText(s, 0, []);
    TailText(s, r.end, |r.q|);
    SextetsOfData(r.q);
  }

  /** The sizing pass accepts just the texts that decode, apart from those with leftover bits. */
  lemma SizingAgrees(s: string)
    ensures Decode(s).Some? ==> DecodedLength(s).Some?
    ensures DecodedLength(s).Some? ==>
              var r := ScanFrom(s, 0, []);
              && r.Scanned?
              && (if Leftover(r.q) == 0 then Decode(s).Some? && |Decode(s).value| == DecodedLength(s).value
                  else Decode(s).None?)
              && |Buffer(r.q)| <= DecodedLength(s).value + 1
  {
  }
}
