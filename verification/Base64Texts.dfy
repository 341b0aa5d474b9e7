/**
 Which texts b64_pton accepts, white space and all, and what the six-bit groups of a byte string are as
 one binary number.
 */
module Base64Texts {
  import opened Base64
  import opened CText
  import Digits
  import opened LittleEndian
  import opened Words

  // White space.

  lemma {:induction false} StripAppend(a: string, b: string)
    ensures StripSpaces(a + b) == StripSpaces(a) + StripSpaces(b)
  {
    hide StripSpaces;
    if b == "" {
      StripNothing("");
      assert a + b == a && StripSpaces(a) + "" == StripSpaces(a);
    } else {
      var b', c := b[..|b| - 1], b[|b| - 1];
      StripAppend(a, b');
      StripConcat(a + b', c);
      StripConcat(b', c);
      assert a + b == (a + b') + [c] && b == b' + [c];
    }
  }

  lemma StripFirst(s: string, i: nat)
    requires i < |s|
    ensures StripSpaces(s[i..]) == (if IsSpace(s[i]) then "" else [s[i]]) + StripSpaces(s[i + 1..])
  {
    assert s[i..] == [s[i]] + s[i + 1..];
    StripAppend([s[i]], s[i + 1..]);
    assert [s[i]][..0] == "";
  }

  lemma {:induction false} StripIsSpaceless(s: string)
    ensures forall k :: 0 <= k < |StripSpaces(s)| ==> !IsSpace(StripSpaces(s)[k])
  {
    if s != "" {
      StripIsSpaceless(s[..|s| - 1]);
    }
  }

  lemma {:induction false} StripNothing(s: string)
    requires forall k :: 0 <= k < |s| ==> !IsSpace(s[k])
    ensures StripSpaces(s) == s
  {
    if s != "" {
      StripNothing(s[..|s| - 1]);
    }
  }

  /** Only space is left when nothing is left after stripping. */
  lemma {:induction false} OnlySpace(s: string, i: nat)
    requires i <= |s| && StripSpaces(s[i..]) == ""
    ensures SpacesEnd(s, i) == |s|
    decreases |s| - i
  {
    if i < |s| {
      StripFirst(s, i);
      OnlySpace(s, i + 1);
    }
  }

  /** A text that begins with some character once it is stripped. */
  lemma {:induction false} FirstAfterSpace(s: string, i: nat, c: char, rest: string)
    requires i <= |s| && StripSpaces(s[i..]) == [c] + rest
    ensures var j := SpacesEnd(s, i); j < |s| && s[j] == c && StripSpaces(s[j + 1..]) == rest
    decreases |s| - i
  {
    StripShortens(s[i..]);
    StripFirst(s, i);
    if IsSpace(s[i]) {
      assert "" + StripSpaces(s[i + 1..]) == StripSpaces(s[i + 1..]);
      FirstAfterSpace(s, i + 1, c, rest);
    } else {
      assert ([s[i]] + StripSpaces(s[i + 1..]))[1..] == StripSpaces(s[i + 1..]);
      assert ([c] + rest)[1..] == rest;
    }
  }

  lemma {:induction false} StripShortens(s: string)
    ensures |StripSpaces(s)| <= |s|
  {
    if s != "" {
      StripShortens(s[..|s| - 1]);
    }
  }

  // Which texts are accepted.

  /** The symbols of a text and the padding for them, whatever space there is, are what is scanned. */
  lemma {:induction false} ScansSymbols(s: string, i: nat, q: seq<Sextet>, p: seq<Sextet>, pad: string)
    requires i <= |s| && StripSpaces(s[i..]) == Chars(p) + pad && (pad != "" ==> pad[0] == PAD)
    ensures var r := ScanFrom(s, i, q);
            r.Scanned? && r.q == q + p && StripSpaces(s[r.end..]) == pad
    decreases |s| - i
  {
    hide StripSpaces, Chars, CharOf, SymbolValue, IsSymbol, IsSpace;
    PadIsNoSpace();
    if i == |s| {
      StripNothing("");
      assert s[i..] == "" && p == [] && q + p == q;
    } else {
      StripFirst(s, i);
      var rest := StripSpaces(s[i + 1..]);
      if IsSpace(s[i]) {
        assert "" + rest == rest;
        ScansSymbols(s, i + 1, q, p, pad);
      } else if p == [] {
        assert Chars(p) + pad == pad && q + p == q;
      } else {
        NextSymbol(s[i], rest, p, pad);
        SymbolBack(p[0]);
        ScansSymbols(s, i + 1, q + [p[0]], p[1..], pad);
        assert q + [p[0]] + p[1..] == q + p;
      }
    }
  }

  lemma PadIsNoSpace()
    ensures !IsSpace(PAD)
  {
  }

  lemma NextSymbol(c: char, rest: string, p: seq<Sextet>, pad: string)
    requires p != [] && [c] + rest == Chars(p) + pad
    ensures c == CharOf(p[0]) && rest == Chars(p[1..]) + pad
  {
    assert ([c] + rest)[0] == c && ([c] + rest)[1..] == rest;
    assert (Chars(p) + pad)[1..] == Chars(p[1..]) + pad;
  }

  lemma SymbolBack(v: Sextet)
    ensures IsSymbol(CharOf(v)) && SymbolValue(CharOf(v)) == v && !IsSpace(CharOf(v)) && CharOf(v) != PAD
  {
  }

  lemma TailAccepted(s: string, end: nat, n: nat)
    requires end <= |s| && (end < |s| ==> s[end] == PAD) && n % 4 != 1 && StripSpaces(s[end..]) == Padding(n)
    ensures TailOk(s, end, n)
  {
    if end == |s| {
      assert s[end..] == "";
    } else {
      StripFirst(s, end);
      assert StripSpaces(s[end + 1..]) == ([PAD] + StripSpaces(s[end + 1..]))[1..] == Padding(n)[1..];
      if n % 4 == 2 {
        FirstAfterSpace(s, end + 1, PAD, "");
        OnlySpace(s, SpacesEnd(s, end + 1) + 1);
      } else if n % 4 == 3 {
        OnlySpace(s, end + 1);
      }
    }
  }

  /** Stripped of its space an accepted text is its symbols and their padding, and every such text is accepted. */
  lemma ScannedIff(s: string, q: seq<Sextet>)
    ensures var r := ScanFrom(s, 0, []);
            r.Scanned? && r.q == q && TailOk(s, r.end, |q|)
            <==> StripSpaces(s) == Chars(q) + Padding(|q|) && |q| % 4 != 1
  {
    var r := ScanFrom(s, 0, []);
    assert s[0..] == s;
    if r.Scanned? && r.q == q && TailOk(s, r.end, |q|) {
      assert s[..0] == "" && Chars([]) == "";
      ScannedText(s, 0, []);
      TailText(s, r.end, |q|);
    }
    if StripSpaces(s) == Chars(q) + Padding(|q|) && |q| % 4 != 1 {
      ScansSymbols(s, 0, [], q, Padding(|q|));
      assert [] + q == q;
      TailAccepted(s, r.end, |q|);
    }
  }

  lemma {:induction false} SextetsCount(x: seq<Byte>)
    ensures |Sextets(x)| % 4 != 1
  {
    GroupCount(|x| / 3, |x| % 3);
  }

  /** A text decodes to x exactly when it is the text of x, but for white space. */
  lemma DecodesIff(s: string, x: seq<Byte>)
    ensures Decode(s) == Some(x) <==> StripSpaces(s) == Encode(x)
  {
    hide ScanFrom, Sextets, TailOk, Padding, StripSpaces, Chars;
    if Decode(s) == Some(x) {
      EncodeDecode(s);
    }
    if StripSpaces(s) == Encode(x) {
      var q := Sextets(x);
      SextetsCount(x);
      ScannedIff(s, q);
      DecodeEncode(x);
      SpacelessText(x);
      ScannedIff(Encode(x), q);
    }
  }

  lemma SpacelessText(x: seq<Byte>)
    ensures StripSpaces(Encode(x)) == Encode(x)
  {
    var q := Sextets(x);
    forall k | 0 <= k < |Encode(x)| ensures !IsSpace(Encode(x)[k]) {
      if k < |q| {
        SymbolBack(q[k]);
      }
    }
    StripNothing(Encode(x));
  }

  /** The sizing pass accepts just the texts of symbols and padding, whatever their space and leftover bits. */
  lemma SizedIff(s: string, n: nat)
    ensures DecodedLength(s) == Some(n) <==>
            exists q: seq<Sextet> ::
              StripSpaces(s) == Chars(q) + Padding(|q|) && |q| % 4 != 1 && n == WholeBytes(|q|)
  {
    hide ScanFrom, TailOk, Padding, StripSpaces, Chars;
    var r := ScanFrom(s, 0, []);
    if DecodedLength(s) == Some(n) {
      ScannedIff(s, r.q);
    }
    forall q: seq<Sextet> | StripSpaces(s) == Chars(q) + Padding(|q|) && |q| % 4 != 1 && n == WholeBytes(|q|)
      ensures DecodedLength(s) == Some(n)
    {
      ScannedIff(s, q);
    }
  }

  // Bits.

  /** Six-bit groups as one binary number. */
  function Sixes(q: seq<Sextet>): nat
  {
    if q == [] then 0 else 64 * Sixes(q[..|q| - 1]) + q[|q| - 1]
  }

  lemma Pow2Six(n: nat)
    ensures Pow2(n + 6) == 64 * Pow2(n)
  {
    assert Pow2(3) == 8;
    Pow2Add(3, 3);
    Pow2Add(n, 6);
  }

  lemma {:induction false} SixesConcat(a: seq<Sextet>, b: seq<Sextet>)
    ensures Sixes(a + b) == Sixes(a) * Pow2(6 * |b|) + Sixes(b)
  {
    hide Pow2;
    if b == [] {
      assert a + b == a;
      NoBits();
    } else {
      var b', d := b[..|b| - 1], b[|b| - 1];
      SixesConcat(a, b');
      assert (a + b)[..|a + b| - 1] == a + b';
      Pow2Six(6 * |b'|);
      ShiftSix(Sixes(a), Pow2(6 * |b'|), Sixes(b'), d);
    }
  }

  lemma ShiftSix(x: nat, p: nat, y: nat, d: nat)
    ensures 64 * (x * p + y) + d == x * (64 * p) + (64 * y + d)
  {
  }

  lemma FourSixes(q: seq<Sextet>)
    ensures |q| == 4 ==> Sixes(q) == ((q[0] as int * 64 + q[1]) * 64 + q[2]) * 64 + q[3]
    ensures |q| == 3 ==> Sixes(q) == (q[0] as int * 64 + q[1]) * 64 + q[2]
    ensures |q| == 2 ==> Sixes(q) == q[0] as int * 64 + q[1]
  {
    if 2 <= |q| <= 4 {
      assert q[..|q| - 1][..|q| - 2] == q[..|q| - 2];
      if |q| == 2 {
        assert q[..1][..0] == [];
      } else {
        FourSixes(q[..|q| - 1]);
      }
    }
  }

  lemma ThreeBytes(x: seq<Byte>)
    ensures |x| == 3 ==> Binary(x) == (x[0] as int * 256 + x[1]) * 256 + x[2]
    ensures |x| == 2 ==> Binary(x) == x[0] as int * 256 + x[1]
    ensures |x| == 1 ==> Binary(x) == x[0]
  {
    if |x| == 1 {
      assert x[..0] == [];
    } else if 2 <= |x| <= 3 {
      assert x[..|x| - 1][..|x| - 2] == x[..|x| - 2];
      ThreeBytes(x[..|x| - 1]);
    }
  }

  lemma QuadBits(a: Byte, b: Byte, c: Byte)
    ensures Sixes(Quad(a, b, c)) == (a as int * 256 + b) * 256 + c
    ensures Sixes(Quad(a, b, 0)[..3]) == (a as int * 256 + b) * 4
    ensures Sixes(Quad(a, 0, 0)[..2]) == a as int * 16
  {
    FourSixes(Quad(a, b, c));
    FourSixes(Quad(a, b, 0)[..3]);
    FourSixes(Quad(a, 0, 0)[..2]);
  }

  /** Zero bits that fill up the last group. */
  function Filled(n: nat): nat { if n % 3 == 0 then 1 else if n % 3 == 1 then 16 else 4 }

  /** The groups are the bits of the bytes, high-order bit first, and then zeros: section 4 of RFC 4648. */
  lemma {:induction false} SextetsAreBits(x: seq<Byte>)
    ensures Sixes(Sextets(x)) == Binary(x) * Filled(|x|)
  {
    hide Quad, Pow2, Binary, Sixes;
    if |x| < 3 {
      FewBits(x);
    } else {
      var a, rest := x[..3], x[3..];
      var quad, q := Quad(x[0], x[1], x[2]), Sextets(rest);
      SextetsAreBits(rest);
      assert x == a + rest;
      SixesConcat(quad, q);
      BinaryConcat(a, rest);
      ThreeBytes(a);
      QuadBits(x[0], x[1], x[2]);
      SameShift(|rest|);
      Distribute(Binary(a), Pow2(8 * |rest|), Binary(rest), Filled(|rest|));
    }
  }

  lemma FewBits(x: seq<Byte>)
    requires |x| < 3
    ensures Sixes(Sextets(x)) == Binary(x) * Filled(|x|)
  {
    hide Quad;
    if |x| > 0 {
      ThreeBytes(x);
      QuadBits(x[0], if |x| == 2 then x[1] else 0, 0);
    }
  }

  lemma Distribute(h: nat, p: nat, l: nat, f: nat)
    ensures h * (p * f) + l * f == (h * p + l) * f
  {
  }

  /** The groups of n bytes take as many bits as the bytes and what fills them up. */
  lemma SameShift(n: nat)
    ensures Pow2(6 * (n / 3 * 4 + if n % 3 == 0 then 0 else n % 3 + 1)) == Pow2(8 * n) * Filled(n)
    ensures Filled(n + 3) == Filled(n)
  {
    hide Pow2;
    var k := n / 3;
    NoBits();
    assert 8 * n == 24 * k + 8 * (n % 3);
    if n % 3 == 1 {
      Pow2Add(8 * n, 4);
      FourBits();
    } else if n % 3 == 2 {
      Pow2Add(8 * n, 2);
      FourBits();
    }
  }

  lemma FourBits()
    ensures Pow2(2) == 4 && Pow2(4) == 16
  {
    assert Pow2(1) == 2;
    Pow2Add(2, 2);
  }

  /** What is decoded are the whole bytes of the bits; those left over are the lowest ones. */
  lemma {:induction false} DataAreBits(q: seq<Sextet>)
    requires |q| % 4 != 1
    ensures Binary(Data(q)) == Sixes(q) / (if |q| % 4 == 0 then 1 else if |q| % 4 == 2 then 16 else 4)
  {
    hide Pow2, Binary, Sixes, Buffer, GroupBytes;
    if |q| < 4 {
      FewSixes(q);
    } else {
      var a, rest := q[..4], q[4..];
      DataAreBits(rest);
      DataSplit(q);
      assert q == a + rest;
      SixesConcat(a, rest);
      BinaryConcat(GroupBytes(a), Data(rest));
      WholeGroup(a);
      BitsDivide(Sixes(a), |rest|, Sixes(rest));
    }
  }

  lemma FewSixes(q: seq<Sextet>)
    requires |q| < 4 && |q| != 1
    ensures Binary(Data(q)) == Sixes(q) / (if |q| == 0 then 1 else if |q| == 2 then 16 else 4)
  {
    FourSixes(q);
    ThreeBytes(Data(q));
  }

  lemma WholeGroup(a: seq<Sextet>)
    requires |a| == 4
    ensures Binary(GroupBytes(a)) == Sixes(a)
  {
    FourSixes(a);
    ThreeBytes(GroupBytes(a));
  }

  lemma DataSplit(q: seq<Sextet>)
    requires |q| >= 4
    ensures Data(q) == GroupBytes(q[..4]) + Data(q[4..])
  {
    hide GroupBytes;
  }

  lemma BitsDivide(h: nat, n: nat, l: nat)
    requires n % 4 != 1
    ensures var f := if n % 4 == 0 then 1 else if n % 4 == 2 then 16 else 4;
            (h * Pow2(6 * n) + l) / f == h * Pow2(8 * WholeBytes(n)) + l / f
  {
    hide Pow2;
    var p := Pow2(8 * WholeBytes(n));
    var k := n / 4;
    assert 24 * k + 6 * (n % 4) == 6 * n;
    FourBits();
    if n % 4 == 2 {
      Pow2Add(8 * WholeBytes(n), 4);
      DividesOut(h, p, 16, l);
    } else if n % 4 == 3 {
      Pow2Add(8 * WholeBytes(n), 2);
      DividesOut(h, p, 4, l);
    }
  }

  lemma Spread(h: nat, p: nat, f: nat, q: nat)
    ensures (h * p + q) * f == h * (p * f) + q * f
  {
  }

  lemma DividesOut(h: nat, p: nat, f: nat, l: nat)
    requires f > 0
    ensures (h * (p * f) + l) / f == h * p + l / f
  {
    Spread(h, p, f, l / f);
    Digits.DivUnique(h * (p * f) + l, f, h * p + l / f, l % f);
  }

  /** The text: a character of the alphabet for each group, and then the padding character. */
  lemma TextOfGroups(x: seq<Byte>)
    ensures |Sextets(x)| <= |Encode(x)|
    ensures forall k :: 0 <= k < |Sextets(x)| ==> |ALPHABET| == 64 && Encode(x)[k] == ALPHABET[Sextets(x)[k]]
    ensures forall k :: |Sextets(x)| <= k < |Encode(x)| ==> Encode(x)[k] == '='
  {
    hide Sextets, CharOf;
    AlphabetOrder();
    var q := Sextets(x);
    forall k | 0 <= k < |q| ensures Encode(x)[k] == ALPHABET[q[k]] {
      assert Encode(x)[k] == Chars(q)[k] == CharOf(q[k]);
    }
  }
}
