/**
 The grammar of decimal texts, both ways: a text put together from a sign, digits, a point and an
 exponent field is read as just those parts, every text that is read as a number is put together so,
 and the words for infinity and NaN are read in any case.
 */
module DecimalGrammar {
  import opened CText
  import opened Digits
  import opened Words
  import opened Decimal128
  import opened DecimalText
  import opened DecimalParse

  // Spellings.

  const NUMERALS: string := "0123456789"

  function Numerals(ds: seq<Digit>): (s: string)
    ensures |s| == |ds|
  {
    seq(|ds|, k requires 0 <= k < |ds| => NUMERALS[ds[k]])
  }

  /** What may follow the mantissa: the marker, white space that sscanf skips, a sign and digits. */
  datatype ExponentField = ExponentField(marker: char, space: string, sign: string, digits: seq<Digit>)

  /** A number as it can be written; `fraction` is what follows the point, if there is one. */
  datatype Spelling = Spelling(
    sign: string, whole: seq<Digit>, fraction: Option<seq<Digit>>, exponent: Option<ExponentField>)

  predicate IsSign(sign: string) { sign == "" || sign == "+" || sign == "-" }

  predicate IsField(x: ExponentField)
  {
    (x.marker == 'e' || x.marker == 'E') && IsBlank(x.space) && IsSign(x.sign) && x.digits != []
  }

  function FractionDigits(p: Spelling): seq<Digit> { if p.fraction.Some? then p.fraction.value else [] }

  predicate IsSpelling(p: Spelling)
  {
    && IsSign(p.sign) && p.whole + FractionDigits(p) != []
    && (p.exponent.Some? ==> IsField(p.exponent.value))
  }

  function FieldText(x: Option<ExponentField>): string
  {
    match x
    case None => ""
    case Some(field) => [field.marker] + field.space + field.sign + Numerals(field.digits)
  }

  function MantissaOf(p: Spelling): string
  {
    Numerals(p.whole) + if p.fraction.Some? then "." + Numerals(p.fraction.value) else ""
  }

  function Spelled(p: Spelling): string { p.sign + MantissaOf(p) + FieldText(p.exponent) }

  function FieldNumber(x: Option<ExponentField>): int
  {
    match x
    case None => 0
    case Some(field) =>
      var n: int := Nat(field.digits);
      if field.sign == "-" then -n else n
  }

  /** What such a spelling says. */
  function Said(p: Spelling): Literal
  {
    Literal(p.sign == "-", p.sign != "", p.whole + FractionDigits(p), p.fraction.Some?, |FractionDigits(p)|,
            FieldNumber(p.exponent))
  }

  lemma NumeralsAreChars(ds: seq<Digit>)
    ensures Numerals(ds) == Chars(ds)
  {
    forall d: Digit ensures NUMERALS[d] == CharOf(d) {
    }
  }

  // Reading the parts.

  lemma {:induction false} MantissaEndAt(s: string, i: nat, end: nat)
    requires i <= end <= |s|
    requires forall k :: i <= k < end ==> IsMantissaChar(s[k])
    requires end < |s| ==> !IsMantissaChar(s[end])
    ensures MantissaEnd(s, i) == end
    decreases end - i
  {
    if i < end {
      MantissaEndAt(s, i + 1, end);
    }
  }

  lemma {:induction false} DigitsEndAt(s: string, i: nat)
    requires i <= |s|
    requires forall k :: i <= k < |s| ==> IsDigitChar(s[k])
    ensures DigitsEnd(s, i) == |s|
    decreases |s| - i
  {
    if i < |s| {
      DigitsEndAt(s, i + 1);
    }
  }

  /** Appending digits to a mantissa. */
  lemma {:induction false} AppendDigits(m: string, ds: seq<Digit>)
    ensures DigitsOf(m + Chars(ds)) == DigitsOf(m) + ds
    ensures Points(m + Chars(ds)) == Points(m)
    ensures FractionLength(m + Chars(ds)) == FractionLength(m) + if Points(m) > 0 then |ds| else 0
  {
    if ds == [] {
      assert m + Chars(ds) == m;
    } else {
      var ds', d := ds[..|ds| - 1], ds[|ds| - 1];
      AppendDigits(m, ds');
      assert Chars(ds) == Chars(ds') + [CharOf(d)];
      assert (m + Chars(ds))[..|m + Chars(ds)| - 1] == m + Chars(ds');
      assert (DigitsOf(m) + ds') + [d] == DigitsOf(m) + ds;
    }
  }

  lemma OnlyDigits(ds: seq<Digit>)
    ensures DigitsOf(Chars(ds)) == ds && Points(Chars(ds)) == 0 && FractionLength(Chars(ds)) == 0
  {
    AppendDigits("", ds);
    assert "" + Chars(ds) == Chars(ds);
    assert DigitsOf("") + ds == ds;
  }

  lemma AppendPoint(m: string)
    ensures DigitsOf(m + ".") == DigitsOf(m)
    ensures Points(m + ".") == Points(m) + 1
    ensures FractionLength(m + ".") == FractionLength(m)
  {
    assert (m + ".")[..|m|] == m;
  }

  lemma ScanAllDigits(s: string, from: nat, neg: bool, ds: seq<Digit>)
    requires from <= |s| && s[from..] == Chars(ds) && ds != []
    ensures var n: int := Nat(ds);
            DecimalText.ScanDigits(s, from, neg) == Some((if neg then -n else n, |s|))
  {
    hide DigitsOf, Nat;
    forall k | from <= k < |s| ensures IsDigitChar(s[k]) {
      assert s[k] == s[from..][k - from];
    }
    DigitsEndAt(s, from);
    assert s[from..|s|] == Chars(ds);
    OnlyDigits(ds);
  }

  /** sscanf reads the exponent field, white space and all. */
  lemma ScanField(s: string, i: nat, x: ExponentField)
    requires i <= |s| && IsField(x) && s[i..] == x.space + x.sign + Chars(x.digits)
    ensures ScanInt(s, i) == Some((FieldNumber(Some(x)), |s|))
  {
    hide DigitsOf, Nat, DigitsEnd, ScanDigits, IsSpace, SpacesEnd;
    var p := i + |x.space|;
    forall k | i <= k < p ensures IsSpace(s[k]) {
      assert s[k] == s[i..][k - i] == x.space[k - i];
      BlankIsSpace(s[k]);
    }
    assert s[p..] == x.sign + Chars(x.digits);
    var from := p + |x.sign|;
    assert s[from..] == Chars(x.digits);
    assert s[p] == s[p..][0] && s[from] == s[from..][0];
    NoSpace(s[p]);
    SpacesEndAt(s, i, p);
    ScanAllDigits(s, from, x.sign == "-", x.digits);
  }

  lemma NoSpace(c: char)
    ensures c == '+' || c == '-' || IsDigitChar(c) ==> !IsSpace(c)
  {
  }

  lemma ReadExponentAt(t: string, end: nat, lit: Literal, x: Option<ExponentField>)
    requires end <= |t| && lit.exponent == 0 && (x.Some? ==> IsField(x.value)) && t[end..] == FieldText(x)
    ensures ReadExponent(t, end, lit) == NumberText(lit.(exponent := FieldNumber(x)))
  {
    hide ScanInt;
    if x.Some? {
      NumeralsAreChars(x.value.digits);
      assert t[end] == t[end..][0] && t[end + 1..] == t[end..][1..];
      ScanField(t, end + 1, x.value);
    }
  }

  /** The mantissa and the exponent field, read from where they stand. */
  lemma ReadNumberAt(t: string, start: nat, end: nat, m: string, x: Option<ExponentField>)
    requires start <= end <= |t| && t[start..end] == m
    requires forall k :: 0 <= k < |m| ==> IsMantissaChar(m[k])
    requires DigitsOf(m) != [] && Points(m) <= 1
    requires (x.Some? ==> IsField(x.value)) && t[end..] == FieldText(x)
    ensures ReadNumber(t, start) ==
            NumberText(Literal(At(t, 0) == '-', start == 1, DigitsOf(m), Points(m) == 1, FractionLength(m),
                               FieldNumber(x)))
  {
    hide ReadExponent, DigitsOf, Points, FractionLength, FieldNumber;
    forall k | start <= k < end ensures IsMantissaChar(t[k]) {
      assert t[k] == m[k - start];
    }
    if end < |t| {
      assert t[end] == t[end..][0];
    }
    MantissaEndAt(t, start, end);
    ReadExponentAt(t, end,
                   Literal(At(t, 0) == '-', start == 1, DigitsOf(m), Points(m) == 1, FractionLength(m), 0), x);
  }

  /** A sign, a mantissa and perhaps an exponent field, put together, read as just those. */
  lemma ReadAssembled(t: string, sign: string, m: string, x: Option<ExponentField>)
    requires IsSign(sign) && t == sign + m + FieldText(x)
    requires forall k :: 0 <= k < |m| ==> IsMantissaChar(m[k])
    requires DigitsOf(m) != [] && Points(m) <= 1
    requires x.Some? ==> IsField(x.value)
    ensures Read(t) ==
            NumberText(Literal(sign == "-", sign != "", DigitsOf(m), Points(m) == 1, FractionLength(m),
                               FieldNumber(x)))
  {
    hide ReadNumber, DigitsOf, Points, FractionLength, FieldNumber, FieldText;
    var start := |sign|;
    var end := start + |m|;
    assert t[start..end] == m && t[end..] == FieldText(x);
    assert t[start] == m[0];
    ReadNumberAt(t, start, end, m, x);
  }

  function Pointed(a: seq<Digit>, b: seq<Digit>): string { Chars(a) + "." + Chars(b) }

  lemma PointedParts(a: seq<Digit>, b: seq<Digit>)
    ensures var m := Pointed(a, b);
            && (forall k :: 0 <= k < |m| ==> IsMantissaChar(m[k]))
            && DigitsOf(m) == a + b && Points(m) == 1 && FractionLength(m) == |b|
  {
    hide DigitsOf, Points, FractionLength;
    OnlyDigits(a);
    AppendPoint(Chars(a));
    AppendDigits(Chars(a) + ".", b);
  }

  lemma MantissaParts(p: Spelling)
    requires p.whole + FractionDigits(p) != []
    ensures var m := MantissaOf(p);
            && (forall k :: 0 <= k < |m| ==> IsMantissaChar(m[k]))
            && DigitsOf(m) == p.whole + FractionDigits(p) && Points(m) == (if p.fraction.Some? then 1 else 0)
            && FractionLength(m) == |FractionDigits(p)|
  {
    hide DigitsOf, Points, FractionLength;
    NumeralsAreChars(p.whole);
    if p.fraction.Some? {
      NumeralsAreChars(p.fraction.value);
      PointedParts(p.whole, p.fraction.value);
      assert MantissaOf(p) == Pointed(p.whole, p.fraction.value);
    } else {
      OnlyDigits(p.whole);
      assert MantissaOf(p) == Chars(p.whole) && p.whole + [] == p.whole;
    }
  }

  /** Every spelling is read as what it says. */
  lemma SpellingIsRead(p: Spelling)
    requires IsSpelling(p)
    ensures Read(Spelled(p)) == NumberText(Said(p))
  {
    hide Read, DigitsOf, Points, FractionLength, FieldNumber, FieldText, MantissaOf;
    MantissaParts(p);
    ReadAssembled(Spelled(p), p.sign, MantissaOf(p), p.exponent);
  }

  // The parts of a text that is read.

  /** The digits with the point after the whole part. */
  function Written(ds: seq<Digit>, radix: bool, fraction: nat): (m: string)
    requires fraction <= |ds|
    ensures |m| == |ds| + Bit(radix)
  {
    var whole := |ds| - fraction;
    Chars(ds[..whole]) + (if radix then "." else "") + Chars(ds[whole..])
  }

  predicate IsMantissa(m: string)
  {
    Points(m) <= 1 && forall k :: 0 <= k < |m| ==> IsMantissaChar(m[k])
  }

  /** Digits, point and count of fraction digits are all there is to a mantissa. */
  lemma {:induction false} MantissaBack(m: string)
    requires IsMantissa(m)
    ensures FractionLength(m) <= |DigitsOf(m)|
    ensures Points(m) == 0 ==> FractionLength(m) == 0
    ensures m == Written(DigitsOf(m), Points(m) == 1, FractionLength(m))
  {
    hide Written, Points, DigitsOf, FractionLength;
    if m == "" {
      NothingWritten();
    } else {
      var m', c := m[..|m| - 1], m[|m| - 1];
      assert m == m' + [c];
      if c == '.' {
        AppendPoint(m');
        MantissaBack(m');
        PointAtEnd(DigitsOf(m'));
      } else {
        AppendDigit(m', c);
        MantissaBack(m');
        DigitAtEnd(DigitsOf(m'), DigitOf(c), Points(m') == 1, FractionLength(m'));
      }
    }
  }

  lemma NothingWritten()
    ensures Points("") == 0 && FractionLength("") == 0 && Written(DigitsOf(""), false, 0) == ""
  {
  }

  lemma AppendDigit(m: string, c: char)
    requires IsDigitChar(c)
    ensures DigitsOf(m + [c]) == DigitsOf(m) + [DigitOf(c)] && Points(m + [c]) == Points(m)
    ensures FractionLength(m + [c]) == FractionLength(m) + Bit(Points(m) > 0)
    ensures CharOf(DigitOf(c)) == c
  {
    assert (m + [c])[..|m|] == m;
  }

  lemma PointAtEnd(ds: seq<Digit>)
    ensures Written(ds, false, 0) + "." == Written(ds, true, 0)
  {
    assert ds[..|ds|] == ds && Chars(ds[|ds|..]) == "";
  }

  lemma CharsSnoc(ds: seq<Digit>, d: Digit)
    ensures Chars(ds + [d]) == Chars(ds) + [CharOf(d)]
  {
  }

  lemma DigitAtEnd(ds: seq<Digit>, d: Digit, radix: bool, fraction: nat)
    requires fraction <= |ds| && (!radix ==> fraction == 0)
    ensures Written(ds, radix, fraction) + [CharOf(d)] ==
            Written(ds + [d], radix, if radix then fraction + 1 else 0)
  {
    hide Chars;
    var whole := |ds| - fraction;
    if radix {
      assert (ds + [d])[..whole] == ds[..whole] && (ds + [d])[whole..] == ds[whole..] + [d];
      CharsSnoc(ds[whole..], d);
    } else {
      assert (ds + [d])[..whole + 1] == ds[..whole] + [d] && ds[whole..] == [];
      CharsSnoc(ds[..whole], d);
      assert Chars([]) == "";
    }
  }

  lemma ReadExponentKeeps(s: string, end: nat, lit: Literal)
    requires end <= |s| && ReadExponent(s, end, lit).NumberText?
    ensures ReadExponent(s, end, lit).lit == lit.(exponent := ReadExponent(s, end, lit).lit.exponent)
  {
  }

  /** Nothing more, or an exponent field up to the end. */
  predicate EndsField(s: string, end: nat)
    requires end <= |s|
  {
    end < |s| ==>
      (s[end] == 'e' || s[end] == 'E') && ScanInt(s, end + 1).Some? && ScanInt(s, end + 1).value.1 == |s|
  }

  /** Where the mantissa of a number stands, and what follows it. */
  lemma MantissaSlice(s: string) returns (start: nat, end: nat)
    requires Read(s).NumberText?
    ensures start <= end <= |s| && start == Bit(Read(s).lit.signed)
    ensures var lit, m := Read(s).lit, s[start..end];
            && IsMantissa(m) && lit.digits == DigitsOf(m)
            && lit.radix == (Points(m) == 1) && lit.fraction == FractionLength(m)
    ensures DigitsOf(s[start..end]) != [] && EndsField(s, end)
  {
    hide ScanInt;
    start := if IsSigned(s) then 1 else 0;
    end := MantissaEnd(s, start);
    var m := s[start..end];
    ReadExponentKeeps(s, end, Literal(At(s, 0) == '-', start == 1, DigitsOf(m), Points(m) == 1, FractionLength(m), 0));
  }

  /** Digits alone are the text of their values. */
  lemma DigitsBack(t: string)
    requires forall k :: 0 <= k < |t| ==> IsDigitChar(t[k])
    ensures t == Numerals(DigitsOf(t))
  {
    hide DigitsOf, Points, FractionLength;
    MantissaLength(t);
    NoPoints(t);
    MantissaBack(t);
    NumeralsAreChars(DigitsOf(t));
  }

  lemma {:induction false} NoPoints(t: string)
    requires forall k :: 0 <= k < |t| ==> IsDigitChar(t[k])
    ensures Points(t) == 0
  {
    if t != "" {
      NoPoints(t[..|t| - 1]);
    }
  }

  /** What sscanf has read up to the end of the text is an exponent field. */
  lemma FieldBack(s: string, i: nat) returns (x: ExponentField)
    requires 1 <= i <= |s| && (s[i - 1] == 'e' || s[i - 1] == 'E')
    requires ScanInt(s, i).Some? && ScanInt(s, i).value.1 == |s|
    ensures IsField(x) && s[i - 1..] == FieldText(Some(x))
  {
    hide DigitsOf, IsSpace, SpacesEnd;
    var p := SpacesEnd(s, i);
    var from := if At(s, p) == '+' || At(s, p) == '-' then p + 1 else p;
    SpacesAreBlank(s, i);
    DigitsToEnd(s, from, At(s, p) == '-');
    DigitsBack(s[from..]);
    x := ExponentField(s[i - 1], s[i..p], s[p..from], DigitsOf(s[from..]));
    assert s[i - 1..] == [s[i - 1]] + s[i..p] + s[p..from] + s[from..];
  }

  lemma SpacesAreBlank(s: string, i: nat)
    requires i <= |s|
    ensures IsBlank(s[i..SpacesEnd(s, i)])
  {
    hide IsSpace;
    var space := s[i..SpacesEnd(s, i)];
    forall k | 0 <= k < |space| ensures space[k] in BLANKS {
      BlankIsSpace(s[i + k]);
    }
  }

  lemma DigitsToEnd(s: string, from: nat, neg: bool)
    requires from <= |s| && DecimalText.ScanDigits(s, from, neg).Some?
    requires DecimalText.ScanDigits(s, from, neg).value.1 == |s|
    ensures from < |s| && (forall k :: 0 <= k < |s[from..]| ==> IsDigitChar(s[from..][k])) && DigitsOf(s[from..]) != []
  {
    hide DigitsOf, Points;
    var t := s[from..];
    forall k | 0 <= k < |t| ensures IsDigitChar(t[k]) {
      assert t[k] == s[from + k];
    }
    NoPoints(t);
    MantissaLength(t);
  }

  lemma MantissaIsSpelled(m: string) returns (whole: seq<Digit>, fraction: Option<seq<Digit>>)
    requires IsMantissa(m) && DigitsOf(m) != []
    ensures MantissaOf(Spelling("", whole, fraction, None)) == m
    ensures whole + FractionDigits(Spelling("", whole, fraction, None)) != []
  {
    hide DigitsOf, Points, FractionLength;
    MantissaBack(m);
    var ds := DigitsOf(m);
    var n := |ds| - FractionLength(m);
    whole, fraction := ds[..n], if Points(m) == 1 then Some(ds[n..]) else None;
    NumeralsAreChars(whole);
    NumeralsAreChars(ds[n..]);
    if fraction.None? {
      assert ds[..n] == ds && Chars(ds[n..]) == "";
    } else {
      assert ds[..n] + ds[n..] == ds;
      Regroup3(Chars(ds[..n]), ".", Chars(ds[n..]));
    }
  }

  lemma Regroup3(a: string, b: string, c: string)
    ensures (a + b) + c == a + (b + c)
  {
  }

  /** The parts of a text that is read as a number. */
  lemma NumberIsSpelled(s: string) returns (p: Spelling)
    requires Read(s).NumberText?
    ensures IsSpelling(p) && Spelled(p) == s
  {
    hide Read, DigitsOf, Points, FractionLength, ScanInt, MantissaOf, FieldText, IsField;
    var start, end := MantissaSlice(s);
    ReadBounds(s);
    var m := s[start..end];
    var whole, fraction := MantissaIsSpelled(m);
    var exponent := FieldAfter(s, end);
    p := Spelling(s[..start], whole, fraction, exponent);
    SameMantissa(p, whole, fraction);
    assert s == s[..start] + m + s[end..];
  }

  lemma SameMantissa(p: Spelling, whole: seq<Digit>, fraction: Option<seq<Digit>>)
    requires p.whole == whole && p.fraction == fraction
    ensures MantissaOf(p) == MantissaOf(Spelling("", whole, fraction, None))
  {
  }

  lemma FieldAfter(s: string, end: nat) returns (exponent: Option<ExponentField>)
    requires end <= |s| && EndsField(s, end)
    ensures (exponent.Some? ==> IsField(exponent.value)) && s[end..] == FieldText(exponent)
  {
    hide ScanInt, IsField;
    exponent := None;
    if end < |s| {
      var field := FieldBack(s, end + 1);
      exponent := Some(field);
    }
  }

  /** The texts that are read as numbers are just the spellings, and each is read as what it says. */
  lemma NumbersIff(s: string, lit: Literal)
    ensures Read(s) == NumberText(lit) <==> exists p :: IsSpelling(p) && Spelled(p) == s && Said(p) == lit
  {
    hide Read, IsSpelling, Spelled, Said;
    if Read(s) == NumberText(lit) {
      var p := NumberIsSpelled(s);
      SpellingIsRead(p);
    }
    forall p | IsSpelling(p) && Spelled(p) == s && Said(p) == lit ensures Read(s) == NumberText(lit) {
      SpellingIsRead(p);
    }
  }

  // The words.

  /** The letters of a word, each in either case. */
  predicate InEitherCase(w: string, lower: string, upper: string)
    requires |lower| == |upper|
  {
    |w| == |lower| && forall k :: 0 <= k < |w| ==> w[k] == lower[k] || w[k] == upper[k]
  }

  /** What follows the sign, if there is one. */
  function Unsigned(s: string): string { if s != "" && (s[0] == '+' || s[0] == '-') then s[1..] else s }

  lemma SameLetters(w: string, lower: string, upper: string)
    requires |lower| == |upper|
    requires forall k :: 0 <= k < |lower| ==> 'a' <= lower[k] <= 'z' && upper[k] as int + 32 == lower[k] as int
    ensures EqualIgnoringCase(w, lower) <==> InEitherCase(w, lower, upper)
  {
  }

  /** The texts read as infinity and as NaN, which has no sign that matters. */
  lemma WordsIff(s: string)
    ensures var t := Unsigned(s);
            && (Read(s).InfinityText? <==> InEitherCase(t, "inf", "INF") || InEitherCase(t, "infinity", "INFINITY"))
            && (Read(s).InfinityText? ==> Read(s).neg == ("-" <= s))
            && (Read(s).NaNText? <==> InEitherCase(t, "nan", "NAN"))
  {
    hide EqualIgnoringCase, InEitherCase, ReadNumber;
    var t, start := Unsigned(s), if IsSigned(s) then 1 else 0;
    assert s[start..] == t && At(t, 0) == At(s, start);
    if IsMantissaChar(At(t, 0)) {
      NumberIsNoWord(s, start);
      StartsAsWord(t, "inf", "INF");
      StartsAsWord(t, "infinity", "INFINITY");
      StartsAsWord(t, "nan", "NAN");
    } else {
      SameLetters(t, "inf", "INF");
      SameLetters(t, "infinity", "INFINITY");
      SameLetters(t, "nan", "NAN");
      StartsAsWord(t, "inf", "INF");
      StartsAsWord(t, "infinity", "INFINITY");
      StartsAsWord(t, "nan", "NAN");
    }
  }

  lemma StartsAsWord(t: string, lower: string, upper: string)
    requires |lower| == |upper| && lower != ""
    ensures InEitherCase(t, lower, upper) ==> At(t, 0) == lower[0] || At(t, 0) == upper[0]
  {
  }

  lemma NumberIsNoWord(s: string, start: nat)
    requires start <= |s|
    ensures ReadNumber(s, start).NumberText? || ReadNumber(s, start).Malformed?
  {
  }

  /** What the parser answers for a text that is no number: a word, or a refusal, which leaves NaN. */
  lemma OtherTexts(s: CString, wild: Int32, beyond: Word16)
    ensures var t, answer := Unsigned(s), Parse(s, wild, beyond);
            if InEitherCase(t, "inf", "INF") || InEitherCase(t, "infinity", "INFINITY") then
              answer == (true, Dec128(if "-" <= s then 0xf800_0000_0000_0000 else 0x7800_0000_0000_0000, 0))
            else if InEitherCase(t, "nan", "NAN") then
              answer == (true, Dec128(0x7c00_0000_0000_0000, 0))
            else
              && (answer.0 ==> exists p :: IsSpelling(p) && Spelled(p) == s)
              && (!answer.0 ==> answer.1 == Dec128(0x7c00_0000_0000_0000, 0))
  {
    hide Read, InEitherCase, IsSpelling, Spelled, ParseNumber;
    WordsIff(s);
    if Read(s).NumberText? {
      var p := NumberIsSpelled(s);
    }
  }
}
