/**
 Printing and parsing undo each other: the text of a value says exactly its sign, coefficient
 and exponent, fits the documented buffer, and parses back to the same two words.
 */
module DecimalRoundTrip {
  import opened CText
  import opened Digits
  import opened Words
  import opened Decimal128
  import opened DecimalGrammar
  import opened DecimalText
  import opened DecimalParse
  import opened DecimalTheorems

  /** The exponent field that is printed. */
  function PrintedField(x: int): ExponentField
  {
    if x < 0 then ExponentField('E', "", "-", OfNat(-x)) else ExponentField('E', "", "+", OfNat(x))
  }

  lemma FieldParts(x: ExponentField)
    requires x.space == ""
    ensures FieldText(Some(x)) == [x.marker] + (x.sign + Numerals(x.digits))
  {
    hide Numerals;
    assert [x.marker] + "" == [x.marker];
  }

  lemma SignedField(x: int)
    ensures IsField(PrintedField(x)) && FieldText(Some(PrintedField(x))) == "E" + Signed(x)
    ensures FieldNumber(Some(PrintedField(x))) == x
  {
    hide OfNat, Nat;
    var n := if x < 0 then -x else x;
    OfNatDenotes(n);
    NumeralsAreChars(OfNat(n));
    hide Chars;
    FieldParts(PrintedField(x));
  }

  /** A sign, a mantissa and perhaps an exponent, put together as they are printed. */
  lemma ReadPrinted(t: string, neg: bool, m: string, tail: string, x: int)
    requires t == Sign(neg) + m + tail
    requires forall k :: 0 <= k < |m| ==> IsMantissaChar(m[k])
    requires DigitsOf(m) != [] && Points(m) <= 1
    requires if tail == "" then x == 0 else tail == "E" + Signed(x)
    ensures Read(t) == NumberText(Literal(neg, neg, DigitsOf(m), Points(m) == 1, FractionLength(m), x))
  {
    hide Signed, Read, DigitsOf, Points, FractionLength, PrintedField;
    SignedField(x);
    ReadAssembled(t, Sign(neg), m, if tail == "" then None else Some(PrintedField(x)));
  }

  // The text of a value, in the grammar.

  predicate IsScientific(count: nat, e: int) { count - 1 + e < -6 || e > 0 }

  /** The parts in which the digits `ds` are printed. */
  function Printed(neg: bool, ds: seq<Digit>, e: int): Spelling
    requires ds != []
  {
    var point := |ds| + e;
    if IsScientific(|ds|, e) then
      Spelling(Sign(neg), ds[..1], if |ds| == 1 then None else Some(ds[1..]), Some(PrintedField(|ds| - 1 + e)))
    else if e == 0 then Spelling(Sign(neg), ds, None, None)
    else if point > 0 then Spelling(Sign(neg), ds[..point], Some(ds[point..]), None)
    else Spelling(Sign(neg), [0], Some(Zeros(-point) + ds), None)
  }

  lemma Associate(a: string, b: string, c: string)
    ensures (a + b) + c == a + (b + c)
  {
  }

  lemma JoinFour(a: string, b: string, c: string, d: string)
    ensures a + b + c + d == a + (b + (c + d))
  {
    Associate(a + b, c, d);
    Associate(a, b, c + d);
  }

  /** A mantissa without a point, and one with a point. */
  lemma MantissaChars(p: Spelling)
    ensures MantissaOf(p) ==
            if p.fraction.Some? then Chars(p.whole) + ("." + Chars(p.fraction.value)) else Chars(p.whole)
  {
    NumeralsAreChars(p.whole);
    if p.fraction.Some? {
      NumeralsAreChars(p.fraction.value);
    } else {
      assert Chars(p.whole) + "" == Chars(p.whole);
    }
  }

  lemma CharsSlice(ds: seq<Digit>, i: nat, j: nat)
    requires i <= j <= |ds|
    ensures Chars(ds)[i..j] == Chars(ds[i..j])
  {
  }

  lemma ScientificMantissaSpelled(p: Spelling, neg: bool, ds: seq<Digit>)
    requires ds != [] && p.whole == ds[..1] && p.fraction == (if |ds| == 1 then None else Some(ds[1..]))
    ensures ScientificMantissa(Sign(neg), Chars(ds)) == Sign(neg) + MantissaOf(p)
  {
    hide Chars, MantissaOf;
    MantissaChars(p);
    if |ds| == 1 {
      assert ds[..1] == ds;
    } else {
      CharsSlice(ds, 0, 1);
      CharsSlice(ds, 1, |ds|);
      assert ds[1..] == ds[1..|ds|] && Chars(ds)[1..] == Chars(ds)[1..|ds|] && Chars(ds)[..1] == Chars(ds)[0..1];
      JoinFour(Sign(neg), Chars(ds[..1]), ".", Chars(ds[1..]));
    }
  }

  lemma ScientificSpelled(neg: bool, ds: seq<Digit>, e: int)
    requires ds != [] && IsScientific(|ds|, e)
    ensures FiniteText(Sign(neg), Chars(ds), e) == Spelled(Printed(neg, ds, e))
  {
    hide Signed, PrintedField, FieldText, MantissaOf, ScientificMantissa, PlainMantissa, Chars;
    var x := |ds| - 1 + e;
    SignedField(x);
    ScientificMantissaSpelled(Printed(neg, ds, e), neg, ds);
    Associate(Sign(neg) + MantissaOf(Printed(neg, ds, e)), "E", Signed(x));
  }

  lemma PointInside(sign: string, ds: seq<Digit>, e: int)
    requires e < 0 < |ds| + e
    ensures PlainMantissa(sign, Chars(ds), e) ==
            sign + (Chars(ds[..|ds| + e]) + ("." + Chars(ds[|ds| + e..])))
  {
    var point := |ds| + e;
    var a, b := Chars(ds[..point]), Chars(ds[point..]);
    assert Chars(ds)[..point] == a && Chars(ds)[point..] == b;
    assert sign + a + "." + ZeroChars(0) == sign + a + ".";
    JoinFour(sign, a, ".", b);
  }

  lemma PointBefore(sign: string, ds: seq<Digit>, e: int)
    requires ds != [] && |ds| + e <= 0
    ensures PlainMantissa(sign, Chars(ds), e) ==
            sign + (Chars([0]) + ("." + Chars(Zeros(-(|ds| + e)) + ds)))
  {
    var zeros := -(|ds| + e);
    var a, b := Chars([0]), ZeroChars(zeros);
    assert a == "0" && Chars(Zeros(zeros) + ds) == b + Chars(ds);
    assert Chars(ds)[0..] == Chars(ds);
    Associate(sign + a + ".", b, Chars(ds));
    JoinFour(sign, a, ".", b + Chars(ds));
  }

  lemma PlainSpelled(neg: bool, ds: seq<Digit>, e: int)
    requires ds != [] && !IsScientific(|ds|, e)
    ensures FiniteText(Sign(neg), Chars(ds), e) == Spelled(Printed(neg, ds, e))
  {
    hide Signed, PrintedField, MantissaOf, ScientificMantissa, Chars;
    var p := Printed(neg, ds, e);
    MantissaChars(p);
    NoField(Sign(neg) + MantissaOf(p));
    if e < 0 {
      hide PlainMantissa;
      if |ds| + e > 0 {
        PointInside(Sign(neg), ds, e);
      } else {
        PointBefore(Sign(neg), ds, e);
      }
    }
  }

  lemma NoField(s: string)
    ensures s + FieldText(None) == s
  {
  }

  lemma PrintedNumber(neg: bool, ds: seq<Digit>, e: int)
    requires ds != []
    ensures var p := Printed(neg, ds, e);
            && IsSpelling(p) && Nat(p.whole + FractionDigits(p)) == Nat(ds)
            && FieldNumber(p.exponent) - |FractionDigits(p)| == e
  {
    hide Nat, PrintedField, IsField;
    var p, point := Printed(neg, ds, e), |ds| + e;
    if IsScientific(|ds|, e) {
      SignedField(|ds| - 1 + e);
      assert p.whole + FractionDigits(p) == ds;
    } else if e == 0 || point > 0 {
      assert p.whole + FractionDigits(p) == ds;
    } else {
      assert p.whole + FractionDigits(p) == Zeros(1 - point) + ds;
      NatLeadingZeros(1 - point, ds);
    }
  }

  /** The shape of printed text: in scientific notation there is one digit before the point. */
  predicate WellPrinted(p: Spelling, neg: bool, count: nat, e: int)
  {
    && p.sign == (if neg then "-" else "") && p.whole != [] && (p.whole[0] == 0 ==> |p.whole| == 1)
    && if count - 1 + e < -6 || e > 0 then
         && |p.whole| == 1 && |FractionDigits(p)| == count - 1 && (p.fraction.Some? <==> count > 1)
         && p.exponent.Some?
         && var x := p.exponent.value;
            && x.marker == 'E' && x.space == "" && x.sign == (if count - 1 + e < 0 then "-" else "+")
            && x.digits != [] && (x.digits[0] == 0 ==> |x.digits| == 1)
       else p.exponent.None? && |FractionDigits(p)| == -e && (p.fraction.Some? <==> e < 0)
  }

  /**
   Every finite value is printed as a spelling of just its sign, coefficient and exponent: d.dddE+dd, with one
   digit before the point, when the leading digit stands below 10^-6 or the exponent is positive, and else
   with -e digits after the point and none of its own.
   */
  lemma PrintingSpelled(neg: bool, c: nat, e: int) returns (p: Spelling)
    ensures IsSpelling(p) && Text(Finite(neg, c, e)) == Spelled(p)
    ensures Nat(Said(p).digits) == c && WrittenExponent(Said(p)) == e
    ensures WellPrinted(p, neg, |OfNat(c)|, e)
  {
    hide FiniteText, Spelled, FieldNumber, Nat;
    var ds := OfNat(c);
    OfNatDenotes(c);
    p := Printed(neg, ds, e);
    PrintedNumber(neg, ds, e);
    PrintedShape(neg, c, e);
    if IsScientific(|ds|, e) {
      ScientificSpelled(neg, ds, e);
    } else {
      PlainSpelled(neg, ds, e);
    }
  }

  lemma PrintedShape(neg: bool, c: nat, e: int)
    ensures WellPrinted(Printed(neg, OfNat(c), e), neg, |OfNat(c)|, e)
  {
    hide OfNat, PrintedField;
    var count := |OfNat(c)|;
    SingleZero(c);
    if IsScientific(count, e) {
      FieldShape(count - 1 + e);
    }
  }

  lemma FieldShape(n: int)
    ensures var x := PrintedField(n);
            && x.marker == 'E' && x.space == "" && x.sign == (if n < 0 then "-" else "+")
            && x.digits != [] && (x.digits[0] == 0 ==> |x.digits| == 1)
  {
    hide OfNat;
    SingleZero(if n < 0 then -n else n);
  }

  lemma SingleZero(n: nat)
    ensures OfNat(n)[0] == 0 ==> |OfNat(n)| == 1
  {
    OfNatDenotes(n);
  }

  /** Every finite value is printed so that the text says exactly its sign, coefficient and exponent. */
  lemma PrintingDenotes(neg: bool, c: nat, e: int)
    ensures var r := Read(Text(Finite(neg, c, e)));
            && r.NumberText? && r.lit.neg == neg
            && Nat(r.lit.digits) == c
            && WrittenExponent(r.lit) == e
            && r.lit.exponent == if IsScientific(|OfNat(c)|, e) then |OfNat(c)| - 1 + e else 0
  {
    hide Read, Spelled, Text, Nat, OfNat;
    var p := PrintingSpelled(neg, c, e);
    SpellingIsRead(p);
  }

  lemma SpelledChars(p: Spelling)
    requires IsSpelling(p)
    ensures '\0' !in Spelled(p)
    ensures 'E' in Spelled(p) <==> p.exponent.Some? && p.exponent.value.marker == 'E'
  {
    hide DigitsOf, Points, FractionLength, MantissaOf, FieldText;
    MantissaParts(p);
    FieldChars(p.exponent);
    var m, field := MantissaOf(p), FieldText(p.exponent);
    InConcat('E', p.sign, m);
    InConcat('E', p.sign + m, field);
    InConcat('\0', p.sign, m);
    InConcat('\0', p.sign + m, field);
  }

  lemma InConcat(c: char, a: string, b: string)
    ensures c in a + b <==> c in a || c in b
  {
  }

  lemma NumeralChars(ds: seq<Digit>, c: char)
    requires !IsDigitChar(c)
    ensures c !in Numerals(ds)
  {
    hide Numerals;
    NumeralsAreChars(ds);
  }

  lemma BlankChars(space: string, c: char)
    requires IsBlank(space) && c !in BLANKS
    ensures c !in space
  {
  }

  lemma FieldChar(x: ExponentField, c: char)
    requires IsField(x) && (c == 'E' || c == '\0')
    ensures c in FieldText(Some(x)) <==> x.marker == c
  {
    hide Numerals;
    NumeralChars(x.digits, c);
    BlankChars(x.space, c);
    InConcat(c, [x.marker], x.space);
    InConcat(c, [x.marker] + x.space, x.sign);
    InConcat(c, [x.marker] + x.space + x.sign, Numerals(x.digits));
  }

  lemma FieldChars(x: Option<ExponentField>)
    requires x.Some? ==> IsField(x.value)
    ensures '\0' !in FieldText(x) && ('E' in FieldText(x) <==> x.Some? && x.value.marker == 'E')
  {
    if x.Some? {
      FieldChar(x.value, 'E');
      FieldChar(x.value, '\0');
    }
  }

  /** Scientific notation is used exactly when the leading digit stands below 10^-6 or the exponent is positive. */
  lemma PrintingNotation(neg: bool, c: nat, e: int)
    ensures 'E' in Text(Finite(neg, c, e)) <==> |OfNat(c)| - 1 + e < -6 || e > 0
  {
    hide Spelled, Text, OfNat;
    var p := PrintingSpelled(neg, c, e);
    SpelledChars(p);
  }

  /** The texts of the other values. */
  lemma PrintingWords()
    ensures Text(Infinity(false)) == "Infinity" && Text(Infinity(true)) == "-Infinity" && Text(NotANumber) == "NaN"
  {
    assert "" + "Infinity" == "Infinity" && "-" + "Infinity" == "-Infinity";
  }

  /** The length of a finite text, from the number of digits and the length of the exponent field. */
  lemma FiniteLength(neg: bool, cs: string, e: int)
    requires cs != ""
    ensures |FiniteText(Sign(neg), cs, e)| == Bit(neg) +
            if IsScientific(|cs|, e) then |cs| + Bit(|cs| > 1) + 1 + |Signed(|cs| - 1 + e)|
            else if e == 0 then |cs| else if |cs| + e > 0 then |cs| + 1 else 2 - e
  {
    hide Signed;
  }

  lemma SignedLengthIff(e: int)
    requires -10000 < e < 10000
    ensures |Signed(e)| <= 5
    ensures |Signed(e)| == 5 <==> e <= -1000 || 1000 <= e
  {
    var n: nat := if e < 0 then -e else e;
    SignedLength(e);
    assert |Signed(e)| == 1 + |OfNat(n)|;
    assert Pow10(3) == 1000;
    OfNatLength(n, 4);
    OfNatLength(n, 3);
  }

  /** A coefficient that the words can hold has 35 digits exactly when it is not canonical. */
  lemma CoefficientLength(c: nat)
    requires c < TWO_49 * TWO_64
    ensures |OfNat(c)| <= 35
    ensures |OfNat(c)| == 35 <==> COEFFICIENT_LIMIT <= c
  {
    TenTo34();
    assert Pow10(35) == 10 * Pow10(34);
    OfNatLength(c, 35);
    OfNatLength(c, MAX_DIGITS);
  }

  /** A minus sign, 35 digits, and either a four-digit exponent field or the most zeros after the point. */
  predicate Overflows(v: Value)
  {
    v.Finite? && v.neg && COEFFICIENT_LIMIT <= v.coefficient
    && (v.exponent <= -1034 || v.exponent == -40 || 966 <= v.exponent)
  }

  /**
   The documented buffer holds the text and its NUL of every pair of words, except those that
   overflow it by one byte.
   */
  lemma PrintingFitsIff(d: Dec128)
    ensures |Text(Decode(d))| + 1 == STRING_SIZE + 1 <==> Overflows(Decode(d))
    ensures |Text(Decode(d))| + 1 <= STRING_SIZE <==> !Overflows(Decode(d))
  {
    hide Decode, FiniteText, Signed, OfNat;
    var v := Decode(d);
    if v.Finite? {
      DecodedCoefficient(d);
      DecodedExponent(d);
      CoefficientLength(v.coefficient);
      FiniteLength(v.neg, Chars(OfNat(v.coefficient)), v.exponent);
      SignedLengthIff(|OfNat(v.coefficient)| - 1 + v.exponent);
    }
  }

  lemma DecodedCoefficient(d: Dec128)
    requires Decode(d).Finite?
    ensures Decode(d).coefficient < TWO_49 * TWO_64
  {
  }

  /** One of those that do not fit: all bits of the coefficient set, at the largest exponent. */
  lemma PrintingOverflows()
    ensures var d := Dec128(TWO_63 + 12287 * TWO_49 + TWO_49 - 1, TWO_64 - 1);
            && Decode(d) == Finite(true, TWO_49 * TWO_64 - 1, EXPONENT_MAX)
            && |Text(Decode(d))| + 1 == STRING_SIZE + 1
  {
    hide Text;
    DecodeFields(true, 12287, TWO_49 - 1, TWO_64 - 1);
    PrintingFitsIff(Dec128(TWO_63 + 12287 * TWO_49 + TWO_49 - 1, TWO_64 - 1));
  }

  /** In particular it is long enough for every canonical value. */
  lemma PrintingFits(v: Value)
    requires CanonicalValue(v)
    ensures |Text(v)| + 1 <= STRING_SIZE
  {
    hide Encode, Text;
    DecodeEncode(v);
    PrintingFitsIff(Encode(v));
  }

  /** ... and not a byte too long. */
  lemma PrintingFitsTightly()
    ensures CanonicalValue(Finite(true, COEFFICIENT_LIMIT - 1, EXPONENT_MIN))
    ensures |Text(Finite(true, COEFFICIENT_LIMIT - 1, EXPONENT_MIN))| + 1 == STRING_SIZE
  {
    TenTo34();
    assert COEFFICIENT_LIMIT == 10 * Pow10(33);
    OfNatLength(COEFFICIENT_LIMIT - 1, MAX_DIGITS);
    assert Pow10(3) == 1000;
    OfNatLength(6143, 4);
    SignedLength(-6143);
  }

  // Parsing the printed text.

  lemma InRangeIsNormal(s: string, offset: nat, stored: seq<Digit>, zero: bool, e0: int)
    requires 1 <= |stored| <= MAX_DIGITS && |stored| + offset <= |s|
    requires EXPONENT_MIN <= e0 <= EXPONENT_MAX
    ensures Normalise(s, offset, stored, zero, |stored|, e0) == Shifted(|stored| - 1, e0)
  {
  }

  /** A number in range is accepted as it stands. */
  lemma InRangeIsAccepted(s: string, lit: Literal, wild: Int32, beyond: Word16)
    requires lit.digits != [] && |lit.digits| + Offset(lit) <= |s|
    requires PlainExponent(lit) && EXPONENT_MIN <= WrittenExponent(lit) <= EXPONENT_MAX
    requires Nat(lit.digits) < COEFFICIENT_LIMIT
    ensures ParseNumber(s, lit, wild, beyond) ==
            Some(Encode(Finite(lit.neg, Nat(lit.digits), WrittenExponent(lit))))
  {
    var sig, e := Significand(lit), WrittenExponent(lit);
    assert WorkingExponent(lit, wild) == e;
    NatWithoutLeadingZeros(lit.digits);
    PackIsEncode(lit.neg, Nat(lit.digits), e);
    if sig == [] {
      InRangeIsNormal(s, Offset(lit), [0], true, e);
    } else {
      FewDigits(sig);
      InRangeIsNormal(s, Offset(lit), sig, false, e);
      WholeCoefficient(lit, beyond);
      assert RoundsOff(s, lit, |sig| - 1);
    }
  }

  lemma WholeCoefficient(lit: Literal, beyond: Word16)
    requires 1 <= |Significand(lit)| <= MAX_DIGITS
    ensures Stored(Significand(lit)) == Significand(lit)
    ensures Coefficient(lit, |Significand(lit)| - 1, beyond) == Nat(lit.digits)
  {
    var sig := Significand(lit);
    NatWithoutLeadingZeros(lit.digits);
    assert Stored(sig) == sig;
    assert Cells(sig, |sig|, beyond) == sig;
  }

  lemma FewDigits(sig: seq<Digit>)
    requires sig != [] && sig[0] != 0 && Nat(sig) < COEFFICIENT_LIMIT
    ensures |sig| <= MAX_DIGITS
  {
    TenTo34();
    NatLeading(sig);
    Pow10Reflects(|sig| - 1, MAX_DIGITS);
  }

  /** Any text that says a canonical value, with an exponent field of a sane size, is parsed to it. */
  lemma ReadsBack(t: CString, neg: bool, c: nat, e: int, wild: Int32, beyond: Word16)
    requires CanonicalValue(Finite(neg, c, e))
    requires Read(t).NumberText? && Read(t).lit.neg == neg && Nat(Read(t).lit.digits) == c
    requires WrittenExponent(Read(t).lit) == e && PlainExponent(Read(t).lit)
    ensures Parse(t, wild, beyond) == (true, Encode(Finite(neg, c, e)))
  {
    hide Read, Encode, ParseNumber;
    ReadBounds(t);
    InRangeIsAccepted(t, Read(t).lit, wild, beyond);
  }

  lemma FiniteRoundTrip(neg: bool, c: nat, e: int, wild: Int32, beyond: Word16)
    requires CanonicalValue(Finite(neg, c, e))
    requires '\0' !in Text(Finite(neg, c, e)) && |Text(Finite(neg, c, e))| < STRING_SIZE
    ensures Parse(Text(Finite(neg, c, e)), wild, beyond) == (true, Encode(Finite(neg, c, e)))
  {
    hide Parse, Encode, Read;
    var t: CString := Text(Finite(neg, c, e));
    TenTo34();
    OfNatLength(c, MAX_DIGITS);
    PrintingDenotes(neg, c, e);
    ReadsBack(t, neg, c, e, wild, beyond);
  }

  lemma TextHasNoNul(v: Value)
    ensures '\0' !in Text(v)
  {
    if v.Finite? {
      var p := PrintingSpelled(v.neg, v.coefficient, v.exponent);
      SpelledChars(p);
    }
  }

  /**
   Round trip: for every canonical decimal128 -- zeros of either sign, both infinities and NaN among
   them -- parsing the printed text succeeds and gives back the same two words.
   */
  lemma RoundTrip(d: Dec128, wild: Int32, beyond: Word16)
    requires Canonical(d)
    ensures '\0' !in Text(Decode(d)) && |Text(Decode(d))| < STRING_SIZE
    ensures Parse(Text(Decode(d)), wild, beyond) == (true, d)
  {
    hide Decode, Encode, Text, Parse;
    var v := Decode(d);
    TextHasNoNul(v);
    PrintingFits(v);
    if v.Finite? {
      FiniteRoundTrip(v.neg, v.coefficient, v.exponent, wild, beyond);
    } else {
      SpecialRoundTrip(v, wild, beyond);
    }
  }

  lemma ReadsInfinity(word: string, neg: bool)
    requires word == "Infinity"
    ensures ReadWord(word, neg) == InfinityText(neg)
  {
  }

  lemma ReadsNaN(word: string, neg: bool)
    requires word == "NaN"
    ensures ReadWord(word, neg) == NaNText
  {
    assert Lower(word[0]) == 'n' && Lower(word[1]) == 'a' && Lower(word[2]) == 'n';
    assert "inf"[0] == 'i' && "nan"[0] == 'n' && "nan"[1] == 'a' && "nan"[2] == 'n';
  }

  lemma SpecialRoundTrip(v: Value, wild: Int32, beyond: Word16)
    requires !v.Finite?
    ensures '\0' !in Text(v)
    ensures Parse(Text(v), wild, beyond) == (true, Encode(v))
  {
    hide ReadWord, ReadNumber, ParseNumber;
    var t := Text(v);
    match v
    case NotANumber =>
      assert t[0..] == t;
      ReadsNaN(t, false);
    case Infinity(neg) =>
      assert t[|Sign(neg)|..] == "Infinity";
      ReadsInfinity(t[|Sign(neg)|..], neg);
  }

  // Words that are not canonical.

  lemma StoredCoefficient(lit: Literal, last: nat, beyond: Word16)
    requires last < MAX_DIGITS
    ensures Coefficient(lit, last, beyond) < COEFFICIENT_LIMIT
  {
    TenTo34();
    var digits: seq<Digit> := Cells(Stored(Significand(lit)), last + 1, beyond);
    NatBound(digits);
    Pow10Monotone(last + 1, MAX_DIGITS);
  }

  /** A number of 35 digits in range is refused, or cut to 34 digits. */
  lemma LongNumber(s: string, lit: Literal, wild: Int32, beyond: Word16)
    requires lit.digits != [] && |lit.digits| + Offset(lit) <= |s|
    requires PlainExponent(lit) && EXPONENT_MIN <= WrittenExponent(lit) <= EXPONENT_MAX
    requires COEFFICIENT_LIMIT <= Nat(lit.digits)
    ensures var r := ParseNumber(s, lit, wild, beyond);
            r.Some? ==> Decode(r.value).Finite? && Decode(r.value).coefficient < COEFFICIENT_LIMIT
  {
    hide Decode, Encode, Pack, Coefficient, TrimDown, RoundsOff;
    var sig, e := Significand(lit), WrittenExponent(lit);
    assert WorkingExponent(lit, wild) == e;
    LongSignificand(lit);
    var r := Normalise(s, Offset(lit), Stored(sig), false, |sig|, e);
    if r.Shifted? {
      StoredCoefficient(lit, r.last, beyond);
      PackIsEncode(lit.neg, Coefficient(lit, r.last, beyond), r.exponent);
      DecodeEncode(Finite(lit.neg, Coefficient(lit, r.last, beyond), r.exponent));
    }
  }

  lemma LongSignificand(lit: Literal)
    requires COEFFICIENT_LIMIT <= Nat(lit.digits)
    ensures |Stored(Significand(lit))| == MAX_DIGITS < |Significand(lit)|
  {
    TenTo34();
    NatWithoutLeadingZeros(lit.digits);
    NatBound(Significand(lit));
    Pow10Reflects(MAX_DIGITS, |Significand(lit)|);
  }

  lemma LongText(neg: bool, c: nat, e: int, wild: Int32, beyond: Word16)
    requires COEFFICIENT_LIMIT <= c < TWO_49 * TWO_64 && EXPONENT_MIN <= e <= EXPONENT_MAX
    requires '\0' !in Text(Finite(neg, c, e)) && |Text(Finite(neg, c, e))| < 100
    ensures var d := Parse(Text(Finite(neg, c, e)), wild, beyond).1;
            Decode(d).Finite? ==> Decode(d).coefficient < COEFFICIENT_LIMIT
  {
    hide Encode, Read, ParseNumber, Text, Decode;
    var t: CString := Text(Finite(neg, c, e));
    CoefficientLength(c);
    PrintingDenotes(neg, c, e);
    ReadBounds(t);
    LongNumber(t, Read(t).lit, wild, beyond);
    NaNIsNoNumber();
  }

  lemma NaNIsNoNumber()
    ensures Decode(NAN) == NotANumber
  {
    DecodeEncode(NotANumber);
  }

  /** Printing and parsing gives words back exactly when they are canonical. */
  lemma RoundTripIff(d: Dec128, wild: Int32, beyond: Word16)
    ensures '\0' !in Text(Decode(d)) && |Text(Decode(d))| <= STRING_SIZE
    ensures Parse(Text(Decode(d)), wild, beyond).1 == d <==> Canonical(d)
  {
    hide Decode, Encode, Text, Parse;
    var v := Decode(d);
    TextHasNoNul(v);
    PrintingFitsIff(d);
    if Canonical(d) {
      RoundTrip(d, wild, beyond);
    } else if !v.Finite? {
      SpecialRoundTrip(v, wild, beyond);
    } else {
      DecodedExponent(d);
      DecodedCoefficient(d);
      if v.coefficient < COEFFICIENT_LIMIT {
        PrintingFits(v);
        FiniteRoundTrip(v.neg, v.coefficient, v.exponent, wild, beyond);
      } else {
        LongText(v.neg, v.coefficient, v.exponent, wild, beyond);
      }
    }
  }
}
