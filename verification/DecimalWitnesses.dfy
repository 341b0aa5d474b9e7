/**
 Zeros; three families of texts that the parser accepts although its answer is not the number written,
 one for each clause of DecimalTheorems.Faithful; and two that it refuses although the number is
 representable, for the two ways in which DecimalAcceptance.LooksZero can fail.
 */
module DecimalWitnesses {
  import opened CText
  import opened Digits
  import opened Words
  import opened Decimal128
  import opened DecimalGrammar
  import opened DecimalText
  import opened DecimalParse
  import opened DecimalTheorems
  import opened DecimalRoundTrip
  import opened DecimalAcceptance

  function Clamp(e: int): int
  {
    if e < EXPONENT_MIN then EXPONENT_MIN else if e > EXPONENT_MAX then EXPONENT_MAX else e
  }

  /** A zero is always accepted: the sign stays and only the exponent may be clamped. */
  lemma ZeroKeepsSign(s: CString, wild: Int32, beyond: Word16)
    requires Read(s).NumberText? && Significand(Read(s).lit) == []
    ensures var lit := Read(s).lit;
            Parse(s, wild, beyond) == (true, Encode(Finite(lit.neg, 0, Clamp(WorkingExponent(lit, wild)))))
  {
    var lit := Read(s).lit;
    ReadBounds(s);
    ZeroIsClamped(s, Offset(lit), WorkingExponent(lit, wild));
    PackIsEncode(lit.neg, 0, Clamp(WorkingExponent(lit, wild)));
  }

  lemma ZeroIsClamped(s: string, offset: nat, e0: int)
    requires 1 + offset <= |s|
    ensures var r := Normalise(s, offset, [0], true, 1, e0);
            r.Shifted? && r.exponent == Clamp(e0)
  {
    var up := PadUp(0, e0, true);
    assert TrimDown(s, offset, [0], true, up.last, 1, up.exponent).Shifted?;
  }

  lemma {:induction false} LeadingZerosAt(ds: seq<Digit>, n: nat)
    requires n < |ds| && ds[n] != 0 && forall k :: 0 <= k < n ==> ds[k] == 0
    ensures LeadingZeros(ds) == n
  {
    if n > 0 {
      LeadingZerosAt(ds[1..], n - 1);
    }
  }

  /** A text of digits alone. */
  lemma ReadDigitsOnly(s: string, ds: seq<Digit>) returns (lit: Literal)
    requires s == Chars(ds) && ds != []
    ensures '\0' !in s && |s| == |ds|
    ensures Read(s) == NumberText(lit) && lit == Literal(false, false, ds, false, 0, 0)
    ensures Mantissa(lit) == s && forall wild: Int32 :: WorkingExponent(lit, wild) == 0
  {
    hide Read, Written, DigitsOf, Points, FractionLength;
    OnlyDigits(ds);
    ReadPlain(s);
    WrittenWhole(ds);
    lit := Literal(false, false, ds, false, 0, 0);
  }

  lemma SignificandFrom(lit: Literal, zeros: nat)
    requires zeros < |lit.digits| && lit.digits[zeros] != 0 && forall k :: 0 <= k < zeros ==> lit.digits[k] == 0
    ensures LeadingZeros(lit.digits) == zeros && Significand(lit) == lit.digits[zeros..]
  {
    LeadingZerosAt(lit.digits, zeros);
  }

  // A digit after the 34th.

  /** Two leading zeros shift the check of the dropped digits by two places. */
  function Truncated(): seq<Digit> { [0, 0, 1] + Zeros(34) + [5] }

  /** 00100...05 with 34 zeros in between: the 5 is lost without an error. */
  lemma DroppedDigitIsLost(s: CString, wild: Int32, beyond: Word16)
    requires s == Chars(Truncated())
    ensures Read(s).NumberText?
    ensures Parse(s, wild, beyond).0 && !Exact(Parse(s, wild, beyond).1, Read(s).lit)
  {
    hide Read, Parse, Exact, Mantissa, WorkingExponent;
    var lit := ReadDigitsOnly(s, Truncated());
    SignificandFrom(lit, 2);
    assert Significand(lit)[35] == 5;
    assert Accepts(lit, wild);
    AcceptedIff(s, wild, beyond);
    ParsingIsExactIff(s, wild, beyond);
  }

  function Nines(n: nat): (ds: seq<Digit>)
    ensures |ds| == n && forall k :: 0 <= k < n ==> ds[k] == 9
  {
    seq(n, _ => 9)
  }

  /** 0099...900 with 34 nines is the canonical 99...9E2, and is refused: the same shift finds a nine to drop. */
  lemma LeadingZerosRefused(s: CString, wild: Int32, beyond: Word16)
    requires s == Chars([0, 0] + Nines(34) + [0, 0])
    ensures Read(s).NumberText? && Representable(Read(s).lit)
    ensures !Parse(s, wild, beyond).0
  {
    hide Read, Parse, Representable, Mantissa, WorkingExponent;
    var lit := ReadDigitsOnly(s, [0, 0] + Nines(34) + [0, 0]);
    SignificandFrom(lit, 2);
    RepresentableIff(lit);
    assert s[35] == '9';
    assert !Accepts(lit, wild);
    AcceptedIff(s, wild, beyond);
  }

  // The radix point.

  /** 10.E-6177 is 1E-6176, and is refused: where the dropped zero should be, the parser finds the point. */
  lemma PointRefused(s: CString, x: int, wild: Int32, beyond: Word16)
    requires x == EXPONENT_MIN - 1 && s == Pointed([1, 0], []) + ("E" + Signed(x))
    ensures Read(s).NumberText? && Representable(Read(s).lit)
    ensures !Parse(s, wild, beyond).0
  {
    hide Read, Parse, Exact, Representable, Signed, DigitsOf, Points, FractionLength;
    SignedLength(x);
    var lit := TenPoint(s, Pointed([1, 0], []), "E" + Signed(x), x);
    SignificandFrom(lit, 0);
    RepresentableIff(lit);
    FewDigitsIff(s, wild, beyond);
  }

  lemma TenPoint(s: string, m: string, tail: string, x: int) returns (lit: Literal)
    requires m == Pointed([1, 0], []) && s == m + tail && tail == "E" + Signed(x)
    ensures Read(s) == NumberText(lit) && lit == Literal(false, false, [1, 0], true, 0, x)
  {
    hide Read, Signed, DigitsOf, Points, FractionLength, Pointed;
    PointedParts([1, 0], []);
    Unsigned(s, m, tail);
    ReadPrinted(s, false, m, tail, x);
    lit := Literal(false, false, [1, 0], true, 0, x);
  }

  // The overflow prevention.

  /** 0.00...01 with more than 2^14 zeros is read as 1E-6176. */
  lemma TinyBecomesLeast(zeros: nat, wild: Int32, beyond: Word16)
    requires 0x4000 <= zeros < 0x8000_0000_0000_0000 - 3
    ensures var s := Pointed([0], Zeros(zeros) + [1]);
            && '\0' !in s && Read(s).NumberText?
            && Parse(s, wild, beyond) == (true, Encode(Finite(false, 1, EXPONENT_MIN)))
            && !Exact(Parse(s, wild, beyond).1, Read(s).lit)
  {
    var s := Pointed([0], Zeros(zeros) + [1]);
    var lit := TinyLiteral(s, zeros);
    assert WorkingExponent(lit, wild) == EXPONENT_MIN;
    InRangeIsNormal(s, Offset(lit), [1], false, EXPONENT_MIN);
    WholeCoefficient(lit, beyond);
    PackIsEncode(false, 1, EXPONENT_MIN);
    ParsingIsExactIff(s, wild, beyond);
  }

  lemma TinyLiteral(s: string, zeros: nat) returns (lit: Literal)
    requires s == Pointed([0], Zeros(zeros) + [1])
    ensures '\0' !in s && |s| == zeros + 3
    ensures Read(s) == NumberText(lit)
    ensures !lit.neg && lit.fraction == zeros + 1 && lit.exponent == 0 && |lit.digits| == zeros + 2
    ensures |lit.digits| + Offset(lit) <= |s|
    ensures Significand(lit) == [1] && Stored([1]) == [1] && Nat(lit.digits) == 1
  {
    var a: seq<Digit>, b: seq<Digit> := [0], Zeros(zeros) + [1];
    PointedParts(a, b);
    lit := Literal(false, false, a + b, true, zeros + 1, 0);
    ReadPlain(s);
    TinySignificand(lit, zeros);
  }

  /** A text that is all mantissa. */
  lemma ReadPlain(s: string)
    requires forall k :: 0 <= k < |s| ==> IsMantissaChar(s[k])
    requires DigitsOf(s) != [] && Points(s) <= 1
    ensures '\0' !in s
    ensures Read(s) == NumberText(Literal(false, false, DigitsOf(s), Points(s) == 1, FractionLength(s), 0))
  {
    hide Read, Signed, DigitsOf, Points, FractionLength;
    assert s == s + "";
    Unsigned(s, s, "");
    ReadPrinted(s, false, s, "", 0);
  }

  lemma TinySignificand(lit: Literal, zeros: nat)
    requires lit.digits == [0] + (Zeros(zeros) + [1])
    ensures Significand(lit) == [1] && Stored([1]) == [1] && Nat(lit.digits) == 1
  {
    LeadingZerosAt(lit.digits, zeros + 1);
    assert lit.digits[zeros + 1..] == [1];
    NatWithoutLeadingZeros(lit.digits);
    NatOne(1);
  }

  // One cell too many.

  lemma OneWithExponent(s: string, m: string, tail: string, x: int) returns (lit: Literal)
    requires m == Chars([1]) && s == m + tail && tail == "E" + Signed(x)
    ensures Read(s) == NumberText(lit) && lit == Literal(false, false, [1], false, 0, x)
  {
    hide Read, Signed, DigitsOf, Points, FractionLength;
    OnlyDigits([1]);
    Unsigned(s, m, tail);
    ReadPrinted(s, false, m, tail, x);
    lit := Literal(false, false, [1], false, 0, x);
  }

  lemma Unsigned(s: string, m: string, tail: string)
    requires s == m + tail
    ensures s == Sign(false) + m + tail
  {
    assert "" + m == m;
  }

  /** 1E+6145 needs 35 digits; it is accepted all the same. */
  lemma OverlongIsAccepted(s: CString, x: int, wild: Int32, beyond: Word16)
    requires x == EXPONENT_MAX + MAX_DIGITS && s == "1" + ("E" + Signed(x))
    ensures Read(s).NumberText?
    ensures Parse(s, wild, beyond).0 && !Exact(Parse(s, wild, beyond).1, Read(s).lit)
  {
    hide Read, Parse, Exact, Signed;
    SignedLength(x);
    assert "1" == Chars([1]);
    var lit := OneWithExponent(s, "1", "E" + Signed(x), x);
    SignificandFrom(lit, 0);
    assert Accepts(lit, wild) && !Faithful(lit);
    AcceptedIff(s, wild, beyond);
    ParsingIsExactIff(s, wild, beyond);
  }
}
