/**
 Which numbers bson_decimal128_from_string accepts, which decimals of the format a text could be
 read as, and how far the two agree: the parser is right about every number with a plain exponent
 whenever the characters it takes for the dropped digits are zeros.
 */
module DecimalAcceptance {
  import opened CText
  import opened Digits
  import opened Words
  import opened Decimal128
  import opened DecimalGrammar
  import opened DecimalText
  import opened DecimalParse
  import opened DecimalTheorems
  import opened DecimalRoundTrip

  /** A literal as ReadNumber makes them. */
  predicate WellFormed(lit: Literal)
  {
    lit.fraction <= |lit.digits| && (!lit.radix ==> lit.fraction == 0)
  }

  function Mantissa(lit: Literal): (m: string)
    requires WellFormed(lit)
    ensures |m| == |lit.digits| + Bit(lit.radix)
  {
    Written(lit.digits, lit.radix, lit.fraction)
  }

  /** The mantissa of a number starts right after the sign. */
  predicate HasMantissa(s: string, lit: Literal)
  {
    && WellFormed(lit) && |lit.digits| + Offset(lit) <= |s|
    && forall k :: 0 <= k < |Mantissa(lit)| ==> s[Bit(lit.signed) + k] == Mantissa(lit)[k]
  }

  lemma ReadMantissa(s: string)
    requires Read(s).NumberText?
    ensures HasMantissa(s, Read(s).lit)
  {
    hide Read, Points, DigitsOf, FractionLength, Written;
    var start, end := MantissaSlice(s);
    MantissaBack(s[start..end]);
  }

  // When normalisation succeeds.

  /** Trimming in one go: what must hold for all the digits that are dropped. */
  predicate Trims(s: string, offset: nat, stored: seq<Digit>, last: nat, n: nat, e: int, under: nat)
    requires |stored| <= n && n + offset <= |s| && last < |stored|
  {
    && e + (n - |stored|) <= EXPONENT_MAX && under <= last
    && (forall k :: |stored| + offset <= k < n + offset ==> s[k] == '0')
    && (forall k :: last - under < k <= last ==> stored[k] == 0)
  }

  lemma {:induction false} TrimDownIff(s: string, offset: nat, stored: seq<Digit>, last: nat, n: nat, e: int,
                                       under: nat)
    requires |stored| <= n && n + offset <= |s| && last < |stored| <= MAX_DIGITS
    requires |stored| < n ==> 0 < last
    requires e <= EXPONENT_MAX && under == NonNegative(EXPONENT_MIN - (e + (n - |stored|)))
    ensures var r := TrimDown(s, offset, stored, false, last, n, e);
            && (r.Shifted? <==> Trims(s, offset, stored, last, n, e, under))
            && (r.Shifted? ==> r.last == last - under)
    decreases n + last
  {
    if EXPONENT_MIN <= e && |stored| == n {
    } else if last == 0 {
    } else if |stored| < n {
      if s[n - 1 + offset] == '0' && e < EXPONENT_MAX {
        TrimDownIff(s, offset, stored, last, n - 1, e + 1, under);
      }
    } else if stored[last] == 0 {
      TrimDownIff(s, offset, stored, last - 1, n, e + 1, under - 1);
    }
  }

  /** The digits after the 34th are dropped, and as many more as bring the exponent into range. */
  function Dropped(n: nat, e: int): nat
  {
    Max(NonNegative(n - MAX_DIGITS), NonNegative(EXPONENT_MIN - e))
  }

  /** The characters that the parser takes for the digits it drops are zeros. */
  predicate LooksZero(m: string, skip: nat, n: nat, drop: nat)
    requires n + skip <= |m|
  {
    && (forall k :: MAX_DIGITS + skip <= k < n + skip ==> m[k] == '0')
    && (0 < drop <= |m| ==> m[|m| - drop] == '0')
  }

  /** Digits that may be dropped, and an exponent that then is in range. */
  predicate Droppable(sig: seq<Digit>, e: int, drop: nat)
  {
    && e + drop <= EXPONENT_MAX && drop < |sig|
    && forall k :: |sig| - drop <= k < |sig| && k < MAX_DIGITS ==> sig[k] == 0
  }

  /** Checkable on the text alone, but for an exponent field that does not fit an int: is the number accepted? */
  predicate Accepts(lit: Literal, wild: Int32)
    requires WellFormed(lit)
  {
    var sig, e := Significand(lit), WorkingExponent(lit, wild);
    var drop := Dropped(|sig|, e);
    if e > EXPONENT_MAX then |sig| + (e - EXPONENT_MAX) <= MAX_DIGITS + 1
    else Droppable(sig, e, drop) && LooksZero(Mantissa(lit), Bit(lit.radix), |sig|, drop)
  }

  /** The scan for trailing zeros makes no difference: only the one digit looked at decides. */
  lemma RoundsOffIff(s: string, lit: Literal, last: nat)
    requires |lit.digits| + Offset(lit) <= |s|
    ensures RoundsOff(s, lit, last) <==>
            (last + 1 < |Significand(lit)| ==> s[LeadingZeros(lit.digits) + last + Offset(lit) + 1] == '0')
  {
  }

  /** The loop over the dropped digits, in terms of the text. */
  lemma TrimmedIff(s: string, offset: nat, sig: seq<Digit>, e: int)
    requires sig != [] && |sig| + offset <= |s| && e <= EXPONENT_MAX
    ensures var r, drop := Normalise(s, offset, Stored(sig), false, |sig|, e), Dropped(|sig|, e);
            && (r.Shifted? ==> r.last + 1 == |sig| - drop)
            && (r.Shifted? <==> Droppable(sig, e, drop) &&
                                forall k :: MAX_DIGITS + offset <= k < |sig| + offset ==> s[k] == '0')
  {
    hide TrimDown;
    var stored, n := Stored(sig), |sig|;
    TrimDownIff(s, offset, stored, |stored| - 1, n, e, NonNegative(EXPONENT_MIN - (e + (n - |stored|))));
  }

  /** Too large an exponent is made up for by padding, one digit too many included. */
  lemma PaddedIff(s: string, offset: nat, sig: seq<Digit>, e: int)
    requires sig != [] && |sig| + offset <= |s| && EXPONENT_MAX < e
    ensures var r := Normalise(s, offset, Stored(sig), false, |sig|, e);
            && (r.Shifted? ==> |sig| <= r.last)
            && (r.Shifted? <==> |sig| + (e - EXPONENT_MAX) <= MAX_DIGITS + 1)
  {
  }

  /** A number with a nonzero digit is accepted exactly when its literal says so. */
  lemma NumberAcceptedIff(s: string, lit: Literal, wild: Int32, beyond: Word16)
    requires HasMantissa(s, lit) && lit.digits != [] && Significand(lit) != []
    ensures ParseNumber(s, lit, wild, beyond).Some? <==> Accepts(lit, wild)
  {
    hide Normalise, Mantissa, RoundsOff, Stored, Cells, WorkingExponent;
    var sig, offset, e := Significand(lit), Offset(lit), WorkingExponent(lit, wild);
    var r := Normalise(s, offset, Stored(sig), false, |sig|, e);
    if r.Shifted? {
      RoundsOffIff(s, lit, r.last);
    }
    if e > EXPONENT_MAX {
      PaddedIff(s, offset, sig, e);
    } else {
      TrimmedIff(s, offset, sig, e);
      if Dropped(|sig|, e) < |sig| {
        LooksZeroIff(s, lit, Dropped(|sig|, e));
      }
    }
  }

  /** A run of zeros in a part of a text, counted from the start of that part and from the start of the text. */
  lemma SameZeros(s: string, m: string, sign: nat, from: nat, to: nat)
    requires sign + |m| <= |s| && to <= |m| && forall k :: 0 <= k < |m| ==> s[sign + k] == m[k]
    ensures (forall k :: from <= k < to ==> m[k] == '0') <==> (forall k :: from + sign <= k < to + sign ==> s[k] == '0')
  {
    if forall k :: from <= k < to ==> m[k] == '0' {
      forall k | from + sign <= k < to + sign ensures s[k] == '0' {
        assert m[k - sign] == '0';
      }
    }
    if forall k :: from + sign <= k < to + sign ==> s[k] == '0' {
      forall k | from <= k < to ensures m[k] == '0' {
        assert s[sign + k] == '0';
      }
    }
  }

  lemma LooksZeroIff(s: string, lit: Literal, drop: nat)
    requires HasMantissa(s, lit) && drop < |Significand(lit)|
    ensures var n, offset := |Significand(lit)|, Offset(lit);
            LooksZero(Mantissa(lit), Bit(lit.radix), n, drop) <==>
            (forall k :: MAX_DIGITS + offset <= k < n + offset ==> s[k] == '0')
            && (0 < drop ==> s[|lit.digits| - drop + offset] == '0')
  {
    hide Mantissa;
    var m, n, skip, sign := Mantissa(lit), |Significand(lit)|, Bit(lit.radix), Bit(lit.signed);
    SameZeros(s, m, sign, MAX_DIGITS + skip, n + skip);
    if 0 < drop {
      assert s[sign + (|m| - drop)] == m[|m| - drop];
    }
  }

  /** The parser accepts a text with a nonzero digit exactly when its literal says so. */
  lemma AcceptedIff(s: CString, wild: Int32, beyond: Word16)
    requires Read(s).NumberText? && Significand(Read(s).lit) != []
    ensures WellFormed(Read(s).lit)
    ensures Parse(s, wild, beyond).0 <==> Accepts(Read(s).lit, wild)
  {
    hide Read, ParseNumber, Accepts, Significand;
    ReadBounds(s);
    ReadMantissa(s);
    NumberAcceptedIff(s, Read(s).lit, wild, beyond);
  }

  // Which numbers the format can represent.

  /** Some canonical value is the number written. */
  ghost predicate Representable(lit: Literal)
  {
    exists v :: ExactValue(v, lit)
  }

  /** The last digits may be dropped, or zeros appended, so that 34 digits and an exponent in range are left. */
  predicate Fits(sig: seq<Digit>, w: int)
  {
    if w > EXPONENT_MAX then |sig| + (w - EXPONENT_MAX) <= MAX_DIGITS
    else
      var drop := Dropped(|sig|, w);
      && w + drop <= EXPONENT_MAX && drop < |sig|
      && forall k :: |sig| - drop <= k < |sig| ==> sig[k] == 0
  }

  lemma WholeQuotient(x: nat, p: nat, q: nat, r: nat, c: nat)
    requires x == q * p + r && r < p && x == c * p
    ensures q == c && r == 0
  {
    DivUnique(x, p, q, r);
    DivUnique(x, p, c, 0);
  }

  /** A power of ten divides a number exactly when that many of its last digits are zeros. */
  lemma DividesTail(ds: seq<Digit>, d: nat, c: nat)
    requires d <= |ds| && Nat(ds) == c * Pow10(d)
    ensures Nat(ds[..|ds| - d]) == c && forall k :: |ds| - d <= k < |ds| ==> ds[k] == 0
  {
    hide Nat, Pow10;
    var head, tail := ds[..|ds| - d], ds[|ds| - d..];
    assert ds == head + tail;
    NatConcat(head, tail);
    NatBound(tail);
    WholeQuotient(Nat(ds), Pow10(d), Nat(head), Nat(tail), c);
    SuffixZero(ds, |ds| - d);
  }

  lemma PaddedBelow(sig: seq<Digit>, k: nat)
    requires |sig| + k <= MAX_DIGITS
    ensures Nat(sig) * Pow10(k) < COEFFICIENT_LIMIT
  {
    TenTo34();
    NatBound(sig);
    MulStrict(Nat(sig), Pow10(|sig|), Pow10(k));
    Pow10Add(|sig|, k);
    Pow10Monotone(|sig| + k, MAX_DIGITS);
  }

  lemma FitsIsEnough(lit: Literal, sig: seq<Digit>, w: int) returns (v: Value)
    requires sig != [] && Nat(sig) == Nat(lit.digits) && w == WrittenExponent(lit) && Fits(sig, w)
    ensures ExactValue(v, lit)
  {
    hide Nat;
    if w > EXPONENT_MAX {
      PaddedBelow(sig, w - EXPONENT_MAX);
      v := Finite(lit.neg, Nat(sig) * Pow10(w - EXPONENT_MAX), EXPONENT_MAX);
    } else {
      var drop := Dropped(|sig|, w);
      var head := sig[..|sig| - drop];
      NatTrimmed(sig, |sig| - drop);
      PaddedBelow(head, 0);
      v := Finite(lit.neg, Nat(head), w + drop);
    }
  }

  /** A coefficient below 10^34 that needs zeros appended to the digits. */
  lemma PaddedFits(sig: seq<Digit>, k: nat, c: nat)
    requires sig != [] && sig[0] != 0 && c < COEFFICIENT_LIMIT && c == Nat(sig) * Pow10(k)
    ensures |sig| + k <= MAX_DIGITS
  {
    TenTo34();
    NatLeading(sig);
    MulMonotone(Pow10(|sig| - 1), Nat(sig), Pow10(k));
    Pow10Add(|sig| - 1, k);
    Pow10Reflects(|sig| - 1 + k, MAX_DIGITS);
  }

  /** A coefficient below 10^34 that needs digits dropped. */
  lemma DroppedFits(sig: seq<Digit>, d: nat, c: nat)
    requires sig != [] && sig[0] != 0 && c < COEFFICIENT_LIMIT && Nat(sig) == c * Pow10(d)
    ensures d < |sig| <= MAX_DIGITS + d && forall k :: |sig| - d <= k < |sig| ==> sig[k] == 0
  {
    NatLeading(sig);
    NatBound(sig);
    assert 1 <= c;
    AtLeastOnce(c, Pow10(d));
    Pow10Reflects(d, |sig|);
    DividesTail(sig, d, c);
    assert sig[..|sig| - d][0] != 0;
    FewDigits(sig[..|sig| - d]);
  }

  lemma ExactNeedsFit(lit: Literal, sig: seq<Digit>, w: int, v: Value)
    requires sig != [] && sig[0] != 0 && Nat(sig) == Nat(lit.digits) && w == WrittenExponent(lit)
    requires ExactValue(v, lit)
    ensures Fits(sig, w)
  {
    if v.exponent <= w {
      PaddedFits(sig, w - v.exponent, v.coefficient);
    } else {
      DroppedFits(sig, v.exponent - w, v.coefficient);
    }
  }

  /** Which nonzero numbers some canonical decimal128 is equal to. */
  lemma RepresentableIff(lit: Literal)
    requires Significand(lit) != []
    ensures Representable(lit) <==> Fits(Significand(lit), WrittenExponent(lit))
  {
    var sig, w := Significand(lit), WrittenExponent(lit);
    NatWithoutLeadingZeros(lit.digits);
    if Fits(sig, w) {
      var v := FitsIsEnough(lit, sig, w);
    }
    if Representable(lit) {
      var v :| ExactValue(v, lit);
      ExactNeedsFit(lit, sig, w, v);
    }
  }

  // The parser against the format.

  /**
   With the exponent as it was written, being accepted and faithful is fitting, if the right
   characters are looked at.
   */
  lemma AcceptsFaithfullyIff(lit: Literal, wild: Int32)
    requires WellFormed(lit) && Significand(lit) != []
    requires PlainExponent(lit) && WorkingExponent(lit, wild) == WrittenExponent(lit)
    ensures var sig, w := Significand(lit), WrittenExponent(lit);
            Accepts(lit, wild) && Faithful(lit) <==>
            Fits(sig, w) && LooksZero(Mantissa(lit), Bit(lit.radix), |sig|, Dropped(|sig|, w))
  {
    hide Mantissa, Significand, WorkingExponent;
  }

  /**
   The parser is right: a text with a nonzero digit is accepted and read exactly if and only if some
   decimal128 is the number written, its exponent is plain, and the characters that the parser takes
   for the dropped digits are zeros.
   */
  lemma ParsedExactlyIff(s: CString, wild: Int32, beyond: Word16)
    requires Read(s).NumberText? && Significand(Read(s).lit) != [] && Settles(Read(s).lit)
    ensures WellFormed(Read(s).lit)
    ensures var lit := Read(s).lit;
            var n := |Significand(lit)|;
            Parse(s, wild, beyond).0 && Exact(Parse(s, wild, beyond).1, lit) <==>
            && Representable(lit) && PlainExponent(lit)
            && LooksZero(Mantissa(lit), Bit(lit.radix), n, Dropped(n, WrittenExponent(lit)))
  {
    hide Read, Parse, Significand, Exact, Accepts, LooksZero, Representable, WorkingExponent, Mantissa, PlainExponent;
    var lit := Read(s).lit;
    ReadBounds(s);
    AcceptedIff(s, wild, beyond);
    RepresentableIff(lit);
    if Parse(s, wild, beyond).0 {
      ParsingIsExactIff(s, wild, beyond);
    }
    FaithfulIsPlain(lit);
    if PlainExponent(lit) {
      PlainIsKept(lit, wild);
      AcceptsFaithfullyIff(lit, wild);
    }
  }

  lemma FaithfulIsPlain(lit: Literal)
    ensures Faithful(lit) ==> PlainExponent(lit)
  {
  }

  // Where the wrong character is looked at.

  /** The radix point stands where the parser looks for the first digit it drops. */
  predicate PointInTheWay(lit: Literal)
  {
    lit.radix && lit.fraction + 1 == EXPONENT_MIN - WrittenExponent(lit)
  }

  /** Dropping zeros of up to 34 digits: the character looked at is a zero unless it is the point. */
  lemma FewDigitsLook(lit: Literal, drop: nat)
    requires WellFormed(lit) && |Significand(lit)| <= MAX_DIGITS && drop < |Significand(lit)|
    requires forall k :: |Significand(lit)| - drop <= k < |Significand(lit)| ==> Significand(lit)[k] == 0
    ensures LooksZero(Mantissa(lit), Bit(lit.radix), |Significand(lit)|, drop) <==>
            !(0 < drop && lit.radix && lit.fraction + 1 == drop)
  {
    var ds := lit.digits;
    forall k | |ds| - drop <= k < |ds| ensures ds[k] == 0 {
      assert ds[k] == Significand(lit)[k - LeadingZeros(ds)];
    }
  }

  /**
   For numbers of at most 34 significant digits with a plain exponent: accepted exactly when padding
   to at most 35 digits or dropping trailing zeros brings the exponent into range and the point is not
   in the way; read exactly when the number is representable and the point is not in the way.
   */
  lemma FewDigitsIff(s: CString, wild: Int32, beyond: Word16)
    requires Read(s).NumberText? && 1 <= |Significand(Read(s).lit)| <= MAX_DIGITS && PlainExponent(Read(s).lit)
    ensures var lit := Read(s).lit;
            var sig, w := Significand(lit), WrittenExponent(lit);
            var drop := NonNegative(EXPONENT_MIN - w);
            && (Parse(s, wild, beyond).0 <==>
                  && |sig| + NonNegative(w - EXPONENT_MAX) <= MAX_DIGITS + 1 && drop < |sig|
                  && (forall k :: |sig| - drop <= k < |sig| ==> sig[k] == 0)
                  && !PointInTheWay(lit))
            && (Parse(s, wild, beyond).0 && Exact(Parse(s, wild, beyond).1, lit) <==>
                Representable(lit) && !PointInTheWay(lit))
  {
    hide Read, Parse, Significand, Exact, Representable, WorkingExponent, Mantissa, LooksZero, PlainExponent;
    var lit := Read(s).lit;
    var sig, w := Significand(lit), WrittenExponent(lit);
    var drop := NonNegative(EXPONENT_MIN - w);
    ReadBounds(s);
    PlainIsKept(lit, wild);
    AcceptedIff(s, wild, beyond);
    ParsedExactlyIff(s, wild, beyond);
    RepresentableIff(lit);
    if drop < |sig| && forall k :: |sig| - drop <= k < |sig| ==> sig[k] == 0 {
      FewDigitsLook(lit, drop);
    }
  }

  /** Without a point and leading zeros the parser looks at the right digits: it reads just what is representable. */
  lemma WholeNumbersIff(s: CString, wild: Int32, beyond: Word16)
    requires Read(s).NumberText? && Significand(Read(s).lit) != [] && PlainExponent(Read(s).lit)
    requires !Read(s).lit.radix && Read(s).lit.digits[0] != 0
    ensures Parse(s, wild, beyond).0 && Exact(Parse(s, wild, beyond).1, Read(s).lit) <==> Representable(Read(s).lit)
  {
    hide Read, Parse, Exact, Representable, PlainExponent;
    var lit := Read(s).lit;
    var n, w := |Significand(lit)|, WrittenExponent(lit);
    ReadBounds(s);
    ReadMantissa(s);
    PlainIsKept(lit, wild);
    ParsedExactlyIff(s, wild, beyond);
    RepresentableIff(lit);
    if Fits(Significand(lit), w) && w <= EXPONENT_MAX {
      WholeNumbersLook(lit, Dropped(n, w));
    }
  }

  lemma WrittenWhole(ds: seq<Digit>)
    ensures Written(ds, false, 0) == Chars(ds)
  {
    assert ds[..|ds|] == ds && Chars(ds[|ds|..]) == "";
  }

  lemma WholeNumbersLook(lit: Literal, drop: nat)
    requires WellFormed(lit) && !lit.radix && lit.digits != [] && lit.digits[0] != 0 && drop < |lit.digits|
    requires |lit.digits| - drop <= MAX_DIGITS
    requires forall k :: |lit.digits| - drop <= k < |lit.digits| ==> Significand(lit)[k] == 0
    ensures LooksZero(Mantissa(lit), 0, |Significand(lit)|, drop)
  {
    hide Written;
    assert Significand(lit) == lit.digits;
    WrittenWhole(lit.digits);
  }
}
