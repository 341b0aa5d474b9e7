/**
 Properties of bson_decimal128_from_string and bson_decimal128_to_string: parsing is exact
 (and exactly when), zeros keep their sign, and printing followed by parsing is the identity.
 */
module DecimalTheorems {
  import opened CText
  import opened Digits
  import opened Words
  import opened Decimal128
  import opened DecimalText
  import opened DecimalParse

  // Equality of numbers c * 10^e, brought to a common exponent.

  lemma SameNumberAt(c1: nat, e1: int, c2: nat, e2: int, base: int)
    requires base <= e1 && base <= e2
    ensures SameNumber(c1, e1, c2, e2) <==> c1 * Pow10(e1 - base) == c2 * Pow10(e2 - base)
  {
    if e1 <= e2 {
      Pow10Add(e2 - e1, e1 - base);
      Rescale(c1, c2, Pow10(e2 - e1), Pow10(e1 - base));
    } else {
      Pow10Add(e1 - e2, e2 - base);
      Rescale(c2, c1, Pow10(e1 - e2), Pow10(e2 - base));
    }
  }

  lemma Rescale(a: nat, b: nat, p: nat, q: nat)
    requires 1 <= q
    ensures a == b * p <==> a * q == b * (p * q)
  {
    assert b * (p * q) == (b * p) * q;
    if a * q == (b * p) * q {
      CancelFactor(a, b * p, q);
    }
  }

  lemma CancelFactor(a: nat, b: nat, q: nat)
    requires 1 <= q && a * q == b * q
    ensures a == b
  {
    if a < b {
      MulStrict(a, b, q);
    } else if b < a {
      MulStrict(b, a, q);
    }
  }

  lemma SameNumberTransitive(c1: nat, e1: int, c2: nat, e2: int, c3: nat, e3: int)
    requires SameNumber(c1, e1, c2, e2)
    ensures SameNumber(c2, e2, c1, e1)
    ensures SameNumber(c2, e2, c3, e3) <==> SameNumber(c1, e1, c3, e3)
  {
    var base := if e1 <= e2 && e1 <= e3 then e1 else if e2 <= e3 then e2 else e3;
    SameNumberAt(c1, e1, c2, e2, base);
    SameNumberAt(c2, e2, c1, e1, base);
    SameNumberAt(c2, e2, c3, e3, base);
    SameNumberAt(c1, e1, c3, e3, base);
  }

  /** Numbers that agree to within a factor of two cannot differ by a power of ten. */
  lemma SameMagnitude(a: nat, e1: int, b: nat, e2: int)
    requires 1 <= a <= b < 2 * a
    requires SameNumber(a, e1, b, e2)
    ensures e1 == e2 && a == b
  {
    if e1 < e2 {
      TenTimes(b, e2 - e1);
    } else if e2 < e1 {
      TenTimes(a, e1 - e2);
    }
  }

  lemma TenTimes(a: nat, k: nat)
    requires 1 <= k
    ensures a * 10 <= a * Pow10(k)
  {
    assert Pow10(k) >= 10;
    assert a * (Pow10(k) - 10) >= 0;
  }

  // What normalisation does to the digits and the exponent.

  /** Trimming drops only zeros, and the exponent makes up for each dropped digit. */
  lemma {:induction false} TrimDownKeeps(s: string, offset: nat, stored: seq<Digit>, last: nat, n: nat, e: int)
    requires |stored| <= n && n + offset <= |s| && last < |stored| <= MAX_DIGITS
    requires TrimDown(s, offset, stored, false, last, n, e).Shifted?
    ensures var r := TrimDown(s, offset, stored, false, last, n, e);
            && r.last <= last
            && r.exponent == e + (n - |stored|) + (last - r.last)
            && forall k :: r.last < k <= last ==> stored[k] == 0
    decreases n + last
  {
    if EXPONENT_MIN <= e && |stored| == n {
    } else if |stored| < n {
      TrimDownKeeps(s, offset, stored, last, n - 1, e + 1);
    } else {
      TrimDownKeeps(s, offset, stored, last - 1, n, e + 1);
    }
  }

  lemma SameNumberScaled(a: nat, k: nat, b: nat, e: int)
    requires b == a * Pow10(k)
    ensures SameNumber(a, e + k, b, e)
  {
  }

  /** Within the array the cells are the stored digits, with zeros after them. */
  lemma CellsOfStored(stored: seq<Digit>, k: nat, beyond: Word16)
    requires |stored| <= MAX_DIGITS && k <= MAX_DIGITS
    ensures k <= |stored| ==> Cells(stored, k, beyond) == stored[..k]
    ensures |stored| <= k ==> Cells(stored, k, beyond) == stored + Zeros(k - |stored|)
  {
  }

  /** Dropping trailing zeros and raising the exponent leaves the number alone. */
  lemma TrimmedNumber(stored: seq<Digit>, k: nat, beyond: Word16, e: int)
    requires k <= |stored| <= MAX_DIGITS
    requires forall i :: k <= i < |stored| ==> stored[i] == 0
    ensures SameNumber(Nat(Cells(stored, k, beyond)), e + (|stored| - k), Nat(stored), e)
  {
    hide Nat, Cells, SameNumber;
    CellsOfStored(stored, k, beyond);
    NatTrimmed(stored, k);
    SameNumberScaled(Nat(stored[..k]), |stored| - k, Nat(stored), e);
  }

  /** So does padding with zeros and lowering the exponent, within the 34 cells. */
  lemma PaddedNumber(stored: seq<Digit>, k: nat, beyond: Word16, e: int)
    requires |stored| <= k <= MAX_DIGITS
    ensures SameNumber(Nat(Cells(stored, k, beyond)), e - (k - |stored|), Nat(stored), e)
  {
    hide Nat, Pow10, Cells;
    CellsOfStored(stored, k, beyond);
    NatTrailingZeros(stored, k - |stored|);
  }

  /** One cell more than the array has: the coefficient is too long to be canonical. */
  lemma OverlongCoefficient(stored: seq<Digit>, k: nat, beyond: Word16)
    requires stored != [] && stored[0] != 0 && |stored| <= MAX_DIGITS && k == MAX_DIGITS + 1
    ensures COEFFICIENT_LIMIT <= Nat(stored) * Pow10(k - |stored|)
  {
    TenTo34();
    NatLeading(stored);
    Pow10Add(|stored| - 1, k - |stored|);
    MulMonotone(Pow10(|stored| - 1), Nat(stored), Pow10(k - |stored|));
  }

  // Packing.

  lemma PackIsEncode(neg: bool, c: nat, e: int)
    requires c < COEFFICIENT_LIMIT && EXPONENT_MIN <= e <= EXPONENT_MAX
    ensures c < TWO_64 * TWO_64
    ensures Pack(neg, c, e) == Encode(Finite(neg, c, e))
  {
    TenTo34();
  }

  /** Whatever 128 bits are packed, a finite nonzero value read back has the packed sign and exponent. */
  lemma PackedFields(neg: bool, c: nat, e: int)
    requires c < TWO_64 * TWO_64 && EXPONENT_MIN <= e <= EXPONENT_MAX
    ensures var v := Decode(Pack(neg, c, e));
            v.Finite? ==> v.coefficient == 0 || (v.neg == neg && v.exponent == e)
  {
    var hi := c / TWO_64;
    if hi / TWO_49 % 2 == 1 {
      var high := Pack(neg, c, e).high;
      var top := if neg then 7 else 3;
      DivUnique(high, TWO_61, top, high - top * TWO_61);
      DivTwice(high, TWO_58, 8);
    } else {
      DecodeFields(neg, e + EXPONENT_BIAS, hi % TWO_49, c % TWO_64);
    }
  }

  // Exactness.

  function WrittenExponent(lit: Literal): int { lit.exponent - lit.fraction }

  /** Normalisation keeps the number, unless it pads to 35 digits. */
  lemma Normalised(s: string, offset: nat, stored: seq<Digit>, n: nat, e0: int, beyond: Word16)
    requires 1 <= |stored| <= n && n + offset <= |s| && |stored| <= MAX_DIGITS
    requires Normalise(s, offset, stored, false, n, e0).Shifted?
    ensures var r := Normalise(s, offset, stored, false, n, e0);
            && (EXPONENT_MAX < e0 ==> |stored| + (e0 - EXPONENT_MAX) <= MAX_DIGITS + 1)
            && (r.last < MAX_DIGITS ==>
                  SameNumber(Nat(Cells(stored, r.last + 1, beyond)), r.exponent, Nat(stored), e0 + (n - |stored|)))
            && (r.last == MAX_DIGITS ==> n == |stored| && r.exponent == EXPONENT_MAX)
            && (r.last == MAX_DIGITS <==> |stored| + (e0 - EXPONENT_MAX) == MAX_DIGITS + 1)
  {
    var up := PadUp(|stored| - 1, e0, false);
    var down := TrimDown(s, offset, stored, false, up.last, n, up.exponent);
    if e0 <= EXPONENT_MAX {
      TrimDownKeeps(s, offset, stored, up.last, n, e0);
      TrimmedNumber(stored, down.last + 1, beyond, e0 + (n - |stored|));
    } else if down.last < MAX_DIGITS {
      PaddedNumber(stored, down.last + 1, beyond, e0);
    }
  }

  /** What normalisation leaves: the last cell to pack and the exponent, for these stored digits. */
  ghost predicate Settled(lit: Literal, wild: Int32, beyond: Word16, last: nat, e: int)
    requires last <= MAX_DIGITS
  {
    var sig, e0 := Significand(lit), WorkingExponent(lit, wild);
    var stored := Stored(sig);
    && EXPONENT_MIN <= e <= EXPONENT_MAX
    && (EXPONENT_MAX < e0 ==> |stored| + (e0 - EXPONENT_MAX) <= MAX_DIGITS + 1)
    && (last < MAX_DIGITS ==>
          SameNumber(Coefficient(lit, last, beyond), e, Nat(stored), e0 + (|sig| - |stored|)))
    && (last == MAX_DIGITS ==> |sig| == |stored| && e == EXPONENT_MAX)
    && (last == MAX_DIGITS <==> |stored| + (e0 - EXPONENT_MAX) == MAX_DIGITS + 1)
  }

  /** An accepted nonzero number is packed from its normalised digits. */
  lemma Accepted(s: string, lit: Literal, wild: Int32, beyond: Word16) returns (last: nat, e: int)
    requires lit.digits != [] && |lit.digits| + Offset(lit) <= |s|
    requires Significand(lit) != [] && ParseNumber(s, lit, wild, beyond).Some?
    ensures last <= MAX_DIGITS && Settled(lit, wild, beyond, last, e)
    ensures ParseNumber(s, lit, wild, beyond) == Some(Pack(lit.neg, Coefficient(lit, last, beyond), e))
  {
    hide TrimDown, Normalise, RoundsOff, Cells;
    var sig := Significand(lit);
    var stored := Stored(sig);
    var offset := Offset(lit);
    var r := Normalise(s, offset, stored, false, |sig|, WorkingExponent(lit, wild));
    last, e := r.last, r.exponent;
    Normalised(s, offset, stored, |sig|, WorkingExponent(lit, wild), beyond);
  }

  predicate FitsInt(field: int) { -0x8000_0000 <= field < 0x8000_0000 }

  /** Up to two gigabytes: a fraction so long cannot bring an exponent field beyond an int back into range. */
  const TEXT_LIMIT: nat := 0x7fff_0000

  /** C says what scanf stores for the exponent field, or the text is so short that it does not matter. */
  predicate Settles(lit: Literal) { FitsInt(lit.exponent) || lit.fraction < TEXT_LIMIT }

  /** The exponent field fits in an int, also after the radix correction, and trips no overflow prevention. */
  predicate PlainExponent(lit: Literal)
  {
    && FitsInt(lit.exponent) && FitsInt(WrittenExponent(lit))
    && !(0 <= lit.exponent && lit.fraction - lit.exponent > 0x4000)
  }

  /** A plain exponent is the one the parser works with. */
  lemma PlainIsKept(lit: Literal, wild: Int32)
    requires lit.fraction < 0x8000_0000_0000_0000 && PlainExponent(lit)
    ensures WorkingExponent(lit, wild) == WrittenExponent(lit) && Settles(lit)
  {
  }

  /** An accepted exponent is the written one exactly when it is plain. */
  lemma PlainExponentIff(lit: Literal, wild: Int32)
    requires lit.fraction < 0x8000_0000_0000_0000 && Settles(lit)
    requires WorkingExponent(lit, wild) <= EXPONENT_MAX + MAX_DIGITS
    ensures PlainExponent(lit) <==> WorkingExponent(lit, wild) == WrittenExponent(lit)
  {
  }

  /** The stored digits against all the digits that were written. */
  lemma StoredAgainstWritten(lit: Literal) returns (head: nat)
    requires Significand(lit) != []
    ensures var sig := Significand(lit);
            var dropped := |sig| - |Stored(sig)|;
            && head == Nat(Stored(sig)) * Pow10(dropped)
            && 1 <= Nat(Stored(sig)) && 1 <= head <= Nat(lit.digits) < 2 * head
            && (head == Nat(lit.digits) <==> forall k :: MAX_DIGITS <= k < |sig| ==> sig[k] == 0)
  {
    var sig := Significand(lit);
    head := Nat(Stored(sig)) * Pow10(|sig| - |Stored(sig)|);
    NatWithoutLeadingZeros(lit.digits);
    LeadingPart(sig, |Stored(sig)|);
  }

  /** The leading digits make up more than half of the number, and all of it if only zeros follow. */
  lemma LeadingPart(ds: seq<Digit>, m: nat)
    requires 1 <= m <= |ds| && ds[0] != 0
    ensures var head := Nat(ds[..m]) * Pow10(|ds| - m);
            && 1 <= Nat(ds[..m]) && 1 <= head <= Nat(ds) < 2 * head
            && (head == Nat(ds) <==> forall k :: m <= k < |ds| ==> ds[k] == 0)
  {
    var first, rest := ds[..m], ds[m..];
    assert ds == first + rest;
    NatConcat(first, rest);
    NatBound(rest);
    NatLeading(first);
    AtLeastOnce(Nat(first), Pow10(|rest|));
    SuffixZero(ds, m);
  }

  lemma SuffixZero(ds: seq<nat>, m: nat)
    requires m <= |ds|
    ensures Nat(ds[m..]) == 0 <==> forall k :: m <= k < |ds| ==> ds[k] == 0
  {
    NatZero(ds[m..]);
    if Nat(ds[m..]) == 0 {
      forall k | m <= k < |ds| ensures ds[k] == 0 {
        assert ds[m..][k - m] == ds[k];
      }
    }
  }

  /** A canonical finite value that is the number written. */
  predicate ExactValue(v: Value, lit: Literal)
  {
    v.Finite? && CanonicalValue(v) && Denotes(lit, v.neg, v.coefficient, v.exponent)
  }

  /** The words are canonical and denote the number that was written. */
  predicate Exact(d: Dec128, lit: Literal) { ExactValue(Decode(d), lit) }

  /** Checkable on the text alone: when the parser's answer is the number written. */
  predicate Faithful(lit: Literal)
  {
    var sig := Significand(lit);
    && PlainExponent(lit)
    && (forall k :: MAX_DIGITS <= k < |sig| ==> sig[k] == 0)
    && |Stored(sig)| + (WrittenExponent(lit) - EXPONENT_MAX) <= MAX_DIGITS
  }

  /** The stored digits at the working exponent are the written number exactly when the text is faithful. */
  lemma StoredIsWrittenIff(lit: Literal, wild: Int32, stored: nat, scale: int)
    requires Significand(lit) != [] && lit.fraction < 0x8000_0000_0000_0000 && Settles(lit)
    requires var sig, e0 := Significand(lit), WorkingExponent(lit, wild);
             && stored == Nat(Stored(sig)) && scale == e0 + (|sig| - |Stored(sig)|)
             && (EXPONENT_MAX < e0 ==> |Stored(sig)| + (e0 - EXPONENT_MAX) <= MAX_DIGITS)
    ensures SameNumber(stored, scale, Nat(lit.digits), WrittenExponent(lit)) <==> Faithful(lit)
  {
    var e0, w := WorkingExponent(lit, wild), WrittenExponent(lit);
    var head := StoredAgainstWritten(lit);
    SameNumberTransitive(head, e0, stored, scale, Nat(lit.digits), w);
    PlainExponentIff(lit, wild);
    if SameNumber(head, e0, Nat(lit.digits), w) {
      SameMagnitude(head, e0, Nat(lit.digits), w);
    }
  }

  /** Up to 34 cells: the packed coefficient is the written number exactly when the text is faithful. */
  lemma ExactWithinCells(lit: Literal, wild: Int32, c: nat, e: int, stored: nat, scale: int)
    requires Significand(lit) != [] && lit.fraction < 0x8000_0000_0000_0000 && Settles(lit)
    requires c < COEFFICIENT_LIMIT && EXPONENT_MIN <= e <= EXPONENT_MAX
    requires var sig, e0 := Significand(lit), WorkingExponent(lit, wild);
             && stored == Nat(Stored(sig)) && scale == e0 + (|sig| - |Stored(sig)|)
             && (EXPONENT_MAX < e0 ==> |Stored(sig)| + (e0 - EXPONENT_MAX) <= MAX_DIGITS)
    requires SameNumber(c, e, stored, scale)
    ensures ExactValue(Finite(lit.neg, c, e), lit) <==> Faithful(lit)
  {
    SameNumberTransitive(c, e, stored, scale, Nat(lit.digits), WrittenExponent(lit));
    StoredIsWrittenIff(lit, wild, stored, scale);
  }

  /** A working exponent that pads to 35 digits is the written one, or the written one is far away. */
  lemma OverlongExponent(lit: Literal, wild: Int32)
    requires Significand(lit) != [] && lit.fraction < 0x8000_0000_0000_0000 && Settles(lit)
    requires |Significand(lit)| <= MAX_DIGITS
    requires |Significand(lit)| + (WorkingExponent(lit, wild) - EXPONENT_MAX) == MAX_DIGITS + 1
    ensures var w := WrittenExponent(lit);
            || w == EXPONENT_MAX + (MAX_DIGITS + 1 - |Significand(lit)|)
            || w > EXPONENT_MAX + MAX_DIGITS
            || w < EXPONENT_MIN - 0x4000
    ensures !Faithful(lit)
  {
    PlainExponentIff(lit, wild);
  }

  /** 35 cells: the answer is never exact. */
  lemma NeverExactBeyondCells(lit: Literal, v: Value)
    requires 1 <= |Significand(lit)| <= MAX_DIGITS
    requires var w := WrittenExponent(lit);
             || w == EXPONENT_MAX + (MAX_DIGITS + 1 - |Significand(lit)|)
             || w > EXPONENT_MAX + MAX_DIGITS
             || w < EXPONENT_MIN - 0x4000
    requires v.Finite? && v.coefficient < COEFFICIENT_LIMIT && (v.coefficient == 0 || v.exponent == EXPONENT_MAX)
    ensures !Denotes(lit, v.neg, v.coefficient, v.exponent)
  {
    hide SameNumber, Pow10, Significand, Nat;
    SignificandSize(lit);
    if v.coefficient == 0 {
      NotZero(v.exponent, Nat(lit.digits), WrittenExponent(lit));
    } else {
      TooFarToMatch(v.coefficient, Nat(lit.digits), WrittenExponent(lit), |Significand(lit)|);
    }
  }

  lemma SignificandSize(lit: Literal)
    requires 1 <= |Significand(lit)| <= MAX_DIGITS
    ensures 1 <= Nat(lit.digits) < Pow10(|Significand(lit)|)
    ensures COEFFICIENT_LIMIT <= Nat(lit.digits) * Pow10(MAX_DIGITS + 1 - |Significand(lit)|)
  {
    var sig := Significand(lit);
    NatWithoutLeadingZeros(lit.digits);
    NatLeading(sig);
    NatBound(sig);
    OverlongCoefficient(sig, MAX_DIGITS + 1, 0);
  }

  lemma NotZero(e: int, t: nat, w: int)
    requires 1 <= t
    ensures !SameNumber(0, e, t, w)
  {
    if e <= w {
      AtLeastOnce(t, Pow10(w - e));
    }
  }

  /** 34 digits at the largest exponent cannot meet digits written 35 places off or more. */
  lemma TooFarToMatch(c: nat, t: nat, w: int, n: nat)
    requires c < COEFFICIENT_LIMIT && 1 <= n <= MAX_DIGITS
    requires 1 <= t < Pow10(n) && COEFFICIENT_LIMIT <= t * Pow10(MAX_DIGITS + 1 - n)
    requires w == EXPONENT_MAX + (MAX_DIGITS + 1 - n) || w > EXPONENT_MAX + MAX_DIGITS || w < EXPONENT_MIN - 0x4000
    ensures !SameNumber(c, EXPONENT_MAX, t, w)
  {
    TenTo34();
    if w > EXPONENT_MAX + MAX_DIGITS {
      Pow10Monotone(MAX_DIGITS, w - EXPONENT_MAX);
      AtLeastOnce(t, Pow10(w - EXPONENT_MAX));
    } else if w < EXPONENT_MAX {
      Pow10Monotone(n, EXPONENT_MAX - w);
      if c >= 1 {
        AtLeastOnce(c, Pow10(EXPONENT_MAX - w));
      }
    }
  }

  /** Normalised digits, packed, are the written number exactly when the text is faithful. */
  lemma PackedIsExactIff(lit: Literal, wild: Int32, beyond: Word16, last: nat, e: int)
    requires Significand(lit) != [] && lit.fraction < 0x8000_0000_0000_0000 && Settles(lit)
    requires last <= MAX_DIGITS && Settled(lit, wild, beyond, last, e)
    ensures Exact(Pack(lit.neg, Coefficient(lit, last, beyond), e), lit) <==> Faithful(lit)
  {
    hide Faithful, Pack, Cells, WorkingExponent, Denotes;
    var c := Coefficient(lit, last, beyond);
    if last < MAX_DIGITS {
      CellsWithin(Stored(Significand(lit)), last + 1, beyond);
      PackIsEncode(lit.neg, c, e);
      DecodeEncode(Finite(lit.neg, c, e));
      var sig := Significand(lit);
      ExactWithinCells(lit, wild, c, e, Nat(Stored(sig)), WorkingExponent(lit, wild) + (|sig| - |Stored(sig)|));
    } else {
      OverlongExponent(lit, wild);
      PackedFields(lit.neg, c, e);
      var v := Decode(Pack(lit.neg, c, e));
      if v.Finite? && v.coefficient < COEFFICIENT_LIMIT {
        NeverExactBeyondCells(lit, v);
      }
    }
  }

  lemma CellsWithin(stored: seq<Digit>, k: nat, beyond: Word16)
    requires |stored| <= MAX_DIGITS && k <= MAX_DIGITS
    ensures Nat(Cells(stored, k, beyond)) < COEFFICIENT_LIMIT
  {
    var cells: seq<Digit> := Cells(stored, k, beyond);
    NatBound(cells);
    Pow10Monotone(k, MAX_DIGITS);
    TenTo34();
  }

  /**
   Parsing is exact, and exactly when: for every text that is accepted with a nonzero digit, the words
   are canonical and denote the number written if and only if the exponent field is plain, every digit
   after the 34th significant one is a zero, and the padded digits fit the 34 cells.
   */
  lemma ParsingIsExactIff(s: CString, wild: Int32, beyond: Word16)
    requires Read(s).NumberText? && Significand(Read(s).lit) != [] && Settles(Read(s).lit)
    requires Parse(s, wild, beyond).0
    ensures Exact(Parse(s, wild, beyond).1, Read(s).lit) <==> Faithful(Read(s).lit)
  {
    var lit := Read(s).lit;
    ReadBounds(s);
    var last, e := Accepted(s, lit, wild, beyond);
    PackedIsExactIff(lit, wild, beyond, last, e);
  }
}
