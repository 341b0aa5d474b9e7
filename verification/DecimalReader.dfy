/**
 bson_decimal128_from_string as the loops that compute it. FromString is proved to answer
 exactly what the function DecimalParse.Parse says.
 */
module DecimalReader {
  import opened CText
  import opened Digits
  import opened Words
  import opened Decimal128
  import opened DecimalText
  import opened DecimalParse

  /** _dec128_istreq. */
  method EqualStrings(a: CString, b: CString) returns (r: bool)
    ensures r == EqualIgnoringCase(a, b)
  {
    var i := 0;
    while At(a, i) != '\0' || At(b, i) != '\0'
      invariant i <= |a| && i <= |b|
      invariant forall k :: 0 <= k < i ==> DecimalText.Lower(a[k]) == DecimalText.Lower(b[k])
      decreases |a| - i
    {
      if At(a, i) == '\0' || At(b, i) == '\0' {
        return false;
      }
      if DecimalText.Lower(At(a, i)) != DecimalText.Lower(At(b, i)) {
        return false;
      }
      i := i + 1;
    }
    r := true;
  }

  lemma {:induction false} LeadingZerosSnoc(ds: seq<nat>, d: nat)
    ensures LeadingZeros(ds + [d]) ==
            if LeadingZeros(ds) < |ds| then LeadingZeros(ds) else if d == 0 then |ds| + 1 else |ds|
  {
    if ds == [] {
      assert [] + [d] == [d];
    } else {
      assert (ds + [d])[1..] == ds[1..] + [d];
      LeadingZerosSnoc(ds[1..], d);
    }
  }

  /** What the digit loop has found in the mantissa so far. */
  datatype Scan = Scan(
    sawRadix: bool, foundNonzero: bool, stored: nat, count: nat, read: nat, radixPosition: nat, firstNonzero: nat)

  /** The counters and the digit array agree with the mantissa `m`. */
  ghost predicate Tracks(c: Scan, digits: array<Digit>, m: string)
    reads digits
  {
    var ds := DigitsOf(m);
    var lead := LeadingZeros(ds);
    && digits.Length == MAX_DIGITS
    && Points(m) == Bit(c.sawRadix)
    && c.read == |ds| && c.radixPosition == FractionLength(m)
    && c.foundNonzero == (lead < |ds|)
    && c.count == |ds| - lead && c.stored == Min(c.count, MAX_DIGITS)
    && c.firstNonzero == (if c.foundNonzero then lead else 0)
    && (forall k :: 0 <= k < c.stored ==> digits[k] == ds[lead + k])
    && (forall k :: c.stored <= k < MAX_DIGITS ==> digits[k] == 0)
  }

  lemma DigitSnoc(m: string, ch: char)
    requires IsDigitChar(ch)
    ensures DigitsOf(m + [ch]) == DigitsOf(m) + [DigitOf(ch)]
    ensures Points(m + [ch]) == Points(m)
    ensures FractionLength(m + [ch]) == FractionLength(m) + if Points(m) > 0 then 1 else 0
  {
    assert (m + [ch])[..|m|] == m;
  }

  /** One digit of the mantissa. */
  method TakeDigit(ghost m: string, ch: char, before: Scan, digits: array<Digit>) returns (c: Scan)
    requires IsDigitChar(ch) && Tracks(before, digits, m)
    modifies digits
    ensures Tracks(c, digits, m + [ch])
  {
    hide DigitsOf, Points, FractionLength, LeadingZeros;
    c := before;
    LeadingZerosSnoc(DigitsOf(m), DigitOf(ch));
    DigitSnoc(m, ch);
    if c.stored < 34 {
      if ch != '0' || c.foundNonzero {
        if !c.foundNonzero {
          c := c.(firstNonzero := c.read);
        }
        c := c.(foundNonzero := true);
        digits[c.stored] := DigitOf(ch);
        c := c.(stored := c.stored + 1);
      }
    }
    if c.foundNonzero {
      c := c.(count := c.count + 1);
    }
    if c.sawRadix {
      c := c.(radixPosition := c.radixPosition + 1);
    }
    c := c.(read := c.read + 1);
  }

  /** A point that is the first one. */
  lemma TakePoint(m: string, before: Scan, digits: array<Digit>)
    requires Tracks(before, digits, m) && !before.sawRadix
    ensures Tracks(before.(sawRadix := true), digits, m + ".")
  {
    assert (m + ".")[..|m|] == m;
  }

  /** One character of the mantissa; a second point is an error. */
  method TakeChar(ghost m: string, ch: char, before: Scan, digits: array<Digit>) returns (ok: bool, c: Scan)
    requires IsMantissaChar(ch) && Tracks(before, digits, m)
    modifies digits
    ensures ok ==> Tracks(c, digits, m + [ch])
    ensures !ok ==> Points(m + [ch]) > 1
  {
    if ch == '.' {
      if before.sawRadix {
        assert (m + ".")[..|m|] == m;
        return false, before;
      }
      TakePoint(m, before, digits);
      return true, before.(sawRadix := true);
    }
    c := TakeDigit(m, ch, before, digits);
    ok := true;
  }

  lemma TracksNothing(digits: array<Digit>, m: string)
    requires m == "" && digits.Length == MAX_DIGITS && forall k :: 0 <= k < MAX_DIGITS ==> digits[k] == 0
    ensures Tracks(Scan(false, false, 0, 0, 0, 0, 0), digits, m)
  {
  }

  lemma TracksPoints(c: Scan, digits: array<Digit>, m: string)
    requires Tracks(c, digits, m)
    ensures Points(m) <= 1
  {
  }

  /** The digit loop: stops after the mantissa, or at a second point. */
  method ReadDigits(s: CString, start: nat, digits: array<Digit>) returns (ok: bool, end: nat, c: Scan)
    requires start <= |s| && digits.Length == MAX_DIGITS
    requires forall k :: 0 <= k < MAX_DIGITS ==> digits[k] == 0
    modifies digits
    ensures ok == (Points(s[start..MantissaEnd(s, start)]) <= 1)
    ensures ok ==> end == MantissaEnd(s, start) && Tracks(c, digits, s[start..end])
  {
    hide Tracks, Points, DigitsOf, FractionLength;
    c := Scan(false, false, 0, 0, 0, 0, 0);
    end := start;
    TracksNothing(digits, s[start..end]);
    ok := true;
    while IsMantissaChar(At(s, end))
      invariant start <= end <= MantissaEnd(s, start) == MantissaEnd(s, end)
      invariant Tracks(c, digits, s[start..end])
      decreases |s| - end
    {
      assert s[start..end + 1] == s[start..end] + [s[end]];
      ok, c := TakeChar(s[start..end], At(s, end), c, digits);
      end := end + 1;
      if !ok {
        PointsMonotone(s[start..end], s[start..MantissaEnd(s, start)]);
        return;
      }
    }
    TracksPoints(c, digits, s[start..end]);
  }

  lemma {:induction false} PointsMonotone(a: string, b: string)
    requires a <= b
    ensures Points(a) <= Points(b)
  {
    if |a| < |b| {
      PointsMonotone(a, b[..|b| - 1]);
    } else {
      assert a == b;
    }
  }

  /** The exponent field, if any; sscanf reads the int, and the text must end after it. */
  method ReadExponentField(s: CString, end: nat, wild: Int32, ghost lit: Literal)
    returns (ok: bool, exponent: Int32, ghost field: int)
    requires end <= |s| && lit.exponent == 0
    ensures ok == ReadExponent(s, end, lit).NumberText?
    ensures ok ==> ReadExponent(s, end, lit) == NumberText(lit.(exponent := field))
    ensures ok ==> exponent == StoredExponent(field, wild)
  {
    var read := end;
    exponent, field := 0, 0;
    if At(s, read) == 'e' || At(s, read) == 'E' {
      var scanned := ScanInt(s, read + 1);
      if scanned.None? {
        return false, 0, 0;
      }
      field := scanned.value.0;
      exponent := StoredExponent(scanned.value.0, wild);
      read := scanned.value.1;
    }
    ok := At(s, read) == '\0';
  }

  /** The scan for trailing zeros of the mantissa. */
  method ScanTrailingZeros(s: CString, base: nat, count: nat) returns (significant: nat)
    requires base + count <= |s| && 0 < SignificantDigits(s, base, count)
    ensures significant == SignificantDigits(s, base, count)
  {
    significant := count;
    while s[base + significant - 1] == '0'
      invariant 0 < significant <= count
      invariant SignificantDigits(s, base, significant) == SignificantDigits(s, base, count)
      decreases significant
    {
      significant := significant - 1;
    }
  }

  /** The loop that shifts a large exponent into the significand. */
  method Pad(last: nat, exponent: int, significant: nat) returns (r: Shift)
    requires last <= MAX_DIGITS
    ensures r == PadUp(last, exponent, significant == 0)
  {
    var lastDigit, e := last, exponent;
    while e > EXPONENT_MAX
      invariant lastDigit <= MAX_DIGITS && lastDigit - last == exponent - e
      invariant exponent > EXPONENT_MAX ==> e >= EXPONENT_MAX
      invariant exponent <= EXPONENT_MAX ==> e == exponent
    {
      lastDigit := lastDigit + 1;
      if lastDigit > MAX_DIGITS {
        if significant == 0 {
          e := EXPONENT_MAX;
          break;
        }
        return Refused;
      }
      e := e - 1;
    }
    r := Shifted(lastDigit, e);
  }

  /** The loop that drops trailing digits until the exponent and the digit count fit. */
  method Trim(s: CString, offset: nat, digits: array<Digit>, stored: nat, significant: nat,
              last: nat, count: nat, exponent: int) returns (r: Shift)
    requires digits.Length == MAX_DIGITS && stored <= MAX_DIGITS && stored <= count && count + offset <= |s|
    requires last < stored || if stored == count then EXPONENT_MIN <= exponent else EXPONENT_MAX <= exponent
    ensures r == TrimDown(s, offset, digits[..stored], significant == 0, last, count, exponent)
  {
    var lastDigit, n, e := last, count, exponent;
    ghost var cells := digits[..stored];
    while e < EXPONENT_MIN || stored < n
      invariant 0 <= lastDigit && stored <= n && n + offset <= |s| && cells == digits[..stored]
      invariant lastDigit < stored || if stored == n then EXPONENT_MIN <= e else EXPONENT_MAX <= e
      invariant TrimDown(s, offset, cells, significant == 0, lastDigit, n, e) ==
                TrimDown(s, offset, cells, significant == 0, last, count, exponent)
      decreases n + lastDigit
    {
      if lastDigit == 0 {
        if significant == 0 {
          e := EXPONENT_MIN;
          assert TrimDown(s, offset, cells, significant == 0, last, count, exponent) == Shifted(0, e);
          return Shifted(0, e);
        }
        return Refused;
      }
      if stored < n {
        if s[n - 1 + offset] != '0' && significant != 0 {
          return Refused;
        }
        n := n - 1;
      } else {
        if digits[lastDigit] != 0 {
          return Refused;
        }
        lastDigit := lastDigit - 1;
      }
      if e < EXPONENT_MAX {
        e := e + 1;
      } else {
        return Refused;
      }
    }
    r := Shifted(lastDigit, e);
  }

  /** The 128-bit product of two 64-bit words, from four 32-bit products. */
  method Mul64x64(left: Word64, right: Word64) returns (high: Word64, low: Word64)
    ensures high * TWO_64 + low == left * right
  {
    if left == 0 && right == 0 {
      return 0, 0;
    }
    var leftHigh, leftLow := left / TWO_32, left % TWO_32;
    var rightHigh, rightLow := right / TWO_32, right % TWO_32;
    WordProduct(leftHigh, rightHigh);
    WordProduct(leftHigh, rightLow);
    WordProduct(leftLow, rightHigh);
    WordProduct(leftLow, rightLow);
    var productHigh: Word64 := leftHigh * rightHigh;
    var productMid: Word64 := leftHigh * rightLow;
    var productMid2: Word64 := leftLow * rightHigh;
    var productLow: Word64 := leftLow * rightLow;
    FourProducts(leftHigh, leftLow, rightHigh, rightLow);
    assert left * right == productHigh * TWO_64 + (productMid + productMid2) * TWO_32 + productLow;
    productHigh := productHigh + productMid / TWO_32;
    productMid := productMid % TWO_32 + productMid2 + productLow / TWO_32;
    productHigh := productHigh + productMid / TWO_32;
    productLow := productMid % TWO_32 * TWO_32 + productLow % TWO_32;
    high, low := productHigh, productLow;
  }

  /** The middle sum of three such terms cannot carry out of 64 bits. */
  lemma WordProduct(a: Word32, b: Word32)
    ensures a * b <= (TWO_32 - 1) * (TWO_32 - 1)
  {
    MulMonotone(a, TWO_32 - 1, b);
    MulMonotone(b, TWO_32 - 1, TWO_32 - 1);
  }

  lemma FourProducts(a: Word32, b: Word32, c: Word32, d: Word32)
    ensures (a * TWO_32 + b) * (c * TWO_32 + d) == a * c * TWO_64 + (a * d + b * c) * TWO_32 + b * d
  {
    assert (a * TWO_32 + b) * (c * TWO_32 + d) ==
           (a * TWO_32) * (c * TWO_32) + (a * TWO_32) * d + b * (c * TWO_32) + b * d;
  }

  /** digits[k], where the cell after the array is whatever lies in memory there. */
  function Cell(digits: array<Digit>, beyond: Word16, k: nat): (c: Word16)
    requires digits.Length == MAX_DIGITS
    reads digits
  {
    if k < MAX_DIGITS then digits[k] else beyond
  }

  /** One of the loops that turn a run of cells into a 64-bit number. */
  method Accumulate(digits: array<Digit>, beyond: Word16, from: nat, to: nat, ghost cells: seq<nat>)
    returns (value: Word64)
    requires digits.Length == MAX_DIGITS && from < to <= |cells| <= MAX_DIGITS + 1
    requires forall k :: 0 <= k < |cells| ==> cells[k] == Cell(digits, beyond, k)
    requires to <= from + 17 || (to <= MAX_DIGITS && to <= from + 18)
    ensures value == Nat(cells[from..to])
  {
    value := Cell(digits, beyond, from);
    var i := from + 1;
    assert cells[from..i] == [] + [cells[from]];
    NatSnoc([], cells[from]);
    while i < to
      invariant from < i <= to && value == Nat(cells[from..i])
    {
      assert cells[from..i + 1] == cells[from..i] + [cells[i]];
      NatSnoc(cells[from..i], cells[i]);
      RunFits(cells[from..i]);
      value := value * 10 + Cell(digits, beyond, i);
      i := i + 1;
    }
  }

  lemma RunFits(ds: seq<Digit>)
    requires |ds| <= 17
    ensures Nat(ds) < 100_000_000_000_000_000
  {
    TenTo17();
    NatBound(ds);
    Pow10Monotone(|ds|, 17);
  }

  /** The two 17-digit halves of the significand. */
  method Halves(digits: array<Digit>, beyond: Word16, last: nat, ghost cells: seq<nat>)
    returns (high: Word64, low: Word64)
    requires digits.Length == MAX_DIGITS && last <= MAX_DIGITS && |cells| == last + 1
    requires forall k :: 0 <= k < |cells| ==> cells[k] == Cell(digits, beyond, k)
    ensures high * 100_000_000_000_000_000 + low == Nat(cells)
  {
    hide Nat;
    TenTo17();
    if last < 17 {
      high := 0;
      low := Accumulate(digits, beyond, 0, last + 1, cells);
      assert cells[0..last + 1] == cells;
    } else {
      high := Accumulate(digits, beyond, 0, last - 16, cells);
      low := Accumulate(digits, beyond, last - 16, last + 1, cells);
      assert cells == cells[0..last - 16] + cells[last - 16..last + 1];
      NatConcat(cells[0..last - 16], cells[last - 16..last + 1]);
    }
  }

  /** high * 10^17 + low as a 128-bit number, with the carry of the low words. */
  method Combine(high: Word64, low: Word64) returns (hi: Word64, lo: Word64)
    requires high * 100_000_000_000_000_000 + low < TWO_64 * TWO_64
    ensures hi * TWO_64 + lo == high * 100_000_000_000_000_000 + low
  {
    var productHigh, productLow := Mul64x64(high, 100_000_000_000_000_000);
    hi := productHigh;
    lo := (productLow + low) % TWO_64;
    if lo < low {
      hi := hi + 1;
    }
  }

  /** The final bit fields. */
  method PackWords(neg: bool, hi: Word64, lo: Word64, exponent: int) returns (dec: Dec128)
    requires EXPONENT_MIN <= exponent <= EXPONENT_MAX && hi * TWO_64 + lo < TWO_64 * TWO_64
    ensures dec == Pack(neg, hi * TWO_64 + lo, exponent)
  {
    var biased := (exponent + EXPONENT_BIAS) % 0x1_0000;
    var high;
    if hi / TWO_49 % 2 == 1 {
      high := 3 * TWO_61 + biased % TWO_14 * TWO_47 + hi % TWO_47;
    } else {
      high := biased % TWO_14 * TWO_49 + hi % TWO_49;
    }
    if neg {
      high := high + TWO_63;
    }
    dec := Dec128(high, lo);
  }

  lemma {:induction false} ZeroSuffix(m: string, n: nat)
    requires n <= |m| && forall k :: |m| - n <= k < |m| ==> m[k] == '0'
    ensures n <= |DigitsOf(m)|
    ensures forall k :: |DigitsOf(m)| - n <= k < |DigitsOf(m)| ==> DigitsOf(m)[k] == 0
  {
    if n > 0 {
      ZeroSuffix(m[..|m| - 1], n - 1);
    }
  }

  /** The trailing-zero scan stops with at least one digit left. */
  lemma ScanStops(s: string, start: nat, end: nat, lead: nat)
    requires start <= end <= |s|
    requires forall k :: start <= k < end ==> IsMantissaChar(s[k])
    requires lead == LeadingZeros(DigitsOf(s[start..end])) < |DigitsOf(s[start..end])|
    ensures var m := s[start..end];
            var n := |DigitsOf(m)| - lead;
            && start + lead + Points(m) + n == end
            && 0 < SignificantDigits(s, start + lead + Points(m), n)
  {
    var m := s[start..end];
    var n := |DigitsOf(m)| - lead;
    MantissaLength(m);
    if SignificantDigits(s, start + lead + Points(m), n) == 0 {
      assert forall k :: |m| - n <= k < |m| ==> m[k] == s[start + k];
      ZeroSuffix(m, n);
    }
  }

  lemma ScanStopsIfNonzero(s: string, start: nat, end: nat, lead: nat)
    requires start <= end <= |s| && forall k :: start <= k < end ==> IsMantissaChar(s[k])
    requires lead == LeadingZeros(DigitsOf(s[start..end]))
    ensures var m := s[start..end];
            var n := |DigitsOf(m)| - lead;
            start + lead + Points(m) + n == end && (0 < n ==> 0 < SignificantDigits(s, start + lead + Points(m), n))
  {
    MantissaLength(s[start..end]);
    if lead < |DigitsOf(s[start..end])| {
      ScanStops(s, start, end, lead);
    }
  }

  function Answer(r: Option<Dec128>): (bool, Dec128)
  {
    match r
    case None => (false, NAN)
    case Some(d) => (true, d)
  }

  /** Both normalisation loops, from the radix correction on. */
  method NormaliseExponent(s: CString, digits: array<Digit>, offset: nat, stored: nat, count: nat, significant: nat,
                           radixPosition: nat, exponent: Int32) returns (r: Shift)
    requires digits.Length == MAX_DIGITS && 1 <= stored <= MAX_DIGITS && stored <= count && count + offset <= |s|
    ensures r == Normalise(s, offset, digits[..stored], significant == 0, count, Effective(exponent, radixPosition))
  {
    var e;
    if SizeT(exponent) <= radixPosition && radixPosition - SizeT(exponent) > 0x4000 {
      e := EXPONENT_MIN;
    } else {
      e := Wrap32(exponent - radixPosition);
    }
    r := Pad(stored - 1, e, significant);
    match r
    case Refused =>
    case Shifted(last, e') =>
      r := Trim(s, offset, digits, stored, significant, last, count, e');
  }

  /** Encoding a nonzero significand. */
  method EncodeDigits(digits: array<Digit>, neg: bool, last: nat, exponent: int, beyond: Word16, ghost lit: Literal)
    returns (dec: Dec128)
    requires digits.Length == MAX_DIGITS && last <= MAX_DIGITS && EXPONENT_MIN <= exponent <= EXPONENT_MAX
    requires var stored := Stored(Significand(lit));
             forall k :: 0 <= k < MAX_DIGITS ==> digits[k] == if k < |stored| then stored[k] else 0
    ensures dec == Pack(neg, Coefficient(lit, last, beyond), exponent)
  {
    ghost var cells := Cells(Stored(Significand(lit)), last + 1, beyond);
    var high, low := Halves(digits, beyond, last, cells);
    ghost var c := Coefficient(lit, last, beyond);
    var hi, lo := Combine(high, low);
    dec := PackWords(neg, hi, lo, exponent);
  }

  /** The counters and the digit array describe the significand of the number read. */
  ghost predicate Ready(c: Scan, digits: array<Digit>, lit: Literal)
    reads digits
  {
    var stored := Stored(Significand(lit));
    && digits.Length == MAX_DIGITS
    && c.sawRadix == lit.radix && c.radixPosition == lit.fraction
    && c.count == |Significand(lit)| && c.stored == |stored|
    && (c.stored > 0 ==> c.firstNonzero == LeadingZeros(lit.digits))
    && forall k :: 0 <= k < MAX_DIGITS ==> digits[k] == if k < |stored| then stored[k] else 0
  }

  lemma TracksIsReady(c: Scan, digits: array<Digit>, m: string, lit: Literal)
    requires Tracks(c, digits, m)
    requires lit.digits == DigitsOf(m) && lit.radix == (Points(m) == 1) && lit.fraction == FractionLength(m)
    ensures Ready(c, digits, lit)
  {
  }

  /** The rounding check and the encoding of a nonzero significand. */
  method RoundAndEncode(s: CString, neg: bool, offset: nat, digits: array<Digit>, c: Scan, significant: nat, r: Shift,
                        beyond: Word16, ghost lit: Literal) returns (ok: bool, dec: Dec128)
    requires Ready(c, digits, lit) && c.stored > 0 && offset == Offset(lit) && neg == lit.neg
    requires |lit.digits| + Offset(lit) <= |s|
    requires significant == SignificantDigits(s, c.firstNonzero + offset, c.count)
    requires r.Shifted? ==> r.last <= MAX_DIGITS && EXPONENT_MIN <= r.exponent <= EXPONENT_MAX
    ensures (ok, dec) == Answer(FinishParse(s, lit, r, beyond))
  {
    hide SignificantDigits, Pack, Coefficient, LeadingZeros;
    match r
    case Refused => ok, dec := false, NAN;
    case Shifted(last, e) =>
      if last + 1 < significant && s[c.firstNonzero + last + offset + 1] != '0' {
        return false, NAN;
      }
      dec := EncodeDigits(digits, neg, last, e, beyond, lit);
      ok := true;
  }

  /** From the end of reading on: a mantissa with a nonzero digit. */
  method FinishNonzero(s: CString, neg: bool, includesSign: bool, digits: array<Digit>, c: Scan, exponent: Int32,
                       beyond: Word16, ghost lit: Literal, ghost wild: Int32) returns (ok: bool, dec: Dec128)
    requires Ready(c, digits, lit) && c.stored > 0 && includesSign == lit.signed && neg == lit.neg
    requires exponent == StoredExponent(lit.exponent, wild)
    requires |lit.digits| + Offset(lit) <= |s|
    requires 0 < SignificantDigits(s, c.firstNonzero + Offset(lit), c.count)
    ensures (ok, dec) == Answer(ParseNonzero(s, lit, wild, beyond))
  {
    hide Normalise, SignificantDigits, FinishParse, LeadingZeros, Effective;
    var offset := Bit(includesSign) + Bit(c.sawRadix);
    var significant := ScanTrailingZeros(s, c.firstNonzero + offset, c.count);
    assert digits[..c.stored] == Stored(Significand(lit));
    var r := NormaliseExponent(s, digits, offset, c.stored, c.count, significant, c.radixPosition, exponent);
    ok, dec := RoundAndEncode(s, neg, offset, digits, c, significant, r, beyond, lit);
  }

  /** From the end of reading on: a mantissa of zeros only. */
  method FinishZero(s: CString, neg: bool, includesSign: bool, digits: array<Digit>, c: Scan, exponent: Int32,
                    ghost lit: Literal, ghost wild: Int32) returns (ok: bool, dec: Dec128)
    requires Ready(c, digits, lit) && c.stored == 0 && includesSign == lit.signed && neg == lit.neg
    requires exponent == StoredExponent(lit.exponent, wild)
    requires lit.digits != [] && |lit.digits| + Offset(lit) <= |s|
    modifies digits
    ensures (ok, dec) == Answer(ParseZero(s, lit, wild))
  {
    hide Normalise, LeadingZeros, Effective;
    digits[0] := 0;
    assert digits[..1] == [0];
    var r := NormaliseExponent(s, digits, Bit(includesSign) + Bit(c.sawRadix), 1, 1, 0, c.radixPosition, exponent);
    match r
    case Refused => ok, dec := false, NAN;
    case Shifted(last, e) =>
      dec := PackWords(neg, 0, 0, e);
      ok := true;
  }

  /** Infinity and NaN, in any case. */
  method ReadSpecial(word: CString, neg: bool) returns (ok: bool, dec: Dec128)
    ensures (ok, dec) == match ReadWord(word, neg)
                         case InfinityText(n) => (true, InfinityWords(n))
                         case NaNText => (true, NAN)
                         case _ => (false, NAN)
  {
    var inf := EqualStrings(word, "inf");
    if !inf {
      inf := EqualStrings(word, "infinity");
    }
    if inf {
      return true, InfinityWords(neg);
    }
    ok := EqualStrings(word, "nan");
    dec := NAN;
  }

  lemma MantissaHere(s: string, start: nat)
    requires start <= |s|
    ensures var m := s[start..MantissaEnd(s, start)];
            |m| == |DigitsOf(m)| + Points(m)
  {
    MantissaLength(s[start..MantissaEnd(s, start)]);
  }

  /** The number that starts at `start`, after the sign. */
  method FromNumber(s: CString, start: nat, neg: bool, includesSign: bool, wild: Int32, beyond: Word16)
    returns (ok: bool, dec: Dec128)
    requires start <= |s| && start == Bit(includesSign) && includesSign == IsSigned(s) && neg == (At(s, 0) == '-')
    requires IsMantissaChar(At(s, start))
    ensures (ok, dec) == Parse(s, wild, beyond)
  {
    var digits := new Digit[34](_ => 0);
    var one, end, c := ReadDigits(s, start, digits);
    if one {
      ok, dec := FromMantissa(s, start, end, digits, c, neg, includesSign, wild, beyond);
    } else {
      ok, dec := false, NAN;
    }
  }

  /** ... once its mantissa has been read. */
  method FromMantissa(s: CString, start: nat, end: nat, digits: array<Digit>, c: Scan, neg: bool, includesSign: bool,
                      wild: Int32, beyond: Word16) returns (ok: bool, dec: Dec128)
    requires start <= |s| && start == Bit(includesSign) && includesSign == IsSigned(s) && neg == (At(s, 0) == '-')
    requires IsMantissaChar(At(s, start))
    requires end == MantissaEnd(s, start) && Points(s[start..end]) <= 1 && Tracks(c, digits, s[start..end])
    modifies digits
    ensures (ok, dec) == Parse(s, wild, beyond)
  {
    hide Points, DigitsOf, FractionLength, LeadingZeros, ParseNumber, ScanInt, MantissaEnd;
    ghost var m := s[start..end];
    MantissaHere(s, start);
    if c.sawRadix && c.read == 0 {
      return false, NAN;
    }
    ghost var lit := Literal(neg, includesSign, DigitsOf(m), Points(m) == 1, FractionLength(m), 0);
    var read, exponent, field := ReadExponentField(s, end, wild, lit);
    assert Read(s) == ReadExponent(s, end, lit);
    if !read {
      return false, NAN;
    }
    lit := lit.(exponent := field);
    assert Read(s) == NumberText(lit);
    ReadBounds(s);
    ok, dec := FromLiteral(s, neg, includesSign, digits, c, exponent, beyond, end, lit, wild);
  }

  /** ... and its exponent field too. */
  method FromLiteral(s: CString, neg: bool, includesSign: bool, digits: array<Digit>, c: Scan, exponent: Int32,
                     beyond: Word16, ghost end: nat, ghost lit: Literal, ghost wild: Int32)
    returns (ok: bool, dec: Dec128)
    requires Bit(includesSign) <= end <= |s| && forall k :: Bit(includesSign) <= k < end ==> IsMantissaChar(s[k])
    requires var m := s[Bit(includesSign)..end];
             && Tracks(c, digits, m)
             && lit.digits == DigitsOf(m) && Points(m) == Bit(lit.radix) && lit.fraction == FractionLength(m)
    requires lit.digits != [] && includesSign == lit.signed && neg == lit.neg
    requires exponent == StoredExponent(lit.exponent, wild)
    requires |lit.digits| + Offset(lit) <= |s|
    modifies digits
    ensures (ok, dec) == Answer(ParseNumber(s, lit, wild, beyond))
  {
    hide Tracks, Points, DigitsOf, FractionLength, LeadingZeros, SignificantDigits, Normalise, FinishParse;
    TracksIsReady(c, digits, s[Bit(includesSign)..end], lit);
    ScanStopsIfNonzero(s, Bit(includesSign), end, LeadingZeros(lit.digits));
    if c.stored == 0 {
      ok, dec := FinishZero(s, neg, includesSign, digits, c, exponent, lit, wild);
    } else {
      ok, dec := FinishNonzero(s, neg, includesSign, digits, c, exponent, beyond, lit, wild);
    }
  }

  /** bson_decimal128_from_string. */
  method FromString(s: CString, wild: Int32, beyond: Word16) returns (ok: bool, dec: Dec128)
    ensures (ok, dec) == Parse(s, wild, beyond)
  {
    var start, neg, includesSign := 0, false, false;
    if At(s, 0) == '+' || At(s, 0) == '-' {
      neg := At(s, 0) == '-';
      start := 1;
      includesSign := true;
    }
    if !IsDigitChar(At(s, start)) && At(s, start) != '.' {
      ok, dec := ReadSpecial(s[start..], neg);
    } else {
      ok, dec := FromNumber(s, start, neg, includesSign, wild, beyond);
    }
  }
}
