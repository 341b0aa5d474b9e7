/**
 bson_decimal128_from_string as a function: what the parser answers for every text.
 Two things the C standard leaves open are parameters: `wild`, the int that sscanf
 stores when the exponent field does not fit in an int, and `beyond`, the memory
 cell after the 34-digit array, which is read when the padded digits number 35.
 */
module DecimalParse {
  import opened CText
  import opened Digits
  import opened Words
  import opened Decimal128
  import opened DecimalText

  function Wrap32(n: int): Int32
  {
    (n + 0x8000_0000) % TWO_32 - 0x8000_0000
  }

  /** An int converted to size_t. */
  function SizeT(x: Int32): Word64
  {
    if x < 0 then x + TWO_64 else x
  }

  function StoredExponent(field: int, wild: Int32): Int32
  {
    if -0x8000_0000 <= field < 0x8000_0000 then field else wild
  }

  /** The exponent after the radix correction, with the overflow prevention before it. */
  function Effective(exponent: Int32, radixPosition: nat): Int32
  {
    if SizeT(exponent) <= radixPosition && radixPosition - SizeT(exponent) > 0x4000
    then EXPONENT_MIN
    else Wrap32(exponent - radixPosition)
  }

  datatype Shift = Refused | Shifted(last: nat, exponent: int)

  /** Large exponents: each step pads the significand by one zero. */
  function PadUp(last: nat, exponent: int, zero: bool): Shift
  {
    if exponent <= EXPONENT_MAX then Shifted(last, exponent)
    else if last + (exponent - EXPONENT_MAX) <= MAX_DIGITS then Shifted(last + (exponent - EXPONENT_MAX), EXPONENT_MAX)
    else if zero then Shifted(MAX_DIGITS + 1, EXPONENT_MAX)
    else Refused
  }

  /** Small exponents and surplus digits: each step drops one trailing digit, which must be a zero. */
  function TrimDown(s: string, offset: nat, stored: seq<Digit>, zero: bool, last: nat, n: nat,
                    exponent: int): (r: Shift)
    requires |stored| <= n && n + offset <= |s| && |stored| <= MAX_DIGITS
    requires last < |stored| || if |stored| == n then EXPONENT_MIN <= exponent else EXPONENT_MAX <= exponent
    ensures r.Shifted? ==> EXPONENT_MIN <= r.exponent && r.last <= last
    ensures r.Shifted? && exponent <= EXPONENT_MAX ==> r.exponent <= EXPONENT_MAX
    decreases n + last
  {
    if EXPONENT_MIN <= exponent && |stored| == n then Shifted(last, exponent)
    else if last == 0 then (if zero then Shifted(last, EXPONENT_MIN) else Refused)
    else if |stored| < n then
      if s[n - 1 + offset] != '0' && !zero then Refused
      else if EXPONENT_MAX <= exponent then Refused
      else TrimDown(s, offset, stored, zero, last, n - 1, exponent + 1)
    else if stored[last] != 0 then Refused
    else TrimDown(s, offset, stored, zero, last - 1, n, exponent + 1)
  }

  /** Both normalisation loops, from the exponent after radix correction. */
  function Normalise(s: string, offset: nat, stored: seq<Digit>, zero: bool, n: nat, e0: int): (r: Shift)
    requires 1 <= |stored| <= n && n + offset <= |s| && |stored| <= MAX_DIGITS
    ensures r.Shifted? ==> EXPONENT_MIN <= r.exponent <= EXPONENT_MAX
    ensures r.Shifted? ==> r.last <= MAX_DIGITS + if zero then 1 else 0
  {
    match PadUp(|stored| - 1, e0, zero)
    case Refused => Refused
    case Shifted(last, e) => TrimDown(s, offset, stored, zero, last, n, e)
  }

  /** The scan that marks trailing zeros of the mantissa as non-significant. */
  function SignificantDigits(s: string, base: nat, n: nat): (k: nat)
    requires base + n <= |s|
    ensures k <= n
    ensures 0 < k ==> s[base + k - 1] != '0'
    ensures forall i :: base + k <= i < base + n ==> s[i] == '0'
  {
    if 0 < n && s[base + n - 1] == '0' then SignificantDigits(s, base, n - 1) else n
  }

  /** The first k cells from digits[0] on; the array holds 34. */
  function Cells(stored: seq<Digit>, k: nat, beyond: Word16): (cells: seq<nat>)
    ensures |cells| == k
  {
    seq(k, i requires 0 <= i => if i < |stored| then stored[i] else if i < MAX_DIGITS then 0 else beyond)
  }

  function Bit(b: bool): nat { if b then 1 else 0 }

  /** The digits from the first nonzero one on. */
  function Significand(lit: Literal): (sig: seq<Digit>)
    ensures sig != [] ==> sig[0] != 0
  {
    lit.digits[LeadingZeros(lit.digits)..]
  }

  /** The two words for a sign, a coefficient of up to 128 bits and an exponent. */
  function Pack(neg: bool, c: nat, e: int): Dec128
    requires c < TWO_64 * TWO_64 && EXPONENT_MIN <= e <= EXPONENT_MAX
  {
    var hi, biased := c / TWO_64, e + EXPONENT_BIAS;
    var high := if hi / TWO_49 % 2 == 1 then 3 * TWO_61 + biased * TWO_47 + hi % TWO_47
                else biased * TWO_49 + hi % TWO_49;
    Dec128(high + if neg then TWO_63 else 0, c % TWO_64)
  }

  lemma CellsFit(stored: seq<Digit>, k: nat, beyond: Word16)
    requires k <= MAX_DIGITS + 1 && |stored| <= MAX_DIGITS
    ensures Nat(Cells(stored, k, beyond)) < TWO_64 * TWO_64
  {
    TenTo34();
    var low := Min(k, MAX_DIGITS);
    var digits: seq<Digit> := Cells(stored, low, beyond);
    NatBound(digits);
    Pow10Monotone(low, MAX_DIGITS);
    if k == MAX_DIGITS + 1 {
      NatSnoc(digits, beyond);
      assert Cells(stored, k, beyond) == digits + [beyond];
    }
  }

  function Offset(lit: Literal): nat { Bit(lit.signed) + Bit(lit.radix) }

  /** The stored digits: the first 34 significant ones. */
  function Stored(sig: seq<Digit>): (stored: seq<Digit>)
    ensures |stored| <= MAX_DIGITS && |stored| <= |sig| && (sig != [] ==> stored != [])
  {
    sig[..Min(|sig|, MAX_DIGITS)]
  }

  /** The exponent the parser works with. */
  function WorkingExponent(lit: Literal, wild: Int32): int
  {
    Effective(StoredExponent(lit.exponent, wild), lit.fraction)
  }

  function Coefficient(lit: Literal, last: nat, beyond: Word16): (c: nat)
    requires last <= MAX_DIGITS
    ensures c < TWO_64 * TWO_64
  {
    CellsFit(Stored(Significand(lit)), last + 1, beyond);
    Nat(Cells(Stored(Significand(lit)), last + 1, beyond))
  }

  /** The digit after the last one kept must be a zero, unless the mantissa has no more significant digits. */
  predicate RoundsOff(s: string, lit: Literal, last: nat)
    requires |lit.digits| + Offset(lit) <= |s|
  {
    var lead := LeadingZeros(lit.digits);
    last + 1 < SignificantDigits(s, lead + Offset(lit), |lit.digits| - lead) ==>
      s[lead + last + Offset(lit) + 1] == '0'
  }

  /** The answer for a mantissa of zeros only: the exponent is clamped into range. */
  function ParseZero(s: string, lit: Literal, wild: Int32): Option<Dec128>
    requires 1 + Offset(lit) <= |s|
  {
    match Normalise(s, Offset(lit), [0], true, 1, WorkingExponent(lit, wild))
    case Refused => None
    case Shifted(_, e) => Some(Pack(lit.neg, 0, e))
  }

  /** What is left to do with a nonzero significand once it is normalised. */
  function FinishParse(s: string, lit: Literal, r: Shift, beyond: Word16): Option<Dec128>
    requires |lit.digits| + Offset(lit) <= |s|
    requires r.Shifted? ==> r.last <= MAX_DIGITS && EXPONENT_MIN <= r.exponent <= EXPONENT_MAX
  {
    match r
    case Refused => None
    case Shifted(last, e) =>
      if RoundsOff(s, lit, last) then Some(Pack(lit.neg, Coefficient(lit, last, beyond), e)) else None
  }

  /** The answer for a mantissa with a nonzero digit. */
  function ParseNonzero(s: string, lit: Literal, wild: Int32, beyond: Word16): Option<Dec128>
    requires Significand(lit) != [] && |lit.digits| + Offset(lit) <= |s|
  {
    var sig := Significand(lit);
    FinishParse(s, lit, Normalise(s, Offset(lit), Stored(sig), false, |sig|, WorkingExponent(lit, wild)), beyond)
  }

  /** The answer for a text that is a number; None is a refusal. */
  function ParseNumber(s: string, lit: Literal, wild: Int32, beyond: Word16): Option<Dec128>
    requires lit.digits != [] && |lit.digits| + Offset(lit) <= |s|
  {
    if Significand(lit) == [] then ParseZero(s, lit, wild) else ParseNonzero(s, lit, wild, beyond)
  }

  /** bson_decimal128_from_string: its result and the words it leaves in *dec. */
  function Parse(s: CString, wild: Int32, beyond: Word16): (bool, Dec128)
  {
    match Read(s)
    case Malformed => (false, NAN)
    case InfinityText(neg) => (true, InfinityWords(neg))
    case NaNText => (true, NAN)
    case NumberText(lit) =>
      ReadBounds(s);
      match ParseNumber(s, lit, wild, beyond)
      case None => (false, NAN)
      case Some(d) => (true, d)
  }
}
