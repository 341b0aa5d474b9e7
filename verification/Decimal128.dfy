/**
 The 128-bit decimal of bson-decimal128.c: its two words, the value they encode
 (section 3.5.2 of IEEE 754-2008, binary integer encoding) and the text of a value.
 Shifts and masks are division and remainder by powers of two.
 */
module Decimal128 {
  import opened Digits
  import opened Words

  const TWO_14 := 0x4000
  const TWO_47 := 0x8000_0000_0000
  const TWO_49 := 0x2_0000_0000_0000
  const TWO_58 := 0x400_0000_0000_0000
  const TWO_61 := 0x2000_0000_0000_0000
  const TWO_63 := 0x8000_0000_0000_0000

  const EXPONENT_MAX: int := 6111
  const EXPONENT_MIN: int := -6176
  const EXPONENT_BIAS: int := 6176
  const MAX_DIGITS: nat := 34
  const STRING_SIZE: nat := 43

  /** 10^34 (TenTo34). */
  const COEFFICIENT_LIMIT: nat := 10_000_000_000_000_000_000_000_000_000_000_000

  datatype Dec128 = Dec128(high: Word64, low: Word64)

  const NAN := Dec128(0x7c00_0000_0000_0000, 0)

  function InfinityWords(neg: bool): Dec128
  {
    Dec128(0x7800_0000_0000_0000 + if neg then TWO_63 else 0, 0)
  }

  datatype Value =
    | NotANumber
    | Infinity(neg: bool)
    | Finite(neg: bool, coefficient: nat, exponent: int)

  /** What the two words mean; a coefficient of 2^113 or more reads as zero. */
  function Decode(d: Dec128): Value
  {
    var neg := TWO_63 <= d.high;
    var combination := d.high / TWO_58 % 32;
    if combination == 31 then NotANumber
    else if combination == 30 then Infinity(neg)
    else if combination / 8 == 3 then Finite(neg, 0, d.high / TWO_47 % TWO_14 - EXPONENT_BIAS)
    else Finite(neg, d.high % TWO_49 * TWO_64 + d.low, d.high / TWO_49 % TWO_14 - EXPONENT_BIAS)
  }

  /** 34 digits: the largest coefficient that the format calls canonical. */
  predicate CanonicalValue(v: Value)
  {
    v.Finite? ==> v.coefficient < COEFFICIENT_LIMIT && EXPONENT_MIN <= v.exponent <= EXPONENT_MAX
  }

  function Encode(v: Value): Dec128
    requires CanonicalValue(v)
  {
    match v
    case NotANumber => NAN
    case Infinity(neg) => InfinityWords(neg)
    case Finite(neg, c, e) =>
      TenTo34();
      Dec128((if neg then TWO_63 else 0) + (e + EXPONENT_BIAS) * TWO_49 + c / TWO_64, c % TWO_64)
  }

  /** The words are the ones that Encode picks for their value. */
  predicate Canonical(d: Dec128)
  {
    CanonicalValue(Decode(d)) && Encode(Decode(d)) == d
  }

  lemma TenTo9()
    ensures Pow10(9) == 1_000_000_000
  {
    assert Pow10(3) == 1000;
    assert Pow10(6) == 1000 * 1000 by { Pow10Add(3, 3); }
    Pow10Add(6, 3);
  }

  lemma TenTo17()
    ensures Pow10(17) == 100_000_000_000_000_000
  {
    TenTo9();
    assert Pow10(8) == 100_000_000;
    Pow10Add(9, 8);
  }

  lemma TenTo34()
    ensures Pow10(MAX_DIGITS) == COEFFICIENT_LIMIT
    ensures COEFFICIENT_LIMIT < TWO_49 * TWO_64 < Pow10(36)
  {
    TenTo17();
    Pow10Add(17, 17);
    assert Pow10(36) == 100 * Pow10(34);
  }

  lemma DecodeEncode(v: Value)
    requires CanonicalValue(v)
    ensures Decode(Encode(v)) == v && Canonical(Encode(v))
  {
    hide Decode, Encode;
    if v.Finite? {
      FiniteBack(v.neg, v.coefficient, v.exponent);
    } else {
      SpecialBack(v);
    }
  }

  lemma SpecialBack(v: Value)
    requires !v.Finite?
    ensures Decode(Encode(v)) == v
  {
  }

  lemma FiniteBack(neg: bool, c: nat, e: int)
    requires CanonicalValue(Finite(neg, c, e))
    ensures Decode(Encode(Finite(neg, c, e))) == Finite(neg, c, e)
  {
    hide Decode;
    TenTo34();
    DecodeFields(neg, e + EXPONENT_BIAS, c / TWO_64, c % TWO_64);
  }

  /** Sign, exponent and upper coefficient bits of a small-coefficient word. */
  lemma PackedBits(neg: bool, biased: nat, hi: nat)
    requires biased < TWO_14 && hi < TWO_49
    ensures var high := (if neg then TWO_63 else 0) + biased * TWO_49 + hi;
            && high < TWO_64 && (neg <==> TWO_63 <= high)
            && high % TWO_49 == hi && high / TWO_49 % TWO_14 == biased
            && high / TWO_58 % 32 == biased / 0x200
  {
    var sign := if neg then TWO_14 else 0;
    var high := (sign + biased) * TWO_49 + hi;
    DivUnique(high, TWO_49, sign + biased, hi);
    DivTwice(high, TWO_49, 0x200);
  }

  /** The fields of a small-coefficient word do not overlap and can be read back. */
  lemma DecodeFields(neg: bool, biased: nat, hi: nat, lo: Word64)
    requires biased < 0x3000 && hi < TWO_49
    ensures var high := (if neg then TWO_63 else 0) + biased * TWO_49 + hi;
            high < TWO_64 &&
            Decode(Dec128(high, lo)) == Finite(neg, hi * TWO_64 + lo, biased - 6176)
  {
    PackedBits(neg, biased, hi);
  }

  /** The layout for large coefficients holds none that the format allows: it reads as a zero. */
  lemma DecodeLarge(neg: bool, biased: nat, rest: nat, lo: Word64)
    requires biased < 0x3000 && rest < TWO_47
    ensures var high := (if neg then TWO_63 else 0) + 3 * TWO_61 + biased * TWO_47 + rest;
            high < TWO_64 && Decode(Dec128(high, lo)) == Finite(neg, 0, biased - 6176)
  {
    var high := (if neg then TWO_63 else 0) + 3 * TWO_61 + biased * TWO_47 + rest;
    LargeBits(neg, biased, rest);
    assert Decode(Dec128(high, lo)).Finite?;
  }

  lemma LargeBits(neg: bool, biased: nat, rest: nat)
    requires biased < 0x3000 && rest < TWO_47
    ensures var high := (if neg then TWO_63 else 0) + 3 * TWO_61 + biased * TWO_47 + rest;
            && high < TWO_64 && (neg <==> TWO_63 <= high)
            && high / TWO_47 % TWO_14 == biased && 24 <= high / TWO_58 % 32 < 30
  {
    var top := (if neg then 0x1_0000 else 0) + 3 * TWO_14 + biased;
    DivUnique(top * TWO_47 + rest, TWO_47, top, rest);
    DivTwice(top * TWO_47 + rest, TWO_47, 0x800);
  }

  /** Five bits after the sign that are 11110 say infinity, and 11111 NaN, whatever follows. */
  lemma DecodeSpecial(neg: bool, combination: nat, rest: nat, lo: Word64)
    requires 30 <= combination <= 31 && rest < TWO_58
    ensures var high := (if neg then TWO_63 else 0) + combination * TWO_58 + rest;
            high < TWO_64 && Decode(Dec128(high, lo)) == if combination == 30 then Infinity(neg) else NotANumber
  {
    var top := (if neg then 32 else 0) + combination;
    DivUnique(top * TWO_58 + rest, TWO_58, top, rest);
  }

  // The text of a value.

  function Sign(neg: bool): string { if neg then "-" else "" }

  /** printf's "%+d". */
  function Signed(e: int): string
  {
    if e < 0 then "-" + Chars(OfNat(-e)) else "+" + Chars(OfNat(e))
  }

  /** d.ddd, or d alone, from the digits `cs`. */
  function ScientificMantissa(sign: string, cs: string): string
    requires cs != ""
  {
    if |cs| == 1 then sign + cs else sign + cs[..1] + "." + cs[1..]
  }

  function NonNegative(k: int): nat { if k > 0 then k else 0 }

  function ZeroChars(n: nat): string { seq(n, _ => '0') }

  /** ddd.ddd: the digits before the point or a zero, the zeros after the point, the rest. */
  function PlainMantissa(sign: string, cs: string, e: int): string
    requires e <= 0
  {
    var point := |cs| + e;
    if e == 0 then sign + cs
    else
      sign + (if point > 0 then cs[..point] else "0") + "."
      + ZeroChars(NonNegative(-point)) + cs[NonNegative(point)..]
  }

  function FiniteText(sign: string, cs: string, e: int): string
    requires cs != ""
  {
    var scientific := |cs| - 1 + e;
    if scientific < -6 || e > 0
    then ScientificMantissa(sign, cs) + "E" + Signed(scientific)
    else PlainMantissa(sign, cs, e)
  }

  function Text(v: Value): string
  {
    match v
    case NotANumber => "NaN"
    case Infinity(neg) => Sign(neg) + "Infinity"
    case Finite(neg, c, e) => FiniteText(Sign(neg), Chars(OfNat(c)), e)
  }

  // Division by one billion, and the digits it yields.

  /** Horner's rule over 32-bit words, most significant first. */
  function WordsValue(ws: seq<Word32>): nat
  {
    if ws == [] then 0 else TWO_32 * WordsValue(ws[..|ws| - 1]) + ws[|ws| - 1]
  }

  method Divide1B(value: seq<Word32>) returns (quotient: seq<Word32>, rem: Word32)
    requires |value| == 4
    ensures |quotient| == 4
    ensures WordsValue(value) == WordsValue(quotient) * 1_000_000_000 + rem
    ensures rem < 1_000_000_000
  {
    var divisor: Word32 := 1_000_000_000;
    var parts: seq<Word32> := value;
    var r: Word64 := 0;
    if value[0] == 0 && value[1] == 0 && value[2] == 0 && value[3] == 0 {
      assert WordsValue(value) == 0 by { WordsOfFour(value); }
      return value, 0;
    }
    var i := 0;
    while i <= 3
      invariant 0 <= i <= 4 && |parts| == 4
      invariant r < divisor
      invariant forall k :: i <= k < 4 ==> parts[k] == value[k]
      invariant WordsValue(value[..i]) == WordsValue(parts[..i]) * divisor + r
    {
      ghost var before := parts;
      r := r * TWO_32 + parts[i];
      parts := parts[i := r / divisor];
      r := r % divisor;
      assert value[..i + 1] == value[..i] + [value[i]];
      assert parts[..i + 1] == before[..i] + [parts[i]];
      assert value[..i + 1][..i] == value[..i] && parts[..i + 1][..i] == before[..i];
      i := i + 1;
    }
    assert value[..4] == value && parts[..4] == parts;
    quotient, rem := parts, r;
  }

  lemma WordsOfFour(ws: seq<Word32>)
    requires |ws| == 4
    ensures WordsValue(ws) == ((ws[0] * TWO_32 + ws[1]) * TWO_32 + ws[2]) * TWO_32 + ws[3]
  {
    var a, b, c := ws[..3], ws[..2], ws[..1];
    assert c[..0] == [] && WordsValue(c) == ws[0];
    assert b[..1] == c && WordsValue(b) == ws[0] * TWO_32 + ws[1];
    assert a[..2] == b;
  }

  /** Writes the nine base-10 digits of `least` into cells from .. from+8, right to left. */
  method StoreNine(significand: array<Digit>, from: nat, least: Word32) returns (ghost nine: seq<Digit>)
    requires from + 9 <= significand.Length && least < 1_000_000_000
    modifies significand
    ensures |nine| == 9 && Nat(nine) == least
    ensures forall k :: 0 <= k < 9 ==> significand[from + k] == nine[k]
    ensures forall k :: 0 <= k < significand.Length && !(from <= k < from + 9) ==> significand[k] == old(significand[k])
  {
    hide Nat;
    var rest := least;
    var j := 8;
    nine := [];
    NatOne(0);
    TenTo9();
    while j >= 0
      invariant -1 <= j <= 8
      invariant |nine| == 8 - j
      invariant forall k :: 0 <= k < |nine| ==> significand[from + j + 1 + k] == nine[k]
      invariant forall k :: from + 9 <= k < significand.Length ==> significand[k] == old(significand[k])
      invariant 0 <= rest < Pow10(j + 1)
      invariant least == rest * Pow10(|nine|) + Nat(nine)
      invariant forall k :: 0 <= k <= from + j ==> significand[k] == old(significand[k])
    {
      var d: Digit := rest % 10;
      significand[from + j] := d;
      NatConcat([d], nine);
      NatOne(d);
      NineStep(rest, d, Pow10(|nine|), Pow10(j));
      nine := [d] + nine;
      rest := rest / 10;
      j := j - 1;
    }
  }

  lemma NineStep(rest: nat, d: nat, p: nat, bound: nat)
    requires d == rest % 10 && rest < 10 * bound
    ensures rest / 10 < bound
    ensures rest * p == rest / 10 * (10 * p) + d * p
  {
    var q := rest / 10;
    assert rest == 10 * q + d;
    assert (10 * q + d) * p == q * (10 * p) + d * p;
  }

  /** What is left to divide, followed by the digits stored so far. */
  ghost function Total(quotient: nat, cells: seq<Digit>): nat
  {
    quotient * Pow10(|cells|) + Nat(cells)
  }

  /** One round of to_string: nine more digits from the right, and the quotient that is left. */
  method DivideAndStore(significand: array<Digit>, from: nat, significand128: seq<Word32>)
    returns (quotient: seq<Word32>)
    requires |significand128| == 4 && from + 9 <= significand.Length
    requires forall c :: 0 <= c < from + 9 ==> significand[c] == 0
    modifies significand
    ensures |quotient| == 4
    ensures forall c :: 0 <= c < from ==> significand[c] == 0
    ensures Total(WordsValue(quotient), significand[from..]) ==
            Total(WordsValue(significand128), old(significand[from + 9..]))
  {
    ghost var after := significand[from + 9..];
    ghost var nine := significand[from..from + 9];
    var least;
    quotient, least := Divide1B(significand128);
    NatZero(nine);
    assert significand[from..] == nine + after;
    if least != 0 {
      nine := StoreNine(significand, from, least);
      assert significand[from..] == nine + after;
    }
    NatConcat(nine, after);
    BillionStep(WordsValue(quotient), least, |after|);
  }

  lemma BillionStep(q: nat, r: nat, n: nat)
    ensures (q * 1_000_000_000 + r) * Pow10(n) == q * Pow10(n + 9) + r * Pow10(n)
  {
    TenTo9();
    Pow10Add(9, n);
  }

  /** The 36 cells of to_string: four rounds of division by a billion empty the significand. */
  method SignificandCells(words: seq<Word32>) returns (significand: array<Digit>)
    requires |words| == 4 && WordsValue(words) < TWO_49 * TWO_64
    ensures fresh(significand) && significand.Length == 36
    ensures Nat(significand[..]) == WordsValue(words)
  {
    hide Nat, WordsValue, Total;
    significand := new Digit[36](_ => 0);
    var significand128 := words;
    var k := 3;
    NothingStored(significand[36..], WordsValue(words));
    while k >= 0
      invariant -1 <= k <= 3 && |significand128| == 4
      invariant forall c :: 0 <= c < 9 * (k + 1) ==> significand[c] == 0
      invariant WordsValue(words) == Total(WordsValue(significand128), significand[9 * (k + 1)..])
    {
      significand128 := DivideAndStore(significand, 9 * k, significand128);
      k := k - 1;
    }
    FourRoundsSuffice(WordsValue(significand128), significand[0..], WordsValue(words));
    assert significand[0..] == significand[..];
  }

  lemma NothingStored(cells: seq<Digit>, value: nat)
    requires cells == []
    ensures value == Total(value, cells)
  {
  }

  /** Dividing a 113-bit number by 10^36 leaves nothing. */
  lemma FourRoundsSuffice(q: nat, cells: seq<Digit>, value: nat)
    requires |cells| == 36 && value == Total(q, cells) && value < TWO_49 * TWO_64
    ensures q == 0 && value == Nat(cells)
  {
    TenTo34();
    AllDivided(q, Pow10(36), Nat(cells), value);
  }

  lemma AllDivided(q: nat, p: nat, rest: nat, value: nat)
    requires value == q * p + rest && value < p
    ensures q == 0 && value == rest
  {
    if q >= 1 {
      AtLeastOnce(q, p);
    }
  }

  /** The significand as to_string reads it: zero when it is 2^113 or more. */
  function ReadSignificand(words: seq<Word32>): nat
    requires |words| == 4
  {
    if words[0] >= 0x2_0000 then 0 else WordsValue(words)
  }

  /** Finds the digits to print: significand[read..read+digits]. */
  method SignificandDigits(parts: seq<Word32>) returns (significand: array<Digit>, read: nat, digits: nat)
    requires |parts| == 4
    ensures fresh(significand) && read + digits <= significand.Length == 36
    ensures significand[read..read + digits] == OfNat(ReadSignificand(parts))
  {
    WordsOfFour(parts);
    significand, read, digits := new Digit[36](_ => 0), 0, 36;
    if parts[0] == 0 && parts[1] == 0 && parts[2] == 0 && parts[3] == 0 {
      digits := 1;
    } else if parts[0] >= 0x2_0000 {
      digits := 1;
    } else {
      significand := SignificandCells(parts);
      NatZero(significand[..]);
      while significand[read] == 0
        invariant 0 <= read < 36 && digits == 36 - read
        invariant forall k :: 0 <= k < read ==> significand[k] == 0
        invariant exists k :: read <= k < 36 && significand[k] != 0
        decreases 36 - read
      {
        digits := digits - 1;
        read := read + 1;
      }
      StrippedDigits(significand[..], read);
      assert significand[read..read + digits] == significand[..][read..];
    }
  }

  lemma StrippedDigits(cells: seq<Digit>, read: nat)
    requires read < |cells| && cells[read] != 0
    requires forall k :: 0 <= k < read ==> cells[k] == 0
    ensures cells[read..] == OfNat(Nat(cells))
  {
    assert cells == Zeros(read) + cells[read..];
    NatLeadingZeros(read, cells[read..]);
    OfNatUnique(cells[read..]);
  }

  // Writing through the output pointer.

  /** Copies `text` to str[at..], as strcpy and the digit loops do, without a NUL. */
  method Put(str: array<char>, at: nat, text: string) returns (end: nat)
    requires at + |text| <= str.Length
    modifies str
    ensures end == at + |text|
    ensures str[..end] == old(str[..at]) + text
    ensures forall k :: end <= k < str.Length ==> str[k] == old(str[k])
  {
    var i := 0;
    while i < |text|
      invariant i <= |text|
      invariant str[..at + i] == old(str[..at]) + text[..i]
      invariant forall k :: at + i <= k < str.Length ==> str[k] == old(str[k])
    {
      str[at + i] := text[i];
      assert str[..at + i + 1] == str[..at + i] + [text[i]];
      i := i + 1;
    }
    end := at + i;
  }

  /** The cells from `first` on hold the digits of `cs`. */
  ghost predicate HoldsDigits(significand: array<Digit>, first: nat, cs: string)
    reads significand
  {
    first + |cs| <= significand.Length &&
    forall k :: 0 <= k < |cs| ==> cs[k] == CharOf(significand[first + k])
  }

  /** `count` times: *(str_out++) = *(significand_read++) + '0'. */
  method PutDigits(str: array<char>, at: nat, significand: array<Digit>, read: nat, count: nat, ghost cs: string)
    returns (end: nat)
    requires at + count <= str.Length && count == |cs| && HoldsDigits(significand, read, cs)
    modifies str
    ensures end == at + count
    ensures str[..end] == old(str[..at]) + cs
    ensures forall k :: end <= k < str.Length ==> str[k] == old(str[k])
  {
    var i := 0;
    while i < count
      invariant i <= count
      invariant str[..at + i] == old(str[..at]) + cs[..i]
      invariant forall k :: at + i <= k < str.Length ==> str[k] == old(str[k])
    {
      str[at + i] := CharOf(significand[read + i]);
      assert str[..at + i + 1] == str[..at + i] + [cs[i]];
      i := i + 1;
    }
    end := at + i;
  }

  /** snprintf (str_out, 6, "%+d", e): at most five characters, then a NUL. */
  method PutSigned(str: array<char>, at: nat, e: int) returns (end: nat)
    requires at + |Signed(e)| < str.Length && |Signed(e)| <= 5
    modifies str
    ensures end == at + |Signed(e)|
    ensures str[..end] == old(str[..at]) + Signed(e)
    ensures str[end] == '\0' && forall k :: end < k < str.Length ==> str[k] == old(str[k])
  {
    end := Put(str, at, Signed(e));
    str[end] := '\0';
  }

  /** The array holds `text` and its NUL, and is untouched after that. */
  twostate predicate Holds(str: array<char>, text: string)
    reads str
  {
    |text| < str.Length &&
    str[..|text|] == text && str[|text|] == '\0' &&
    forall k :: |text| < k < str.Length ==> str[k] == old(str[k])
  }

  /** The printed exponent of any decimal128 has at most four digits. */
  lemma SignedLength(e: int)
    requires -10000 < e < 10000
    ensures |Signed(e)| <= 5
  {
    assert Pow10(4) == 10000;
    OfNatLength(if e < 0 then -e else e, 4);
  }

  /** *(str_out++) = c. */
  method PutChar(str: array<char>, at: nat, c: char) returns (end: nat)
    requires at < str.Length
    modifies str
    ensures end == at + 1
    ensures str[..end] == old(str[..at]) + [c]
    ensures forall k :: end <= k < str.Length ==> str[k] == old(str[k])
  {
    str[at] := c;
    end := at + 1;
  }

  /** Ends the text: what was written so far is all of it. */
  method Terminate(str: array<char>, at: nat, ghost text: string)
    requires at < str.Length && str[..at] == text
    modifies str
    ensures |text| == at && str[..at] == text && str[at] == '\0'
    ensures forall k :: at < k < str.Length ==> str[k] == old(str[k])
  {
    str[at] := '\0';
  }

  /** The output half of bson_decimal128_to_string, for a finite value with digits `cs`. */
  method PrintFinite(str: array<char>, start: nat, significand: array<Digit>, first: nat, count: nat,
                     exponent: int, ghost sign: string, ghost cs: string)
    requires start <= str.Length && str[..start] == sign
    requires 1 <= count == |cs| <= 36 && HoldsDigits(significand, first, cs)
    requires EXPONENT_MIN <= exponent <= EXPONENT_MAX
    requires |FiniteText(sign, cs, exponent)| < str.Length
    modifies str
    ensures Holds(str, FiniteText(sign, cs, exponent))
  {
    var scientific := count - 1 + exponent;
    ghost var text := FiniteText(sign, cs, exponent);
    var out;
    if scientific < -6 || exponent > 0 {
      SignedLength(scientific);
      out := PutScientificMantissa(str, start, significand, first, count, sign, cs);
      out := PutChar(str, out, 'E');
      out := PutSigned(str, out, scientific);
    } else if exponent >= 0 {
      out := PutDigits(str, start, significand, first, count, cs);
    } else {
      out := PutPlainFraction(str, start, significand, first, count, exponent, sign, cs);
    }
    Terminate(str, out, text);
  }

  lemma DigitsFrom(significand: array<Digit>, first: nat, cs: string, n: nat)
    requires HoldsDigits(significand, first, cs) && n <= |cs|
    ensures HoldsDigits(significand, first, cs[..n]) && HoldsDigits(significand, first + n, cs[n..])
    ensures 0 < |cs| ==> cs[0] == CharOf(significand[first])
  {
  }

  /** One digit, then the radix point if more follow. */
  method PutScientificMantissa(str: array<char>, start: nat, significand: array<Digit>, first: nat, count: nat,
                               ghost sign: string, ghost cs: string) returns (out: nat)
    requires start <= str.Length && str[..start] == sign
    requires 1 <= count == |cs| && HoldsDigits(significand, first, cs)
    requires |ScientificMantissa(sign, cs)| <= str.Length
    modifies str
    ensures out == |ScientificMantissa(sign, cs)|
    ensures str[..out] == ScientificMantissa(sign, cs)
    ensures forall k :: out <= k < str.Length ==> str[k] == old(str[k])
  {
    DigitsFrom(significand, first, cs, 1);
    hide HoldsDigits;
    out := PutChar(str, start, CharOf(significand[first]));
    var read, digits := first + 1, count - 1;
    if digits != 0 {
      out := PutChar(str, out, '.');
    }
    out := PutDigits(str, out, significand, read, digits, cs[1..]);
  }

  /** Regular format with a radix point. */
  method PutPlainFraction(str: array<char>, start: nat, significand: array<Digit>, first: nat, count: nat,
                          exponent: int, ghost sign: string, ghost cs: string) returns (out: nat)
    requires start <= str.Length && str[..start] == sign
    requires count == |cs| && HoldsDigits(significand, first, cs)
    requires exponent < 0
    requires |PlainMantissa(sign, cs, exponent)| <= str.Length
    modifies str
    ensures out == |PlainMantissa(sign, cs, exponent)|
    ensures str[..out] == PlainMantissa(sign, cs, exponent)
    ensures forall k :: out <= k < str.Length ==> str[k] == old(str[k])
  {
    var read, radix := first, count + exponent;
    ghost var point := radix;
    ghost var whole := if point > 0 then cs[..point] else "0";
    ghost var fraction := cs[NonNegative(point)..];
    DigitsFrom(significand, first, cs, NonNegative(point));
    hide HoldsDigits;
    out, read := PutIntegerPart(str, start, significand, read, radix, sign, whole);
    out := PutChar(str, out, '.');
    out, radix := PutZeros(str, out, radix, sign + whole + ".");
    var rest := count - if radix - 1 > 0 then radix - 1 else 0;
    out := PutDigits(str, out, significand, read, rest, fraction);
  }

  /** The digits before the radix point, or a zero. */
  method PutIntegerPart(str: array<char>, start: nat, significand: array<Digit>, first: nat, radix: int,
                        ghost sign: string, ghost whole: string) returns (out: nat, read: nat)
    requires start + |whole| <= str.Length && str[..start] == sign
    requires if radix > 0 then |whole| == radix && HoldsDigits(significand, first, whole) else whole == "0"
    modifies str
    ensures out == start + |whole|
    ensures read == first + NonNegative(radix)
    ensures str[..out] == sign + whole
    ensures forall k :: out <= k < str.Length ==> str[k] == old(str[k])
  {
    read := first;
    if radix > 0 {
      out := PutDigits(str, start, significand, read, radix, whole);
      read := read + radix;
    } else {
      out := PutChar(str, start, '0');
    }
  }

  /** while (radix_position++ < 0) writes the zeros after the radix point. */
  method PutZeros(str: array<char>, at: nat, position: int, ghost prefix: string) returns (out: nat, radix: int)
    requires at <= str.Length && str[..at] == prefix
    requires position < 0 ==> at - position <= str.Length
    modifies str
    ensures out == at + NonNegative(-position) && radix == NonNegative(position) + 1
    ensures str[..out] == prefix + ZeroChars(NonNegative(-position))
    ensures forall k :: out <= k < str.Length ==> str[k] == old(str[k])
  {
    out, radix := at, position;
    while radix < 0
      invariant position <= radix && (radix <= 0 || radix == position)
      invariant out == at + (radix - position) <= str.Length
      invariant position < 0 ==> out - radix <= str.Length
      invariant str[..out] == prefix + ZeroChars(radix - position)
      invariant forall k :: out <= k < str.Length ==> str[k] == old(str[k])
    {
      out := PutChar(str, out, '0');
      radix := radix + 1;
    }
    radix := radix + 1;
  }

  /** The fields that to_string cuts out of the upper 32 bits are those of the 64-bit word. */
  lemma FieldsOfWords(dec: Dec128)
    ensures var high := dec.high / TWO_32;
            && high / 0x400_0000 == dec.high / TWO_58
            && high / 0x8000 == dec.high / TWO_47
            && high / 0x2_0000 == dec.high / TWO_49
            && high % 0x4000 + high / 0x4000 % 8 * 0x4000 == high % 0x2_0000
            && dec.high % TWO_49 == high % 0x2_0000 * TWO_32 + dec.high % TWO_32
  {
    DivTwice(dec.high, TWO_32, 0x400_0000);
    DivTwice(dec.high, TWO_32, 0x8000);
    DivTwice(dec.high, TWO_32, 0x2_0000);
    DivTwice(dec.high / TWO_32, 0x4000, 8);
  }

  lemma SignificandOfWords(dec: Dec128, words: seq<Word32>)
    requires |words| == 4
    requires words[1] == dec.high % TWO_32 && words[2] == dec.low / TWO_32 && words[3] == dec.low % TWO_32
    ensures words[0] == dec.high / TWO_32 % 0x2_0000 ==> WordsValue(words) == dec.high % TWO_49 * TWO_64 + dec.low
  {
    WordsOfFour(words);
    FieldsOfWords(dec);
  }

  /** The upper part of a bit field is a bit field. */
  lemma FieldOfField(x: nat, a: nat, b: nat, c: nat)
    requires 0 < a && 0 < b && 0 < c
    ensures 0 < a * b && 0 < b * c
    ensures x / a % (b * c) / b == x / (a * b) % c
  {
    DivTwice(x, a, b);
    DivTwice(x / a, b, c);
    DivUnique(x / a % (b * c), b, x / a / b % c, x / a % b);
  }

  /** The exponent fields of the two layouts end in the combination field, or in three bits of it. */
  lemma ExponentFields(high: nat)
    ensures high / TWO_49 % TWO_14 / 0x200 == high / TWO_58 % 32
    ensures high / TWO_47 % TWO_14 / 0x800 == high / TWO_58 % 32 % 8
  {
    FieldOfField(high, TWO_49, 0x200, 32);
    FieldOfField(high, TWO_47, 0x800, 8);
    TopBits(high / TWO_58);
  }

  lemma TopBits(top: nat)
    ensures top % 8 == top % 32 % 8
  {
  }

  /** The exponent of any finite value lies in the format's range. */
  lemma DecodedExponent(d: Dec128)
    requires Decode(d).Finite?
    ensures EXPONENT_MIN <= Decode(d).exponent <= EXPONENT_MAX
  {
    ExponentFields(d.high);
  }

  datatype Fields =
    | SpecialField(combination: nat)
    | FiniteFields(exponent: int, words: seq<Word32>)

  /** Decode in terms of the upper 32 bits. */
  lemma DecodedByWords(dec: Dec128)
    ensures var high, neg := dec.high / TWO_32, TWO_63 <= dec.high;
            var combination := high / 0x400_0000 % 32;
            Decode(dec) ==
            if combination == 31 then NotANumber
            else if combination == 30 then Infinity(neg)
            else if combination / 8 == 3 then Finite(neg, 0, high / 0x8000 % TWO_14 - EXPONENT_BIAS)
            else Finite(neg, dec.high % TWO_49 * TWO_64 + dec.low, high / 0x2_0000 % TWO_14 - EXPONENT_BIAS)
  {
    FieldsOfWords(dec);
  }

  /** What the fields read from the words amount to. */
  predicate DecodesTo(dec: Dec128, exponent: int, words: seq<Word32>)
  {
    && |words| == 4 && EXPONENT_MIN <= exponent <= EXPONENT_MAX
    && Decode(dec) == Finite(TWO_63 <= dec.high, ReadSignificand(words), exponent)
  }

  /** The layout for large coefficients: whatever the words are, they read as zero. */
  lemma LargeLayout(dec: Dec128, high: nat, combination: nat, exponent: int, words: seq<Word32>)
    requires high == dec.high / TWO_32 && combination == high / 0x400_0000 % 32
    requires combination / 8 == 3 && combination < 30
    requires exponent == high / 0x8000 % TWO_14 - EXPONENT_BIAS && |words| == 4 && 0x2_0000 <= words[0]
    ensures DecodesTo(dec, exponent, words)
  {
    hide Decode, WordsValue;
    DecodedByWords(dec);
    DecodedExponent(dec);
  }

  /** The layout for small coefficients: the lowest 113 bits are the coefficient. */
  lemma SmallLayout(dec: Dec128, high: nat, combination: nat, exponent: int, words: seq<Word32>)
    requires high == dec.high / TWO_32 && combination == high / 0x400_0000 % 32 && combination / 8 != 3
    requires exponent == high / 0x2_0000 % TWO_14 - EXPONENT_BIAS
    requires |words| == 4 && words[0] == high % 0x2_0000
    requires words[1] == dec.high % TWO_32 && words[2] == dec.low / TWO_32 && words[3] == dec.low % TWO_32
    ensures DecodesTo(dec, exponent, words)
  {
    hide Decode, WordsValue;
    DecodedByWords(dec);
    DecodedExponent(dec);
    SignificandOfWords(dec, words);
  }

  /** The three bits above the lowest 14, put back on top of them. */
  lemma SmallTop(high: nat)
    ensures high % 0x4000 + high / 0x4000 % 8 % 16 * 0x4000 == high % 0x2_0000
  {
    DivTwice(high, 0x4000, 8);
  }

  /** A set bit above them makes the top word too large for a coefficient. */
  lemma LargeTop(high: nat)
    ensures 0x2_0000 <= high % 0x4000 + (8 + high / 0x4000 % 2) % 16 * 0x4000 < TWO_32
  {
  }

  lemma SpecialLayout(dec: Dec128, combination: nat)
    requires combination == dec.high / TWO_32 / 0x400_0000 % 32
    ensures combination == 30 ==> Decode(dec) == Infinity(TWO_63 <= dec.high)
    ensures combination == 31 ==> Decode(dec) == NotANumber
  {
    hide Decode;
    DecodedByWords(dec);
  }

  /** Decodes the combination field, the exponent and the significand. */
  method ReadFields(dec: Dec128) returns (f: Fields)
    ensures f.SpecialField? ==> f.combination == 30 || f.combination == 31
    ensures f.SpecialField? && f.combination == 30 ==> Decode(dec) == Infinity(TWO_63 <= dec.high)
    ensures f.SpecialField? && f.combination == 31 ==> Decode(dec) == NotANumber
    ensures f.FiniteFields? ==>
              && |f.words| == 4
              && EXPONENT_MIN <= f.exponent <= EXPONENT_MAX
              && Decode(dec) == Finite(TWO_63 <= dec.high, ReadSignificand(f.words), f.exponent)
  {
    hide WordsValue, Decode, ReadSignificand;
    var low := dec.low % TWO_32;
    var midl := dec.low / TWO_32;
    var midh := dec.high % TWO_32;
    var high := dec.high / TWO_32;
    var combination := high / 0x400_0000 % 32;
    var biased, msb;
    if combination / 8 == 3 {
      if combination == 30 || combination == 31 {
        SpecialLayout(dec, combination);
        return SpecialField(combination);
      } else {
        biased := high / 0x8000 % TWO_14;
        msb := 8 + high / 0x4000 % 2;
        LargeTop(high);
      }
    } else {
      msb := high / 0x4000 % 8;
      biased := high / 0x2_0000 % TWO_14;
      SmallTop(high);
    }
    var words: seq<Word32> := [high % 0x4000 + msb % 16 * 0x4000, midh, midl, low];
    if combination / 8 == 3 {
      LargeLayout(dec, high, combination, biased - EXPONENT_BIAS, words);
    } else {
      SmallLayout(dec, high, combination, biased - EXPONENT_BIAS, words);
    }
    f := FiniteFields(biased - EXPONENT_BIAS, words);
  }

  /** bson_decimal128_to_string: the text of the value, in a buffer that has room for it. */
  method ToString(dec: Dec128, str: array<char>)
    requires |Text(Decode(dec))| < str.Length
    modifies str
    ensures Holds(str, Text(Decode(dec)))
  {
    hide Decode, FiniteText, OfNat, ReadSignificand;
    var out := 0;
    var neg := TWO_63 <= dec.high;
    var f := ReadFields(dec);
    if neg {
      out := PutChar(str, out, '-');
    }
    match f
    case SpecialField(combination) =>
      if combination == 30 {
        out := Put(str, out, "Infinity");
      } else {
        out := Put(str, 0, "NaN");
      }
      Terminate(str, out, Text(Decode(dec)));
    case FiniteFields(exponent, words) =>
      var significand, read, digits := SignificandDigits(words);
      PrintFinite(str, out, significand, read, digits, exponent, Sign(neg), Chars(OfNat(ReadSignificand(words))));
  }
}
