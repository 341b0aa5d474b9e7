/**
 bson_ascii_strtoll: a 64-bit number in any base up to 36 at the start of a text, where it ends, and
 what it leaves in errno; and two callers that want a text to be a decimal number and nothing else.
 */
module Strtoll {
  import opened CText
  import opened Digits
  import opened Words

  datatype Errno = NoError | Invalid | OutOfRange

  /** The number, the position assigned to the end pointer if it is assigned, and errno. */
  datatype Reading = Reading(number: Int64, end: Option<nat>, errno: Errno)

  // The number written.

  /** 0, to find the base in the text, or a base. */
  type Base = b: nat | b == 0 || 2 <= b <= 36 witness 0

  /** The value of a digit or letter; 36 for all other characters, the NUL among them. */
  function DigitValue(c: char): (d: nat)
    ensures d <= 36
  {
    if '0' <= c <= '9' then c as int - '0' as int
    else if 'A' <= c <= 'Z' then c as int - 'A' as int + 10
    else if 'a' <= c <= 'z' then c as int - 'a' as int + 10
    else 36
  }

  predicate Signed(s: string) { At(s, SpacesEnd(s, 0)) == '-' || At(s, SpacesEnd(s, 0)) == '+' }

  predicate Negative(s: string) { At(s, SpacesEnd(s, 0)) == '-' }

  /** Behind white space and a sign. */
  function AfterSign(s: string): (i: nat)
    ensures i <= |s|
  {
    SpacesEnd(s, 0) + if Signed(s) then 1 else 0
  }

  /** A hexadecimal prefix that is skipped. */
  predicate HexPrefix(s: string, base: Base)
  {
    var i := AfterSign(s);
    (base == 0 || base == 16) && i + 1 < |s| && s[i] == '0' && (s[i + 1] == 'x' || s[i + 1] == 'X')
  }

  function DigitsStart(s: string, base: Base): (i: nat)
    ensures i <= |s|
  {
    AfterSign(s) + if HexPrefix(s, base) then 2 else 0
  }

  /** The base the digits are read in. */
  function Radix(s: string, base: Base): (b: nat)
    ensures 2 <= b <= 36
  {
    if HexPrefix(s, base) then 16
    else if base == 0 then if At(s, AfterSign(s)) == '0' then 8 else 10
    else base
  }

  function DigitsEnd(s: string, i: nat, b: nat): (j: nat)
    requires i <= |s|
    ensures i <= j <= |s|
    ensures forall k :: i <= k < j ==> DigitValue(s[k]) < b
    ensures j < |s| ==> DigitValue(s[j]) >= b
    decreases |s| - i
  {
    if i < |s| && DigitValue(s[i]) < b then DigitsEnd(s, i + 1, b) else i
  }

  /** The number that the characters from i to j denote in base b. */
  function Magnitude(s: string, i: nat, j: nat, b: nat): nat
    requires i <= j <= |s|
  {
    if i == j then 0 else b * Magnitude(s, i, j - 1, b) + DigitValue(s[j - 1])
  }

  /** The largest magnitude of an int64_t of that sign. */
  function Limit(negative: bool): nat { if negative then 0x8000_0000_0000_0000 else 0x7fff_ffff_ffff_ffff }

  function WithSign(negative: bool, magnitude: nat): Int64
    requires magnitude <= Limit(negative)
  {
    var m: int := magnitude;
    if negative then -m else m
  }

  /**
   What a call leaves. A text without a sign or decimal digit after its white space is invalid. Digits
   of a number out of range give the nearest int64_t, and the end is the digit that went too far.
   Without digits the end is not assigned, which is no error.
   */
  predicate Reads(s: string, base: Base, r: Reading)
  {
    if !Signed(s) && !IsDigitChar(At(s, SpacesEnd(s, 0))) then r == Reading(0, None, Invalid)
    else
      var b, i, negative := Radix(s, base), DigitsStart(s, base), Negative(s);
      var j := DigitsEnd(s, i, b);
      if Magnitude(s, i, j, b) <= Limit(negative) then
        r == Reading(WithSign(negative, Magnitude(s, i, j, b)), if i < j then Some(j) else None, NoError)
      else
        && r.number == WithSign(negative, Limit(negative)) && r.errno == OutOfRange
        && r.end.Some? && i < r.end.value < j
        && Magnitude(s, i, r.end.value, b) <= Limit(negative) < Magnitude(s, i, r.end.value + 1, b)
  }

  // The loop.

  /** Division in C drops the fraction. */
  function Quotient(a: int, b: nat): int
    requires b > 0
  {
    if a < 0 then -(-a / b) else a / b
  }

  function Remainder(a: int, b: nat): int
    requires b > 0
  {
    a - Quotient(a, b) * b
  }

  /** Before a digit is added, the cutoff tells whether the number stays in range. */
  lemma CutoffDecides(m: nat, d: nat, b: nat, limit: nat)
    requires 0 < b && d < b
    ensures b * m + d > limit <==> m > limit / b || (m == limit / b && d > limit % b)
  {
    var q := limit / b;
    assert limit == b * q + limit % b;
    if m > q {
      MulMonotone(q + 1, m, b);
    } else if m < q {
      MulMonotone(m + 1, q, b);
    }
  }

  lemma SignedProduct(m: int, b: int)
    ensures m * b == b * m && (-m) * b == -(b * m)
  {
  }

  /** More digits do not make a number smaller. */
  lemma {:induction false} MagnitudeGrows(s: string, i: nat, k: nat, j: nat, b: nat)
    requires i <= k <= j <= |s| && 1 <= b
    ensures Magnitude(s, i, k, b) <= Magnitude(s, i, j, b)
    decreases j - k
  {
    if k < j {
      MagnitudeGrows(s, i, k, j - 1, b);
      AtLeastOnce(b, Magnitude(s, i, j - 1, b));
    }
  }

  /** The cutoff of the source: the limit over the base, and the remainder, by C's division. */
  method Cutoff(negative: bool, base: nat) returns (cutoff: int, cutlim: int)
    requires 2 <= base <= 36
    ensures cutlim == Limit(negative) % base
    ensures cutoff == if negative then -(Limit(negative) / base) else Limit(negative) / base
  {
    cutoff := if negative then -0x8000_0000_0000_0000 else 0x7fff_ffff_ffff_ffff;
    cutlim := Remainder(cutoff, base);
    cutoff := Quotient(cutoff, base);
    if negative {
      if cutlim > 0 {
        cutlim := cutlim - base;
        cutoff := cutoff + 1;
      }
      cutlim := -cutlim;
    }
  }

  /** Skips white space and a sign; refused when neither a sign nor a decimal digit comes then. */
  method SkipSign(s: string) returns (tok: nat, negative: bool, ok: bool)
    ensures ok == (Signed(s) || IsDigitChar(At(s, SpacesEnd(s, 0))))
    ensures tok == AfterSign(s) && negative == Negative(s)
  {
    tok := 0;
    var c := At(s, 0);
    while IsSpace(c)
      invariant tok <= |s| && c == At(s, tok) && SpacesEnd(s, 0) == SpacesEnd(s, tok)
      decreases |s| - tok
    {
      tok := tok + 1;
      c := At(s, tok);
    }
    negative := c == '-';
    ok := true;
    if c == '-' || c == '+' {
      tok := tok + 1;
    } else if !IsDigitChar(c) {
      ok := false;
    }
  }

  /** The base to read in, and where its digits start. */
  method FindRadix(s: string, from: nat, base: Base) returns (tok: nat, b: nat)
    requires from == AfterSign(s)
    ensures tok == DigitsStart(s, base) && b == Radix(s, base)
  {
    tok, b := from, base;
    var c := At(s, tok);
    if (b == 0 || b == 16) && c == '0' && (At(s, tok + 1) == 'x' || At(s, tok + 1) == 'X') {
      tok := tok + 2;
      c := At(s, tok);
      b := 16;
    }
    if b == 0 {
      b := if c == '0' then 8 else 10;
    }
  }

  /** Adds a digit to the number, or clamps it and reports that it went out of range. */
  method AddDigit(number: Int64, c: nat, b: nat, negative: bool, cutoff: int, cutlim: int, ghost m: nat)
    returns (sum: Int64, errno: Errno)
    requires 2 <= b && c < b && m <= Limit(negative) && number == WithSign(negative, m)
    requires cutlim == Limit(negative) % b
    requires cutoff == if negative then -(Limit(negative) / b) else Limit(negative) / b
    ensures errno == if b * m + c > Limit(negative) then OutOfRange else NoError
    ensures sum == WithSign(negative, Min(b * m + c, Limit(negative)))
  {
    CutoffDecides(m, c, b, Limit(negative));
    SignedProduct(m, b);
    errno := NoError;
    if negative {
      if number < cutoff || (number == cutoff && c > cutlim) {
        sum, errno := -0x8000_0000_0000_0000, OutOfRange;
      } else {
        sum := number * b - c;
      }
    } else {
      if number > cutoff || (number == cutoff && c > cutlim) {
        sum, errno := 0x7fff_ffff_ffff_ffff, OutOfRange;
      } else {
        sum := number * b + c;
      }
    }
  }

  /** bson_ascii_strtoll. */
  method AsciiStrtoll(s: string, base: Base) returns (number: Int64, end: Option<nat>, errno: Errno)
    ensures Reads(s, base, Reading(number, end, errno))
  {
    hide Radix, DigitsStart, DigitValue, Signed, Negative, AfterSign;
    var start, negative, ok := SkipSign(s);
    if !ok {
      return 0, None, Invalid;
    }
    var tok, b := FindRadix(s, start, base);
    var cutoff, cutlim := Cutoff(negative, b);
    var digitsStart := tok;
    number, errno := 0, NoError;
    while tok < |s|
      invariant digitsStart <= tok <= |s| && DigitsEnd(s, digitsStart, b) == DigitsEnd(s, tok, b)
      invariant Magnitude(s, digitsStart, tok, b) <= Limit(negative)
      invariant number == WithSign(negative, Magnitude(s, digitsStart, tok, b)) && errno == NoError
    {
      var c := DigitValue(s[tok]);
      if c >= b {
        break;
      }
      number, errno := AddDigit(number, c, b, negative, cutoff, cutlim, Magnitude(s, digitsStart, tok, b));
      if errno == OutOfRange {
        FirstDigitFits(s, digitsStart, tok, b, negative);
        MagnitudeGrows(s, digitsStart, tok + 1, DigitsEnd(s, tok, b), b);
        break;
      }
      tok := tok + 1;
    }
    end := if tok > digitsStart then Some(tok) else None;
  }

  /** The number of one digit is in range. */
  lemma FirstDigitFits(s: string, i: nat, k: nat, b: nat, negative: bool)
    requires i <= k < |s| && Magnitude(s, i, k + 1, b) > Limit(negative)
    ensures i < k
  {
  }

  // Whole decimal numbers.

  predicate AllDigits(s: string) { forall k :: 0 <= k < |s| ==> IsDigitChar(s[k]) }

  function ValuesOf(s: string): (ds: seq<Digit>)
    requires AllDigits(s)
    ensures |ds| == |s|
  {
    seq(|s|, k requires 0 <= k < |s| => DigitOf(s[k]))
  }

  /** White space, a sign if there is one, and decimal digits up to the end, for a number in range. */
  function WholeNumber(s: string): Option<Int64>
  {
    var digits := s[AfterSign(s)..];
    if digits == "" || !AllDigits(digits) || Nat(ValuesOf(digits)) > Limit(Negative(s)) then None
    else Some(WithSign(Negative(s), Nat(ValuesOf(digits))))
  }

  /** White space and a sign without a digit behind it. */
  predicate SignOnly(s: string) { Signed(s) && !IsDigitChar(At(s, AfterSign(s))) }

  lemma {:induction false} MagnitudeIsNat(s: string, i: nat, j: nat)
    requires i <= j <= |s| && AllDigits(s[i..j])
    ensures Magnitude(s, i, j, 10) == Nat(ValuesOf(s[i..j]))
    decreases j
  {
    hide DigitValue;
    if i == j {
      assert ValuesOf(s[i..j]) == [];
    } else {
      var t, c := s[i..j - 1], s[j - 1];
      assert s[i..j] == t + [c] && (t + [c])[|t|] == c;
      assert forall k :: 0 <= k < |t| ==> t[k] == s[i..j][k];
      MagnitudeIsNat(s, i, j - 1);
      assert ValuesOf(s[i..j]) == ValuesOf(t) + [DigitOf(c)];
      NatSnoc(ValuesOf(t), DigitOf(c));
      DecimalValue(c);
    }
  }

  lemma DecimalValue(c: char)
    ensures IsDigitChar(c) <==> DigitValue(c) < 10
    ensures IsDigitChar(c) ==> DigitValue(c) == DigitOf(c)
  {
  }

  lemma DecimalDigitsEnd(s: string, i: nat)
    requires i <= |s|
    ensures DigitsEnd(s, i, 10) == |s| <==> AllDigits(s[i..])
    ensures DigitsEnd(s, i, 10) == i <==> !IsDigitChar(At(s, i))
  {
    hide DigitValue;
    var j, t := DigitsEnd(s, i, 10), s[i..];
    if i < |s| {
      DecimalValue(s[i]);
    }
    if j < |s| {
      DecimalValue(s[j]);
      assert t[j - i] == s[j];
    } else {
      forall k | 0 <= k < |t| ensures IsDigitChar(t[k]) {
        assert t[k] == s[i + k];
        DecimalValue(t[k]);
      }
    }
  }

  /** In base 10 a reading without an error that assigns the end is a number up to where its digits end. */
  lemma DecimalReading(s: string, r: Reading)
    requires Reads(s, 10, r)
    ensures var i := AfterSign(s);
            var j := DigitsEnd(s, i, 10);
            if r.errno == NoError then
              && (Signed(s) || i < j) && r.end == (if i < j then Some(j) else None)
              && Magnitude(s, i, j, 10) <= Limit(Negative(s))
              && r.number == WithSign(Negative(s), Magnitude(s, i, j, 10))
            else if r.errno == Invalid then !Signed(s) && i == j && r.end.None?
            else
              && Magnitude(s, i, j, 10) > Limit(Negative(s)) && i < j
              && r.number == WithSign(Negative(s), Limit(Negative(s)))
  {
    hide SpacesEnd, IsSpace, DigitValue, DigitsEnd, Magnitude;
    DecimalDigitsEnd(s, AfterSign(s));
  }

  /** Reading in base 10 tells a whole number: its digits end with the text, and nothing is out of range. */
  lemma WholeNumberIff(s: string, r: Reading)
    requires Reads(s, 10, r)
    ensures WholeNumber(s) == if r.errno == NoError && r.end == Some(|s|) then Some(r.number) else None
    ensures SignOnly(s) <==> r.errno == NoError && r.end.None?
    ensures r.errno == NoError && r.end.None? ==> r.number == 0
    ensures r.errno == OutOfRange ==> r.number == -0x8000_0000_0000_0000 || r.number == 0x7fff_ffff_ffff_ffff
    ensures r.errno == Invalid ==> r.end.None?
  {
    hide Reads, Signed, Negative, AfterSign, DigitsEnd, DigitValue, ValuesOf, Nat;
    var i := AfterSign(s);
    DecimalReading(s, r);
    DecimalDigitsEnd(s, i);
    if AllDigits(s[i..]) {
      assert s[i..|s|] == s[i..];
      MagnitudeIsNat(s, i, |s|);
    }
  }

  /** php_phongo_utcdatetime_init_from_string: a sign alone, whatever follows it, passes for 0. */
  method DateTimeFromString(s: string) returns (milliseconds: Option<Int64>)
    ensures milliseconds == if SignOnly(s) then Some(0) else WholeNumber(s)
  {
    hide Reads, WholeNumber, SignOnly;
    var number, endptr, errno := AsciiStrtoll(s, 10);
    WholeNumberIff(s, Reading(number, endptr, errno));
    if errno != NoError || (endptr.Some? && endptr.value != |s|) {
      return None;
    }
    return Some(number);
  }

  /** The JSON reader's check of a long: the end must have been assigned. */
  method LongFromString(s: string) returns (v64: Option<Int64>)
    ensures v64 == WholeNumber(s)
  {
    hide Reads, WholeNumber, SignOnly;
    var number, endptr, errno := AsciiStrtoll(s, 10);
    WholeNumberIff(s, Reading(number, endptr, errno));
    if (number == -0x8000_0000_0000_0000 || number == 0x7fff_ffff_ffff_ffff) && errno == OutOfRange {
      return None;
    }
    if endptr != Some(|s|) {
      return None;
    }
    return Some(number);
  }
}
