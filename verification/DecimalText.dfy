/**
 What a decimal text says: the grammar [+-]ddd[.]ddd[E][+-]dddd that
 bson_decimal128_from_string accepts, and the number such a text denotes.
 */
module DecimalText {
  import opened CText
  import opened Digits
  import opened Words

  function Lower(c: char): char
  {
    if 'A' <= c <= 'Z' then (c as int + 32) as char else c
  }

  predicate EqualIgnoringCase(a: string, b: string)
  {
    |a| == |b| && forall k :: 0 <= k < |a| ==> Lower(a[k]) == Lower(b[k])
  }

  predicate IsMantissaChar(c: char) { IsDigitChar(c) || c == '.' }

  /** The end of the longest run of digits and points. */
  function MantissaEnd(s: string, i: nat): (end: nat)
    requires i <= |s|
    ensures i <= end <= |s|
    ensures forall k :: i <= k < end ==> IsMantissaChar(s[k])
    ensures end < |s| ==> !IsMantissaChar(s[end])
    decreases |s| - i
  {
    if i < |s| && IsMantissaChar(s[i]) then MantissaEnd(s, i + 1) else i
  }

  function DigitsEnd(s: string, i: nat): (end: nat)
    requires i <= |s|
    ensures i <= end <= |s|
    ensures forall k :: i <= k < end ==> IsDigitChar(s[k])
    ensures end < |s| ==> !IsDigitChar(s[end])
    decreases |s| - i
  {
    if i < |s| && IsDigitChar(s[i]) then DigitsEnd(s, i + 1) else i
  }

  // The parts of a mantissa; each is read left to right.

  function Points(m: string): nat
  {
    if m == "" then 0 else Points(m[..|m| - 1]) + if m[|m| - 1] == '.' then 1 else 0
  }

  function DigitsOf(m: string): (ds: seq<Digit>)
    ensures |ds| <= |m|
  {
    if m == "" then []
    else if IsDigitChar(m[|m| - 1]) then DigitsOf(m[..|m| - 1]) + [DigitOf(m[|m| - 1])]
    else DigitsOf(m[..|m| - 1])
  }

  /** How many digits stand after the first point. */
  function FractionLength(m: string): (n: nat)
    ensures n <= |m|
  {
    if m == "" then 0
    else FractionLength(m[..|m| - 1]) + if IsDigitChar(m[|m| - 1]) && Points(m[..|m| - 1]) > 0 then 1 else 0
  }

  /** At least one digit, and the int it makes with the sign. */
  function ScanDigits(s: string, from: nat, neg: bool): (r: Option<(int, nat)>)
    requires from <= |s|
    ensures r.Some? ==> from < r.value.1 <= |s|
  {
    var to := DigitsEnd(s, from);
    var n: int := Nat(DigitsOf(s[from..to]));
    if from == to then None else Some((if neg then -n else n, to))
  }

  /** sscanf's "%d": optional space, optional sign, at least one digit. */
  function ScanInt(s: string, i: nat): (r: Option<(int, nat)>)
    requires i <= |s|
    ensures r.Some? ==> i < r.value.1 <= |s|
  {
    var p := SpacesEnd(s, i);
    if At(s, p) == '+' || At(s, p) == '-' then ScanDigits(s, p + 1, At(s, p) == '-')
    else ScanDigits(s, p, false)
  }

  /** A number as written: all its digits, how many follow the point, and the exponent field. */
  datatype Literal = Literal(neg: bool, signed: bool, digits: seq<Digit>, radix: bool, fraction: nat, exponent: int)

  datatype Reading =
    | Malformed
    | InfinityText(neg: bool)
    | NaNText
    | NumberText(lit: Literal)

  predicate IsSigned(s: string) { At(s, 0) == '+' || At(s, 0) == '-' }

  function Read(s: string): Reading
  {
    var start := if IsSigned(s) then 1 else 0;
    if !IsMantissaChar(At(s, start)) then ReadWord(s[start..], At(s, 0) == '-')
    else ReadNumber(s, start)
  }

  function ReadWord(word: string, neg: bool): Reading
  {
    if EqualIgnoringCase(word, "inf") || EqualIgnoringCase(word, "infinity") then InfinityText(neg)
    else if EqualIgnoringCase(word, "nan") then NaNText
    else Malformed
  }

  /** The rest of a number after its mantissa: nothing, or an exponent field to the end of the text. */
  function ReadExponent(s: string, end: nat, lit: Literal): Reading
    requires end <= |s|
  {
    if At(s, end) == 'e' || At(s, end) == 'E' then
      var scanned := ScanInt(s, end + 1);
      if scanned.Some? && scanned.value.1 == |s| then NumberText(lit.(exponent := scanned.value.0)) else Malformed
    else if end == |s| then NumberText(lit)
    else Malformed
  }

  function ReadNumber(s: string, start: nat): Reading
    requires start <= |s|
  {
    var end := MantissaEnd(s, start);
    var m := s[start..end];
    if Points(m) > 1 || DigitsOf(m) == [] then Malformed
    else
      ReadExponent(s, end, Literal(At(s, 0) == '-', start == 1, DigitsOf(m), Points(m) == 1, FractionLength(m), 0))
  }

  /** c1 * 10^e1 == c2 * 10^e2. */
  predicate SameNumber(c1: nat, e1: int, c2: nat, e2: int)
  {
    if e1 <= e2 then c1 == c2 * Pow10(e2 - e1) else c1 * Pow10(e1 - e2) == c2
  }

  /** The number that a literal denotes is Nat(digits) * 10^(exponent - fraction). */
  predicate Denotes(lit: Literal, neg: bool, c: nat, e: int)
  {
    neg == lit.neg && SameNumber(c, e, Nat(lit.digits), lit.exponent - lit.fraction)
  }

  /** Every character of a mantissa is a digit or a point, so the two counts add up. */
  lemma {:induction false} MantissaLength(m: string)
    requires forall k :: 0 <= k < |m| ==> IsMantissaChar(m[k])
    ensures |m| == |DigitsOf(m)| + Points(m)
    ensures FractionLength(m) <= |DigitsOf(m)|
  {
    if m != "" {
      MantissaLength(m[..|m| - 1]);
    }
  }

  /** The mantissa lies in the text, right after the sign. */
  lemma ReadBounds(s: string)
    requires Read(s).NumberText?
    ensures var lit := Read(s).lit;
            && lit.digits != []
            && lit.fraction <= |lit.digits|
            && lit.signed == IsSigned(s)
            && |lit.digits| + (if lit.signed then 1 else 0) + (if lit.radix then 1 else 0) <= |s|
  {
    var start := if IsSigned(s) then 1 else 0;
    var end := MantissaEnd(s, start);
    MantissaLength(s[start..end]);
  }
}
