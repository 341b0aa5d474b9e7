/**
 What bson_ascii_strtoll reads, told by the parts a text is put together from: white space, a sign, a
 prefix, digits of the base in either case, and whatever follows them.
 */
module StrtollTexts {
  import opened CText
  import opened Digits
  import opened Strtoll
  import opened Words

  /** The numerals 0 to 9 and a to z, or A to Z. */
  function Numeral(d: nat, upper: bool): char
    requires d < 36
  {
    if d < 10 then ('0' as int + d) as char
    else if upper then ('A' as int + d - 10) as char
    else ('a' as int + d - 10) as char
  }

  predicate IsNumeral(c: char, d: nat)
    requires d < 36
  {
    c == Numeral(d, false) || c == Numeral(d, true)
  }

  /** The digit values of a text. */
  predicate Writes(t: string, ds: seq<nat>, b: nat)
    requires b <= 36
  {
    |t| == |ds| && forall k :: 0 <= k < |ds| ==> ds[k] < b && IsNumeral(t[k], ds[k])
  }

  function ValueIn(ds: seq<nat>, b: nat): nat
  {
    if ds == [] then 0 else b * ValueIn(ds[..|ds| - 1], b) + ds[|ds| - 1]
  }

  /** Where no digit of the base goes on. */
  predicate Stops(rest: string, b: nat)
    requires b <= 36
  {
    rest == "" || forall d :: 0 <= d < b ==> !IsNumeral(rest[0], d)
  }

  /** The base a prefix and first digit stand for, where none is given. */
  predicate Chooses(base: Base, prefix: string, t: string, b: nat)
  {
    if prefix != "" then (prefix == "0x" || prefix == "0X") && (base == 0 || base == 16) && b == 16
    else if base != 0 then b == base
    else b == if t != "" && t[0] == '0' then 8 else 10
  }

  /** An x behind a first zero is taken for a prefix. */
  predicate LooksPrefixed(base: Base, t: string)
  {
    (base == 0 || base == 16) && |t| >= 2 && t[0] == '0' && (t[1] == 'x' || t[1] == 'X')
  }

  lemma DigitChar(c: char, d: nat)
    requires d < 36
    ensures DigitValue(c) == d <==> IsNumeral(c, d)
  {
  }

  lemma {:induction false} DigitsEndAt(s: string, i: nat, j: nat, b: nat)
    requires i <= j <= |s| && (forall k :: i <= k < j ==> DigitValue(s[k]) < b)
    requires j < |s| ==> DigitValue(s[j]) >= b
    ensures Strtoll.DigitsEnd(s, i, b) == j
    decreases j - i
  {
    if i < j {
      DigitsEndAt(s, i + 1, j, b);
    }
  }

  lemma {:induction false} MagnitudeOf(s: string, i: nat, t: string, ds: seq<nat>, b: nat)
    requires b <= 36 && Writes(t, ds, b) && i + |t| <= |s| && s[i..i + |t|] == t
    ensures Magnitude(s, i, i + |t|, b) == ValueIn(ds, b)
    decreases |ds|
  {
    hide DigitValue;
    if ds != [] {
      var n := |ds| - 1;
      assert s[i..i + n] == s[i..i + |t|][..n] == t[..n];
      MagnitudeOf(s, i, t[..n], ds[..n], b);
      assert s[i + n] == s[i..i + |t|][n];
      DigitChar(s[i + n], ds[n]);
    }
  }

  /** The parts of the text, as the reader finds them. */
  lemma FindsParts(s: string, space: string, sign: string, body: string)
    requires s == space + sign + body && IsBlank(space) && (sign == "" || sign == "+" || sign == "-")
    requires body != "" && !IsSpace(body[0]) && body[0] != '+' && body[0] != '-'
    ensures AfterSign(s) == |space| + |sign| && s[AfterSign(s)..] == body
    ensures Signed(s) == (sign != "") && Negative(s) == (sign == "-")
    ensures At(s, SpacesEnd(s, 0)) == if sign == "" then body[0] else sign[0]
  {
    hide IsSpace, SpacesEnd;
    forall k | 0 <= k < |space| ensures IsSpace(s[k]) {
      assert s[k] == space[k];
      BlankIsSpace(s[k]);
    }
    assert s[|space|] == if sign == "" then body[0] else sign[0];
    NoSpaceSign();
    SpacesEndAt(s, 0, |space|);
  }

  lemma NoSpaceSign()
    ensures !IsSpace('+') && !IsSpace('-')
  {
  }

  lemma DigitIsNoSpace(c: char, d: nat)
    requires d < 36 && IsNumeral(c, d)
    ensures !IsSpace(c) && c != '+' && c != '-'
  {
    DigitChar(c, d);
  }

  lemma StopsIff(c: char, b: nat)
    requires 2 <= b <= 36
    ensures DigitValue(c) >= b <==> Stops([c], b)
  {
    hide DigitValue;
    var v := DigitValue(c);
    assert [c][0] == c;
    if v < 36 {
      DigitChar(c, v);
    }
    forall d | 0 <= d < b ensures IsNumeral(c, d) ==> v == d {
      DigitChar(c, d);
    }
  }

  lemma BodyStart(prefix: string, t: string, rest: string, ds: seq<nat>, b: nat)
    requires prefix == "" || prefix == "0x" || prefix == "0X"
    requires 2 <= b <= 36 && t != "" && Writes(t, ds, b)
    ensures var body := prefix + t + rest;
            && body[0] == (if prefix == "" then t[0] else '0')
            && !IsSpace(body[0]) && body[0] != '+' && body[0] != '-'
    ensures prefix != "" || ds[0] < 10 ==> IsDigitChar((prefix + t + rest)[0])
  {
    hide DigitValue, IsSpace;
    DigitIsNoSpace(t[0], ds[0]);
    DigitIsNoSpace('0', 0);
    DecimalDigit(t[0], ds[0]);
  }

  lemma DecimalDigit(c: char, d: nat)
    requires d < 10 ==> IsNumeral(c, d)
    ensures d < 10 ==> IsDigitChar(c)
  {
  }

  /** Where the parts of the body stand. */
  lemma Behind(s: string, a: nat, prefix: string, t: string, rest: string)
    requires a <= |s| && s[a..] == prefix + t + rest && t != ""
    ensures var i := a + |prefix|;
            && i + |t| + |rest| == |s| && s[i..i + |t|] == t && s[i] == t[0]
            && (rest != "" ==> s[i + |t|] == rest[0])
  {
    var i, body := a + |prefix|, prefix + t + rest;
    assert s[i..i + |t|] == body[|prefix|..|prefix| + |t|] == t;
    assert s[i] == body[|prefix|];
    if rest != "" {
      assert s[i + |t|] == body[|prefix| + |t|];
    }
  }

  lemma PrefixIff(s: string, prefix: string, tail: string, base: Base)
    requires s[AfterSign(s)..] == prefix + tail
    requires prefix == "" || ((prefix == "0x" || prefix == "0X") && (base == 0 || base == 16))
    requires prefix == "" ==> !LooksPrefixed(base, tail)
    ensures HexPrefix(s, base) <==> prefix != ""
  {
    hide AfterSign;
    var a, body := AfterSign(s), prefix + tail;
    if |body| >= 2 {
      assert s[a] == body[0] && s[a + 1] == body[1];
    }
    if prefix == "" {
      assert body == tail;
    }
  }

  lemma DigitsRun(s: string, i: nat, t: string, rest: string, ds: seq<nat>, b: nat)
    requires 2 <= b <= 36 && Writes(t, ds, b) && Stops(rest, b)
    requires i + |t| + |rest| == |s| && s[i..i + |t|] == t && (rest != "" ==> s[i + |t|] == rest[0])
    ensures Strtoll.DigitsEnd(s, i, b) == i + |t|
  {
    hide DigitValue;
    forall k | i <= k < i + |t| ensures DigitValue(s[k]) < b {
      assert s[k] == t[k - i];
      DigitChar(s[k], ds[k - i]);
    }
    if rest != "" {
      StopsIff(rest[0], b);
    }
    DigitsEndAt(s, i, i + |t|, b);
  }

  /** A reading of digits that are known. */
  lemma ReadsParts(s: string, base: Base, r: Reading, i: nat, j: nat, b: nat)
    requires Reads(s, base, r) && (Signed(s) || IsDigitChar(At(s, SpacesEnd(s, 0))))
    requires i < j <= |s| && i == Strtoll.DigitsStart(s, base) && b == Radix(s, base)
    requires j == Strtoll.DigitsEnd(s, i, b)
    ensures var m, negative := Magnitude(s, i, j, b), Negative(s);
            if m <= Limit(negative) then r == Reading(WithSign(negative, m), Some(j), NoError)
            else r.number == WithSign(negative, Limit(negative)) && r.errno == OutOfRange
  {
  }

  /** The base the digits are read in. */
  lemma RadixIs(s: string, prefix: string, t: string, base: Base, b: nat)
    requires (HexPrefix(s, base) <==> prefix != "") && (prefix == "" || |prefix| == 2)
    requires Chooses(base, prefix, t, b) && t != "" && At(s, AfterSign(s)) == if prefix == "" then t[0] else '0'
    ensures Radix(s, base) == b && Strtoll.DigitsStart(s, base) == AfterSign(s) + |prefix|
  {
    hide AfterSign, HexPrefix;
  }

  /** What is read of a text whose parts stand where they should. */
  lemma NumberAt(s: string, prefix: string, t: string, rest: string, ds: seq<nat>, base: Base, b: nat, r: Reading)
    requires 2 <= b <= 36 && Chooses(base, prefix, t, b) && t != "" && Writes(t, ds, b) && Stops(rest, b)
    requires (HexPrefix(s, base) <==> prefix != "") && (prefix == "" || |prefix| == 2)
    requires At(s, AfterSign(s)) == if prefix == "" then t[0] else '0'
    requires var i := AfterSign(s) + |prefix|;
             && i + |t| + |rest| == |s| && s[i..i + |t|] == t && (rest != "" ==> s[i + |t|] == rest[0])
    requires Reads(s, base, r) && (Signed(s) || IsDigitChar(At(s, SpacesEnd(s, 0))))
    ensures var m, end, negative := ValueIn(ds, b), |s| - |rest|, Negative(s);
            if m <= Limit(negative) then r == Reading(WithSign(negative, m), Some(end), NoError)
            else r.number == WithSign(negative, Limit(negative)) && r.errno == OutOfRange
  {
    hide Reads, AfterSign, HexPrefix, Chooses, Writes, Stops, Magnitude, ValueIn, Signed, Negative, SpacesEnd;
    var i := AfterSign(s) + |prefix|;
    RadixIs(s, prefix, t, base, b);
    DigitsRun(s, i, t, rest, ds, b);
    SameLength(t, ds, b);
    MagnitudeOf(s, i, t, ds, b);
    ReadsParts(s, base, r, i, i + |t|, b);
  }

  lemma SameLength(t: string, ds: seq<nat>, b: nat)
    requires b <= 36 && Writes(t, ds, b)
    ensures |t| == |ds|
  {
  }

  /**
   Digits of a base, written in either case behind white space, a sign and a prefix, are read as the number
   they denote, up to what stops them; a number out of range gives the nearest one, and says so.
   */
  lemma NumberIsRead(space: string, sign: string, prefix: string, t: string, rest: string, ds: seq<nat>, base: Base,
                     b: nat, r: Reading)
    requires IsBlank(space) && (sign == "" || sign == "+" || sign == "-") && 2 <= b <= 36
    requires Chooses(base, prefix, t, b) && t != "" && Writes(t, ds, b) && Stops(rest, b)
    requires prefix == "" ==> !LooksPrefixed(base, t + rest)
    requires sign == "" && prefix == "" ==> ds[0] < 10
    requires Reads(space + sign + (prefix + t + rest), base, r)
    ensures var m, end: nat := ValueIn(ds, b), |space| + |sign| + |prefix| + |t|;
            if sign == "-" then
              if m <= 0x8000_0000_0000_0000 then r == Reading(0 - m, Some(end), NoError)
              else r.number == -0x8000_0000_0000_0000 && r.errno == OutOfRange
            else
              if m <= 0x7fff_ffff_ffff_ffff then r == Reading(m, Some(end), NoError)
              else r.number == 0x7fff_ffff_ffff_ffff && r.errno == OutOfRange
  {
    hide Reads, DigitValue, SpacesEnd, IsSpace, Magnitude, Stops, Writes, AfterSign, Signed, Negative, HexPrefix;
    hide ValueIn, LooksPrefixed;
    var body := prefix + t + rest;
    var s := space + sign + body;
    BodyStart(prefix, t, rest, ds, b);
    SameLength(t, ds, b);
    FindsParts(s, space, sign, body);
    var a := AfterSign(s);
    assert body == prefix + (t + rest);
    PrefixIff(s, prefix, t + rest, base);
    Behind(s, a, prefix, t, rest);
    assert At(s, a) == body[0] by { assert s[a] == s[a..][0]; }
    NumberAt(s, prefix, t, rest, ds, base, b, r);
  }
}
