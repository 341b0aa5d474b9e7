/** Base-10 digit strings, the number they denote, and the powers of ten that relate them. */
module Digits {

  type Digit = d: int | 0 <= d < 10

  // Multiplication facts that the solver does not find by itself.

  lemma AtLeastOnce(q: nat, p: nat)
    requires 1 <= q
    ensures p <= q * p
  {
  }

  lemma MulMonotone(a: nat, b: nat, q: nat)
    requires a <= b
    ensures a * q <= b * q
  {
    assert b * q == a * q + (b - a) * q;
  }

  lemma MulStrict(a: nat, b: nat, q: nat)
    requires 1 <= q && a < b
    ensures a * q < b * q
  {
    AtLeastOnce(b - a, q);
    assert b * q == a * q + (b - a) * q;
  }

  // Division.

  lemma DivUnique(x: nat, d: nat, q: nat, r: nat)
    requires x == q * d + r && r < d
    ensures x / d == q && x % d == r
  {
    var q', r' := x / d, x % d;
    assert x == q' * d + r' && (q - q') * d == r' - r;
    if q < q' {
      AtLeastOnce(q' - q, d);
    } else if q' < q {
      AtLeastOnce(q - q', d);
    }
  }

  /** Two shifts or masks in a row are one. */
  lemma DivTwice(x: nat, a: nat, b: nat)
    requires 0 < a && 0 < b
    ensures 0 < a * b
    ensures x / a / b == x / (a * b)
    ensures x % (a * b) == x / a % b * a + x % a
  {
    AtLeastOnce(a, b);
    Regroup(x / a, x / a / b, x / a % b, x % a, a, b);
    DivUnique(x, a * b, x / a / b, x / a % b * a + x % a);
  }

  lemma Regroup(y: nat, q: nat, m: nat, r: nat, a: nat, b: nat)
    requires y == q * b + m && m < b && r < a
    ensures y * a + r == q * (a * b) + (m * a + r)
    ensures m * a + r < a * b
  {
    MulMonotone(m + 1, b, a);
    assert y * a == (q * b + m) * a == q * (a * b) + m * a;
  }

  // Powers of ten.

  function Pow10(n: nat): (p: nat)
    ensures 1 <= p
  {
    if n == 0 then 1 else 10 * Pow10(n - 1)
  }

  lemma {:induction false} Pow10Add(a: nat, b: nat)
    ensures Pow10(a + b) == Pow10(a) * Pow10(b)
  {
    if a == 0 {
    } else {
      Pow10Add(a - 1, b);
      calc {
        Pow10(a + b);
        10 * Pow10(a - 1 + b);
        10 * (Pow10(a - 1) * Pow10(b));
        Pow10(a) * Pow10(b);
      }
    }
  }

  lemma {:induction false} Pow10Monotone(a: nat, b: nat)
    requires a <= b
    ensures Pow10(a) <= Pow10(b)
    decreases b
  {
    if a < b {
      Pow10Monotone(a, b - 1);
    }
  }

  lemma Pow10Reflects(a: nat, b: nat)
    requires Pow10(a) < Pow10(b)
    ensures a < b
  {
    if b <= a {
      Pow10Monotone(b, a);
    }
  }

  /** Horner's rule, most significant cell first. The cells need not be digits. */
  function Nat(ds: seq<nat>): nat
  {
    if ds == [] then 0 else 10 * Nat(ds[..|ds| - 1]) + ds[|ds| - 1]
  }

  lemma NatOne(d: nat)
    ensures Nat([]) == 0 && Nat([d]) == d
  {
    assert [d][..0] == [];
  }

  lemma NatSnoc(ds: seq<nat>, d: nat)
    ensures Nat(ds + [d]) == 10 * Nat(ds) + d
  {
    assert (ds + [d])[..|ds|] == ds;
  }

  lemma HornerStep(x: nat, p: nat, y: nat, d: nat)
    ensures 10 * (x * p + y) + d == x * (10 * p) + (10 * y + d)
  {
  }

  lemma {:induction false} NatConcat(a: seq<nat>, b: seq<nat>)
    ensures Nat(a + b) == Nat(a) * Pow10(|b|) + Nat(b)
  {
    hide Nat;
    if b == [] {
      NatOne(0);
      assert a + b == a;
    } else {
      var b', d := b[..|b| - 1], b[|b| - 1];
      NatConcat(a, b');
      NatSnoc(b', d);
      NatSnoc(a + b', d);
      assert b == b' + [d] && a + b == (a + b') + [d];
      HornerStep(Nat(a), Pow10(|b'|), Nat(b'), d);
    }
  }

  lemma {:induction false} NatBound(ds: seq<Digit>)
    ensures Nat(ds) < Pow10(|ds|)
  {
    if ds != [] {
      NatBound(ds[..|ds| - 1]);
    }
  }

  /** A digit string is worth nothing exactly when all its digits are zero. */
  lemma {:induction false} NatZero(ds: seq<nat>)
    ensures Nat(ds) == 0 <==> forall k :: 0 <= k < |ds| ==> ds[k] == 0
  {
    if ds != [] {
      NatZero(ds[..|ds| - 1]);
    }
  }

  function Zeros(n: nat): (z: seq<Digit>)
    ensures |z| == n
    ensures forall k :: 0 <= k < n ==> z[k] == 0
  {
    seq(n, _ => 0)
  }

  /** Leading zeros do not count. */
  lemma NatLeadingZeros(n: nat, ds: seq<nat>)
    ensures Nat(Zeros(n) + ds) == Nat(ds)
  {
    NatConcat(Zeros(n), ds);
    NatZero(Zeros(n));
  }

  lemma NatTrailingZeros(ds: seq<nat>, n: nat)
    ensures Nat(ds + Zeros(n)) == Nat(ds) * Pow10(n)
  {
    NatConcat(ds, Zeros(n));
    NatZero(Zeros(n));
  }

  lemma NatTrimmed(ds: seq<nat>, k: nat)
    requires k <= |ds| && forall i :: k <= i < |ds| ==> ds[i] == 0
    ensures Nat(ds) == Nat(ds[..k]) * Pow10(|ds| - k)
  {
    assert ds == ds[..k] + Zeros(|ds| - k);
    NatTrailingZeros(ds[..k], |ds| - k);
  }

  /** A digit string that starts with a nonzero digit is worth at least its leading place. */
  lemma {:induction false} NatLeading(ds: seq<Digit>)
    requires ds != [] && ds[0] != 0
    ensures Pow10(|ds| - 1) <= Nat(ds)
  {
    if |ds| == 1 {
      assert ds[..0] == [];
    } else {
      NatLeading(ds[..|ds| - 1]);
    }
  }

  /** The decimal rendering of a number: no leading zero unless the number is 0. */
  function OfNat(n: nat): (ds: seq<Digit>)
    ensures ds != []
  {
    if n < 10 then [n] else OfNat(n / 10) + [n % 10]
  }

  lemma {:induction false} OfNatDenotes(n: nat)
    ensures Nat(OfNat(n)) == n
    ensures n == 0 ==> OfNat(n) == [0]
    ensures n > 0 ==> OfNat(n)[0] != 0
  {
    if n < 10 {
      assert OfNat(n)[..0] == [];
    } else {
      OfNatDenotes(n / 10);
      NatSnoc(OfNat(n / 10), n % 10);
    }
  }

  lemma OfNatLength(n: nat, k: nat)
    requires 1 <= k
    ensures n < Pow10(k) ==> |OfNat(n)| <= k
    ensures Pow10(k - 1) <= n ==> k <= |OfNat(n)|
  {
    OfNatDenotes(n);
    var len := |OfNat(n)|;
    NatBound(OfNat(n));
    if n > 0 {
      NatLeading(OfNat(n));
    }
    if 0 < n < Pow10(k) {
      Pow10Reflects(len - 1, k);
    }
    if Pow10(k - 1) <= n {
      Pow10Reflects(k - 1, len);
    }
  }

  /** Only one digit string without leading zeros denotes a given positive number. */
  lemma {:induction false} OfNatUnique(ds: seq<Digit>)
    requires ds != [] && ds[0] != 0
    ensures OfNat(Nat(ds)) == ds
  {
    NatLeading(ds);
    if |ds| == 1 {
      assert ds[..0] == [];
    } else {
      var ds' := ds[..|ds| - 1];
      NatLeading(ds');
      assert 1 <= Nat(ds');
      OfNatUnique(ds');
      assert ds == ds' + [ds[|ds| - 1]];
    }
  }

  /** Splits off the leading zeros. */
  function LeadingZeros(ds: seq<nat>): (n: nat)
    ensures n <= |ds|
    ensures forall k :: 0 <= k < n ==> ds[k] == 0
    ensures n < |ds| ==> ds[n] != 0
  {
    if ds == [] || ds[0] != 0 then 0 else 1 + LeadingZeros(ds[1..])
  }

  lemma NatWithoutLeadingZeros(ds: seq<nat>)
    ensures Nat(ds[LeadingZeros(ds)..]) == Nat(ds)
  {
    var n := LeadingZeros(ds);
    assert ds == Zeros(n) + ds[n..];
    NatLeadingZeros(n, ds[n..]);
  }

  // The characters of digits.

  predicate IsDigitChar(c: char) { '0' <= c <= '9' }

  function DigitOf(c: char): Digit
    requires IsDigitChar(c)
  {
    c as int - '0' as int
  }

  function CharOf(d: Digit): (c: char)
    ensures IsDigitChar(c) && DigitOf(c) == d
  {
    (d + '0' as int) as char
  }

  function Chars(ds: seq<Digit>): (s: string)
    ensures |s| == |ds|
    ensures forall k :: 0 <= k < |ds| ==> s[k] == CharOf(ds[k])
  {
    seq(|ds|, k requires 0 <= k < |ds| => CharOf(ds[k]))
  }
}
