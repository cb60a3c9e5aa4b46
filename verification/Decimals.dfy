/** Positional numbers: lists of digits in some base, and powers of ten as real numbers. */
module Decimals {

  type Digits = seq<nat>

  const NBASE: nat := 10000

  function Pow(base: nat, n: nat): nat { if n == 0 then 1 else base * Pow(base, n - 1) }

  /** The number a list of digits stands for, most significant digit first. */
  function Number(d: Digits, base: nat): nat {
    if d == [] then 0 else Number(d[..|d| - 1], base) * base + d[|d| - 1]
  }

  ghost predicate Below(d: Digits, base: nat) { forall k :: 0 <= k < |d| ==> d[k] < base }

  function Zeros(n: nat): (z: Digits)
    ensures |z| == n && forall k :: 0 <= k < n ==> z[k] == 0
  {
    if n == 0 then [] else Zeros(n - 1) + [0]
  }

  // ----- powers -----

  lemma {:induction false} PowPositive(base: nat, n: nat)
    requires base > 0
    ensures Pow(base, n) > 0
  {
    if n > 0 { PowPositive(base, n - 1); }
  }

  lemma {:induction false} PowAdds(base: nat, a: nat, b: nat)
    ensures Pow(base, a + b) == Pow(base, a) * Pow(base, b)
    decreases a
  {
    if a > 0 {
      PowAdds(base, a - 1, b);
      var p, q := Pow(base, a - 1), Pow(base, b);
      assert base * (p * q) == base * p * q;
    }
  }

  lemma {:induction false} PowGrows(base: nat, a: nat, b: nat)
    requires base > 0 && a <= b
    ensures Pow(base, a) <= Pow(base, b)
    decreases b
  {
    if a < b {
      PowGrows(base, a, b - 1);
      AtLeastOne(base, Pow(base, b - 1));
    }
  }

  /** Four decimal digits make one digit of the base ten thousand. */
  lemma {:induction false} PowersOfTenThousand(n: nat)
    ensures Pow(NBASE, n) == Pow(10, 4 * n)
  {
    if n > 0 {
      PowersOfTenThousand(n - 1);
      FourTens(4 * (n - 1));
    }
  }

  lemma FourTens(n: nat)
    ensures Pow(10, n + 4) == 10000 * Pow(10, n)
  {
    assert Pow(10, n + 4) == 10 * Pow(10, n + 3);
    assert Pow(10, n + 3) == 10 * Pow(10, n + 2);
    assert Pow(10, n + 2) == 10 * Pow(10, n + 1);
  }

  // ----- numbers -----

  lemma OneMoreDigit(x: nat, p: nat, y: nat, base: nat)
    ensures (x * p + y) * base == x * (base * p) + y * base
  {}

  lemma {:induction false} NumberJoined(a: Digits, b: Digits, base: nat)
    ensures Number(a + b, base) == Number(a, base) * Pow(base, |b|) + Number(b, base)
    decreases |b|
  {
    if b == [] {
      assert a + b == a;
    } else {
      var front := b[..|b| - 1];
      NumberJoined(a, front, base);
      assert (a + b)[..|a + b| - 1] == a + front && (a + b)[|a + b| - 1] == b[|b| - 1];
      OneMoreDigit(Number(a, base), Pow(base, |b| - 1), Number(front, base), base);
    }
  }

  lemma DigitFits(x: nat, p: nat, last: nat, base: nat)
    requires x < p && last < base
    ensures x * base + last < base * p
  {
    assert (x + 1) * base <= p * base;
  }

  lemma {:induction false} NumberBound(d: Digits, base: nat)
    requires Below(d, base)
    ensures Number(d, base) < Pow(base, |d|)
  {
    if d != [] {
      NumberBound(d[..|d| - 1], base);
      DigitFits(Number(d[..|d| - 1], base), Pow(base, |d| - 1), d[|d| - 1], base);
    }
  }

  lemma {:induction false} NumberOfZeros(n: nat, base: nat)
    ensures Number(Zeros(n), base) == 0
  {
    if n > 0 {
      NumberOfZeros(n - 1, base);
      assert Zeros(n)[..n - 1] == Zeros(n - 1);
      assert 0 * base == 0;
    }
  }

  lemma LeadingZeros(d: Digits, before: nat, base: nat)
    ensures Number(Zeros(before) + d, base) == Number(d, base)
  {
    hide Number;
    NumberJoined(Zeros(before), d, base);
    NumberOfZeros(before, base);
    assert 0 * Pow(base, |d|) == 0;
  }

  lemma NumberPadded(d: Digits, before: nat, behind: nat, base: nat)
    ensures Number(Zeros(before) + d + Zeros(behind), base) == Number(d, base) * Pow(base, behind)
  {
    hide Number;
    NumberJoined(Zeros(before) + d, Zeros(behind), base);
    NumberOfZeros(behind, base);
    LeadingZeros(d, before, base);
  }

  /** Digits of the same number, as many of them, are the same. */
  lemma {:induction false} NumberIsUnique(a: Digits, b: Digits, base: nat)
    requires |a| == |b| && Below(a, base) && Below(b, base) && Number(a, base) == Number(b, base)
    ensures a == b
  {
    if a != [] {
      var n := |a| - 1;
      var x, y := Number(a[..n], base), Number(b[..n], base);
      LastDigit(x, y, a[n], b[n], base);
      NumberIsUnique(a[..n], b[..n], base);
      assert a == a[..n] + [a[n]] && b == b[..n] + [b[n]];
    }
  }

  lemma LastDigit(x: nat, y: nat, u: nat, v: nat, base: nat)
    requires u < base && v < base && x * base + u == y * base + v
    ensures x == y && u == v
  {
    if x < y { DigitFits(x, y, u, base); }
    if y < x { DigitFits(y, x, v, base); }
  }

  /** A number that starts with a digit other than zero has that many digits. */
  lemma LeadingDigit(d: Digits, base: nat)
    requires d != [] && d[0] > 0
    ensures Number(d, base) >= Pow(base, |d| - 1)
  {
    assert d == [d[0]] + d[1..];
    NumberJoined([d[0]], d[1..], base);
    OneDigit(d[0], base);
    hide Number;
    AtLeastOne(d[0], Pow(base, |d| - 1));
  }

  lemma OneDigit(d: nat, base: nat)
    ensures Number([d], base) == d
  {
    assert [d][..0] == [];
  }

  lemma AtLeastOne(x: nat, p: nat)
    requires x > 0
    ensures x * p >= p
  {
  }

  /** Without leading zeros there is one way to write a number. */
  lemma LeadingDigitIsUnique(a: Digits, b: Digits, base: nat)
    requires base > 1 && Below(a, base) && Below(b, base) && Number(a, base) == Number(b, base)
    requires a != [] && b != [] && (|a| == 1 || a[0] > 0) && (|b| == 1 || b[0] > 0)
    ensures a == b
  {
    SameLength(a, b, base);
    SameLength(b, a, base);
    NumberIsUnique(a, b, base);
  }

  lemma SameLength(a: Digits, b: Digits, base: nat)
    requires base > 1 && Below(a, base) && Number(a, base) == Number(b, base)
    requires a != [] && b != [] && (|b| == 1 || b[0] > 0)
    ensures |b| <= |a|
  {
    NumberBound(a, base);
    if |b| > |a| {
      LeadingDigit(b, base);
      PowGrows(base, |a|, |b| - 1);
    }
  }

  // ----- powers of ten, also below one -----

  function Tens(e: int): (r: real)
    ensures r > 0.0
  {
    if e >= 0 then (PowPositive(10, e); Pow(10, e) as real)
    else (PowPositive(10, -e); 1.0 / (Pow(10, -e) as real))
  }

  lemma TensStep(e: int)
    ensures Tens(e + 1) == 10.0 * Tens(e)
  {
    if e < 0 {
      PowPositive(10, -e - 1);
      var p := Pow(10, -e - 1);
      assert Pow(10, -e) == 10 * p;
      assert 1.0 / (p as real) == 10.0 * (1.0 / (10.0 * (p as real)));
    }
  }

  lemma {:induction false} TensAdds(a: int, b: int)
    ensures Tens(a + b) == Tens(a) * Tens(b)
    decreases if a < 0 then -a else a
  {
    hide Tens;
    if a > 0 {
      TensAdds(a - 1, b);
      TensStep(a - 1);
      TensStep(a - 1 + b);
    } else if a < 0 {
      TensAdds(a + 1, b);
      TensStep(a);
      TensStep(a + b);
    } else {
      TensOfZero();
    }
  }

  lemma TensOfZero()
    ensures Tens(0) == 1.0
  {}

  lemma TensOfNat(n: nat)
    ensures Tens(n) == Pow(10, n) as real
  {}

  /** Scaling up and down again. */
  lemma TensUndone(e: int)
    ensures Tens(e) * Tens(-e) == 1.0
  {
    TensAdds(e, -e);
    TensOfZero();
  }
}
