/**
 Numbers in base ten thousand (libpqtypes, numerics.c): stripping zeros and rounding, both in place.
 */
module Numerics {
  import opened Decimals

  const HALF_NBASE: nat := 5000
  const DEC_DIGITS: nat := 4

  // ----- what a number is -----

  /** The sum of the digits, each times ten thousand to the power of its weight. */
  function Magnitude(d: Digits, weight: int): real {
    if d == [] then 0.0 else d[0] as real * Tens(4 * weight) + Magnitude(d[1..], weight - 1)
  }

  lemma MultiplyOut(a: real, p: real, n: real, t: real)
    ensures a * (p * t) + n * t == (a * p + n) * t
  {}

  lemma {:induction false} MagnitudeIsNumber(d: Digits, weight: int)
    ensures Magnitude(d, weight) == Number(d, NBASE) as real * Tens(4 * (weight + 1 - |d|))
  {
    hide Tens;
    hide Number;
    if d == [] {
      assert Number(d, NBASE) == 0 by { NumberOfZeros(0, NBASE); }
    } else {
      var rest, a := d[1..], 4 * (weight + 1 - |d|);
      MagnitudeIsNumber(rest, weight - 1);
      assert d == [d[0]] + rest;
      NumberJoined([d[0]], rest, NBASE);
      OneDigit(d[0], NBASE);
      PowersOfTenThousand(|rest|);
      TensOfNat(4 * |rest|);
      TensAdds(4 * |rest|, a);
      LeadingPart(d[0], Pow(10, 4 * |rest|), Number(rest, NBASE), Tens(a), Tens(4 * weight));
    }
  }

  lemma LeadingPart(first: nat, p: nat, rest: nat, a: real, t: real)
    requires t == p as real * a
    ensures first as real * t + rest as real * a == (first * p + rest) as real * a
  {
    RealProduct(first, p);
    MultiplyOut(first as real, p as real, rest as real, a);
  }

  lemma RealProduct(a: nat, b: nat)
    ensures (a * b) as real == a as real * b as real
  {}

  // ----- rounding -----

  /** `m` units are nearest to `x`, and the greater ones of two equally near. */
  predicate RoundsTo(x: nat, unit: nat, m: nat) {
    2 * m * unit <= 2 * x + unit && 2 * x + unit < 2 * m * unit + 2 * unit
  }

  lemma RoundUpOrDown(kept: nat, unit: nat, rest: nat)
    requires rest < unit
    ensures 2 * rest >= unit ==> RoundsTo(kept * unit + rest, unit, kept + 1)
    ensures 2 * rest < unit ==> RoundsTo(kept * unit + rest, unit, kept)
  {
    assert 2 * (kept + 1) * unit == 2 * (kept * unit) + 2 * unit;
    assert 2 * kept * unit == 2 * (kept * unit);
  }

  /** Only whole digits are cut off: the first of them decides. */
  lemma CutBetween(d: Digits, wanted: nat)
    requires Below(d, NBASE) && wanted < |d|
    ensures RoundsTo(Number(d, NBASE), Pow(NBASE, |d| - wanted),
                     Number(d[..wanted], NBASE) + if d[wanted] >= HALF_NBASE then 1 else 0)
  {
    hide Number;
    var tail, rest := d[wanted..], d[wanted + 1..];
    assert d == d[..wanted] + tail && tail == [d[wanted]] + rest;
    NumberJoined(d[..wanted], tail, NBASE);
    NumberJoined([d[wanted]], rest, NBASE);
    OneDigit(d[wanted], NBASE);
    NumberBound(rest, NBASE);
    NumberBound(tail, NBASE);
    FirstDigitDecides(d[wanted], Pow(NBASE, |rest|), Number(rest, NBASE));
    RoundUpOrDown(Number(d[..wanted], NBASE), Pow(NBASE, |tail|), Number(tail, NBASE));
  }

  lemma FirstDigitDecides(first: nat, p: nat, rest: nat)
    requires rest < p
    ensures first >= HALF_NBASE <==> 2 * (first * p + rest) >= NBASE * p
  {
    MoreIsMore(first, first, p);
    if first >= HALF_NBASE { MoreIsMore(HALF_NBASE, first, p); } else { MoreIsMore(first + 1, HALF_NBASE, p); }
  }

  lemma MoreIsMore(a: nat, b: nat, p: nat)
    requires a <= b
    ensures a * p <= b * p && (a + 1) * p == a * p + p
  {}

  /** The digit `last` rounded to a multiple of `p`. */
  function RoundedDigit(last: nat, p: nat): nat
    requires p > 0
  {
    last - last % p + if last % p >= p / 2 then p else 0
  }

  predicate IsRoundPower(p: nat) { p == 10 || p == 100 || p == 1000 }

  /** The cut goes through a digit: its own decimal digits decide. */
  lemma CutInside(d: Digits, wanted: nat, p: nat) returns (m: nat)
    requires Below(d, NBASE) && 0 < wanted <= |d| && IsRoundPower(p)
    ensures RoundsTo(Number(d, NBASE), p * Pow(NBASE, |d| - wanted), m)
    ensures m * p == Number(d[..wanted - 1], NBASE) * NBASE + RoundedDigit(d[wanted - 1], p)
  {
    var front, last, rest := d[..wanted - 1], d[wanted - 1], d[wanted..];
    DigitAtCut(d, wanted);
    NumberBound(rest, NBASE);
    hide *;
    var power := Pow(NBASE, |rest|);
    var q := DivideDigit(Number(front, NBASE), last, p);
    m := RoundDigit(q, p, last, power, Number(rest, NBASE));
  }

  lemma DigitAtCut(d: Digits, wanted: nat)
    requires Below(d, NBASE) && 0 < wanted <= |d|
    ensures Number(d, NBASE)
         == (Number(d[..wanted - 1], NBASE) * NBASE + d[wanted - 1]) * Pow(NBASE, |d| - wanted) + Number(d[wanted..], NBASE)
    ensures Below(d[wanted..], NBASE)
  {
    assert d == d[..wanted] + d[wanted..];
    NumberJoined(d[..wanted], d[wanted..], NBASE);
    assert d[..wanted][..wanted - 1] == d[..wanted - 1];
  }

  lemma RoundDigit(q: nat, p: nat, last: nat, power: nat, rest: nat) returns (m: nat)
    requires IsRoundPower(p) && rest < power
    ensures RoundsTo((q * p + last % p) * power + rest, p * power, m)
    ensures m * p == q * p + last % p - last % p + if last % p >= p / 2 then p else 0
  {
    hide RoundsTo;
    m := q + if last % p >= p / 2 then 1 else 0;
    SplitAtDigit(q, p, last % p, power, rest);
    RoundUpOrDown(q, p * power, last % p * power + rest);
    MoreIsMore(q, q, p);
  }

  lemma DivideDigit(front: nat, last: nat, p: nat) returns (q: nat)
    requires IsRoundPower(p)
    ensures q * p + last % p == front * NBASE + last
  {
    q := front * (NBASE / p) + last / p;
    assert (NBASE / p) * p == NBASE;
    assert front * (NBASE / p) * p == front * NBASE;
  }

  lemma SplitAtDigit(q: nat, p: nat, extra: nat, power: nat, rest: nat)
    requires IsRoundPower(p) && extra < p && rest < power
    ensures (q * p + extra) * power + rest == q * (p * power) + (extra * power + rest)
    ensures extra * power + rest < p * power
    ensures extra >= p / 2 <==> 2 * (extra * power + rest) >= p * power
  {
    MoreIsMore(extra, extra, power);
    MoreIsMore(extra + 1, p, power);
    if extra >= p / 2 { MoreIsMore(p / 2, extra, power); } else { MoreIsMore(extra + 1, p / 2, power); }
    HalfOf(p, power);
    SumTimes(q, p, extra, power);
  }

  lemma HalfOf(p: nat, power: nat)
    requires p % 2 == 0
    ensures 2 * ((p / 2) * power) == p * power
  {
    assert 2 * (p / 2) == p;
  }

  lemma SumTimes(q: nat, p: nat, extra: nat, power: nat)
    ensures (q * p + extra) * power == q * (p * power) + extra * power
  {}

  // ----- rounding real numbers -----

  /** `m` is the whole number nearest to `v` times ten to the power of `rscale`; halves go up. */
  ghost predicate IsNearest(v: real, rscale: int, m: nat) {
    m as real - 0.5 <= v * Tens(rscale) < m as real + 0.5
  }

  lemma NearestIsUnique(v: real, rscale: int, m: nat, n: nat)
    requires IsNearest(v, rscale, m) && IsNearest(v, rscale, n)
    ensures m == n
  {
    hide Tens;
  }

  lemma DividedByUnit(x: nat, unit: nat, m: nat, part: real)
    requires unit > 0 && RoundsTo(x, unit, m) && part == 1.0 / unit as real
    ensures m as real - 0.5 <= x as real * part < m as real + 0.5
  {
    RealProduct(2 * m, unit);
    DividedBounds(x as real, unit as real, 2.0 * m as real, part);
  }

  lemma DividedBounds(x: real, u: real, m2: real, part: real)
    requires u > 0.0 && part == 1.0 / u && m2 * u <= 2.0 * x + u && 2.0 * x + u < m2 * u + 2.0 * u
    ensures m2 / 2.0 - 0.5 <= x * part < m2 / 2.0 + 0.5
  {
    var y := x * part;
    assert y * u == x;
    SameOrder(2.0 * y + 1.0, m2, u);
    SameOrder(2.0 * y + 1.0, m2 + 2.0, u);
    assert (2.0 * y + 1.0) * u == 2.0 * x + u;
  }

  lemma SameOrder(a: real, b: real, u: real)
    requires u > 0.0
    ensures a < b <==> a * u < b * u
  {}

  lemma Rescale(v: real, x: real, a: real, t: real, q: real)
    requires v == x * a && a * t == q
    ensures v * t == x * q
  {
    assert x * a * t == x * (a * t);
  }

  lemma ScaledMagnitude(d: Digits, weight: int, rscale: int)
    ensures Magnitude(d, weight) * Tens(rscale) == Number(d, NBASE) as real * Tens(4 * (weight + 1 - |d|) + rscale)
  {
    hide *;
    MagnitudeIsNumber(d, weight);
    var a := 4 * (weight + 1 - |d|);
    TensAdds(a, rscale);
    Rescale(Magnitude(d, weight), Number(d, NBASE) as real, Tens(a), Tens(rscale), Tens(a + rscale));
  }

  /** A cut after `di` decimal digits is a rounding to `rscale` digits behind the point. */
  lemma CutIsNearest(d: Digits, weight: int, rscale: int, unit: nat, m: nat)
    requires 4 * |d| >= 4 * (weight + 1) + rscale && unit == Pow(10, 4 * |d| - 4 * (weight + 1) - rscale)
    requires RoundsTo(Number(d, NBASE), unit, m)
    ensures IsNearest(Magnitude(d, weight), rscale, m)
  {
    hide *;
    var k := 4 * |d| - 4 * (weight + 1) - rscale;
    ScaledMagnitude(d, weight, rscale);
    TensOfNegative(k);
    DividedByUnit(Number(d, NBASE), unit, m, Tens(-k));
    NearestBy(Magnitude(d, weight), rscale, m, Number(d, NBASE) as real * Tens(-k));
  }

  lemma TensOfNegative(k: int)
    requires k >= 0
    ensures Pow(10, k) > 0 && Tens(-k) == 1.0 / Pow(10, k) as real
  {
    PowPositive(10, k);
  }

  lemma NearestBy(v: real, rscale: int, m: nat, scaled: real)
    requires v * Tens(rscale) == scaled && m as real - 0.5 <= scaled < m as real + 0.5
    ensures IsNearest(v, rscale, m)
  {
    hide Tens;
  }

  /** What is left after the cut is that number of units. */
  lemma RestIsMultiple(d: Digits, weight: int, rscale: int, part: int, m: nat)
    requires 0 <= part < 4 && (4 - part) % 4 == 4 * |d| - 4 * (weight + 1) - rscale && Number(d, NBASE) == Units(m, part)
    ensures Magnitude(d, weight) == Multiple(m, rscale)
  {
    hide *;
    var spare, a := (4 - part) % 4, 4 * (weight + 1 - |d|);
    MagnitudeIsNumber(d, weight);
    UnitsScaled(m, part, rscale, a);
  }

  lemma UnitsScaled(m: nat, part: int, rscale: int, a: int)
    requires 0 <= part < 4 && (4 - part) % 4 + a == -rscale
    ensures Units(m, part) as real * Tens(a) == Multiple(m, rscale)
  {
    hide Tens;
    var spare := (4 - part) % 4;
    TensOfNat(spare);
    TensAdds(spare, a);
    RealProduct(m, Pow(10, spare));
    Rescale(Units(m, part) as real, m as real, Tens(spare), Tens(a), Tens(-rscale));
  }

  function Multiple(m: nat, rscale: int): real { m as real * Tens(-rscale) }

  lemma MultipleOfNothing(rscale: int)
    ensures Multiple(0, rscale) == 0.0
  {}

  lemma MultipleIs(m: nat, rscale: int)
    ensures Multiple(m, rscale) == m as real * Tens(-rscale)
  {}

  /** Fewer digits than asked for: the value is a multiple already. */
  lemma NothingToCut(d: Digits, weight: int, rscale: int) returns (m: nat)
    requires 4 * (weight + 1) + rscale >= 4 * |d|
    ensures IsNearest(Magnitude(d, weight), rscale, m) && Magnitude(d, weight) == Multiple(m, rscale)
  {
    hide *;
    var k, a := 4 * (weight + 1) + rscale - 4 * |d|, 4 * (weight + 1 - |d|);
    m := Number(d, NBASE) * Pow(10, k);
    MagnitudeIsNumber(d, weight);
    TensOfNat(k);
    TensAdds(k, -rscale);
    RealProduct(Number(d, NBASE), Pow(10, k));
    Rescale(m as real, Number(d, NBASE) as real, Tens(k), Tens(-rscale), Tens(a));
    MultipleIs(m, rscale);
    MultipleIsNearest(Magnitude(d, weight), rscale, m);
  }

  lemma MultipleIsNearest(v: real, rscale: int, m: nat)
    requires v == Multiple(m, rscale)
    ensures IsNearest(v, rscale, m)
  {
    hide Tens;
    TensUndone(-rscale);
    Rescale(v, m as real, Tens(-rscale), Tens(rscale), 1.0);
  }

  /** A number without any digits left of the place rounded to is rounded to nothing. */
  lemma CutAway(d: Digits, weight: int, rscale: int)
    requires Below(d, NBASE) && 4 * (weight + 1) + rscale < 0
    ensures IsNearest(Magnitude(d, weight), rscale, 0)
  {
    hide *;
    var k, x := 4 * (weight + 1 - |d|) + rscale, Number(d, NBASE) as real;
    NumberBound(d, NBASE);
    PowersOfTenThousand(|d|);
    TensOfNat(4 * |d|);
    var whole := 4 * |d|;
    TensBelowOne(whole + k);
    TensAdds(whole, k);
    ScaledMagnitude(d, weight, rscale);
    ScaledBound(x, Tens(whole), Tens(k), Tens(whole + k));
    NearestBy(Magnitude(d, weight), rscale, 0, x * Tens(k));
  }

  lemma TensBelowOne(e: int)
    requires e < 0
    ensures Tens(e) <= 0.1
  {
    PowPositive(10, -e - 1);
    assert Pow(10, -e) >= 10;
  }

  lemma ScaledBound(x: real, bound: real, scale: real, result: real)
    requires 0.0 <= x < bound && scale > 0.0 && bound * scale == result
    ensures 0.0 <= x * scale < result
  {}

  // ----- the variable -----

  datatype Sign = Pos | Neg

  /** Digits in base ten thousand, kept in part of a buffer; `first` is where the pointer to them points. */
  class NumericVar {
    var ndigits: int
    var weight: int
    var sign: Sign
    var dscale: int
    var buf: array<nat>
    var first: int

    constructor ()
      ensures Valid() && ndigits == 0 && weight == 0 && sign == Pos && dscale == 0 && fresh(buf)
    {
      ndigits, weight, sign, dscale, first := 0, 0, Pos, 0, 0;
      buf := new nat[0];
    }

    ghost predicate Valid()
      reads this, buf
    {
      0 <= first && 0 <= ndigits && first + ndigits <= buf.Length && Below(buf[..], NBASE)
    }

    ghost function Kept(): Digits
      reads this, buf
      requires Valid()
    {
      buf[first..first + ndigits]
    }

    ghost function Value(): real
      reads this, buf
      requires Valid()
    {
      if sign == Neg then -Magnitude(Kept(), weight) else Magnitude(Kept(), weight)
    }

    /** There is a cell before the first digit, and it holds zero. */
    ghost predicate HasSpare()
      reads this, buf
    {
      0 < first <= buf.Length && buf[first - 1] == 0
    }

    /** Rounding does not need one more digit in front. */
    ghost predicate HasRoom(rscale: int)
      reads this, buf
      requires Valid()
    {
      || HasSpare()
      || 4 * (weight + 1) + rscale < 0
      || Magnitude(Kept(), weight) + Tens(-rscale) / 2.0 < Tens(4 * (weight + 1))
    }

    /** The first loop of `StripVar`: leading zeros, each of which takes one off the weight. */
    method SkipLeading() returns (digits: int, n: int)
      requires Valid()
      modifies this`weight
      ensures first <= digits && 0 <= n && digits + n == first + ndigits && (n > 0 ==> buf[digits] != 0)
      ensures Magnitude(buf[digits..digits + n], weight) == old(Magnitude(Kept(), weight))
    {
      hide Magnitude;
      hide Below;
      digits, n := first, ndigits;
      while n > 0 && buf[digits] == 0
        invariant 0 <= n && first <= digits && digits + n == first + ndigits
        invariant Magnitude(buf[digits..digits + n], weight) == old(Magnitude(Kept(), weight))
      {
        LeadingZeroIsNothing(buf[digits..digits + n], weight);
        assert buf[digits..digits + n][1..] == buf[digits + 1..digits + n];
        digits := digits + 1;
        weight := weight - 1;
        n := n - 1;
      }
    }

    /** The second one: trailing zeros. */
    method DropTrailing(digits: int, n0: int) returns (n: int)
      requires 0 <= digits && 0 <= n0 && digits + n0 <= buf.Length
      ensures 0 <= n <= n0 && (n > 0 ==> buf[digits + n - 1] != 0) && (n == 0 && n0 > 0 ==> buf[digits] == 0)
      ensures Magnitude(buf[digits..digits + n], weight) == Magnitude(buf[digits..digits + n0], weight)
    {
      hide Magnitude;
      n := n0;
      while n > 0 && buf[digits + n - 1] == 0
        invariant 0 <= n <= n0 && (n == 0 && n0 > 0 ==> buf[digits] == 0)
        invariant Magnitude(buf[digits..digits + n], weight) == Magnitude(buf[digits..digits + n0], weight)
      {
        TrailingZeroIsNothing(buf[digits..digits + n], weight);
        assert buf[digits..digits + n][..n - 1] == buf[digits..digits + n - 1];
        n := n - 1;
      }
    }

    /** Takes zeros off both ends; a number of nothing but zeros becomes plain zero. */
    method StripVar()
      requires Valid()
      modifies this
      ensures Valid() && buf == old(buf) && dscale == old(dscale) && Value() == old(Value())
      ensures Kept() != [] ==> Kept()[0] != 0 && Kept()[ndigits - 1] != 0 && sign == old(sign)
      ensures Kept() == [] ==> sign == Pos && weight == 0
    {
      hide Magnitude;
      hide Below;
      var digits, n := SkipLeading();
      n := DropTrailing(digits, n);
      NoDigitsIsZero(weight);
      NoDigitsIsZero(0);
      if n == 0 {
        sign := Pos;
        weight := 0;
      }
      first := digits;
      ndigits := n;
    }

    /** Adds one to the digit in cell `p`. */
    method AddCarry(p: int, ghost end: int, ghost sum: nat) returns (carry: nat)
      requires Below(buf[..], NBASE) && 0 <= p < buf.Length && InCarry(buf[..], first, p + 1, end, 1, sum)
      requires p >= first >= 0 || (p == first - 1 && buf[p] == 0)
      modifies buf
      ensures Below(buf[..], NBASE) && buf[..] == old(buf[..])[p := buf[p]]
      ensures carry <= 1 && (carry == 0 ==> buf[p] > 0) && (p < first ==> carry == 0)
      ensures InCarry(buf[..], first, p, end, carry, sum)
    {
      hide *;
      ghost var before, x := buf[..], buf[p];
      BelowAt(before, p);
      carry := 1 + buf[p];
      if carry >= NBASE {
        buf[p] := carry - NBASE;
        carry := 1;
      } else {
        buf[p] := carry;
        carry := 0;
      }
      Carries(x, carry, buf[p]);
      Written(before, buf[..], p, buf[p]);
      CarryStep(before, buf[..], first, p, end, carry, sum);
    }

    /** Adds the carry to the digits before `from`; -1 tells that the spare cell took it. */
    method PropagateCarry(from: int, carry0: nat, ghost sum: nat) returns (at: int)
      requires Valid() && 0 <= from <= ndigits && carry0 <= 1
      requires InCarry(buf[..], first, first + from, first + ndigits, carry0, sum)
      requires HasSpare() || sum < Pow(NBASE, ndigits)
      modifies buf
      ensures Valid()
      ensures at >= 0 ==> Number(buf[first..first + ndigits], NBASE) == sum
      ensures at < 0 ==> first > 0 && Number(buf[first - 1..first + ndigits], NBASE) == sum
      ensures if at < 0 then buf[first - 1] > 0 else from > 0 && old(buf[first]) > 0 ==> buf[first] > 0
    {
      hide *;
      ghost var end := first + ndigits;
      ValidIs(this);
      SpareIs(this);
      var carry: nat := carry0;
      at := from;
      while carry != 0
        invariant ndigits >= from && first >= 0 && end == first + ndigits <= buf.Length && Below(buf[..], NBASE)
        invariant carry <= 1 && -1 <= at <= from && (at < 0 ==> carry == 0 && first > 0 && buf[first - 1] > 0)
        invariant InCarry(buf[..], first, first + at, end, carry, sum)
        invariant (0 < first && buf[first - 1] == 0) || sum < Pow(NBASE, ndigits) || carry == 0
        invariant at > 0 && (from == at || carry == 1) ==> buf[first] == old(buf[first])
        invariant at >= 0 && from > 0 && old(buf[first]) > 0 && carry == 0 ==> buf[first] > 0
        decreases carry, at + 1
      {
        if at == 0 { CarryNeedsSpare(buf[..], first, end, sum); }
        at := at - 1;
        carry := AddCarry(first + at, end, sum);
      }
      CarryEnds(buf[..], first, first + at, end, sum);
      ValidIs(this);
    }

    /** Rounds within one digit. */
    method RoundDigitAt(k: int, power: nat) returns (carry: nat)
      requires Valid() && 0 <= k < buf.Length && IsRoundPower(power)
      modifies buf
      ensures Valid() && carry <= 1 && IsCarried(RoundedDigit(old(buf[k]), power), carry, buf[k])
      ensures buf[..] == old(buf[..])[k := buf[k]]
    {
      hide *;
      ValidIs(this);
      ghost var before, x := buf[..], buf[k];
      BelowAt(before, k);
      RemainderOf(x, power);
      carry := 0;
      var extra := buf[k] % power;
      var rest := buf[k] - extra;
      buf[k] := rest;
      if extra >= power / 2 {
        var pow10 := power + rest;
        if pow10 >= NBASE {
          pow10 := pow10 - NBASE;
          carry := 1;
        }
        buf[k] := pow10;
      }
      DigitRounded(x, power, carry, buf[k]);
      Written(before, buf[..], k, buf[k]);
      ValidIs(this);
    }

    /** Rounds within the last digit kept, which keeps `part` decimal digits. */
    method RoundInside(wanted: int, part: int, ghost n: int) returns (carry: nat, ghost m: nat)
      requires Valid() && 0 < wanted == ndigits <= n && first + n <= buf.Length && 0 < part < DEC_DIGITS
      modifies buf
      ensures Valid() && carry <= 1
      ensures buf[..] == old(buf[..])[first + wanted - 1 := buf[first + wanted - 1]]
      ensures RoundsTo(Number(old(buf[..])[first..first + n], NBASE), CutUnit(n, wanted, part), m)
      ensures InCarry(buf[..], first, first + wanted - 1, first + wanted, carry, Units(m, part))
    {
      assert DEC_DIGITS == 4;
      hide *;
      ValidIs(this);
      ghost var cells := buf[..];
      var pow10 := if part == 1 then 1000 else if part == 2 then 100 else 10;
      RoundPowerIs(pow10);
      carry := RoundDigitAt(first + wanted - 1, pow10);
      m := LastRounded(cells, first, n, wanted, part, pow10, buf[first + wanted - 1], carry);
    }

    /** Rounds at the cut: how far the digits are settled, and what is to be carried on. */
    method RoundLast(wanted: int, part: int, ghost n: int) returns (at: int, carry: nat, ghost m: nat)
      requires Valid() && 0 <= wanted == ndigits <= n && first + n <= buf.Length
      requires 0 <= part < DEC_DIGITS && (part == 0 ==> wanted < n) && (part > 0 ==> wanted > 0)
      modifies buf
      ensures Valid() && carry <= 1 && 0 <= at == (if part == 0 then wanted else wanted - 1)
      ensures forall k :: 0 <= k < first + at ==> buf[k] == old(buf[k])
      ensures RoundsTo(Number(old(buf[..])[first..first + n], NBASE), CutUnit(n, wanted, part), m)
      ensures InCarry(buf[..], first, first + at, first + wanted, carry, Units(m, part))
    {
      hide *;
      ValidIs(this);
      if part == 0 {
        at, carry := wanted, if buf[first + wanted] >= HALF_NBASE then 1 else 0;
        m := CutClean(buf[..], first, n, wanted, carry);
      } else {
        at := wanted - 1;
        carry, m := RoundInside(wanted, part, n);
      }
    }

    /** Takes over what the carry has left, maybe with one more digit in front. */
    method CarryOn(from: int, carry: nat, ghost sum: nat)
      requires Valid() && 0 <= from <= ndigits && carry <= 1
      requires InCarry(buf[..], first, first + from, first + ndigits, carry, sum)
      requires HasSpare() || sum < Pow(NBASE, ndigits)
      modifies this, buf
      ensures Valid() && buf == old(buf) && dscale == old(dscale) && sign == old(sign)
      ensures Number(Kept(), NBASE) == sum && ndigits - weight == old(ndigits) - old(weight)
      ensures weight > old(weight) || (from > 0 && old(buf[first]) > 0) ==> ndigits > 0 && buf[first] > 0
      ensures weight >= old(weight)
    {
      hide *;
      ValidIs(this);
      var at := PropagateCarry(from, carry, sum);
      ValidIs(this);
      if at < 0 {
        first := first - 1;
        ndigits := ndigits + 1;
        weight := weight + 1;
      }
      ValidIs(this);
    }

    /** The cut leaves `wanted` digits, the last of them with `part` decimal digits (0: all). */
    method CutAt(wanted: int, part: int) returns (ghost m: nat)
      requires Valid() && 0 <= wanted <= ndigits && 0 <= part < DEC_DIGITS && (if part == 0 then wanted < ndigits else wanted > 0)
      requires HasSpare() || AlwaysFits(Number(Kept(), NBASE), ndigits, wanted, part)
      modifies this, buf
      ensures Valid() && buf == old(buf) && dscale == old(dscale) && sign == old(sign)
      ensures RoundsTo(old(Number(Kept(), NBASE)), CutUnit(old(ndigits), wanted, part), m)
      ensures Number(Kept(), NBASE) == Units(m, part) && ndigits - weight == wanted - old(weight)
      ensures weight > old(weight) || (wanted > 1 && old(buf[first]) > 0) ==> ndigits > 0 && buf[first] > 0
      ensures weight >= old(weight)
    {
      assert DEC_DIGITS == 4;
      hide *;
      ValidIs(this);
      SpareIs(this);
      ghost var n, x := ndigits, Number(Kept(), NBASE);
      ndigits := wanted;
      ValidIs(this);
      var at, carry;
      at, carry, m := RoundLast(wanted, part, n);
      SpareIs(this);
      FitsThen(x, n, wanted, part, m);
      CarryOn(at, carry, Units(m, part));
    }

    /** The same seen from the value. */
    method RoundAt(wanted: int, part: int, ghost rscale: int) returns (ghost m: nat)
      requires Valid() && HasRoom(rscale) && 0 <= wanted <= ndigits && 0 <= part < DEC_DIGITS
      requires 4 * wanted == 4 * (weight + 1) + rscale + (4 - part) % 4 >= (4 - part) % 4
      requires wanted < ndigits || part > 0
      modifies this, buf
      ensures Valid() && buf == old(buf) && dscale == old(dscale) && sign == old(sign)
      ensures IsNearest(old(Magnitude(Kept(), weight)), rscale, m)
      ensures Magnitude(Kept(), weight) == Multiple(m, rscale)
      ensures ndigits - weight == wanted - old(weight)
      ensures rscale >= 0 && old(IsNormal()) ==> IsNormal()
      ensures weight == old(weight) || NoZeroInFront()
    {
      assert DEC_DIGITS == 4;
      hide *;
      ValidIs(this);
      ghost var d, w := Kept(), weight;
      RoomIs(this, rscale);
      NormalIs(this);
      UnitOfCut(|d|, w, rscale, wanted, part);
      if !HasSpare() { RoomToRound(d, w, rscale, wanted, part); }
      m := CutAt(wanted, part);
      ValidIs(this);
      NormalIs(this);
      FrontIs(this);
      CutIsNearest(d, w, rscale, CutUnit(|d|, wanted, part), m);
      RestIsMultiple(Kept(), weight, rscale, part, m);
    }

    /**
     Rounds in place to `rscale` decimal digits behind the point, or to a place before it. The value
     becomes the nearest multiple; halves go away from zero.
     */
    method RoundVar(rscale: int) returns (ghost m: nat)
      requires Valid() && HasRoom(rscale)
      modifies this, buf
      ensures Valid() && buf == old(buf) && dscale == rscale
      ensures IsNearest(old(Magnitude(Kept(), weight)), rscale, m)
      ensures Magnitude(Kept(), weight) == Multiple(m, rscale)
      ensures Value() == if old(sign) == Neg then -Magnitude(Kept(), weight) else Magnitude(Kept(), weight)
      ensures sign == old(sign) || (sign == Pos && Kept() == [])
      ensures 4 * ndigits < 4 * (weight + 1) + rscale + 4 || Kept() == []
      ensures rscale >= 0 && old(IsNormal()) ==> IsNormal()
      ensures weight == old(weight) || NoZeroInFront()
    {
      hide Number;
      hide Magnitude;
      hide IsNearest;
      hide Below;
      hide Tens;
      hide Multiple;
      dscale := rscale;
      m := RoundDigits(rscale);
    }

    method RoundDigits(rscale: int) returns (ghost m: nat)
      requires Valid() && HasRoom(rscale)
      modifies this, buf
      ensures Valid() && buf == old(buf) && dscale == old(dscale)
      ensures IsNearest(old(Magnitude(Kept(), weight)), rscale, m) && Magnitude(Kept(), weight) == Multiple(m, rscale)
      ensures sign == old(sign) || (Kept() == [] && sign == Pos && Magnitude(Kept(), weight) == 0.0)
      ensures 4 * ndigits < 4 * (weight + 1) + rscale + 4 || Kept() == []
      ensures rscale >= 0 && old(IsNormal()) ==> IsNormal()
      ensures weight == old(weight) || NoZeroInFront()
    {
      hide Number;
      hide Magnitude;
      hide IsNearest;
      hide Below;
      hide Tens;
      hide Multiple;
      hide HasRoom;
      hide HasSpare;
      FrontIs(this);
      var di := (weight + 1) * DEC_DIGITS + rscale;
      if di < 0 {
        RoundAway(rscale);
        m := 0;
      } else {
        var wanted := (di + DEC_DIGITS - 1) / DEC_DIGITS;
        di := di % DEC_DIGITS;
        if wanted < ndigits || (wanted == ndigits && di > 0) {
          m := RoundAt(wanted, di, rscale);
        } else {
          m := NothingToCut(Kept(), weight, rscale);
        }
      }
    }

    /** Nothing is left of a number that lies behind the place rounded to. */
    method RoundAway(ghost rscale: int)
      requires Valid() && 4 * (weight + 1) + rscale < 0
      modifies this
      ensures Valid() && buf == old(buf) && dscale == old(dscale) && Kept() == [] && sign == Pos && weight == 0
      ensures IsNearest(old(Magnitude(Kept(), weight)), rscale, 0) && Magnitude(Kept(), weight) == 0.0 == Multiple(0, rscale)
    {
      BufferIsBelow(buf[..], first, ndigits);
      CutAway(Kept(), weight, rscale);
      hide IsNearest;
      hide Below;
      NoDigitsIsZero(0);
      MultipleOfNothing(rscale);
      ndigits, weight, sign := 0, 0, Pos;
    }

    /** The first digit kept is not a zero, and zero has no digits. */
    ghost predicate NoZeroInFront()
      reads this, buf
    {
      Valid() && if ndigits == 0 then weight == 0 else buf[first] > 0
    }

    /** Nor is the last one. */
    ghost predicate NoZeroBehind()
      reads this, buf
    {
      Valid() && (ndigits > 0 ==> buf[first + ndigits - 1] > 0)
    }

    /** No zero digit stands in front of the point but a single one. */
    ghost predicate IsNormal()
      reads this, buf
    {
      Valid() && (weight <= 0 || (ndigits > 0 && buf[first] > 0))
    }
  }

  // ----- what the predicates say -----

  lemma ValidIs(v: NumericVar)
    ensures v.Valid() <==> 0 <= v.first && 0 <= v.ndigits && v.first + v.ndigits <= v.buf.Length && Below(v.buf[..], NBASE)
    ensures v.Valid() ==> v.Kept() == v.buf[v.first..v.first + v.ndigits]
  {}

  lemma SpareIs(v: NumericVar)
    ensures v.HasSpare() <==> 0 < v.first <= v.buf.Length && v.buf[v.first - 1] == 0
  {}

  lemma RoomIs(v: NumericVar, rscale: int)
    requires v.Valid()
    ensures v.HasRoom(rscale) <==>
              || v.HasSpare()
              || 4 * (v.weight + 1) + rscale < 0
              || Magnitude(v.Kept(), v.weight) + Tens(-rscale) / 2.0 < Tens(4 * (v.weight + 1))
  {}

  lemma NormalIs(v: NumericVar)
    requires v.Valid()
    ensures v.IsNormal() <==> v.weight <= 0 || (v.ndigits > 0 && v.buf[v.first] > 0)
  {}

  lemma FrontIs(v: NumericVar)
    requires v.Valid()
    ensures v.NoZeroInFront() <==> if v.ndigits == 0 then v.weight == 0 else v.buf[v.first] > 0
    ensures v.Kept() == [] <==> v.ndigits == 0
  {}

  // ----- carrying -----

  /**
   In the cells from `first` to `end`, what stands at or behind `p` is settled and a carry is to be
   added to what stands before it: together this makes `sum`. The spare cell is the one before `first`.
   */
  predicate InCarry(cells: Digits, first: int, p: int, end: int, carry: nat, sum: nat) {
    && 0 <= p <= end <= |cells|
    && if p >= first >= 0 then
         (Number(cells[first..p], NBASE) + carry) * Pow(NBASE, end - p) + Number(cells[p..end], NBASE) == sum
       else p == first - 1 && carry == 0 && Number(cells[p..end], NBASE) == sum
  }

  predicate IsCarried(total: nat, carry: nat, digit: nat) { carry * NBASE + digit == total }

  lemma Carries(x: nat, carry: nat, digit: nat)
    requires x < NBASE
    requires if x + 1 >= NBASE then carry == 1 && digit == x + 1 - NBASE else carry == 0 && digit == x + 1
    ensures IsCarried(x + 1, carry, digit) && digit < NBASE && (x == 0 ==> carry == 0)
  {}

  lemma RemainderOf(x: nat, power: nat)
    requires IsRoundPower(power)
    ensures power > 0 && x % power <= x
  {}

  lemma DigitRounded(x: nat, power: nat, carry: nat, digit: nat)
    requires x < NBASE && IsRoundPower(power)
    requires var up := x - x % power + if x % power >= power / 2 then power else 0;
             if up >= NBASE && x % power >= power / 2 then carry == 1 && digit == up - NBASE else carry == 0 && digit == up
    ensures IsCarried(RoundedDigit(x, power), carry, digit) && digit < NBASE
  {}

  /** As many units of the last decimal digit that is kept. */
  function Units(m: nat, part: int): nat {
    if 0 <= part < 4 then m * Pow(10, (4 - part) % 4) else 0
  }

  lemma UnitsAre(m: nat, part: int)
    requires 0 <= part < 4
    ensures Units(m, part) == m * Pow(10, (4 - part) % 4)
  {}

  lemma CarryNeedsSpare(cells: Digits, first: int, end: int, sum: nat)
    requires InCarry(cells, first, first, end, 1, sum)
    ensures sum >= Pow(NBASE, end - first)
  {
    assert Number(cells[first..first], NBASE) == 0;
  }

  lemma BelowAt(cells: Digits, k: int)
    requires Below(cells, NBASE) && 0 <= k < |cells|
    ensures cells[k] < NBASE
  {}

  lemma Written(before: Digits, after: Digits, k: int, x: nat)
    requires 0 <= k < |before| && Below(before, NBASE) && after == before[k := x] && x < NBASE
    ensures Below(after, NBASE)
  {}

  lemma CarryStep(before: Digits, after: Digits, first: int, p: int, end: int, carry: nat, sum: nat)
    requires InCarry(before, first, p + 1, end, 1, sum) && 0 <= p < |before| && |after| == |before|
    requires after == before[p := after[p]] && IsCarried(before[p] + 1, carry, after[p])
    requires p >= first >= 0 || (p == first - 1 && before[p] == 0 && carry == 0)
    ensures InCarry(after, first, p, end, carry, sum)
  {
    var tail, x, y := before[p + 1..end], before[p], after[p];
    assert after[p..end] == [y] + tail;
    NumberJoined([y], tail, NBASE);
    OneDigit(y, NBASE);
    if p >= first {
      assert before[first..p + 1] == before[first..p] + [x] && after[first..p] == before[first..p];
      NumberJoined(before[first..p], [x], NBASE);
      OneDigit(x, NBASE);
      assert Pow(NBASE, 1) == NBASE * Pow(NBASE, 0) == NBASE;
      hide Number;
      CarriedOn(Number(before[first..p], NBASE), carry, x, y, Pow(NBASE, |tail|));
    } else {
      assert Number(before[first..first], NBASE) == 0;
    }
  }

  lemma CarriedOn(head: nat, carry: nat, x: nat, y: nat, p: nat)
    requires carry * NBASE + y == x + 1
    ensures (head + carry) * (NBASE * p) + y * p == (head * NBASE + x + 1) * p
  {
    assert (head + carry) * (NBASE * p) == ((head + carry) * NBASE) * p;
  }

  lemma CarryEnds(cells: Digits, first: int, p: int, end: int, sum: nat)
    requires InCarry(cells, first, p, end, 0, sum)
    ensures p >= first ==> first >= 0 && Number(cells[first..end], NBASE) == sum
    ensures p < first ==> p == first - 1 && Number(cells[p..end], NBASE) == sum
  {
    if p >= first {
      assert cells[first..end] == cells[first..p] + cells[p..end];
      NumberJoined(cells[first..p], cells[p..end], NBASE);
    }
  }

  // ----- where the cut is -----

  lemma CutClean(cells: Digits, first: int, n: int, wanted: int, carry: nat) returns (m: nat)
    requires Below(cells, NBASE) && 0 <= first && 0 <= wanted < n && first + n <= |cells|
    requires carry == if cells[first + wanted] >= HALF_NBASE then 1 else 0
    ensures RoundsTo(Number(cells[first..first + n], NBASE), CutUnit(n, wanted, 0), m)
    ensures InCarry(cells, first, first + wanted, first + wanted, carry, Units(m, 0))
  {
    var d := cells[first..first + n];
    RoundPowers(0);
    CutBetween(d, wanted);
    assert d[..wanted] == cells[first..first + wanted];
    m := Number(d[..wanted], NBASE) + carry;
    assert cells[first + wanted..first + wanted] == [];
    assert Number([], NBASE) == 0 && Pow(NBASE, 0) == 1;
  }

  lemma LastRounded(cells: Digits, first: int, n: int, wanted: int, part: nat, p: nat, y: nat, carry: nat) returns (m: nat)
    requires Below(cells, NBASE) && 0 <= first && 0 < wanted <= n && first + n <= |cells|
    requires 0 < part < 4 && p == (if part == 1 then 1000 else if part == 2 then 100 else 10)
    requires IsRoundPower(p) && IsCarried(RoundedDigit(cells[first + wanted - 1], p), carry, y)
    ensures RoundsTo(Number(cells[first..first + n], NBASE), CutUnit(n, wanted, part), m)
    ensures InCarry(cells[first + wanted - 1 := y], first, first + wanted - 1, first + wanted, carry, Units(m, part))
  {
    hide RoundsTo;
    RoundPowers(part);
    var d, after := cells[first..first + n], cells[first + wanted - 1 := y];
    m := CutInside(d, wanted, p);
    assert after[first..first + wanted - 1] == d[..wanted - 1];
    assert after[first + wanted - 1..first + wanted] == [y];
    OneDigit(y, NBASE);
    assert Pow(NBASE, 1) == NBASE * Pow(NBASE, 0) == NBASE;
  }

  /** What is cut off: `n - wanted` whole digits and part of another. */
  function CutUnit(n: int, wanted: int, part: int): nat {
    if 0 <= wanted <= n && 0 <= part < 4 then Pow(10, (4 - part) % 4) * Pow(NBASE, n - wanted) else 0
  }

  /** However the cut rounds, the result needs no further digit. */
  ghost predicate AlwaysFits(x: nat, n: int, wanted: int, part: int) {
    forall k: nat :: RoundsTo(x, CutUnit(n, wanted, part), k) ==> wanted >= 0 && Units(k, part) < Pow(NBASE, wanted)
  }

  lemma FitsThen(x: nat, n: int, wanted: int, part: int, m: nat)
    requires RoundsTo(x, CutUnit(n, wanted, part), m) && wanted >= 0
    ensures AlwaysFits(x, n, wanted, part) ==> Units(m, part) < Pow(NBASE, wanted)
  {
    hide RoundsTo;
    hide CutUnit;
    hide Units;
  }

  lemma RoomToRound(d: Digits, weight: int, rscale: int, wanted: nat, part: nat)
    requires Magnitude(d, weight) + Tens(-rscale) / 2.0 < Tens(4 * (weight + 1))
    requires wanted <= |d| && part < 4 && 4 * wanted == 4 * (weight + 1) + rscale + (4 - part) % 4 >= (4 - part) % 4
    ensures AlwaysFits(Number(d, NBASE), |d|, wanted, part)
  {
    hide RoundsTo;
    hide CutUnit;
    hide Units;
    hide Magnitude;
    hide Tens;
    hide Pow;
    UnitOfCut(|d|, weight, rscale, wanted, part);
    forall k: nat | RoundsTo(Number(d, NBASE), CutUnit(|d|, wanted, part), k) ensures Units(k, part) < Pow(NBASE, wanted) {
      CutIsNearest(d, weight, rscale, CutUnit(|d|, wanted, part), k);
      RoomToCarry(d, weight, rscale, wanted, part, k);
    }
  }

  lemma UnitOfCut(n: nat, weight: int, rscale: int, wanted: nat, part: nat)
    requires wanted <= n && part < 4 && 4 * wanted == 4 * (weight + 1) + rscale + (4 - part) % 4
    ensures 4 * n >= 4 * (weight + 1) + rscale
    ensures CutUnit(n, wanted, part) == Pow(10, 4 * n - 4 * (weight + 1) - rscale)
  {
    PowAdds(10, (4 - part) % 4, 4 * (n - wanted));
    PowersOfTenThousand(n - wanted);
  }

  lemma BufferIsBelow(cells: Digits, first: int, n: int)
    requires Below(cells, NBASE) && 0 <= first && 0 <= n && first + n <= |cells|
    ensures Below(cells[first..first + n], NBASE)
  {}

  lemma RoundPowers(part: nat)
    requires part < 4
    ensures Pow(10, (4 - part) % 4) == if part == 0 then 1 else if part == 1 then 1000 else if part == 2 then 100 else 10
  {
    assert Pow(10, 0) == 1 && Pow(10, 1) == 10 && Pow(10, 2) == 100 && Pow(10, 3) == 1000;
  }

  lemma RoundPowerIs(p: nat)
    ensures IsRoundPower(p) <==> p == 10 || p == 100 || p == 1000
  {}

  /** With room in front the rounded number has no more digits than before. */
  lemma RoomToCarry(d: Digits, weight: int, rscale: int, wanted: nat, part: nat, m: nat)
    requires Magnitude(d, weight) + Tens(-rscale) / 2.0 < Tens(4 * (weight + 1))
    requires IsNearest(Magnitude(d, weight), rscale, m) && part < 4
    requires 4 * wanted == 4 * (weight + 1) + rscale + (4 - part) % 4 && 4 * (weight + 1) + rscale >= 0
    ensures Units(m, part) < Pow(NBASE, wanted)
  {
    hide *;
    var di, spare := 4 * (weight + 1) + rscale, (4 - part) % 4;
    MultipleFits(Magnitude(d, weight), weight, rscale, m);
    UnitsAre(m, part);
    PowAdds(10, di, spare);
    PowersOfTenThousand(wanted);
    PowPositive(10, spare);
    MoreIsMore(m + 1, Pow(10, di), Pow(10, spare));
    MoreIsMore(m, m, Pow(10, spare));
  }

  lemma MultipleFits(v: real, weight: int, rscale: int, m: nat)
    requires v + Tens(-rscale) / 2.0 < Tens(4 * (weight + 1))
    requires IsNearest(v, rscale, m) && 4 * (weight + 1) + rscale >= 0
    ensures m < Pow(10, 4 * (weight + 1) + rscale)
  {
    hide *;
    var di := 4 * (weight + 1) + rscale;
    TensAdds(4 * (weight + 1), rscale);
    TensOfNat(di);
    TensUndone(rscale);
    HalfScaled(v, Tens(-rscale), Tens(4 * (weight + 1)), Tens(rscale), Tens(di));
    NearestBounds(v, rscale, m, v * Tens(rscale));
  }

  lemma NearestBounds(v: real, rscale: int, m: nat, scaled: real)
    requires IsNearest(v, rscale, m) && scaled == v * Tens(rscale)
    ensures m as real - 0.5 <= scaled < m as real + 0.5
  {
    hide Tens;
  }

  lemma HalfScaled(v: real, unit: real, bound: real, scale: real, result: real)
    requires v + unit / 2.0 < bound && scale * unit == 1.0 && result == bound * scale && scale > 0.0
    ensures v * scale + 0.5 < result
  {
    SameOrder(v + unit / 2.0, bound, scale);
    assert (v + unit / 2.0) * scale == v * scale + (scale * unit) / 2.0;
  }

  // ----- zeros -----

  lemma NoDigitsIsZero(weight: int)
    ensures Magnitude([], weight) == 0.0
  {}

  lemma LeadingZeroIsNothing(d: Digits, weight: int)
    requires d != [] && d[0] == 0
    ensures Magnitude(d, weight) == Magnitude(d[1..], weight - 1)
  {}

  lemma {:induction false} TrailingZeroIsNothing(d: Digits, weight: int)
    requires d != [] && d[|d| - 1] == 0
    ensures Magnitude(d, weight) == Magnitude(d[..|d| - 1], weight)
  {
    if |d| > 1 {
      TrailingZeroIsNothing(d[1..], weight - 1);
      assert d[..|d| - 1][1..] == d[1..][..|d| - 2];
    }
  }
}
