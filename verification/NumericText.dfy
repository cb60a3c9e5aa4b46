/**
 Decimal texts and numeric variables (libpqtypes, numerics.c): reading a text, printing a variable,
 and what one makes of the other.
 */
module NumericText {
  import opened Basics
  import opened Decimals
  import opened Numerics

  // ----- what a text says -----

  predicate IsDigit(c: char) { '0' <= c <= '9' }

  predicate IsSpace(c: char) { c == ' ' || c == '\t' || c == '\n' || c == 11 as char || c == 12 as char || c == '\r' }

  predicate AllDigits(text: string) { forall k :: 0 <= k < |text| ==> IsDigit(text[k]) }

  function DigitOf(c: char): nat { if IsDigit(c) then c as int - '0' as int else 0 }

  function DigitsOf(text: string): (d: Digits)
    ensures |d| == |text| && forall k :: 0 <= k < |text| ==> d[k] == DigitOf(text[k])
  {
    if text == "" then [] else [DigitOf(text[0])] + DigitsOf(text[1..])
  }

  /** Number of digits a text starts with. */
  function Run(text: string): (n: nat)
    ensures n <= |text| && AllDigits(text[..n]) && (n < |text| ==> !IsDigit(text[n]))
  {
    if text == "" || !IsDigit(text[0]) then 0 else 1 + Run(text[1..])
  }

  /** Number of spaces a text starts with. */
  function Spaces(text: string): (n: nat)
    ensures n <= |text|
    ensures forall k :: 0 <= k < n ==> IsSpace(text[k])
    ensures n < |text| ==> !IsSpace(text[n])
  {
    if text == "" || !IsSpace(text[0]) then 0 else 1 + Spaces(text[1..])
  }

  /** Digits read as one number, with the point moved. */
  function Scaled(text: string, e: int): real { Number(DigitsOf(text), 10) as real * Tens(e) }

  /** A number as it is written: digits before and behind the point, and an exponent. */
  datatype Decimal = Decimal(negative: bool, ip: string, fp: string, exponent: int) {
    /** The digits, moved by the exponent and the point. */
    function Size(): real { Scaled(ip + fp, exponent - |fp|) }

    function Value(): real { if negative then -Size() else Size() }

    /** Digits behind the point once the exponent is taken in. */
    function Scale(): nat { if |fp| > exponent then |fp| - exponent else 0 }
  }

  const NUMERIC_MAX_PRECISION: int := 1000

  /** What `strtol` reads in base ten: the number and how much text it takes. */
  function Strtol(text: string): (r: Option<(int, nat)>)
    ensures r.Some? ==> r.value.1 <= |text|
  {
    var s := Spaces(text);
    var signed := s < |text| && (text[s] == '-' || text[s] == '+');
    var from := if signed then s + 1 else s;
    var n := Run(text[from..]);
    if n == 0 then None
    else
      var v: int := Number(DigitsOf(text[from..from + n]), 10);
      Some((if signed && text[s] == '-' then -v else v, from + n))
  }

  function ReadNumeric(text: string): Option<Decimal> {
    var t := text[Spaces(text)..];
    if t != "" && t[0] == '-' then ReadMantissa(true, t[1..])
    else if t != "" && t[0] == '+' then ReadMantissa(false, t[1..])
    else ReadMantissa(false, t)
  }

  /** Digits, then maybe a point and more digits; one digit there must be. */
  function ReadMantissa(negative: bool, t: string): Option<Decimal> {
    var n := Run(t);
    if n < |t| && t[n] == '.' then
      var behind := t[n + 1..];
      var f := Run(behind);
      if n == 0 && f == 0 then None else ReadExponent(negative, t[..n], behind[..f], behind[f..])
    else if n == 0 then None
    else ReadExponent(negative, t[..n], "", t[n..])
  }

  function ReadExponent(negative: bool, ip: string, fp: string, rest: string): Option<Decimal> {
    if rest != "" && (rest[0] == 'e' || rest[0] == 'E') then
      var e := Strtol(rest[1..]);
      if e.None? || e.value.0 > NUMERIC_MAX_PRECISION || e.value.0 < -NUMERIC_MAX_PRECISION then None
      else ReadEnd(Decimal(negative, ip, fp, e.value.0), rest[1..][e.value.1..])
    else ReadEnd(Decimal(negative, ip, fp, 0), rest)
  }

  /** Nothing but spaces may follow. */
  function ReadEnd(d: Decimal, rest: string): Option<Decimal> {
    if Spaces(rest) == |rest| then Some(d) else None
  }

  // ----- reading: the parts of the text -----

  lemma {:induction false} RunIs(text: string, n: nat)
    requires n <= |text| && AllDigits(text[..n]) && (n < |text| ==> !IsDigit(text[n]))
    ensures Run(text) == n
  {
    var r := Run(text);
    forall k | 0 <= k < n ensures IsDigit(text[k]) { assert text[..n][k] == text[k]; }
    forall k | 0 <= k < r ensures IsDigit(text[k]) { assert text[..r][k] == text[k]; }
  }

  method SkipSpaces(str: string, from: nat) returns (cp: nat)
    requires from <= |str|
    ensures from <= cp <= |str| && cp == from + Spaces(str[from..])
  {
    cp := from;
    while cp < |str| && IsSpace(str[cp])
      invariant from <= cp <= |str| && Spaces(str[from..]) == cp - from + Spaces(str[cp..])
    {
      assert str[cp..][1..] == str[cp + 1..];
      cp := cp + 1;
    }
  }

  /** The digits found and the point between them. */
  predicate IsMantissa(text: string, pointFirst: bool, haveDp: bool, ip: string, fp: string) {
    && AllDigits(ip) && AllDigits(fp)
    && (if pointFirst then haveDp && ip == "" && text == fp
        else if haveDp then text == ip + "." + fp
        else fp == "" && text == ip)
  }

  method PutDigits(buffer: array<nat>, i: nat, digits: Digits)
    requires i + |digits| <= buffer.Length
    modifies buffer
    ensures buffer[..i + |digits|] == old(buffer[..i]) + digits
  {
    for k := 0 to |digits|
      invariant buffer[..i + k] == old(buffer[..i]) + digits[..k]
    {
      buffer[i + k] := digits[k];
      assert buffer[..i + k + 1] == buffer[..i + k] + [digits[k]];
      assert digits[..k + 1] == digits[..k] + [digits[k]];
    }
  }

  /** How far the mantissa has been read, and what is known of it. */
  predicate Collected(text: string, pointFirst: bool, haveDp: bool, ip: string, fp: string, digits: Digits, dweight: int, dscale: int) {
    && IsMantissa(text, pointFirst, haveDp, ip, fp)
    && digits == Zeros(4) + DigitsOf(ip + fp) && |ip + fp| <= |text| && dweight == |ip| - 1 && dscale == |fp|
  }

  /**
   The loop that collects decimal digits behind four zeros, stopping at what is neither a digit nor
   a point; a second point is an error. Three zeros follow.
   */
  method CollectDigits(str: string, start: nat, pointFirst: bool)
    returns (ok: bool, cp: nat, decdigits: array<nat>, ddigits: nat, dweight: int, dscale: int, ghost ip: string, ghost fp: string, haveDp: bool)
    requires start <= |str|
    ensures fresh(decdigits) && start <= cp <= |str| && ddigits + 7 <= decdigits.Length
    ensures IsMantissa(str[start..cp], pointFirst, haveDp, ip, fp)
    ensures if ok then cp < |str| ==> !IsDigit(str[cp]) && str[cp] != '.' else haveDp && cp < |str| && str[cp] == '.'
    ensures ok ==> Collected(str[start..cp], pointFirst, haveDp, ip, fp, decdigits[..4 + ddigits], dweight, dscale)
    ensures ok ==> decdigits[4 + ddigits..7 + ddigits] == Zeros(3)
  {
    hide IsMantissa;
    hide DigitsOf;
    hide Zeros;
    decdigits := new nat[|str| - start + 8];
    PutDigits(decdigits, 0, Zeros(4));
    var i := 4;
    cp, dweight, dscale, haveDp := start, -1, 0, pointFirst;
    ip, fp := "", "";
    NothingCollected(pointFirst, decdigits[..4]);
    assert str[start..cp] == "";
    ok := true;
    while cp < |str|
      invariant start <= cp <= |str| && decdigits.Length == |str| - start + 8 && 4 <= i <= decdigits.Length - 4 && ok
      invariant Collected(str[start..cp], pointFirst, haveDp, ip, fp, decdigits[..i], dweight, dscale)
      modifies decdigits
    {
      MantissaGrows(str, start, cp, pointFirst, haveDp, ip, fp);
      CollectedLength(str[start..cp], pointFirst, haveDp, ip, fp, decdigits[..i], dweight, dscale);
      if IsDigit(str[cp]) {
        PutDigits(decdigits, i, [str[cp] as int - '0' as int]);
        i := i + 1;
        if !haveDp {
          dweight := dweight + 1;
          ip := ip + [str[cp]];
        } else {
          dscale := dscale + 1;
          fp := fp + [str[cp]];
        }
        cp := cp + 1;
      } else if str[cp] == '.' {
        if haveDp {
          ok := false;
          break;
        }
        haveDp := true;
        cp := cp + 1;
      } else {
        break;
      }
    }
    ddigits := i - 4;
    ghost var done := decdigits[..i];
    PutDigits(decdigits, i, Zeros(3));
    assert decdigits[..i] == decdigits[..i + 3][..i] == done;
    assert decdigits[i..i + 3] == decdigits[..i + 3][i..] == Zeros(3);
  }

  lemma NothingCollected(pointFirst: bool, digits: Digits)
    requires digits == Zeros(4)
    ensures Collected("", pointFirst, pointFirst, "", "", digits, -1, 0)
  {
    assert Zeros(4) + DigitsOf("") == Zeros(4);
  }

  lemma CollectedLength(text: string, pointFirst: bool, haveDp: bool, ip: string, fp: string, digits: Digits, dweight: int, dscale: int)
    requires Collected(text, pointFirst, haveDp, ip, fp, digits, dweight, dscale)
    ensures |digits| == 4 + |ip + fp| <= 4 + |text|
  {}

  lemma DigitsOfJoined(a: string, b: string)
    ensures DigitsOf(a + b) == DigitsOf(a) + DigitsOf(b)
  {}

  /** One more character of the mantissa. */
  lemma MantissaGrows(str: string, start: nat, cp: nat, pointFirst: bool, haveDp: bool, ip: string, fp: string)
    requires start <= cp < |str| && IsMantissa(str[start..cp], pointFirst, haveDp, ip, fp)
    ensures IsDigit(str[cp]) && !haveDp ==>
              && IsMantissa(str[start..cp + 1], pointFirst, haveDp, ip + [str[cp]], fp)
              && DigitsOf(ip + [str[cp]] + fp) == DigitsOf(ip + fp) + [DigitOf(str[cp])]
    ensures IsDigit(str[cp]) && haveDp ==>
              && IsMantissa(str[start..cp + 1], pointFirst, haveDp, ip, fp + [str[cp]])
              && DigitsOf(ip + (fp + [str[cp]])) == DigitsOf(ip + fp) + [DigitOf(str[cp])]
    ensures str[cp] == '.' && !haveDp ==> IsMantissa(str[start..cp + 1], pointFirst, true, ip, fp)
  {
    assert str[start..cp + 1] == str[start..cp] + [str[cp]];
    DigitsOfJoined(ip + fp, [str[cp]]);
    assert DigitsOf([str[cp]]) == [DigitOf(str[cp])];
    if haveDp {
      assert ip + (fp + [str[cp]]) == (ip + fp) + [str[cp]];
      assert ip + "." + (fp + [str[cp]]) == (ip + "." + fp) + [str[cp]];
    } else {
      assert fp == "" && ip + fp == ip && ip + [str[cp]] + fp == ip + [str[cp]];
      assert ip + "." + fp == ip + ".";
    }
  }

  /** What the loop has collected is what the text says. */
  lemma MantissaIsRead(negative: bool, str: string, p: nat, start: nat, cp: nat, pointFirst: bool, haveDp: bool, ip: string, fp: string)
    requires p <= start <= cp <= |str| && IsMantissa(str[start..cp], pointFirst, haveDp, ip, fp)
    requires if pointFirst then p + 1 == start && str[p] == '.' else p == start
    requires cp < |str| ==> !IsDigit(str[cp]) && (haveDp || str[cp] != '.')
    ensures ReadMantissa(negative, str[p..]) == if ip == "" && fp == "" then None else ReadExponent(negative, ip, fp, str[cp..])
  {
    hide ReadExponent;
    var t := str[p..];
    assert t[..|ip|] == ip by { assert str[start..cp][..|ip|] == ip; }
    assert haveDp ==> |ip| < |t| && t[|ip|] == '.' && cp - p == |ip| + 1 + |fp| by {
      if haveDp && !pointFirst { assert str[start..cp][|ip|] == '.'; }
    }
    RunIs(t, |ip|);
    if haveDp {
      var behind := t[|ip| + 1..];
      assert behind[..|fp|] == fp by {
        if pointFirst { assert behind[..|fp|] == str[start..cp]; } else { assert behind[..|fp|] == str[start..cp][|ip| + 1..]; }
      }
      RunIs(behind, |fp|);
      assert behind[|fp|..] == str[cp..];
    } else {
      assert t[|ip|..] == str[cp..];
    }
  }

  lemma SecondPoint(negative: bool, ip: string, fp: string, rest: string)
    requires rest != "" && rest[0] == '.'
    ensures ReadExponent(negative, ip, fp, rest) == None
  {
    assert Spaces(rest) == 0;
  }

  // ----- reading: from decimal digits to base ten thousand -----

  lemma FourDigits(a: nat, b: nat, c: nat, d: nat)
    ensures Number([a, b, c, d], 10) == ((a * 10 + b) * 10 + c) * 10 + d
  {
    var two, three := [a, b], [a, b, c];
    OneDigit(a, 10);
    assert two[..1] == [a] && three[..2] == two && [a, b, c, d][..3] == three;
    assert Number(two, 10) == a * 10 + b;
    assert Number(three, 10) == (a * 10 + b) * 10 + c;
  }

  /** Taking decimal digits four by four makes the same number. */
  lemma OneMoreGroup(groups: Digits, dec: Digits, four: Digits, x: nat)
    requires Number(groups, NBASE) == Number(dec, 10) && |four| == 4 && x == ((four[0] * 10 + four[1]) * 10 + four[2]) * 10 + four[3]
    ensures Number(groups + [x], NBASE) == Number(dec + four, 10)
  {
    NumberJoined(groups, [x], NBASE);
    NumberJoined(dec, four, 10);
    OneDigit(x, NBASE);
    assert four == [four[0], four[1], four[2], four[3]];
    FourDigits(four[0], four[1], four[2], four[3]);
    hide Number;
    assert Pow(NBASE, 1) == NBASE * Pow(NBASE, 0) == NBASE;
    PowersOfTenThousand(1);
  }

  /** The loop that packs decimal digits from cell `from` on. */
  method PackDigits(decdigits: array<nat>, from: nat, ndigits: nat) returns (digits: array<nat>)
    requires from + 4 * ndigits <= decdigits.Length
    requires Below(decdigits[from..from + 4 * ndigits], 10)
    ensures fresh(digits) && digits.Length == ndigits && Below(digits[..], NBASE)
    ensures Number(digits[..], NBASE) == Number(decdigits[from..from + 4 * ndigits], 10)
  {
    hide Number;
    digits := new nat[ndigits];
    var i, k := from, 0;
    assert digits[..0] == [] && decdigits[from..i] == [];
    NoDigits();
    while k < ndigits
      invariant k <= ndigits && i == from + 4 * k && Below(digits[..k], NBASE)
      invariant Number(digits[..k], NBASE) == Number(decdigits[from..i], 10)
      modifies digits
    {
      ghost var groups, four := digits[..k], decdigits[i..i + 4];
      forall j | 0 <= j < 4 ensures four[j] < 10 {
        assert four[j] == decdigits[from..from + 4 * ndigits][4 * k + j];
      }
      digits[k] := ((decdigits[i] * 10 + decdigits[i + 1]) * 10 + decdigits[i + 2]) * 10 + decdigits[i + 3];
      OneMoreGroup(groups, decdigits[from..i], four, digits[k]);
      assert digits[..k + 1] == groups + [digits[k]];
      assert decdigits[from..i + 4] == decdigits[from..i] + four;
      i := i + DEC_DIGITS;
      k := k + 1;
    }
    assert digits[..ndigits] == digits[..];
  }

  lemma NoDigits()
    ensures Number([], NBASE) == 0 && Number([], 10) == 0
  {}

  /** Weight and alignment of the first digit in base ten thousand. */
  method Align(dweight: int) returns (weight: int, offset: nat)
    ensures 0 <= offset < DEC_DIGITS && 4 * (weight + 1) == dweight + 1 + offset
  {
    if dweight >= 0 {
      weight := (dweight + 1 + DEC_DIGITS - 1) / DEC_DIGITS - 1;
    } else {
      weight := -((-dweight - 1) / DEC_DIGITS + 1);
    }
    var off := (weight + 1) * DEC_DIGITS - (dweight + 1);
    offset := off;
  }

  /** The digits with zeros before and behind them, to fill up groups of four. */
  lemma Aligned(cells: Digits, dec: Digits, offset: nat, ndigits: nat)
    requires |cells| == |dec| + 7 && cells == Zeros(4) + dec + Zeros(3) && offset < 4
    requires 4 * ndigits == |dec| + offset + (4 * ndigits - |dec| - offset) && 0 <= 4 * ndigits - |dec| - offset < 4
    ensures 4 - offset + 4 * ndigits <= |cells|
    ensures var pad := 4 * ndigits - |dec| - offset;
            && cells[4 - offset..4 - offset + 4 * ndigits] == Zeros(offset) + dec + Zeros(pad)
            && Number(cells[4 - offset..4 - offset + 4 * ndigits], 10) == Number(dec, 10) * Pow(10, pad)
  {
    hide Number;
    var pad := 4 * ndigits - |dec| - offset;
    assert cells[4 - offset..4 - offset + 4 * ndigits] == Zeros(offset) + dec + Zeros(pad);
    NumberPadded(dec, offset, pad, 10);
  }

  /** The value of the packed digits. */
  lemma PackedValue(digits: Digits, dec: Digits, weight: int, offset: nat, dweight: int)
    requires 4 * (weight + 1) == dweight + 1 + offset && 4 * |digits| >= |dec| + offset
    requires Number(digits, NBASE) == Number(dec, 10) * Pow(10, 4 * |digits| - |dec| - offset)
    ensures Magnitude(digits, weight) == Number(dec, 10) as real * Tens(dweight + 1 - |dec|)
  {
    var pad, a := 4 * |digits| - |dec| - offset, 4 * (weight + 1 - |digits|);
    hide *;
    MagnitudeIsNumber(digits, weight);
    TensOfNat(pad);
    TensAdds(pad, a);
    RealProduct(Number(dec, 10), Pow(10, pad));
    Rescale(Number(digits, NBASE) as real, Number(dec, 10) as real, Tens(pad), Tens(a), Tens(pad + a));
  }

  lemma DigitsAreBelow(cells: Digits, text: string, from: nat, upTo: nat)
    requires cells == Zeros(4) + DigitsOf(text) + Zeros(3) && from <= upTo <= |cells|
    ensures Below(cells[from..upTo], 10)
  {}

  /** Decimal digits with the point behind `dweight + 1` of them, as digits in base ten thousand. */
  method Pack(decdigits: array<nat>, ghost text: string, ddigits: nat, dweight: int) returns (digits: array<nat>, weight: int)
    requires ddigits == |text| && ddigits + 7 <= decdigits.Length
    requires decdigits[..ddigits + 7] == Zeros(4) + DigitsOf(text) + Zeros(3)
    ensures fresh(digits) && Below(digits[..], NBASE)
    ensures Magnitude(digits[..], weight) == Scaled(text, dweight + 1 - |text|)
  {
    hide Number;
    hide Below;
    hide Magnitude;
    hide Tens;
    hide Pow;
    var offset;
    weight, offset := Align(dweight);
    var ndigits := (ddigits + offset + DEC_DIGITS - 1) / DEC_DIGITS;
    ghost var dec, cells := DigitsOf(text), decdigits[..ddigits + 7];
    Aligned(cells, dec, offset, ndigits);
    DigitsAreBelow(cells, text, 4 - offset, 4 - offset + 4 * ndigits);
    assert cells[4 - offset..4 - offset + 4 * ndigits] == decdigits[4 - offset..4 - offset + 4 * ndigits];
    digits := PackDigits(decdigits, 4 - offset, ndigits);
    PackedValue(digits[..], dec, weight, offset, dweight);
  }

  /** The variable that a number of decimal digits makes. */
  method Convert(v: NumericVar, decdigits: array<nat>, ghost text: string, ddigits: nat, dweight: int, dscale: int, sign: Sign)
    requires ddigits == |text| && ddigits + 7 <= decdigits.Length
    requires decdigits[..ddigits + 7] == Zeros(4) + DigitsOf(text) + Zeros(3)
    modifies v
    ensures v.Valid() && fresh(v.buf) && v.dscale == dscale && v.IsNormal() && v.NoZeroInFront() && v.NoZeroBehind()
    ensures v.Value() == Signed(sign == Neg, Scaled(text, dweight + 1 - |text|))
    ensures v.sign == if v.Kept() == [] then Pos else sign
  {
    hide Number;
    hide Below;
    hide Magnitude;
    hide Tens;
    hide Zeros;
    hide DigitsOf;
    hide Scaled;
    var digits, weight := Pack(decdigits, text, ddigits, dweight);
    v.buf, v.first, v.ndigits := digits, 0, digits.Length;
    v.sign, v.weight, v.dscale := sign, weight, dscale;
    assert v.Kept() == digits[..];
    v.StripVar();
  }

  function Signed(negative: bool, size: real): real { if negative then -size else size }

  /** The exponent, if there is one; the position is behind it. */
  method ParseExponent(str: string, from: nat) returns (ok: bool, exponent: int, cp: nat)
    requires from <= |str|
    ensures from <= cp <= |str|
    ensures ok ==> forall d: Decimal :: d.exponent == 0 ==>
                     ReadExponent(d.negative, d.ip, d.fp, str[from..]) == ReadEnd(d.(exponent := exponent), str[cp..])
    ensures !ok ==> forall d: Decimal :: ReadExponent(d.negative, d.ip, d.fp, str[from..]) == None
  {
    cp, exponent := from, 0;
    if cp < |str| && (str[cp] == 'e' || str[cp] == 'E') {
      cp := cp + 1;
      var read := Strtol(str[cp..]);
      assert str[from..][1..] == str[cp..];
      if read.None? { return false, 0, cp; }
      exponent := read.value.0;
      assert str[cp..][read.value.1..] == str[cp + read.value.1..];
      cp := cp + read.value.1;
      if exponent > NUMERIC_MAX_PRECISION || exponent < -NUMERIC_MAX_PRECISION { return false, exponent, cp; }
    }
    ok := true;
  }

  /** Reads a text; fails exactly if the text is not a number. */
  method Str2Num(v: NumericVar, str: string) returns (ok: bool)
    modifies v
    ensures ok <==> ReadNumeric(str).Some?
    ensures ok ==>
              && v.Valid() && v.IsNormal() && v.NoZeroInFront() && v.NoZeroBehind() && fresh(v.buf)
              && v.Value() == ReadNumeric(str).value.Value()
              && v.dscale == ReadNumeric(str).value.Scale()
              && (v.sign == Neg <==> ReadNumeric(str).value.negative && v.Kept() != [])
  {
    hide ReadMantissa;
    hide ReadExponent;
    hide DigitsOf;
    hide Zeros;
    assert str[0..] == str;
    var cp := SkipSpaces(str, 0);
    var sign := Pos;
    if cp < |str| && str[cp] == '+' {
      assert str[cp..][1..] == str[cp + 1..];
      cp := cp + 1;
    } else if cp < |str| && str[cp] == '-' {
      assert str[cp..][1..] == str[cp + 1..];
      sign := Neg;
      cp := cp + 1;
    }
    assert ReadNumeric(str) == ReadMantissa(sign == Neg, str[cp..]);
    ok := ReadNumber(v, str, cp, sign);
  }

  /** The rest of `Str2Num`, from behind the sign. */
  method ReadNumber(v: NumericVar, str: string, p: nat, sign: Sign) returns (ok: bool)
    requires p <= |str|
    modifies v
    ensures var read := ReadMantissa(sign == Neg, str[p..]);
            && (ok <==> read.Some?)
            && (ok ==>
                  && v.Valid() && v.IsNormal() && v.NoZeroInFront() && v.NoZeroBehind() && fresh(v.buf)
                  && v.Value() == Signed(sign == Neg, read.value.Size())
                  && v.dscale == read.value.Scale() && v.sign == (if v.Kept() == [] then Pos else sign))
            && (ok ==> read.value.negative == (sign == Neg))
  {
    assert !IsDigit('.');
    hide *;
    var pointFirst := p < |str| && str[p] == '.';
    var start := if pointFirst then p + 1 else p;
    if start >= |str| || !IsDigit(str[start]) {
      NoDigitNoNumber(sign == Neg, str, p);
      return false;
    }
    var cp, decdigits, ddigits, dweight, dscale, haveDp;
    ghost var ip, fp;
    ok, cp, decdigits, ddigits, dweight, dscale, ip, fp, haveDp := CollectDigits(str, start, pointFirst);
    StopsBehindDigit(str, start, cp, pointFirst, haveDp, ip, fp);
    MantissaIsRead(sign == Neg, str, p, start, cp, pointFirst, haveDp, ip, fp);
    if !ok {
      SecondPoint(sign == Neg, ip, fp, str[cp..]);
      return;
    }
    ok := FinishNumber(v, str, cp, decdigits, ddigits, dweight, dscale, sign, str[start..cp], pointFirst, haveDp, ip, fp);
  }

  /** The rest of that, from behind the mantissa. */
  method FinishNumber(v: NumericVar, str: string, from: nat, decdigits: array<nat>, ddigits: nat, dweight0: int, dscale0: int, sign: Sign,
                      ghost text: string, ghost pointFirst: bool, haveDp: bool, ghost ip: string, ghost fp: string)
    returns (ok: bool)
    requires from <= |str| && ddigits + 7 <= decdigits.Length
    requires Collected(text, pointFirst, haveDp, ip, fp, decdigits[..4 + ddigits], dweight0, dscale0)
    requires decdigits[4 + ddigits..7 + ddigits] == Zeros(3)
    modifies v
    ensures var read := ReadExponent(sign == Neg, ip, fp, str[from..]);
            && (ok <==> read.Some?)
            && (ok ==>
                  && v.Valid() && v.IsNormal() && v.NoZeroInFront() && v.NoZeroBehind() && fresh(v.buf)
                  && v.Value() == Signed(sign == Neg, read.value.Size())
                  && v.dscale == read.value.Scale() && v.sign == (if v.Kept() == [] then Pos else sign))
            && (ok ==> read.value.negative == (sign == Neg))
  {
    hide *;
    CollectedAll(decdigits[..4 + ddigits], decdigits[4 + ddigits..7 + ddigits], text, pointFirst, haveDp, ip, fp, dweight0, dscale0);
    assert decdigits[..4 + ddigits] + decdigits[4 + ddigits..7 + ddigits] == decdigits[..ddigits + 7];
    ghost var d := Decimal(sign == Neg, ip, fp, 0);
    var exponent, cp;
    ok, exponent, cp := ParseExponent(str, from);
    ExponentOf(d, str[cp..], exponent);
    if !ok { return; }
    var dweight := dweight0 + exponent;
    var dscale := dscale0 - exponent;
    if dscale < 0 { dscale := 0; }
    cp := SkipSpaces(str, cp);
    if cp != |str| { return false; }
    Convert(v, decdigits, ip + fp, ddigits, dweight, dscale, sign);
  }

  lemma NoDigitNoNumber(negative: bool, str: string, p: nat)
    requires p <= |str|
    requires var start := if p < |str| && str[p] == '.' then p + 1 else p; start >= |str| || !IsDigit(str[start])
    ensures ReadMantissa(negative, str[p..]) == None
  {
    var t := str[p..];
    RunIs(t, 0);
    if t != "" && t[0] == '.' { RunIs(t[1..], 0); }
  }

  lemma StopsBehindDigit(str: string, start: nat, cp: nat, pointFirst: bool, haveDp: bool, ip: string, fp: string)
    requires start <= cp <= |str| && start < |str| && IsDigit(str[start])
    requires IsMantissa(str[start..cp], pointFirst, haveDp, ip, fp) && (cp < |str| ==> !IsDigit(str[cp]))
    ensures !(ip == "" && fp == "")
  {
    assert str[start..cp][0] == str[start];
  }

  lemma CollectedAll(cells: Digits, last: Digits, text: string, pointFirst: bool, haveDp: bool, ip: string, fp: string, dweight: int, dscale: int)
    requires Collected(text, pointFirst, haveDp, ip, fp, cells, dweight, dscale) && last == Zeros(3)
    ensures cells + last == Zeros(4) + DigitsOf(ip + fp) + Zeros(3) && |cells| == 4 + |ip + fp|
    ensures dweight == |ip| - 1 && dscale == |fp|
  {}

  lemma ExponentOf(d: Decimal, rest: string, exponent: int)
    ensures ReadEnd(d.(exponent := exponent), rest) == if Spaces(rest) == |rest| then Some(d.(exponent := exponent)) else None
    ensures d.(exponent := exponent).Size() == Scaled(d.ip + d.fp, exponent - |d.fp|)
    ensures d.(exponent := exponent).Scale() == if |d.fp| > exponent then |d.fp| - exponent else 0
  {
    hide Spaces;
    hide Scaled;
  }
}
