/** Numbers on their way to the server and back (libpqtypes, numerics.c): fields of sixteen bits. */
module NumericWire {
  import opened Basics
  import opened Decimals
  import opened Numerics
  import opened NumericText
  import opened NumericPrinting

  type word16 = w: nat | w < 0x1_0000

  const NUMERIC_POS: word16 := 0x0000
  const NUMERIC_NEG: word16 := 0x4000

  /** The buffer a number is printed to when it is read. */
  const GET_BUFFER: nat := 4096

  /** The fields in the order they are sent, then the digits. */
  datatype Message = Message(ndigits: word16, weight: word16, sign: word16, dscale: word16, digits: Digits)

  /** What is left of an `int` in sixteen bits, read back without a sign. */
  function Word(x: int): word16 { x % 0x1_0000 }

  function SignWord(sign: Sign): word16 { if sign == Neg then NUMERIC_NEG else NUMERIC_POS }

  /** Digits without zeros in front, and zero without digits. */
  predicate InFront(kept: Digits, weight: int) { if kept == [] then weight == 0 else kept[0] > 0 }

  /** The fields can be told from those of any other number that fits. */
  predicate FieldsFit(ndigits: int, weight: int, dscale: int) {
    0 <= ndigits < 0x1_0000 && -0x1_0000 <= weight < 0x1_0000 && 0 <= dscale < 0x1_0000
  }

  // ----- sending -----

  /** Reads a text and sends its number. */
  method PutNumeric(str: string) returns (ok: bool, fits: bool, msg: Message, ghost weight: int)
    ensures ok <==> ReadNumeric(str).Some?
    ensures ok ==>
              var d := ReadNumeric(str).value;
              && msg.ndigits == Word(|msg.digits|) && msg.weight == Word(weight) && msg.dscale == Word(d.Scale())
              && msg.sign == (if d.negative && msg.digits != [] then NUMERIC_NEG else NUMERIC_POS)
              && Below(msg.digits, NBASE) && InFront(msg.digits, weight)
              && (msg.digits != [] ==> msg.digits[|msg.digits| - 1] > 0)
              && Magnitude(msg.digits, weight) == d.Size()
              && (fits <==> FieldsFit(|msg.digits|, weight, d.Scale()))
              && (fits <==> |msg.digits| < 0x1_0000 && -0x1_0000 <= weight < 0x1_0000 && d.Scale() < 0x1_0000)
              && msg.sign == (if d.negative && msg.digits != [] then 0x4000 else 0)
  {
    hide Magnitude;
    hide Below;
    hide ReadNumeric;
    hide Decimal.Size;
    hide Decimal.Scale;
    var num := new NumericVar();
    ok := Str2Num(num, str);
    fits, weight := false, 0;
    msg := Message(0, 0, 0, 0, []);
    if !ok { return; }
    SizeOfRead(num, ReadNumeric(str).value);
    KeptIsBelow(num);
    weight := num.weight;
    fits := FieldsFit(num.ndigits, num.weight, num.dscale);
    msg := Message(Word(num.ndigits), Word(num.weight), SignWord(num.sign), Word(num.dscale),
                   num.buf[num.first..num.first + num.ndigits]);
  }

  // ----- receiving -----

  /** The weight is the one field that may be negative; it is read as a large one then. */
  method Decode(msg: Message) returns (num: NumericVar)
    requires |msg.digits| == msg.ndigits && Below(msg.digits, NBASE)
    ensures fresh(num) && fresh(num.buf) && num.Valid() && num.Kept() == msg.digits
    ensures num.weight == msg.weight && num.dscale == msg.dscale && (num.sign == Neg <==> msg.sign == NUMERIC_NEG)
  {
    var digits := new nat[msg.ndigits];
    for i := 0 to msg.ndigits
      invariant digits[..i] == msg.digits[..i]
    {
      digits[i] := msg.digits[i];
      assert msg.digits[..i + 1] == msg.digits[..i] + [msg.digits[i]];
    }
    assert digits[..] == msg.digits[..msg.ndigits] == msg.digits;
    num := new NumericVar();
    num.buf, num.first, num.ndigits := digits, 0, msg.ndigits;
    num.weight, num.dscale := msg.weight, msg.dscale;
    num.sign := if msg.sign == NUMERIC_NEG then Neg else Pos;
    assert digits[0..msg.ndigits] == digits[..];
  }

  /**
   Prints a number that has been received. Its digits end within its scale, as the server keeps them;
   so rounding needs no room in front of the digits.
   */
  method GetNumeric(msg: Message, ghost n: nat) returns (printed: bool, out: array<char>, ghost ip: string, ghost fp: string, ghost negative: bool)
    requires |msg.digits| == msg.ndigits && Below(msg.digits, NBASE) && InFront(msg.digits, msg.weight)
    requires Magnitude(msg.digits, msg.weight) == Multiple(n, msg.dscale)
    ensures fresh(out) && out.Length == GET_BUFFER
    ensures printed <==> GET_BUFFER > IntegerRoom(msg.weight) + msg.dscale + 6
    ensures printed ==>
              && IsNumeral(ip, fp) && (|ip| == 1 || ip[0] != '0') && |fp| == msg.dscale && Number(DigitsOf(ip + fp), 10) == n
              && Holds(out[..], TextOf(negative, ip, fp))
              && (negative ==> msg.sign == NUMERIC_NEG) && (msg.sign == NUMERIC_NEG ==> negative || n == 0)
  {
    hide *;
    var num := Decode(msg);
    out := new char[GET_BUFFER];
    DecodedHasRoom(num, msg.dscale, n);
    DecodedIsNormal(num);
    MultipleIsNearest(Magnitude(msg.digits, msg.weight), msg.dscale, n);
    NotBelowZero(num.dscale);
    ghost var m;
    printed, ip, fp, m := Num2Str(out, num, num.dscale);
    NearestIsUnique(Magnitude(msg.digits, msg.weight), msg.dscale, m, n);
    negative := num.sign == Neg;
    FrontOf(num);
    KeptIsBelow(num);
    SameWeight(msg.digits, msg.weight, num.Kept(), num.weight);
  }

  lemma NotBelowZero(x: int)
    ensures AtLeastZero(x) == if x < 0 then 0 else x
  {}

  lemma DecodedHasRoom(v: NumericVar, dscale: nat, n: nat)
    requires v.Valid() && v.weight >= 0 && Magnitude(v.Kept(), v.weight) == Multiple(n, dscale)
    ensures v.HasRoom(dscale)
  {
    KeptIsBelow(v);
    hide Magnitude;
    hide Multiple;
    hide Tens;
    hide Below;
    MultipleHasRoom(v.Kept(), v.weight, dscale, n);
  }

  lemma DecodedIsNormal(v: NumericVar)
    requires v.Valid() && InFront(v.Kept(), v.weight)
    ensures v.IsNormal()
  {}

  lemma FrontOf(v: NumericVar)
    ensures v.NoZeroInFront() ==> v.Valid() && InFront(v.Kept(), v.weight)
  {}

  /** The weight of a number is told by its size. */
  lemma SameWeight(a: Digits, weight: int, b: Digits, other: int)
    requires Below(a, NBASE) && Below(b, NBASE) && InFront(a, weight)
    requires other == weight || InFront(b, other)
    requires Magnitude(a, weight) == Magnitude(b, other)
    ensures other == weight
  {
    NoDigitsIsZero(weight);
    NoDigitsIsZero(other);
    if a != [] { MagnitudeBetween(a, weight); }
    if other != weight && b != [] { MagnitudeBetween(b, other); }
    hide Magnitude;
    hide Tens;
    hide Below;
    if other != weight && a != [] && b != [] {
      TensGrows(4 * weight, 4 * (other + 1));
      TensGrows(4 * other, 4 * (weight + 1));
    }
  }

  // ----- both -----

  /** Nothing, or a number that is at least one, with room for its digits. */
  predicate ComesBack(d: Decimal) {
    var n := Significant(d.ip + d.fp);
    (n == 0 || n - |d.fp| + d.exponent > 0) && GET_BUFFER > PrintRoom(d) + d.Scale() + 6
  }

  /** Whether the number is below one is told by the place of its first digit. */
  lemma AtLeastOneIs(d: Decimal)
    requires AllDigits(d.ip + d.fp)
    ensures var n := Significant(d.ip + d.fp); n == 0 || n - |d.fp| + d.exponent > 0 <==> d.Size() == 0.0 || d.Size() >= 1.0
  {
    SizeBetween(d);
    TensOfZero();
    hide Significant;
    hide Decimal.Size;
    var n := Significant(d.ip + d.fp);
    var before := n - |d.fp| + d.exponent;
    if n > 0 {
      if before > 0 { TensOrder(0, before - 1); } else { TensOrder(before, 0); }
    }
    hide Tens;
  }

  lemma TensOrder(a: int, b: int)
    requires a <= b
    ensures Tens(a) <= Tens(b)
  {
    hide Tens;
    if Tens(b) < Tens(a) { TensGrows(b, a); }
  }

  // ----- digits within the scale -----

  lemma SameProduct(x: real, y: real, t: real)
    requires t > 0.0 && x * t == y * t
    ensures x == y
  {
    SameOrder(x, y, t);
    SameOrder(y, x, t);
  }

  lemma ShiftedProduct(m: real, p: real, t: real, scaled: real, product: real)
    requires scaled == p * t && product == m * scaled
    ensures product == (m * p) * t
  {}

  /** Of a number without a zero behind no more digits are kept than its scale has. */
  lemma DigitsWithin(kept: Digits, weight: int, scale: int, m: nat)
    requires scale >= 0 && Below(kept, NBASE) && kept != [] && kept[|kept| - 1] > 0
    requires Magnitude(kept, weight) == Multiple(m, scale)
    ensures 4 * |kept| < 4 * (weight + 1) + scale + 4
  {
    hide *;
    var k := 4 * (|kept| - weight - 1) - scale;
    if k >= 4 {
      var a := 4 * (weight + 1 - |kept|);
      MagnitudeIsNumber(kept, weight);
      MultipleIs(m, scale);
      TensAdds(k, a);
      TensOfNat(k);
      ShiftedProduct(m as real, Tens(k), Tens(a), Tens(-scale), Multiple(m, scale));
      RealProduct(m, Pow(10, k));
      SameProduct(Number(kept, NBASE) as real, (m * Pow(10, k)) as real, Tens(a));
      EndsInZero(kept, m, k);
    }
  }

  lemma EndsInZero(kept: Digits, m: nat, k: nat)
    requires Below(kept, NBASE) && kept != [] && k >= 4 && Number(kept, NBASE) as real == (m * Pow(10, k)) as real
    ensures kept[|kept| - 1] == 0
  {
    var n := |kept| - 1;
    PowAdds(10, k - 4, 4);
    TenThousand();
    var p := m * Pow(10, k - 4);
    GroupProduct(m, Pow(10, k - 4), Pow(10, k));
    SameNumber(Number(kept, NBASE), m * Pow(10, k));
    LastDigit(Number(kept[..n], NBASE), p, kept[n], 0, NBASE);
  }

  lemma SameNumber(a: nat, b: nat)
    requires a as real == b as real
    ensures a == b
  {
    CastOrder(a, b);
    CastOrder(b, a);
  }

  lemma TenThousand()
    ensures Pow(10, 4) == NBASE
  {
    assert Pow(10, 0) == 1;
    assert Pow(10, 1) == 10;
    assert Pow(10, 2) == 100;
    assert Pow(10, 3) == 1000;
  }

  lemma GroupProduct(m: nat, p: nat, q: nat)
    requires q == p * NBASE
    ensures m * q == (m * p) * NBASE
  {}

  /** A number that has room in the buffer fits into the fields. */
  lemma RoomFits(kept: Digits, weight: int, d: Decimal, m: nat)
    requires Below(kept, NBASE) && InFront(kept, weight) && (kept != [] ==> kept[|kept| - 1] > 0)
    requires AllDigits(d.ip + d.fp) && Magnitude(kept, weight) == d.Size() == Multiple(m, d.Scale()) && ComesBack(d)
    ensures weight >= 0 && FieldsFit(|kept|, weight, d.Scale())
  {
    BelowOne(kept, weight, d);
    RoomIsPrintRoom(kept, weight, d);
    if kept != [] { DigitsWithin(kept, weight, d.Scale(), m); }
    hide Significant;
    hide Magnitude;
    hide Multiple;
    hide Below;
    hide Decimal.Size;
  }

  /** A negative weight is that of a number between zero and one. */
  lemma BelowOne(kept: Digits, weight: int, d: Decimal)
    requires Below(kept, NBASE) && InFront(kept, weight) && AllDigits(d.ip + d.fp) && Magnitude(kept, weight) == d.Size()
    ensures var n := Significant(d.ip + d.fp); weight >= 0 <==> n == 0 || n - |d.fp| + d.exponent > 0
  {
    AtLeastOneIs(d);
    NoDigitsIsZero(weight);
    TensOfZero();
    if kept != [] {
      MagnitudeBetween(kept, weight);
      if weight >= 0 { TensOrder(0, 4 * weight); } else { TensOrder(4 * (weight + 1), 0); }
    }
    hide Significant;
    hide Magnitude;
    hide Tens;
    hide Below;
    hide Decimal.Size;
  }

  // ----- a weight below zero -----

  /** With the weight read as a larger one the number is one times a power of ten. */
  lemma LargerWeight(kept: Digits, weight: int, more: nat, scale: int, m: nat) returns (n: nat)
    requires Magnitude(kept, weight) == Multiple(m, scale)
    ensures Magnitude(kept, weight + more) == Multiple(n, scale)
  {
    hide *;
    n := m * Pow(10, 4 * more);
    var a := 4 * (weight + 1 - |kept|);
    MagnitudeIsNumber(kept, weight);
    MagnitudeIsNumber(kept, weight + more);
    TensAdds(4 * more, a);
    TensOfNat(4 * more);
    MultipleIs(m, scale);
    MultipleIs(n, scale);
    RealProduct(m, Pow(10, 4 * more));
    TimesMore(Number(kept, NBASE) as real, Tens(a), Tens(4 * more), m as real, Tens(-scale));
  }

  lemma TimesMore(x: real, t: real, p: real, m: real, u: real)
    requires x * t == m * u
    ensures x * (p * t) == (m * p) * u
  {
    assert x * (p * t) == p * (x * t);
    assert (m * p) * u == p * (m * u);
  }

  /** A weight below zero that fits is read as one too large for the buffer. */
  lemma NoRoom(kept: Digits, weight: int, scale: int, m: nat)
    requires Below(kept, NBASE) && InFront(kept, weight) && weight < 0 && scale < 0x1_0000
    requires Magnitude(kept, weight) == Multiple(m, scale)
    ensures weight > -0x1_0000 && IntegerRoom(weight + 0x1_0000) > GET_BUFFER
  {
    hide *;
    InFrontIs(kept, weight);
    MagnitudeBetween(kept, weight);
    MultipleIs(m, scale);
    AtLeastUnit(m, Tens(-scale), Tens(4 * weight), Multiple(m, scale));
    if 4 * (weight + 1) <= -scale {
      TensOrder(4 * (weight + 1), -scale);
    }
    RoomOf(weight + 0x1_0000);
  }

  lemma InFrontIs(kept: Digits, weight: int)
    ensures InFront(kept, weight) <==> if kept == [] then weight == 0 else kept[0] > 0
  {}

  lemma RoomOf(weight: int)
    ensures IntegerRoom(weight) == (if weight >= 0 then 4 * (weight + 1) else 1) && GET_BUFFER == 4096
  {}

  /** A multiple of a unit that is not nothing is no less than the unit. */
  lemma AtLeastUnit(m: nat, unit: real, bound: real, product: real)
    requires unit > 0.0 && bound > 0.0 && product == m as real * unit && bound <= product
    ensures unit <= product
  {
    if m > 0 { ProductAtLeast(m as real, unit, product); } else { NothingTimes(m, unit); }
  }

  lemma NothingTimes(m: nat, unit: real)
    requires m == 0
    ensures m as real * unit == 0.0
  {}

  // ----- there and back -----

  /**
   A text is sent and what is received is printed. It comes out, with the value that went in, exactly if it
   is nothing or at least one, and the buffer is long enough for its digits; a canonical text comes out as it
   was. Numbers that do not fit the fields are no longer followed: they are too long for the buffer.
   */
  method PutThenGet(str: string)
    returns (read: bool, printed: bool, out: array<char>, ghost ip: string, ghost fp: string, ghost negative: bool)
    ensures read <==> ReadNumeric(str).Some?
    ensures read ==> (printed <==> ComesBack(ReadNumeric(str).value))
    ensures read && printed ==>
              && IsNumeral(ip, fp) && Holds(out[..], TextOf(negative, ip, fp))
              && Decimal(negative, ip, fp, 0).Value() == ReadNumeric(str).value.Value()
              && |fp| == ReadNumeric(str).value.Scale()
    ensures forall n, i, f :: IsCanonical(str, n, i, f) ==>
              && read && (printed <==> CanonicalFits(i, f))
              && (printed ==> Holds(out[..], str))
  {
    hide *;
    var fits, msg;
    ghost var weight;
    read, fits, msg, weight := PutNumeric(str);
    printed, ip, fp, negative := false, "", "", false;
    out := new char[GET_BUFFER];
    CanonicalsAre(str);
    if !read { return; }
    ghost var d := ReadNumeric(str).value;
    ReadIsDigits(str);
    ghost var n := ReadIsMultiple(d);
    if ComesBack(d) { RoomFits(msg.digits, weight, d, n); }
    if !fits { return; }
    ghost var m := Received(msg, weight, d, n);
    printed, out, ip, fp, negative := GetNumeric(msg, m);
    if printed {
      PrintedIs(msg, weight, d, n, m, negative, ip, fp);
      PrintIs(d, n, negative, ip, fp);
      CanonicalComesBack(str, out[..], n, negative, ip, fp);
    }
  }

  /** The same said of a canonical text. */
  predicate CanonicalFits(ip: string, fp: string) {
    (ip != "0" || Number(DigitsOf(ip + fp), 10) == 0) && GET_BUFFER > CanonicalRoom(ip, fp) + |fp| + 6
  }

  lemma CanonicalsAre(str: string)
    ensures forall n, i, f :: IsCanonical(str, n, i, f) ==>
              ReadNumeric(str).Some? && (ComesBack(ReadNumeric(str).value) <==> CanonicalFits(i, f))
  {
    hide *;
    forall n, i, f | IsCanonical(str, n, i, f)
      ensures ReadNumeric(str).Some? && (ComesBack(ReadNumeric(str).value) <==> CanonicalFits(i, f))
    {
      RoomOfCanonical(str, n, i, f);
      CanonicalIs(str, n, i, f);
    }
  }

  lemma CanonicalIs(str: string, n: bool, i: string, f: string)
    requires IsCanonical(str, n, i, f) && PrintRoom(Decimal(n, i, f, 0)) == CanonicalRoom(i, f)
    ensures ComesBack(Decimal(n, i, f, 0)) <==> CanonicalFits(i, f)
  {
    SignificantNumber(i + f);
    PowPositive(10, Significant(i + f));
    if Significant(i + f) > 0 { PowPositive(10, Significant(i + f) - 1); }
    hide Number;
    hide DigitsOf;
    hide Pow;
    hide PrintRoom;
    hide CanonicalRoom;
    assert (i + f)[0] == i[0];
    if i[0] != '0' {
      SignificantIs(i + f, |i| + |f|);
    } else {
      assert i == "0";
      assert Significant(i + f) <= |f|;
    }
  }

  /** What is received is a multiple of its unit, too, and is printed exactly if the number comes back. */
  lemma Received(msg: Message, weight: int, d: Decimal, n: nat) returns (m: nat)
    requires FieldsFit(|msg.digits|, weight, d.Scale())
    requires msg.ndigits == Word(|msg.digits|) && msg.weight == Word(weight) && msg.dscale == Word(d.Scale())
    requires Below(msg.digits, NBASE) && InFront(msg.digits, weight) && AllDigits(d.ip + d.fp)
    requires Magnitude(msg.digits, weight) == d.Size() == Multiple(n, d.Scale())
    ensures msg.ndigits == |msg.digits| && msg.dscale == d.Scale() && InFront(msg.digits, msg.weight)
    ensures Magnitude(msg.digits, msg.weight) == Multiple(m, msg.dscale)
    ensures GET_BUFFER > IntegerRoom(msg.weight) + msg.dscale + 6 <==> ComesBack(d)
    ensures ComesBack(d) ==> m == n
  {
    WordsOf(|msg.digits|, weight, d.Scale());
    BelowOne(msg.digits, weight, d);
    hide Significant;
    hide Magnitude;
    hide Multiple;
    hide Below;
    hide Tens;
    hide Decimal.Size;
    hide PrintRoom;
    m := n;
    if weight >= 0 {
      RoomIsPrintRoom(msg.digits, weight, d);
    } else {
      m := LargerWeight(msg.digits, weight, 0x1_0000, d.Scale(), n);
      NoRoom(msg.digits, weight, d.Scale(), n);
    }
  }

  lemma WordsOf(ndigits: int, weight: int, dscale: int)
    requires FieldsFit(ndigits, weight, dscale)
    ensures Word(ndigits) == ndigits && Word(dscale) == dscale
    ensures Word(weight) == if weight >= 0 then weight else weight + 0x1_0000
  {}

  lemma PrintedIs(msg: Message, weight: int, d: Decimal, n: nat, m: nat, negative: bool, ip: string, fp: string)
    requires m == n && msg.dscale == d.Scale() && d.Size() == Multiple(n, d.Scale())
    requires d.exponent == 0 ==> n == Number(DigitsOf(d.ip + d.fp), 10)
    requires msg.sign == (if d.negative && msg.digits != [] then NUMERIC_NEG else NUMERIC_POS)
    requires Magnitude(msg.digits, weight) == d.Size()
    requires IsNumeral(ip, fp) && (|ip| == 1 || ip[0] != '0') && |fp| == msg.dscale && Number(DigitsOf(ip + fp), 10) == m
    requires (negative ==> msg.sign == NUMERIC_NEG) && (msg.sign == NUMERIC_NEG ==> negative || n == 0)
    ensures IsPrintOf(d, n, negative, ip, fp)
  {
    NoDigitsIsZero(weight);
    NothingHasNoSize(d, n);
    hide Magnitude;
    hide Multiple;
    hide Number;
    hide DigitsOf;
    hide Decimal.Size;
  }

  /** One half is sent and cannot be printed again; as text it can be read and printed. */
  lemma HalfDoesNotComeBack()
    ensures ReadNumeric("0.5") == Some(Decimal(false, "0", "5", 0)) && IsCanonical("0.5", false, "0", "5")
    ensures !ComesBack(Decimal(false, "0", "5", 0)) && GET_BUFFER > PrintRoom(Decimal(false, "0", "5", 0)) + 1 + 6
  {
    assert "0" + "5" == "05" && "05"[1..] == "5";
    assert Significant("5") == 1 && Significant("05") == 1;
    assert TextOf(false, "0", "5") == "0.5" by { assert "." + "5" == ".5" && "" + "0" + ".5" == "0.5"; }
    NumeralIsRead(false, "0", "5");
    hide ReadNumeric;
  }
}
