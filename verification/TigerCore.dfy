/**
 The compression function of tiger.c over abstract S-boxes: rounds, passes, key schedule, and the
 single-lane and two-lane forms of one block.
 */
module TigerCore {
  import opened Basics

  const WORDS: nat := 0x1_0000_0000_0000_0000

  /** A 64-bit word; arithmetic wraps, bit operations are written out. */
  type word = w: nat | w < 0x1_0000_0000_0000_0000

  /** The four tables of 256 words, as a function of the table and the byte. */
  type SBoxes = (nat, nat) -> word

  /** Three registers; in a round they play the roles a, b and c. */
  datatype State = State(a: word, b: word, c: word)

  datatype Key = Key(w0: word, w1: word, w2: word, w3: word, w4: word, w5: word, w6: word, w7: word)

  function ByteOf(r: word, k: nat): byte
    requires k < 8
  {
    r / [0x1, 0x100, 0x1_0000, 0x100_0000, 0x1_0000_0000, 0x100_0000_0000, 0x1_0000_0000_0000, 0x100_0000_0000_0000][k] % 0x100
  }

  function Add(x: word, y: word): word { (x + y) % WORDS }

  function Sub(x: word, y: word): word { (x - y) % WORDS }

  /** Bitwise exclusive or, bit by bit. */
  function Xor(x: word, y: word): word {
    WordsIsPow2();
    XorBits(x, y, 64)
  }

  lemma WordsIsPow2()
    ensures Pow2(64) == WORDS
  {
    assert Pow2(4) == 2 * Pow2(3) == 4 * Pow2(2) == 8 * Pow2(1) == 16;
    hide Pow2;
    Pow2Adds(4, 4);
    assert Pow2(8) == 0x100;
    Pow2Adds(8, 8);
    assert Pow2(16) == 0x1_0000;
    Pow2Adds(16, 16);
    assert Pow2(32) == 0x1_0000_0000;
    Pow2Adds(32, 32);
  }

  lemma {:induction false} Pow2Adds(a: nat, b: nat)
    ensures Pow2(a + b) == Pow2(a) * Pow2(b)
  {
    if a > 0 { Pow2Adds(a - 1, b); }
  }

  /** Exclusive or of the low `n` bits. */
  function XorBits(x: nat, y: nat, n: nat): (r: nat)
    ensures r < Pow2(n)
  {
    if n == 0 then 0 else (x + y) % 2 + 2 * XorBits(x / 2, y / 2, n - 1)
  }

  function Pow2(n: nat): (r: nat)
    ensures r > 0
  {
    if n == 0 then 1 else 2 * Pow2(n - 1)
  }

  /** What the second register of a round is multiplied by: 5, 7 and 9 in the three passes. */
  datatype Multiplier = Five | Seven | Nine

  function Scale(x: word, mul: Multiplier): word {
    match mul
    case Five => ByFive(x)
    case Seven => BySeven(x)
    case Nine => ByNine(x)
  }

  function ByFive(x: word): word { x * 5 % WORDS }

  function BySeven(x: word): word { x * 7 % WORDS }

  function ByNine(x: word): word { x * 9 % WORDS }

  function EvenBytes(box: SBoxes, c: word): word {
    Xor(Xor(Xor(box(0, ByteOf(c, 0)), box(1, ByteOf(c, 2))), box(2, ByteOf(c, 4))), box(3, ByteOf(c, 6)))
  }

  function OddBytes(box: SBoxes, c: word): word {
    Xor(Xor(Xor(box(3, ByteOf(c, 1)), box(2, ByteOf(c, 3))), box(1, ByteOf(c, 5))), box(0, ByteOf(c, 7)))
  }

  function Round(box: SBoxes, mul: Multiplier, s: State, x: word): State {
    var c := Xor(s.c, x);
    State(Sub(s.a, EvenBytes(box, c)), Scale(Add(s.b, OddBytes(box, c)), mul), c)
  }

  function Rotate(s: State): State { State(s.b, s.c, s.a) }

  function RotateBack(s: State): State { State(s.c, s.a, s.b) }

  /** A round, after which the registers exchange roles. */
  function Turn(box: SBoxes, mul: Multiplier, s: State, x: word): State { Rotate(Round(box, mul, s, x)) }

  function Turns4(box: SBoxes, mul: Multiplier, s: State, x0: word, x1: word, x2: word, x3: word): State {
    Turn(box, mul, Turn(box, mul, Turn(box, mul, Turn(box, mul, s, x0), x1), x2), x3)
  }

  /** Eight rounds, the registers in the roles they entered with again. */
  function Pass(box: SBoxes, mul: Multiplier, s: State, k: Key): State {
    Rotate(Turns4(box, mul, Turns4(box, mul, s, k.w0, k.w1, k.w2, k.w3), k.w4, k.w5, k.w6, k.w7))
  }

  /** The complement shifted left by 19. */
  function ShiftLeft(x: word): word { (WORDS - 1 - x) * 0x8_0000 % WORDS }

  /** The complement shifted right by 23. */
  function ShiftRight(x: word): word { (WORDS - 1 - x) / 0x80_0000 }

  function FirstHalf(k: Key): Key {
    var w0 := Sub(k.w0, Xor(k.w7, 0xA5A5_A5A5_A5A5_A5A5));
    var w1 := Xor(k.w1, w0);
    var w2 := Add(k.w2, w1);
    var w3 := Sub(k.w3, Xor(w2, ShiftLeft(w1)));
    var w4 := Xor(k.w4, w3);
    var w5 := Add(k.w5, w4);
    var w6 := Sub(k.w6, Xor(w5, ShiftRight(w4)));
    var w7 := Xor(k.w7, w6);
    Key(w0, w1, w2, w3, w4, w5, w6, w7)
  }

  function SecondHalf(k: Key): Key {
    var w0 := Add(k.w0, k.w7);
    var w1 := Sub(k.w1, Xor(w0, ShiftLeft(k.w7)));
    var w2 := Xor(k.w2, w1);
    var w3 := Add(k.w3, w2);
    var w4 := Sub(k.w4, Xor(w3, ShiftRight(w2)));
    var w5 := Xor(k.w5, w4);
    var w6 := Add(k.w6, w5);
    var w7 := Sub(k.w7, Xor(w6, 0x0123_4567_89AB_CDEF));
    Key(w0, w1, w2, w3, w4, w5, w6, w7)
  }

  function Schedule(k: Key): Key { SecondHalf(FirstHalf(k)) }

  /** The three passes with their schedules; the registers shift roles from one to the next. */
  function Passes(box: SBoxes, k: Key, s: State): State {
    var k2 := Schedule(k);
    var k3 := Schedule(k2);
    RotateBack(Pass(box, Nine, RotateBack(Pass(box, Seven, RotateBack(Pass(box, Five, s, k)), k2)), k3))
  }

  // ----- what the passes and the schedule lose: nothing -----

  /** Multiplication by the inverse of the odd multiplier modulo 2^64. */
  function Unscale(x: word, mul: Multiplier): word {
    match mul
    case Five => ByFiveBack(x)
    case Seven => BySevenBack(x)
    case Nine => ByNineBack(x)
  }

  function ByFiveBack(x: word): word { x * 0xCCCC_CCCC_CCCC_CCCD % WORDS }

  function BySevenBack(x: word): word { x * 0x6DB6_DB6D_B6DB_6DB7 % WORDS }

  function ByNineBack(x: word): word { x * 0x8E38_E38E_38E3_8E39 % WORDS }

  lemma ScaleIsBijective(x: word, mul: Multiplier)
    ensures Unscale(Scale(x, mul), mul) == x && Scale(Unscale(x, mul), mul) == x
  {
    hide ByFive;
    hide BySeven;
    hide ByNine;
    hide ByFiveBack;
    hide BySevenBack;
    hide ByNineBack;
    match mul
    case Five => TimesFive(x);
    case Seven => TimesSeven(x);
    case Nine => TimesNine(x);
  }

  lemma TimesFive(x: word)
    ensures ByFiveBack(ByFive(x)) == x && ByFive(ByFiveBack(x)) == x
  {
    ProductUndone(x, 5, 0xCCCC_CCCC_CCCC_CCCD, 4);
  }

  lemma TimesSeven(x: word)
    ensures BySevenBack(BySeven(x)) == x && BySeven(BySevenBack(x)) == x
  {
    ProductUndone(x, 7, 0x6DB6_DB6D_B6DB_6DB7, 3);
  }

  lemma TimesNine(x: word)
    ensures ByNineBack(ByNine(x)) == x && ByNine(ByNineBack(x)) == x
  {
    ProductUndone(x, 9, 0x8E38_E38E_38E3_8E39, 5);
  }

  lemma ProductUndone(x: word, m: nat, c: nat, k: nat)
    requires m * c == k * WORDS + 1
    ensures x * m % WORDS * c % WORDS == x && x * c % WORDS * m % WORDS == x
  {
    OneProductUndone(x, m, c, k);
    OneProductUndone(x, c, m, k);
  }

  lemma OneProductUndone(x: word, m: nat, c: nat, k: nat)
    requires m * c == k * WORDS + 1
    ensures x * m % WORDS * c % WORDS == x
  {
    var q, r := x * m / WORDS, x * m % WORDS;
    calc {
      r * c;
      (x * m - q * WORDS) * c;
      x * m * c - q * WORDS * c;
      { assert x * m * c == x * (m * c); }
      x * (k * WORDS + 1) - q * WORDS * c;
      x + (x * k - q * c) * WORDS;
    }
    WrapsTo(r * c, x, x * k - q * c);
  }

  lemma WrapsTo(v: int, x: word, t: int)
    requires v == x + t * WORDS
    ensures v % WORDS == x
  {}

  function Unround(box: SBoxes, mul: Multiplier, s: State, x: word): State {
    State(Add(s.a, EvenBytes(box, s.c)), Sub(Unscale(s.b, mul), OddBytes(box, s.c)), Xor(s.c, x))
  }

  lemma AddXorUndone()
    ensures forall x, y :: Add(Sub(x, y), y) == x && Sub(Add(x, y), y) == x && Xor(Xor(x, y), y) == x
  {
    hide Add;
    hide Sub;
    hide Xor;
    forall x, y ensures Add(Sub(x, y), y) == x && Sub(Add(x, y), y) == x && Xor(Xor(x, y), y) == x {
      WordUndone(x, y);
    }
  }

  lemma WordUndone(x: word, y: word)
    ensures Add(Sub(x, y), y) == x && Sub(Add(x, y), y) == x && Xor(Xor(x, y), y) == x
  {
    WordsIsPow2();
    hide Pow2;
    hide XorBits;
    XorUndone(x, y, 64);
  }

  lemma {:induction false} XorUndone(x: nat, y: nat, n: nat)
    requires x < Pow2(n)
    ensures XorBits(XorBits(x, y, n), y, n) == x
  {
    if n > 0 {
      var rest := XorBits(x / 2, y / 2, n - 1);
      XorUndone(x / 2, y / 2, n - 1);
      LowBitUndone(x, y, rest);
      XorStep(x, y, n);
      XorStep((x + y) % 2 + 2 * rest, y, n);
      hide XorBits;
    }
  }

  lemma XorStep(x: nat, y: nat, n: nat)
    requires n > 0
    ensures XorBits(x, y, n) == (x + y) % 2 + 2 * XorBits(x / 2, y / 2, n - 1)
  {}

  lemma LowBitUndone(x: nat, y: nat, rest: nat)
    ensures var r := (x + y) % 2 + 2 * rest; r / 2 == rest && (r + y) % 2 == x % 2
  {}

  lemma RoundIsBijective(box: SBoxes, mul: Multiplier, s: State, x: word)
    ensures Unround(box, mul, Round(box, mul, s, x), x) == s
    ensures Round(box, mul, Unround(box, mul, s, x), x) == s
  {
    AddXorUndone();
    hide Add;
    hide Sub;
    hide Xor;
    hide Scale;
    hide Unscale;
    hide EvenBytes;
    hide OddBytes;
    ScaleIsBijective(Add(s.b, OddBytes(box, Xor(s.c, x))), mul);
    ScaleIsBijective(s.b, mul);
  }

  function Unturn(box: SBoxes, mul: Multiplier, s: State, x: word): State { Unround(box, mul, RotateBack(s), x) }

  lemma TurnIsBijective(box: SBoxes, mul: Multiplier, s: State, x: word)
    ensures Unturn(box, mul, Turn(box, mul, s, x), x) == s
    ensures Turn(box, mul, Unturn(box, mul, s, x), x) == s
  {
    RoundIsBijective(box, mul, s, x);
    RoundIsBijective(box, mul, RotateBack(s), x);
    hide Round;
    hide Unround;
  }

  function Unturns4(box: SBoxes, mul: Multiplier, s: State, x0: word, x1: word, x2: word, x3: word): State {
    Unturn(box, mul, Unturn(box, mul, Unturn(box, mul, Unturn(box, mul, s, x3), x2), x1), x0)
  }

  lemma Turns4IsBijective(box: SBoxes, mul: Multiplier, s: State, x0: word, x1: word, x2: word, x3: word)
    ensures Unturns4(box, mul, Turns4(box, mul, s, x0, x1, x2, x3), x0, x1, x2, x3) == s
    ensures Turns4(box, mul, Unturns4(box, mul, s, x0, x1, x2, x3), x0, x1, x2, x3) == s
  {
    hide Turn;
    hide Unturn;
    var s1 := Turn(box, mul, s, x0);
    var s2 := Turn(box, mul, s1, x1);
    var s3 := Turn(box, mul, s2, x2);
    TurnIsBijective(box, mul, s, x0);
    TurnIsBijective(box, mul, s1, x1);
    TurnIsBijective(box, mul, s2, x2);
    TurnIsBijective(box, mul, s3, x3);
    var u1 := Unturn(box, mul, s, x3);
    var u2 := Unturn(box, mul, u1, x2);
    var u3 := Unturn(box, mul, u2, x1);
    TurnIsBijective(box, mul, u1, x2);
    TurnIsBijective(box, mul, u2, x1);
    TurnIsBijective(box, mul, u3, x0);
    TurnIsBijective(box, mul, s, x3);
  }

  function Unpass(box: SBoxes, mul: Multiplier, s: State, k: Key): State {
    Unturns4(box, mul, Unturns4(box, mul, RotateBack(s), k.w4, k.w5, k.w6, k.w7), k.w0, k.w1, k.w2, k.w3)
  }

  lemma PassIsBijective(box: SBoxes, mul: Multiplier, s: State, k: Key)
    ensures Unpass(box, mul, Pass(box, mul, s, k), k) == s
    ensures Pass(box, mul, Unpass(box, mul, s, k), k) == s
  {
    hide Turns4;
    hide Unturns4;
    var half := Turns4(box, mul, s, k.w0, k.w1, k.w2, k.w3);
    Turns4IsBijective(box, mul, s, k.w0, k.w1, k.w2, k.w3);
    Turns4IsBijective(box, mul, half, k.w4, k.w5, k.w6, k.w7);
    var back := Unturns4(box, mul, RotateBack(s), k.w4, k.w5, k.w6, k.w7);
    Turns4IsBijective(box, mul, RotateBack(s), k.w4, k.w5, k.w6, k.w7);
    Turns4IsBijective(box, mul, back, k.w0, k.w1, k.w2, k.w3);
  }

  function Unpasses(box: SBoxes, k: Key, s: State): State {
    var k2 := Schedule(k);
    var k3 := Schedule(k2);
    Unpass(box, Five, Rotate(Unpass(box, Seven, Rotate(Unpass(box, Nine, Rotate(s), k3)), k2)), k)
  }

  /** For a fixed block and any S-boxes the three passes are a bijection of the 192-bit state. */
  lemma PassesAreBijective(box: SBoxes, k: Key, s: State)
    ensures Unpasses(box, k, Passes(box, k, s)) == s
    ensures Passes(box, k, Unpasses(box, k, s)) == s
  {
    hide Pass;
    hide Unpass;
    hide Schedule;
    var k2 := Schedule(k);
    var k3 := Schedule(k2);
    var s1 := Pass(box, Five, s, k);
    var s2 := Pass(box, Seven, RotateBack(s1), k2);
    PassIsBijective(box, Five, s, k);
    PassIsBijective(box, Seven, RotateBack(s1), k2);
    PassIsBijective(box, Nine, RotateBack(s2), k3);
    var u1 := Unpass(box, Nine, Rotate(s), k3);
    var u2 := Unpass(box, Seven, Rotate(u1), k2);
    PassIsBijective(box, Nine, Rotate(s), k3);
    PassIsBijective(box, Seven, Rotate(u1), k2);
    PassIsBijective(box, Five, Rotate(u2), k);
  }

  function FirstHalfBack(k: Key): Key {
    var w7 := Xor(k.w7, k.w6);
    var w6 := Add(k.w6, Xor(k.w5, ShiftRight(k.w4)));
    var w5 := Sub(k.w5, k.w4);
    var w4 := Xor(k.w4, k.w3);
    var w3 := Add(k.w3, Xor(k.w2, ShiftLeft(k.w1)));
    var w2 := Sub(k.w2, k.w1);
    var w1 := Xor(k.w1, k.w0);
    var w0 := Add(k.w0, Xor(w7, 0xA5A5_A5A5_A5A5_A5A5));
    Key(w0, w1, w2, w3, w4, w5, w6, w7)
  }

  function SecondHalfBack(k: Key): Key {
    var w7 := Add(k.w7, Xor(k.w6, 0x0123_4567_89AB_CDEF));
    var w6 := Sub(k.w6, k.w5);
    var w5 := Xor(k.w5, k.w4);
    var w4 := Add(k.w4, Xor(k.w3, ShiftRight(k.w2)));
    var w3 := Sub(k.w3, k.w2);
    var w2 := Xor(k.w2, k.w1);
    var w1 := Add(k.w1, Xor(k.w0, ShiftLeft(w7)));
    var w0 := Sub(k.w0, w7);
    Key(w0, w1, w2, w3, w4, w5, w6, w7)
  }

  function Unschedule(k: Key): Key { FirstHalfBack(SecondHalfBack(k)) }

  lemma FirstHalfIsBijective(k: Key)
    ensures FirstHalfBack(FirstHalf(k)) == k && FirstHalf(FirstHalfBack(k)) == k
  {
    AddXorUndone();
    hide Add;
    hide Sub;
    hide Xor;
    hide ShiftLeft;
    hide ShiftRight;
  }

  lemma SecondHalfIsBijective(k: Key)
    ensures SecondHalfBack(SecondHalf(k)) == k && SecondHalf(SecondHalfBack(k)) == k
  {
    AddXorUndone();
    hide Add;
    hide Sub;
    hide Xor;
    hide ShiftLeft;
    hide ShiftRight;
  }

  /** The key schedule is a bijection of the eight words. */
  lemma ScheduleIsBijective(k: Key)
    ensures Unschedule(Schedule(k)) == k && Schedule(Unschedule(k)) == k
  {
    hide FirstHalf;
    hide SecondHalf;
    hide FirstHalfBack;
    hide SecondHalfBack;
    FirstHalfIsBijective(k);
    SecondHalfIsBijective(FirstHalf(k));
    SecondHalfIsBijective(k);
    FirstHalfIsBijective(SecondHalfBack(k));
  }

  // ----- one block -----

  type Block = b: seq<byte> | |b| == 64 witness seq(64, _ => 0)

  /** The number written by `b`, least significant byte first. */
  function LittleEndian(b: seq<byte>): (r: nat)
    ensures r < Pow2(8 * |b|)
  {
    if b == [] then 0
    else
      Pow2Adds(8, 8 * (|b| - 1));
      var first: nat := b[0];
      assert Pow2(8) == 0x100;
      first + 0x100 * LittleEndian(b[1..])
  }

  /** The low `n` bytes of `w`, least significant first. */
  function BytesOf(w: nat, n: nat): (b: seq<byte>)
    ensures |b| == n
  {
    if n == 0 then [] else [w % 0x100] + BytesOf(w / 0x100, n - 1)
  }

  lemma {:induction false} BytesRoundTrip(w: nat, n: nat)
    requires w < Pow2(8 * n)
    ensures LittleEndian(BytesOf(w, n)) == w
  {
    if n > 0 {
      Pow2Adds(8, 8 * (n - 1));
      assert Pow2(8) == 0x100;
      BytesRoundTrip(w / 0x100, n - 1);
    }
  }

  /** Eight bytes read as a word. */
  function LoadWord(b: seq<byte>): word
    requires |b| == 8
  {
    WordsIsPow2();
    LittleEndian(b)
  }

  function KeyOf(b: Block): Key {
    Key(LoadWord(b[0..8]), LoadWord(b[8..16]), LoadWord(b[16..24]), LoadWord(b[24..32]),
        LoadWord(b[32..40]), LoadWord(b[40..48]), LoadWord(b[48..56]), LoadWord(b[56..64]))
  }

  /** The state after one block. */
  function Compress(box: SBoxes, s: State, b: Block): State {
    var r := Passes(box, KeyOf(b), s);
    State(Xor(r.a, s.a), Sub(r.b, s.b), Add(r.c, s.c))
  }

  /** The three words of a result in memory. */
  function StateOf(res: array<word>): State
    requires res.Length == 3
    reads res
  {
    State(res[0], res[1], res[2])
  }

  method TRound(box: SBoxes, mul: Multiplier, ra: word, rb: word, rc: word, x: word) returns (a: word, b: word, c: word)
    ensures State(a, b, c) == Round(box, mul, State(ra, rb, rc), x)
  {
    a, b, c := ra, rb, rc;
    c := Xor(c, x);
    a := Sub(a, EvenBytes(box, c));
    b := Add(b, OddBytes(box, c));
    b := Scale(b, mul);
  }

  method PassRegisters(box: SBoxes, ra: word, rb: word, rc: word, mul: Multiplier, k: Key) returns (a: word, b: word, c: word)
    ensures State(a, b, c) == Pass(box, mul, State(ra, rb, rc), k)
  {
    hide Round;
    a, b, c := ra, rb, rc;
    a, b, c := TRound(box, mul, a, b, c, k.w0);
    b, c, a := TRound(box, mul, b, c, a, k.w1);
    c, a, b := TRound(box, mul, c, a, b, k.w2);
    a, b, c := TRound(box, mul, a, b, c, k.w3);
    b, c, a := TRound(box, mul, b, c, a, k.w4);
    c, a, b := TRound(box, mul, c, a, b, k.w5);
    a, b, c := TRound(box, mul, a, b, c, k.w6);
    b, c, a := TRound(box, mul, b, c, a, k.w7);
  }

  method KeySchedule(k: Key) returns (r: Key)
    ensures r == Schedule(k)
  {
    var i0, i1, i2, i3, i4, i5, i6, i7 := k.w0, k.w1, k.w2, k.w3, k.w4, k.w5, k.w6, k.w7;
    i0 := Sub(i0, Xor(i7, 0xA5A5_A5A5_A5A5_A5A5));
    i1 := Xor(i1, i0);
    i2 := Add(i2, i1);
    i3 := Sub(i3, Xor(i2, ShiftLeft(i1)));
    i4 := Xor(i4, i3);
    i5 := Add(i5, i4);
    i6 := Sub(i6, Xor(i5, ShiftRight(i4)));
    i7 := Xor(i7, i6);
    i0 := Add(i0, i7);
    i1 := Sub(i1, Xor(i0, ShiftLeft(i7)));
    i2 := Xor(i2, i1);
    i3 := Add(i3, i2);
    i4 := Sub(i4, Xor(i3, ShiftRight(i2)));
    i5 := Xor(i5, i4);
    i6 := Add(i6, i5);
    i7 := Sub(i7, Xor(i6, 0x0123_4567_89AB_CDEF));
    r := Key(i0, i1, i2, i3, i4, i5, i6, i7);
  }

  method TigerBlock(box: SBoxes, input: Block, res: array<word>)
    requires res.Length == 3
    modifies res
    ensures StateOf(res) == Compress(box, old(StateOf(res)), input)
  {
    hide Pass;
    hide Schedule;
    hide KeyOf;
    var k := KeyOf(input);
    var r0, r1, r2 := res[0], res[1], res[2];
    r0, r1, r2 := PassRegisters(box, r0, r1, r2, Five, k);
    k := KeySchedule(k);
    r2, r0, r1 := PassRegisters(box, r2, r0, r1, Seven, k);
    k := KeySchedule(k);
    r1, r2, r0 := PassRegisters(box, r1, r2, r0, Nine, k);
    res[0] := Xor(r0, res[0]);
    res[1] := Sub(r1, res[1]);
    res[2] := Add(r2, res[2]);
  }

  // ----- two blocks side by side -----

  /** A 128-bit register: the first input in the low half, the second in the high half. */
  datatype Lanes = Lanes(low: word, high: word)

  function AddLanes(x: Lanes, y: Lanes): Lanes { Lanes(Add(x.low, y.low), Add(x.high, y.high)) }

  function SubLanes(x: Lanes, y: Lanes): Lanes { Lanes(Sub(x.low, y.low), Sub(x.high, y.high)) }

  function XorLanes(x: Lanes, y: Lanes): Lanes { Lanes(Xor(x.low, y.low), Xor(x.high, y.high)) }

  function Both(x: word): Lanes { Lanes(x, x) }

  function ShiftLeftLanes(x: Lanes): Lanes { Lanes(ShiftLeft(x.low), ShiftLeft(x.high)) }

  function ShiftRightLanes(x: Lanes): Lanes { Lanes(ShiftRight(x.low), ShiftRight(x.high)) }

  datatype KeyLanes = KeyLanes(w0: Lanes, w1: Lanes, w2: Lanes, w3: Lanes, w4: Lanes, w5: Lanes, w6: Lanes, w7: Lanes)
  {
    function Low(): Key { Key(w0.low, w1.low, w2.low, w3.low, w4.low, w5.low, w6.low, w7.low) }

    function High(): Key { Key(w0.high, w1.high, w2.high, w3.high, w4.high, w5.high, w6.high, w7.high) }
  }

  function Interleave(k1: Key, k2: Key): KeyLanes {
    KeyLanes(Lanes(k1.w0, k2.w0), Lanes(k1.w1, k2.w1), Lanes(k1.w2, k2.w2), Lanes(k1.w3, k2.w3),
             Lanes(k1.w4, k2.w4), Lanes(k1.w5, k2.w5), Lanes(k1.w6, k2.w6), Lanes(k1.w7, k2.w7))
  }

  method KeyScheduleSse2(k: KeyLanes) returns (r: KeyLanes)
    ensures r.Low() == Schedule(k.Low()) && r.High() == Schedule(k.High())
  {
    var i0, i1, i2, i3, i4, i5, i6, i7 := k.w0, k.w1, k.w2, k.w3, k.w4, k.w5, k.w6, k.w7;
    i0 := SubLanes(i0, XorLanes(i7, Both(0xA5A5_A5A5_A5A5_A5A5)));
    i1 := XorLanes(i1, i0);
    i2 := AddLanes(i2, i1);
    i3 := SubLanes(i3, XorLanes(i2, ShiftLeftLanes(i1)));
    i4 := XorLanes(i4, i3);
    i5 := AddLanes(i5, i4);
    i6 := SubLanes(i6, XorLanes(i5, ShiftRightLanes(i4)));
    i7 := XorLanes(i7, i6);
    i0 := AddLanes(i0, i7);
    i1 := SubLanes(i1, XorLanes(i0, ShiftLeftLanes(i7)));
    i2 := XorLanes(i2, i1);
    i3 := AddLanes(i3, i2);
    i4 := SubLanes(i4, XorLanes(i3, ShiftRightLanes(i2)));
    i5 := XorLanes(i5, i4);
    i6 := AddLanes(i6, i5);
    i7 := SubLanes(i7, XorLanes(i6, Both(0x0123_4567_89AB_CDEF)));
    r := KeyLanes(i0, i1, i2, i3, i4, i5, i6, i7);
  }

  method TRoundSse2(box: SBoxes, mul: Multiplier, s1: State, s2: State, x: Lanes) returns (t1: State, t2: State)
    ensures t1 == Turn(box, mul, s1, x.low) && t2 == Turn(box, mul, s2, x.high)
  {
    var c1 := Xor(s1.c, x.low);
    var c2 := Xor(s2.c, x.high);
    var a1 := Sub(s1.a, EvenBytes(box, c1));
    var a2 := Sub(s2.a, EvenBytes(box, c2));
    var b1 := Add(s1.b, OddBytes(box, c1));
    var b2 := Add(s2.b, OddBytes(box, c2));
    b1 := Scale(b1, mul);
    b2 := Scale(b2, mul);
    t1, t2 := Rotate(State(a1, b1, c1)), Rotate(State(a2, b2, c2));
  }

  method PassSse2(box: SBoxes, mul: Multiplier, s1: State, s2: State, k: KeyLanes) returns (t1: State, t2: State)
    ensures t1 == Pass(box, mul, s1, k.Low()) && t2 == Pass(box, mul, s2, k.High())
  {
    hide Turn;
    t1, t2 := TRoundSse2(box, mul, s1, s2, k.w0);
    t1, t2 := TRoundSse2(box, mul, t1, t2, k.w1);
    t1, t2 := TRoundSse2(box, mul, t1, t2, k.w2);
    t1, t2 := TRoundSse2(box, mul, t1, t2, k.w3);
    t1, t2 := TRoundSse2(box, mul, t1, t2, k.w4);
    t1, t2 := TRoundSse2(box, mul, t1, t2, k.w5);
    t1, t2 := TRoundSse2(box, mul, t1, t2, k.w6);
    t1, t2 := TRoundSse2(box, mul, t1, t2, k.w7);
    t1, t2 := Rotate(t1), Rotate(t2);
  }

  /** Two blocks through the shared key registers: the same as each block alone. */
  method TigerBlockSse2(box: SBoxes, in1: Block, in2: Block, res1: array<word>, res2: array<word>)
    requires res1.Length == 3 && res2.Length == 3 && res1 != res2
    modifies res1, res2
    ensures StateOf(res1) == Compress(box, old(StateOf(res1)), in1)
    ensures StateOf(res2) == Compress(box, old(StateOf(res2)), in2)
  {
    hide Pass;
    hide Schedule;
    hide KeyOf;
    var k := Interleave(KeyOf(in1), KeyOf(in2));
    var s1, s2 := StateOf(res1), StateOf(res2);
    s1, s2 := PassSse2(box, Five, s1, s2, k);
    k := KeyScheduleSse2(k);
    s1, s2 := PassSse2(box, Seven, RotateBack(s1), RotateBack(s2), k);
    k := KeyScheduleSse2(k);
    s1, s2 := PassSse2(box, Nine, RotateBack(s1), RotateBack(s2), k);
    s1, s2 := RotateBack(s1), RotateBack(s2);
    res1[0], res2[0] := Xor(s1.a, res1[0]), Xor(s2.a, res2[0]);
    res1[1], res2[1] := Sub(s1.b, res1[1]), Sub(s2.b, res2[1]);
    res1[2], res2[2] := Add(s1.c, res1[2]), Add(s2.c, res2[2]);
  }

  /** The form without SSE2: the same rounds by turns, each block with key registers of its own. */
  method TigerBlock2(box: SBoxes, in1: Block, in2: Block, res1: array<word>, res2: array<word>)
    requires res1.Length == 3 && res2.Length == 3 && res1 != res2
    modifies res1, res2
    ensures StateOf(res1) == Compress(box, old(StateOf(res1)), in1)
    ensures StateOf(res2) == Compress(box, old(StateOf(res2)), in2)
  {
    hide Pass;
    hide Schedule;
    hide KeyOf;
    var k1, k2 := KeyOf(in1), KeyOf(in2);
    var s1, s2 := StateOf(res1), StateOf(res2);
    s1, s2 := PassSse2(box, Five, s1, s2, Interleave(k1, k2));
    k1 := KeySchedule(k1);
    k2 := KeySchedule(k2);
    s1, s2 := PassSse2(box, Seven, RotateBack(s1), RotateBack(s2), Interleave(k1, k2));
    k1 := KeySchedule(k1);
    k2 := KeySchedule(k2);
    s1, s2 := PassSse2(box, Nine, RotateBack(s1), RotateBack(s2), Interleave(k1, k2));
    s1, s2 := RotateBack(s1), RotateBack(s2);
    res1[0], res2[0] := Xor(s1.a, res1[0]), Xor(s2.a, res2[0]);
    res1[1], res2[1] := Sub(s1.b, res1[1]), Sub(s2.b, res2[1]);
    res1[2], res2[2] := Add(s1.c, res1[2]), Add(s2.c, res2[2]);
  }
}
