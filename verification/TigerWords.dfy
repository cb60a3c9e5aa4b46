/**
 Words bit by bit and byte by byte: what the shifts, the exclusive or and the reading of bytes in
 tiger.c are, without their arithmetic.
 */
module TigerWords {
  import opened Basics
  import opened TigerCore

  // ----- bits -----

  /** Bit `k` of a number, the lowest being bit 0. */
  function Bit(x: nat, k: nat): (b: nat)
    ensures b < 2
  {
    if k == 0 then x % 2 else Bit(x / 2, k - 1)
  }

  lemma {:induction false} SameBitsSameNumber(x: nat, y: nat, n: nat)
    requires x < Pow2(n) && y < Pow2(n)
    requires forall k: nat :: k < n ==> Bit(x, k) == Bit(y, k)
    ensures x == y
  {
    if n > 0 {
      assert Bit(x, 0) == Bit(y, 0);
      forall k: nat | k < n - 1 ensures Bit(x / 2, k) == Bit(y / 2, k) {
        assert Bit(x, k + 1) == Bit(y, k + 1);
      }
      SameBitsSameNumber(x / 2, y / 2, n - 1);
    }
  }

  lemma {:induction false} BitBeyond(x: nat, n: nat, k: nat)
    requires x < Pow2(n) && n <= k
    ensures Bit(x, k) == 0
  {
    if k > 0 { BitBeyond(x / 2, if n == 0 then 0 else n - 1, k - 1); }
  }

  lemma {:induction false} BitOfComplement(x: nat, n: nat, k: nat)
    requires x < Pow2(n) && k < n
    ensures Bit(Pow2(n) - 1 - x, k) == 1 - Bit(x, k)
  {
    if k > 0 {
      assert (Pow2(n) - 1 - x) / 2 == Pow2(n - 1) - 1 - x / 2;
      BitOfComplement(x / 2, n - 1, k - 1);
    }
  }

  lemma {:induction false} BitOfProduct(x: nat, m: nat, k: nat)
    ensures Bit(x * Pow2(m), k) == if k < m then 0 else Bit(x, k - m)
  {
    if m > 0 {
      assert x * Pow2(m) == 2 * (x * Pow2(m - 1));
      if k > 0 { BitOfProduct(x, m - 1, k - 1); }
    }
  }

  lemma {:induction false} BitOfRest(q: nat, r: nat, n: nat, k: nat)
    requires r < Pow2(n) && k < n
    ensures Bit(r + Pow2(n) * q, k) == Bit(r, k)
  {
    var p := Pow2(n - 1) * q;
    assert Pow2(n) * q == 2 * p;
    if k > 0 { BitOfRest(q, r / 2, n - 1, k - 1); }
  }

  lemma {:induction false} BitOfQuotient(q: nat, r: nat, m: nat, k: nat)
    requires r < Pow2(m)
    ensures Bit(r + Pow2(m) * q, k + m) == Bit(q, k)
  {
    if m > 0 {
      var p := Pow2(m - 1) * q;
      assert Pow2(m) * q == 2 * p;
      BitOfQuotient(q, r / 2, m - 1, k);
    }
  }

  lemma QuotientIs(x: int, d: nat, q: int, r: int)
    requires d > 0 && x == d * q + r && 0 <= r < d
    ensures x / d == q && x % d == r
  {
    var t := x / d - q;
    assert d * (x / d) + x % d == x;
    assert d * t == r - x % d by { assert d * t == d * (x / d) - d * q; }
    NoMultipleBetween(d, t);
  }

  lemma NoMultipleBetween(d: int, t: int)
    requires -d < d * t < d
    ensures t == 0
  {
    if t >= 1 { MultipleGrows(d, t); }
    if t <= -1 { MultipleGrows(d, -t); }
  }

  lemma MultipleGrows(d: int, t: int)
    requires d >= 0 && t >= 1
    ensures d * t >= d
  {}

  /** Exclusive or goes bit by bit. */
  lemma {:induction false} BitOfXor(x: nat, y: nat, n: nat, k: nat)
    requires k < n
    ensures Bit(XorBits(x, y, n), k) == (Bit(x, k) + Bit(y, k)) % 2
  {
    if k > 0 { BitOfXor(x / 2, y / 2, n - 1, k - 1); }
  }

  lemma ShiftsArePowers()
    ensures Pow2(19) == 0x8_0000 && Pow2(23) == 0x80_0000 && Pow2(41) == 0x200_0000_0000
  {
    assert Pow2(3) == 2 * Pow2(2) == 4 * Pow2(1) == 8;
    assert Pow2(4) == 16 && Pow2(1) == 2;
    hide Pow2;
    Pow2Adds(4, 4);
    Pow2Adds(8, 8);
    Pow2Adds(16, 3);
    Pow2Adds(19, 4);
    Pow2Adds(23, 16);
    Pow2Adds(39, 1);
    Pow2Adds(40, 1);
  }

  /** Shifted left, a bit is the complement of the one 19 places below; the lowest 19 are 0. */
  lemma BitOfShiftLeft(x: word, k: nat)
    requires k < 64
    ensures Bit(ShiftLeft(x), k) == if k < 19 then 0 else 1 - Bit(x, k - 19)
  {
    WordsIsPow2();
    ShiftsArePowers();
    hide Pow2;
    hide Bit;
    var y: nat := (WORDS - 1 - x) * 0x8_0000;
    BitOfRest(y / WORDS, y % WORDS, 64, k);
    BitOfProduct(WORDS - 1 - x, 19, k);
    if k >= 19 { BitOfComplement(x, 64, k - 19); }
  }

  /** Shifted right, a bit is the complement of the one 23 places above; the highest 23 are 0. */
  lemma BitOfShiftRight(x: word, k: nat)
    requires k < 64
    ensures Bit(ShiftRight(x), k) == if k >= 41 then 0 else 1 - Bit(x, k + 23)
  {
    WordsIsPow2();
    ShiftsArePowers();
    hide Pow2;
    hide Bit;
    var y := WORDS - 1 - x;
    BitOfQuotient(y / 0x80_0000, y % 0x80_0000, 23, k);
    if k >= 41 {
      BitBeyond(WORDS - 1 - x, 64, k + 23);
    } else {
      BitOfComplement(x, 64, k + 23);
    }
  }

  lemma BitOfXorWord(x: word, y: word, k: nat)
    requires k < 64
    ensures Bit(Xor(x, y), k) == (Bit(x, k) + Bit(y, k)) % 2
  {
    BitOfXor(x, y, 64, k);
  }

  // ----- bytes -----

  /** The word with these bytes, the highest first. */
  function Bytes8(a7: byte, a6: byte, a5: byte, a4: byte, a3: byte, a2: byte, a1: byte, a0: byte): word {
    a0 + 0x100 * (a1 + 0x100 * (a2 + 0x100 * (a3 + 0x100 * (a4 + 0x100 * (a5 + 0x100 * (a6 + 0x100 * a7))))))
  }

  lemma LoadStep(b: seq<byte>, k: nat)
    requires k < |b|
    ensures LittleEndian(b[k..]) == b[k] + 0x100 * LittleEndian(b[k + 1..])
  {
    assert b[k..][1..] == b[k + 1..];
  }

  /** A word in memory: the byte written first is the lowest. */
  lemma LoadedBytes(b: seq<byte>)
    requires |b| == 8
    ensures LoadWord(b) == Bytes8(b[7], b[6], b[5], b[4], b[3], b[2], b[1], b[0])
  {
    assert LittleEndian(b[8..]) == 0;
    assert b[0..] == b;
    hide LittleEndian;
    LoadStep(b, 0);
    LoadStep(b, 1);
    LoadStep(b, 2);
    LoadStep(b, 3);
    LoadStep(b, 4);
    LoadStep(b, 5);
    LoadStep(b, 6);
    LoadStep(b, 7);
  }

  /** The bytes of a word, as its register is taken apart. */
  lemma BytesOfWord(a7: byte, a6: byte, a5: byte, a4: byte, a3: byte, a2: byte, a1: byte, a0: byte)
    ensures var w := Bytes8(a7, a6, a5, a4, a3, a2, a1, a0);
            && ByteOf(w, 0) == a0 && ByteOf(w, 1) == a1 && ByteOf(w, 2) == a2 && ByteOf(w, 3) == a3
            && ByteOf(w, 4) == a4 && ByteOf(w, 5) == a5 && ByteOf(w, 6) == a6 && ByteOf(w, 7) == a7
  {
    var h7: nat := a7;
    var h6 := a6 + 0x100 * h7;
    var h5 := a5 + 0x100 * h6;
    var h4 := a4 + 0x100 * h5;
    var h3 := a3 + 0x100 * h4;
    var h2 := a2 + 0x100 * h3;
    var h1 := a1 + 0x100 * h2;
    var h0 := a0 + 0x100 * h1;
    assert Bytes8(a7, a6, a5, a4, a3, a2, a1, a0) == h0;
    hide Bytes8;
    QuotientIs(h0, 0x100, h1, a0);
    QuotientIs(h0, 0x1_0000, h2, a0 + 0x100 * a1);
    QuotientIs(h1, 0x100, h2, a1);
    QuotientIs(h2, 0x100, h3, a2);
    QuotientIs(h3, 0x100, h4, a3);
    QuotientIs(h4, 0x100, h5, a4);
    QuotientIs(h5, 0x100, h6, a5);
    QuotientIs(h6, 0x100, h7, a6);
    QuotientIs(h0, 0x100_0000, h3, a0 + 0x100 * a1 + 0x1_0000 * a2);
    QuotientIs(h0, 0x1_0000_0000, h4, a0 + 0x100 * a1 + 0x1_0000 * a2 + 0x100_0000 * a3);
    QuotientIs(h0, 0x100_0000_0000, h5, a0 + 0x100 * a1 + 0x1_0000 * a2 + 0x100_0000 * a3 + 0x1_0000_0000 * a4);
    QuotientIs(h0, 0x1_0000_0000_0000, h6,
               a0 + 0x100 * a1 + 0x1_0000 * a2 + 0x100_0000 * a3 + 0x1_0000_0000 * a4 + 0x100_0000_0000 * a5);
    QuotientIs(h0, 0x100_0000_0000_0000, h7,
               a0 + 0x100 * a1 + 0x1_0000 * a2 + 0x100_0000 * a3 + 0x1_0000_0000 * a4 + 0x100_0000_0000 * a5
               + 0x1_0000_0000_0000 * a6);
  }

  // ----- exclusive or by bytes -----

  function ByteIs(p: bv8): byte { p as nat }

  function Half(p: bv8): bv8 { p >> 1 }

  function BvXor(p: bv8, q: bv8): bv8 { p ^ q }

  lemma HalfOfBits(p: bv8)
    ensures ByteIs(Half(p)) == ByteIs(p) / 2
  {}

  lemma LowBit(p: bv8)
    ensures ByteIs(p & 1) == ByteIs(p) % 2
  {}

  lemma LowBitOfXor(p: bv8, q: bv8)
    ensures ByteIs(BvXor(p, q) & 1) == (ByteIs(p & 1) + ByteIs(q & 1)) % 2
  {
    assert (p ^ q) & 1 == if p & 1 == q & 1 then 0 else 1;
    assert (p & 1 == 0 || p & 1 == 1) && (q & 1 == 0 || q & 1 == 1);
  }

  lemma HalfOfXor(p: bv8, q: bv8)
    ensures BvXor(Half(p), Half(q)) == Half(BvXor(p, q))
  {}

  lemma ParityOfXor(p: bv8, q: bv8)
    ensures (ByteIs(p) + ByteIs(q)) % 2 == ByteIs(BvXor(p, q)) % 2
  {
    LowBit(p);
    LowBit(q);
    LowBit(BvXor(p, q));
    LowBitOfXor(p, q);
    hide ByteIs;
    hide BvXor;
    ParityOfSum(ByteIs(p), ByteIs(q));
  }

  lemma ParityOfSum(x: nat, y: nat)
    ensures (x + y) % 2 == (x % 2 + y % 2) % 2
  {}

  lemma {:induction false} XorOfByte(p: bv8, q: bv8, n: nat)
    requires ByteIs(p) < Pow2(n) && ByteIs(q) < Pow2(n)
    ensures XorBits(ByteIs(p), ByteIs(q), n) == ByteIs(BvXor(p, q))
  {
    if n > 0 {
      hide ByteIs;
      hide Half;
      hide BvXor;
      HalfOfBits(p);
      HalfOfBits(q);
      HalfOfBits(BvXor(p, q));
      HalfOfXor(p, q);
      ParityOfXor(p, q);
      HalfBelow(ByteIs(p), n);
      HalfBelow(ByteIs(q), n);
      XorOfByte(Half(p), Half(q), n - 1);
    } else {
      NothingXor(p, q);
    }
  }

  lemma NothingXor(p: bv8, q: bv8)
    requires ByteIs(p) == 0 == ByteIs(q)
    ensures ByteIs(BvXor(p, q)) == 0
  {
    assert p == 0 && q == 0;
  }

  lemma HalfBelow(x: nat, n: nat)
    requires n > 0 && x < Pow2(n)
    ensures x / 2 < Pow2(n - 1)
  {}

  lemma LowestBit(p: nat, a: nat)
    requires a < 2
    ensures (2 * p + a) / 2 == p && (2 * p + a) % 2 == a
  {}

  lemma LowestOfSum(p: nat, q: nat, a: nat, b: nat)
    requires a < 2 && b < 2
    ensures (2 * p + a + (2 * q + b)) % 2 == if a == b then 0 else 1
  {
    if a == 1 && b == 1 {
      LowestBit(p + q + 1, 0);
    } else {
      LowestBit(p + q, a + b);
    }
  }

  lemma XorOfDoubles(p: nat, q: nat, a: nat, b: nat, n: nat)
    requires a < 2 && b < 2
    ensures XorBits(2 * p + a, 2 * q + b, n + 1) == (if a == b then 0 else 1) + 2 * XorBits(p, q, n)
  {
    hide *;
    var x, y := 2 * p + a, 2 * q + b;
    assert x / 2 == p && y / 2 == q && (x + y) % 2 == if a == b then 0 else 1 by {
      LowestBit(p, a);
      LowestBit(q, b);
      LowestOfSum(p, q, a, b);
    }
    XorStep(x, y, n + 1);
  }

  function Doubled(x: nat, m: nat): nat {
    if m == 0 then x else 2 * Doubled(x, m - 1)
  }

  lemma {:induction false} XorInParts(x: nat, y: nat, x0: nat, y0: nat, m: nat, n: nat)
    requires x0 < Pow2(m) && y0 < Pow2(m)
    ensures XorBits(x0 + Doubled(x, m), y0 + Doubled(y, m), m + n) == XorBits(x0, y0, m) + Doubled(XorBits(x, y, n), m)
  {
    if m > 0 {
      HalfBelow(x0, m);
      HalfBelow(y0, m);
      hide Pow2;
      hide XorBits;
      XorInParts(x, y, x0 / 2, y0 / 2, m - 1, n);
      XorOfHalves(x0, y0, Doubled(x, m - 1), Doubled(y, m - 1), Doubled(XorBits(x, y, n), m - 1), m, n);
    }
  }

  lemma XorOfHalves(x0: nat, y0: nat, x: nat, y: nat, r: nat, m: nat, n: nat)
    requires m > 0
    requires XorBits(x0 / 2 + x, y0 / 2 + y, m - 1 + n) == XorBits(x0 / 2, y0 / 2, m - 1) + r
    ensures XorBits(x0 + 2 * x, y0 + 2 * y, m + n) == XorBits(x0, y0, m) + 2 * r
  {
    hide *;
    XorPartsStep(x0 / 2, y0 / 2, x0 % 2, y0 % 2, x, y, r, m - 1, n);
  }

  lemma XorPartsStep(p: nat, q: nat, a: nat, b: nat, x: nat, y: nat, r: nat, m: nat, n: nat)
    requires a < 2 && b < 2
    requires XorBits(p + x, q + y, m + n) == XorBits(p, q, m) + r
    ensures XorBits(2 * p + a + 2 * x, 2 * q + b + 2 * y, m + n + 1) == XorBits(2 * p + a, 2 * q + b, m + 1) + 2 * r
  {
    XorOfDoubles(p + x, q + y, a, b, m + n);
    XorOfDoubles(p, q, a, b, m);
    hide *;
    assert 2 * (p + x) + a == 2 * p + a + 2 * x && 2 * (q + y) + b == 2 * q + b + 2 * y;
  }

  lemma DoubledBytes(x: nat)
    ensures Doubled(x, 8) == 0x100 * x
  {
    assert Doubled(x, 1) == 2 * x;
    assert Doubled(x, 2) == 4 * x;
    assert Doubled(x, 3) == 8 * x;
    assert Doubled(x, 4) == 0x10 * x;
    assert Doubled(x, 5) == 0x20 * x;
    assert Doubled(x, 6) == 0x40 * x;
    assert Doubled(x, 7) == 0x80 * x;
  }

  /** Exclusive or of numbers of one byte more. */
  lemma XorOfNextByte(p: bv8, q: bv8, x: nat, y: nat, n: nat)
    ensures XorBits(ByteIs(p) + 0x100 * x, ByteIs(q) + 0x100 * y, n + 8) == ByteIs(BvXor(p, q)) + 0x100 * XorBits(x, y, n)
  {
    assert Pow2(8) == 0x100 by { PowersOfBytes(); }
    hide Pow2;
    hide XorBits;
    hide ByteIs;
    hide BvXor;
    XorInParts(x, y, ByteIs(p), ByteIs(q), 8, n);
    DoubledBytes(x);
    DoubledBytes(y);
    DoubledBytes(XorBits(x, y, n));
    XorOfByte(p, q, 8);
  }

  lemma PowersOfBytes()
    ensures Pow2(8) == 0x100
  {
    assert Pow2(4) == 2 * Pow2(3) == 4 * Pow2(2) == 8 * Pow2(1) == 16;
    hide Pow2;
    Pow2Adds(4, 4);
  }

  /** Two bytes below a number, the higher first. */
  function OnTop(x: nat, a1: bv8, a0: bv8): nat { ByteIs(a0) + 0x100 * (ByteIs(a1) + 0x100 * x) }

  lemma XorOfTwo(x: nat, a1: bv8, a0: bv8, y: nat, b1: bv8, b0: bv8, n: nat)
    ensures XorBits(OnTop(x, a1, a0), OnTop(y, b1, b0), n + 16) == OnTop(XorBits(x, y, n), BvXor(a1, b1), BvXor(a0, b0))
  {
    hide XorBits;
    hide ByteIs;
    hide BvXor;
    hide Pow2;
    XorOfNextByte(a1, b1, x, y, n);
    XorOfNextByte(a0, b0, ByteIs(a1) + 0x100 * x, ByteIs(b1) + 0x100 * y, n + 8);
  }

  /** The word made of these bit vectors, the highest first. */
  function Word8(a7: bv8, a6: bv8, a5: bv8, a4: bv8, a3: bv8, a2: bv8, a1: bv8, a0: bv8): word {
    Bytes8(ByteIs(a7), ByteIs(a6), ByteIs(a5), ByteIs(a4), ByteIs(a3), ByteIs(a2), ByteIs(a1), ByteIs(a0))
  }

  lemma WordInPairs(a7: bv8, a6: bv8, a5: bv8, a4: bv8, a3: bv8, a2: bv8, a1: bv8, a0: bv8)
    ensures Word8(a7, a6, a5, a4, a3, a2, a1, a0) == OnTop(OnTop(OnTop(OnTop(0, a7, a6), a5, a4), a3, a2), a1, a0)
  {
    hide ByteIs;
    hide BvXor;
  }

  lemma XorOfWords(a7: bv8, a6: bv8, a5: bv8, a4: bv8, a3: bv8, a2: bv8, a1: bv8, a0: bv8,
                   b7: bv8, b6: bv8, b5: bv8, b4: bv8, b3: bv8, b2: bv8, b1: bv8, b0: bv8)
    ensures Xor(Word8(a7, a6, a5, a4, a3, a2, a1, a0), Word8(b7, b6, b5, b4, b3, b2, b1, b0))
         == Word8(BvXor(a7, b7), BvXor(a6, b6), BvXor(a5, b5), BvXor(a4, b4),
                  BvXor(a3, b3), BvXor(a2, b2), BvXor(a1, b1), BvXor(a0, b0))
  {
    NoBits();
    hide XorBits;
    hide OnTop;
    hide Word8;
    hide Pow2;
    hide BvXor;
    WordInPairs(a7, a6, a5, a4, a3, a2, a1, a0);
    WordInPairs(b7, b6, b5, b4, b3, b2, b1, b0);
    WordInPairs(BvXor(a7, b7), BvXor(a6, b6), BvXor(a5, b5), BvXor(a4, b4),
                BvXor(a3, b3), BvXor(a2, b2), BvXor(a1, b1), BvXor(a0, b0));
    var x6, y6 := OnTop(0, a7, a6), OnTop(0, b7, b6);
    var x4, y4 := OnTop(x6, a5, a4), OnTop(y6, b5, b4);
    var x2, y2 := OnTop(x4, a3, a2), OnTop(y4, b3, b2);
    XorOfTwo(0, a7, a6, 0, b7, b6, 0);
    XorOfTwo(x6, a5, a4, y6, b5, b4, 16);
    XorOfTwo(x4, a3, a2, y4, b3, b2, 32);
    XorOfTwo(x2, a1, a0, y2, b1, b0, 48);
  }

  lemma NoBits()
    ensures XorBits(0, 0, 0) == 0
  {}

  lemma XorWithZero(p: bv8)
    ensures BvXor(p, 0) == p && BvXor(0, p) == p && BvXor(0, 0) == 0
  {}

  lemma XorCommutes(p: bv8, q: bv8)
    ensures BvXor(p, q) == BvXor(q, p)
  {}
}
