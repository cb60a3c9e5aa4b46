/**
 Tiger over byte strings (tiger.c, tiger.cpp): one definition, pad and fold the blocks, and the
 program's ways of computing it piece by piece.
 */
module TigerHash {
  import opened Basics
  import opened TigerCore

  type Bytes = seq<byte>

  /** What `tiger_file` and `tiger_data` pad with. */
  const TIGER_PADDING: byte := 0x80

  const INITIAL: State := State(0x0123_4567_89AB_CDEF, 0xFEDC_BA98_7654_3210, 0xF096_A5B4_C3B2_E187)

  function Zeros(n: nat): Bytes { seq(n, _ => 0) }

  predicate Whole(n: int) { n % 64 == 0 }

  lemma WholeAdds(a: int, b: int)
    requires Whole(a) && Whole(b)
    ensures Whole(a + b)
  {}

  lemma RoundedDown(n: nat)
    ensures 0 <= n - n % 64 <= n < n - n % 64 + 64 && Whole(n - n % 64)
  {}

  /** The state after the whole blocks of `b`; what is left over counts for nothing. */
  function Fold(box: SBoxes, s: State, b: Bytes): State
    decreases |b|
  {
    if |b| < 64 then s else Fold(box, Compress(box, s, b[..64]), b[64..])
  }

  /** The message length in bits as it is stored, modulo 2^64. */
  function LengthBytes(total: nat): (b: Bytes)
    ensures |b| == 8
  {
    BytesOf(total * 8 % WORDS, 8)
  }

  /**
   The pad byte, zeros up to 56 modulo 64 and the bit length (sections 3.1 and 3.2 of RFC 1320):
   `tail` counts the bytes already in the last block, `total` the bytes of the message.
   */
  function Padding(tail: nat, total: nat, pad: byte): (b: Bytes)
    ensures Whole(tail + |b|)
  {
    PaddedIsWhole(tail);
    [pad] + Zeros((55 - tail) % 64) + LengthBytes(total)
  }

  function Hash(box: SBoxes, message: Bytes, pad: byte): State {
    Fold(box, INITIAL, message + Padding(|message|, |message|, pad))
  }

  lemma PaddedIsWhole(n: nat)
    ensures Whole(n + 1 + (55 - n) % 64 + 8)
  {}

  lemma {:induction false} FoldAppend(box: SBoxes, s: State, a: Bytes, b: Bytes)
    requires Whole(|a|)
    ensures Fold(box, s, a + b) == Fold(box, Fold(box, s, a), b)
    decreases |a|
  {
    hide Compress;
    if |a| < 64 {
      assert a + b == b;
    } else {
      assert (a + b)[..64] == a[..64] && (a + b)[64..] == a[64..] + b;
      FoldAppend(box, Compress(box, s, a[..64]), a[64..], b);
    }
  }

  lemma FoldNone(box: SBoxes, s: State)
    ensures Fold(box, s, []) == s
  {}

  lemma FoldOne(box: SBoxes, s: State, b: Block)
    ensures Fold(box, s, b) == Compress(box, s, b)
  {
    hide Compress;
    assert b[..64] == b && b[64..] == [];
  }

  /** Folding the whole blocks first and the padded rest later hashes the message. */
  lemma HashInTwoSteps(box: SBoxes, whole: Bytes, rest: Bytes, pad: byte)
    requires Whole(|whole|)
    ensures Hash(box, whole + rest, pad)
         == Fold(box, Fold(box, INITIAL, whole), rest + Padding(|rest|, |whole| + |rest|, pad))
  {
    hide Fold;
    var n := |whole| + |rest|;
    assert (55 - n) % 64 == (55 - |rest|) % 64;
    var last := rest + Padding(|rest|, n, pad);
    assert (whole + rest) + Padding(n, n, pad) == whole + last;
    FoldAppend(box, INITIAL, whole, last);
  }

  // ----- buffers -----

  method MemCopy(buffer: array<byte>, at: nat, source: Bytes, from: nat, n: nat)
    requires at + n <= buffer.Length && from + n <= |source|
    modifies buffer
    ensures buffer[..] == old(buffer[..at]) + source[from..from + n] + old(buffer[at + n..])
  {
    forall k | 0 <= k < n { buffer[at + k] := source[from + k]; }
  }

  method MemZero(buffer: array<byte>, at: nat, n: nat)
    requires at + n <= buffer.Length
    modifies buffer
    ensures buffer[..] == old(buffer[..at]) + Zeros(n) + old(buffer[at + n..])
  {
    forall k | 0 <= k < n { buffer[at + k] := 0; }
  }

  method Init(res: array<word>)
    requires res.Length == 3
    modifies res
    ensures StateOf(res) == INITIAL
  {
    res[0], res[1], res[2] := 0x0123_4567_89AB_CDEF, 0xFEDC_BA98_7654_3210, 0xF096_A5B4_C3B2_E187;
  }

  // ----- one lane -----

  /** Every whole block of the first `length` bytes. */
  method TigerChunk(box: SBoxes, str: Bytes, length: nat, res: array<word>)
    requires length <= |str| && res.Length == 3
    modifies res
    ensures StateOf(res) == Fold(box, old(StateOf(res)), str[..length - length % 64])
  {
    hide Compress;
    var end := length - length % 64;
    var pos := 0;
    ghost var start := StateOf(res);
    while pos < end
      invariant pos <= end && Whole(pos)
      invariant StateOf(res) == Fold(box, start, str[..pos])
    {
      TigerBlock(box, str[pos..pos + 64], res);
      FoldNext(box, start, str, pos);
      FoldOne(box, Fold(box, start, str[..pos]), str[pos..pos + 64]);
      pos := pos + 64;
    }
  }

  /** The rest of a message with the pad byte, zero-filled to a whole word. */
  function Aligned(rest: Bytes, pad: byte): (b: Bytes)
    requires |rest| < 64
    ensures |rest| < |b| <= 64 && |b| % 8 == 0
  {
    rest + [pad] + Zeros((7 - |rest|) % 8)
  }

  /** The block left to fill after the aligned bytes: a full one has been flushed. */
  function Started(rest: Bytes, pad: byte): (b: Bytes)
    requires |rest| < 64
    ensures |b| <= 56
  {
    if |Aligned(rest, pad)| == 64 then [] else Aligned(rest, pad)
  }

  function Flushed(rest: Bytes, pad: byte): (b: Bytes)
    requires |rest| < 64
    ensures Whole(|b|)
  {
    if |Aligned(rest, pad)| == 64 then Aligned(rest, pad) else []
  }

  function Finished(started: Bytes, total: nat): Block
    requires |started| <= 56
  {
    started + Zeros(56 - |started|) + LengthBytes(total)
  }

  lemma LastBlocks(rest: Bytes, total: nat, pad: byte)
    requires |rest| < 64
    ensures rest + Padding(|rest|, total, pad) == Flushed(rest, pad) + Finished(Started(rest, pad), total)
  {
    hide LengthBytes;
    var k := (7 - |rest|) % 8;
    if |Aligned(rest, pad)| < 64 {
      assert Zeros((55 - |rest|) % 64) == Zeros(k) + Zeros(56 - |Aligned(rest, pad)|);
    } else {
      assert Zeros((55 - |rest|) % 64) == Zeros(k) + Zeros(56);
    }
  }

  lemma FoldLastBlocks(box: SBoxes, s: State, rest: Bytes, total: nat, pad: byte)
    requires |rest| < 64
    ensures Fold(box, s, rest + Padding(|rest|, total, pad))
         == Compress(box, Fold(box, s, Flushed(rest, pad)), Finished(Started(rest, pad), total))
  {
    hide Compress;
    hide Flushed;
    hide Finished;
    LastBlocks(rest, total, pad);
    FoldAppend(box, s, Flushed(rest, pad), Finished(Started(rest, pad), total));
    FoldOne(box, Fold(box, s, Flushed(rest, pad)), Finished(Started(rest, pad), total));
  }

  /** The pad byte and zeros up to the next word, behind the first `i` bytes of the buffer. */
  method PadToWord(tmp: array<byte>, i0: nat, pad: byte) returns (i: nat)
    requires tmp.Length == 64 && i0 < 64
    modifies tmp
    ensures i == |Aligned(old(tmp[..i0]), pad)| && tmp[..i] == Aligned(old(tmp[..i0]), pad)
  {
    i := i0;
    tmp[i] := pad;
    i := i + 1;
    MemZero(tmp, i, (8 - i) % 8);
    i := i + (8 - i) % 8;
  }

  method FinishBlock(tmp: array<byte>, i: nat, realLength: nat)
    requires tmp.Length == 64 && i <= 56
    modifies tmp
    ensures tmp[..] == Finished(old(tmp[..i]), realLength)
  {
    hide LengthBytes;
    MemZero(tmp, i, 56 - i);
    MemCopy(tmp, 56, LengthBytes(realLength), 0, 8);
  }

  /** The padded rest of a message: one block or two. Of a longer text only the part behind whole blocks counts. */
  method TigerLastChunk(box: SBoxes, str: Bytes, length: nat, realLength: nat, res: array<word>, pad: byte)
    requires length % 64 <= |str| && res.Length == 3
    modifies res
    ensures StateOf(res) == Fold(box, old(StateOf(res)), str[..length % 64] + Padding(length % 64, realLength, pad))
  {
    hide Compress;
    hide Padding;
    hide Fold;
    hide Aligned;
    hide Finished;
    ghost var start := StateOf(res);
    var i := length % 64;
    FoldLastBlocks(box, start, str[..i], realLength, pad);
    FoldNone(box, start);
    var tmp := new byte[64];
    MemCopy(tmp, 0, str, 0, i);
    assert tmp[..i] == str[..i];
    i := PadToWord(tmp, i, pad);
    if i == 64 {
      assert tmp[..64] == tmp[..];
      TigerBlock(box, tmp[..], res);
      FoldOne(box, start, tmp[..]);
      i := 0;
    }
    FinishBlock(tmp, i, realLength);
    TigerBlock(box, tmp[..], res);
  }

  method Tiger(box: SBoxes, str: Bytes, res: array<word>, pad: byte)
    requires res.Length == 3
    modifies res
    ensures StateOf(res) == Hash(box, str, pad)
  {
    hide Fold;
    hide Padding;
    var procLength := |str| - |str| % 64;
    assert Whole(procLength) && procLength % 64 == 0;
    Init(res);
    TigerChunk(box, str, procLength, res);
    WholeRest(str[procLength..]);
    TigerLastChunk(box, str[procLength..], |str| - procLength, |str|, res, pad);
    HashInTwoSteps(box, str[..procLength], str[procLength..], pad);
    assert str[..procLength] + str[procLength..] == str;
  }

  lemma WholeRest(rest: Bytes)
    requires |rest| < 64
    ensures |rest| % 64 == |rest| && rest[..|rest| % 64] == rest
  {}

  // ----- two lanes -----

  /** The whole blocks of both strings, block by block side by side. */
  method TigerSse2Chunk(box: SBoxes, str1: Bytes, str2: Bytes, length: nat, res1: array<word>, res2: array<word>)
    requires length <= |str1| && length <= |str2| && Whole(length)
    requires res1.Length == 3 && res2.Length == 3 && res1 != res2
    modifies res1, res2
    ensures StateOf(res1) == Fold(box, old(StateOf(res1)), str1[..length])
    ensures StateOf(res2) == Fold(box, old(StateOf(res2)), str2[..length])
  {
    hide Compress;
    var pos := 0;
    ghost var start1, start2 := StateOf(res1), StateOf(res2);
    while pos < length
      invariant pos <= length && Whole(pos)
      invariant StateOf(res1) == Fold(box, start1, str1[..pos])
      invariant StateOf(res2) == Fold(box, start2, str2[..pos])
    {
      WholeAdds(pos, 64);
      TigerBlockSse2(box, str1[pos..pos + 64], str2[pos..pos + 64], res1, res2);
      FoldNext(box, start1, str1, pos);
      FoldNext(box, start2, str2, pos);
      FoldOne(box, Fold(box, start1, str1[..pos]), str1[pos..pos + 64]);
      FoldOne(box, Fold(box, start2, str2[..pos]), str2[pos..pos + 64]);
      pos := pos + 64;
    }
  }

  lemma FoldNext(box: SBoxes, s: State, str: Bytes, pos: nat)
    requires Whole(pos) && pos + 64 <= |str|
    ensures Fold(box, s, str[..pos + 64]) == Fold(box, Fold(box, s, str[..pos]), str[pos..pos + 64])
  {
    hide Compress;
    assert str[..pos + 64] == str[..pos] + str[pos..pos + 64];
    FoldAppend(box, s, str[..pos], str[pos..pos + 64]);
  }

  method TigerSse2LastChunk(box: SBoxes, str1: Bytes, str2: Bytes, length: nat, realLength1: nat, realLength2: nat,
                            res1: array<word>, res2: array<word>, pad: byte)
    requires length % 64 <= |str1| && length % 64 <= |str2|
    requires res1.Length == 3 && res2.Length == 3 && res1 != res2
    modifies res1, res2
    ensures var rest := length % 64;
            && StateOf(res1) == Fold(box, old(StateOf(res1)), str1[..rest] + Padding(rest, realLength1, pad))
            && StateOf(res2) == Fold(box, old(StateOf(res2)), str2[..rest] + Padding(rest, realLength2, pad))
  {
    hide Compress;
    hide Padding;
    hide Fold;
    hide Aligned;
    hide Finished;
    ghost var start1, start2 := StateOf(res1), StateOf(res2);
    var i := length % 64;
    ghost var rest1, rest2 := str1[..i], str2[..i];
    FoldLastBlocks(box, start1, rest1, realLength1, pad);
    FoldLastBlocks(box, start2, rest2, realLength2, pad);
    FoldNone(box, start1);
    FoldNone(box, start2);
    AlignedLength(rest1, rest2, pad);
    var tmp1 := new byte[64];
    var tmp2 := new byte[64];
    MemCopy(tmp1, 0, str1, 0, i);
    MemCopy(tmp2, 0, str2, 0, i);
    assert tmp1[..i] == rest1 && tmp2[..i] == rest2;
    i := PadToWord(tmp1, length % 64, pad);
    i := PadToWord(tmp2, length % 64, pad);
    if i == 64 {
      assert tmp1[..64] == tmp1[..] && tmp2[..64] == tmp2[..];
      TigerBlockSse2(box, tmp1[..], tmp2[..], res1, res2);
      FoldOne(box, start1, tmp1[..]);
      FoldOne(box, start2, tmp2[..]);
      i := 0;
    }
    FinishBlock(tmp1, i, realLength1);
    FinishBlock(tmp2, i, realLength2);
    TigerBlockSse2(box, tmp1[..], tmp2[..], res1, res2);
  }

  lemma AlignedLength(a: Bytes, b: Bytes, pad: byte)
    requires |a| == |b| < 64
    ensures |Aligned(a, pad)| == |Aligned(b, pad)|
  {}

  /** Two equally long messages at once. */
  method TigerSse2(box: SBoxes, str1: Bytes, str2: Bytes, res1: array<word>, res2: array<word>, pad: byte)
    requires |str1| == |str2| && res1.Length == 3 && res2.Length == 3 && res1 != res2
    modifies res1, res2
    ensures StateOf(res1) == Hash(box, str1, pad) && StateOf(res2) == Hash(box, str2, pad)
  {
    hide Fold;
    hide Padding;
    var length := |str1|;
    var aligned := length - length % 64;
    assert Whole(aligned);
    Init(res1);
    Init(res2);
    TigerSse2Chunk(box, str1, str2, aligned, res1, res2);
    WholeRest(str1[aligned..]);
    WholeRest(str2[aligned..]);
    TigerSse2LastChunk(box, str1[aligned..], str2[aligned..], length - aligned, length, length, res1, res2, pad);
    HashInTwoSteps(box, str1[..aligned], str1[aligned..], pad);
    HashInTwoSteps(box, str2[..aligned], str2[aligned..], pad);
    assert str1[..aligned] + str1[aligned..] == str1 && str2[..aligned] + str2[aligned..] == str2;
  }

  // ----- two lanes without SSE2 -----

  method Tiger2Chunk(box: SBoxes, str1: Bytes, str2: Bytes, length: nat, res1: array<word>, res2: array<word>)
    requires length <= |str1| && length <= |str2|
    requires res1.Length == 3 && res2.Length == 3 && res1 != res2
    modifies res1, res2
    ensures StateOf(res1) == Fold(box, old(StateOf(res1)), str1[..length - length % 64])
    ensures StateOf(res2) == Fold(box, old(StateOf(res2)), str2[..length - length % 64])
  {
    hide Compress;
    var end := length - length % 64;
    var pos := 0;
    ghost var start1, start2 := StateOf(res1), StateOf(res2);
    while pos < end
      invariant pos <= end && Whole(pos)
      invariant StateOf(res1) == Fold(box, start1, str1[..pos])
      invariant StateOf(res2) == Fold(box, start2, str2[..pos])
    {
      TigerBlock2(box, str1[pos..pos + 64], str2[pos..pos + 64], res1, res2);
      FoldNext(box, start1, str1, pos);
      FoldNext(box, start2, str2, pos);
      FoldOne(box, Fold(box, start1, str1[..pos]), str1[pos..pos + 64]);
      FoldOne(box, Fold(box, start2, str2[..pos]), str2[pos..pos + 64]);
      pos := pos + 64;
    }
  }

  /** The real lengths are not used: what is stored is the length of the last chunk. */
  method Tiger2LastChunk(box: SBoxes, str1: Bytes, str2: Bytes, length: nat, realLength1: nat, realLength2: nat,
                         res1: array<word>, res2: array<word>, pad: byte)
    requires length % 64 <= |str1| && length % 64 <= |str2|
    requires res1.Length == 3 && res2.Length == 3 && res1 != res2
    modifies res1, res2
    ensures var rest := length % 64;
            && StateOf(res1) == Fold(box, old(StateOf(res1)), str1[..rest] + Padding(rest, length, pad))
            && StateOf(res2) == Fold(box, old(StateOf(res2)), str2[..rest] + Padding(rest, length, pad))
  {
    hide Compress;
    hide Padding;
    hide Fold;
    hide Aligned;
    hide Finished;
    ghost var start1, start2 := StateOf(res1), StateOf(res2);
    var i := length % 64;
    ghost var rest1, rest2 := str1[..i], str2[..i];
    FoldLastBlocks(box, start1, rest1, length, pad);
    FoldLastBlocks(box, start2, rest2, length, pad);
    FoldNone(box, start1);
    FoldNone(box, start2);
    AlignedLength(rest1, rest2, pad);
    var tmp1 := new byte[64];
    var tmp2 := new byte[64];
    MemCopy(tmp1, 0, str1, 0, i);
    MemCopy(tmp2, 0, str2, 0, i);
    assert tmp1[..i] == rest1 && tmp2[..i] == rest2;
    i := PadToWord(tmp1, length % 64, pad);
    i := PadToWord(tmp2, length % 64, pad);
    if i == 64 {
      assert tmp1[..64] == tmp1[..] && tmp2[..64] == tmp2[..];
      TigerBlock2(box, tmp1[..], tmp2[..], res1, res2);
      FoldOne(box, start1, tmp1[..]);
      FoldOne(box, start2, tmp2[..]);
      i := 0;
    }
    FinishBlock(tmp1, i, length);
    FinishBlock(tmp2, i, length);
    TigerBlock2(box, tmp1[..], tmp2[..], res1, res2);
  }

  /** A message as the form without SSE2 pads it. */
  function PaddedByRest(message: Bytes, pad: byte): Bytes {
    message + Padding(|message| % 64, |message| % 64, pad)
  }

  /** Two equally long messages at once; the hashes are those of the messages if these are short. */
  method Tiger2(box: SBoxes, str1: Bytes, str2: Bytes, res1: array<word>, res2: array<word>, pad: byte)
    requires |str1| == |str2| && res1.Length == 3 && res2.Length == 3 && res1 != res2
    modifies res1, res2
    ensures Whole(|PaddedByRest(str1, pad)|) && Whole(|PaddedByRest(str2, pad)|)
    ensures StateOf(res1) == Fold(box, INITIAL, PaddedByRest(str1, pad))
    ensures StateOf(res2) == Fold(box, INITIAL, PaddedByRest(str2, pad))
    ensures |str1| < 64 ==> StateOf(res1) == Hash(box, str1, pad) && StateOf(res2) == Hash(box, str2, pad)
  {
    hide Fold;
    hide Padding;
    var length := |str1|;
    var aligned := length - length % 64;
    Init(res1);
    Init(res2);
    Tiger2Chunk(box, str1, str2, aligned, res1, res2);
    WholeRest(str1[aligned..]);
    WholeRest(str2[aligned..]);
    Tiger2LastChunk(box, str1[aligned..], str2[aligned..], length - aligned, length, length, res1, res2, pad);
    FoldInTwoSteps(box, str1, aligned, pad);
    FoldInTwoSteps(box, str2, aligned, pad);
  }

  lemma FoldInTwoSteps(box: SBoxes, message: Bytes, aligned: nat, pad: byte)
    requires aligned == |message| - |message| % 64
    ensures Whole(|PaddedByRest(message, pad)|)
    ensures var rest := message[aligned..];
            Fold(box, Fold(box, INITIAL, message[..aligned]), rest + Padding(|rest|, |rest|, pad))
            == Fold(box, INITIAL, PaddedByRest(message, pad))
    ensures |message| < 64 ==> Fold(box, INITIAL, PaddedByRest(message, pad)) == Hash(box, message, pad)
  {
    hide Fold;
    hide Padding;
    var rest := message[aligned..];
    var last := rest + Padding(|rest|, |rest|, pad);
    assert Whole(aligned);
    assert PaddedByRest(message, pad) == message[..aligned] + last;
    FoldAppend(box, INITIAL, message[..aligned], last);
  }

  const LENGTHS: nat := 0x2000_0000_0000_0000

  /**
   The padded message is the right one exactly for messages of less than a block, lengths in bits
   being stored modulo two to the 64.
   */
  lemma RestLengthIsRightExactlyWhen(message: Bytes, pad: byte)
    ensures PaddedByRest(message, pad) == message + Padding(|message|, |message|, pad) <==> |message| % LENGTHS < 64
  {
    PaddingEndsInLength(message, |message| % 64, pad);
    hide Padding;
    hide PaddedByRest;
    hide LengthBytes;
    SameLengthBytes(|message| % 64, |message|);
    RestOfLength(|message|);
  }

  lemma PaddingEndsInLength(message: Bytes, rest: nat, pad: byte)
    requires rest == |message| % 64
    ensures PaddedByRest(message, pad) == message + Padding(|message|, |message|, pad)
       <==> LengthBytes(rest) == LengthBytes(|message|)
  {
    var n := |message|;
    hide LengthBytes;
    var a, b := Padding(rest, rest, pad), Padding(n, n, pad);
    assert a[|a| - 8..] == LengthBytes(rest) && b[|b| - 8..] == LengthBytes(n);
    assert a[..|a| - 8] == [pad] + Zeros((55 - n) % 64) == b[..|b| - 8];
    assert a == a[..|a| - 8] + a[|a| - 8..] && b == b[..|b| - 8] + b[|b| - 8..];
    assert (message + a)[n..] == a && (message + b)[n..] == b;
    hide Padding;
  }

  lemma SameLengthBytes(m: nat, n: nat)
    ensures LengthBytes(m) == LengthBytes(n) <==> m * 8 % WORDS == n * 8 % WORDS
  {
    WordsIsPow2();
    hide Pow2;
    hide BytesOf;
    hide LittleEndian;
    BytesRoundTrip(m * 8 % WORDS, 8);
    BytesRoundTrip(n * 8 % WORDS, 8);
  }

  lemma RestOfLength(n: nat)
    ensures n % 64 * 8 % WORDS == n * 8 % WORDS <==> n % LENGTHS < 64
  {
    var q, r := n / LENGTHS, n % LENGTHS;
    Remainder(n * 8, WORDS, q, r * 8);
    Remainder(n, 64, q * 0x80_0000_0000_0000 + r / 64, r % 64);
    Remainder(n % 64 * 8, WORDS, 0, n % 64 * 8);
  }

  lemma Remainder(x: nat, m: nat, q: nat, r: nat)
    requires m == 64 || m == WORDS
    requires x == q * m + r && r < m
    ensures x % m == r
  {}

  // ----- a file and its directory -----

  const BUFFER_SIZE: nat := 1024 * 8

  /** The 24 bytes of a hash as they lie in memory. */
  function HashBytes(s: State): (b: Bytes)
    ensures |b| == 24
  {
    BytesOf(s.a, 8) + BytesOf(s.b, 8) + BytesOf(s.c, 8)
  }

  /** The new hash of a directory: its old one, filled up to a block, then the file. */
  function DirectoryHash(box: SBoxes, directory: State, content: Bytes): State {
    Hash(box, HashBytes(directory) + Zeros(40) + content, TIGER_PADDING)
  }

  /** With the two-lane code for SSE2, or with that without. */
  datatype Build = Sse2 | Portable

  /** What a build makes of a message: its hash, or that of the message padded by the length of its rest. */
  function HashIn(build: Build, box: SBoxes, message: Bytes): State {
    if build.Sse2? then Hash(box, message, TIGER_PADDING) else Fold(box, INITIAL, PaddedByRest(message, TIGER_PADDING))
  }

  /** Without SSE2 the padded file and the padded directory are right exactly for these lengths of the file. */
  lemma PortableIsRightExactlyWhen(head: Bytes, content: Bytes)
    requires |head| == 64
    ensures PaddedByRest(content, TIGER_PADDING) == content + Padding(|content|, |content|, TIGER_PADDING)
       <==> |content| % LENGTHS < 64
    ensures PaddedByRest(head + content, TIGER_PADDING)
            == head + content + Padding(64 + |content|, 64 + |content|, TIGER_PADDING)
       <==> (64 + |content|) % LENGTHS < 64
  {
    RestLengthIsRightExactlyWhen(content, TIGER_PADDING);
    RestLengthIsRightExactlyWhen(head + content, TIGER_PADDING);
    hide *;
  }

  /** A file whose first `readable` bytes can be read. */
  datatype FileData = FileData(content: Bytes, readable: nat)
  {
    predicate Readable() { |content| <= readable }
  }

  /** Reads `n` bytes at `pos`; a read error is reported instead of thrown. */
  method ReadFile(file: FileData, pos: nat, n: nat) returns (ok: bool, data: Bytes)
    requires pos + n <= |file.content|
    ensures ok <==> pos + n <= file.readable
    ensures ok ==> data == file.content[pos..pos + n]
  {
    ok, data := pos + n <= file.readable, [];
    if ok { data := file.content[pos..pos + n]; }
  }

  /**
   Hashes a file and, in the second lane, the directory it is in. The result does not depend on
   how the file is cut into buffers, and a read error leaves the hash of the directory alone.
   */
  method TigerFile(build: Build, box: SBoxes, file: FileData, hashFile: array<word>, hashDir: array<word>)
    returns (ok: bool, size: nat)
    requires hashFile.Length == 3 && hashDir.Length == 3 && hashFile != hashDir
    modifies hashFile, hashDir
    ensures ok <==> file.Readable()
    ensures ok ==> size == |file.content| && StateOf(hashFile) == HashIn(build, box, file.content)
    ensures ok ==> StateOf(hashDir) == HashIn(build, box, HashBytes(old(StateOf(hashDir))) + Zeros(40) + file.content)
    ensures ok && build == Sse2 ==>
              && StateOf(hashFile) == Hash(box, file.content, TIGER_PADDING)
              && StateOf(hashDir) == DirectoryHash(box, old(StateOf(hashDir)), file.content)
    ensures !ok ==> StateOf(hashDir) == old(StateOf(hashDir))
  {
    hide Fold;
    hide Hash;
    hide HashBytes;
    Init(hashFile);
    size := |file.content|;
    var buffSize := if size < BUFFER_SIZE then size else BUFFER_SIZE;
    if buffSize < 64 { buffSize := 64; }
    ghost var head := HashBytes(StateOf(hashDir)) + Zeros(40);
    var workDir := new word[3];
    workDir[0], workDir[1], workDir[2] := hashDir[0], hashDir[1], hashDir[2];
    StartDirectory(build, box, workDir);
    FoldNothingYet(box, head, file.content);
    var pos := 0;
    while size - pos > buffSize
      invariant pos <= size && Whole(pos) && Whole(64 + pos)
      invariant size - pos > buffSize ==> Whole(buffSize)
      invariant pos <= file.readable
      invariant StateOf(hashFile) == Fold(box, INITIAL, file.content[..pos])
      invariant StateOf(workDir) == Fold(box, INITIAL, head + file.content[..pos])
      invariant StateOf(hashDir) == old(StateOf(hashDir))
    {
      var data;
      ok, data := ReadFile(file, pos, buffSize);
      if !ok { return; }
      WholeAdds(pos, buffSize);
      WholeAdds(64, pos + buffSize);
      FeedBoth(build, box, file.content, head, pos, buffSize, data, hashFile, workDir);
      pos := pos + buffSize;
    }
    var data;
    ok, data := ReadFile(file, pos, size - pos);
    if !ok { return; }
    FinishFile(build, box, file.content, head, pos, data, hashFile, workDir);
    hashDir[0], hashDir[1], hashDir[2] := workDir[0], workDir[1], workDir[2];
  }

  /** The last buffer: its whole blocks, then the padded rest, with the real length of each lane. */
  method FinishFile(build: Build, box: SBoxes, ghost content: Bytes, ghost head: Bytes, pos0: nat, data0: Bytes,
                    hashFile: array<word>, dir: array<word>)
    requires |head| == 64 && Whole(pos0) && Whole(64 + pos0) && pos0 <= |content| && data0 == content[pos0..]
    requires hashFile.Length == 3 && dir.Length == 3 && hashFile != dir
    requires StateOf(hashFile) == Fold(box, INITIAL, content[..pos0])
    requires StateOf(dir) == Fold(box, INITIAL, head + content[..pos0])
    modifies hashFile, dir
    ensures StateOf(hashFile) == HashIn(build, box, content)
    ensures StateOf(dir) == HashIn(build, box, head + content)
  {
    hide Fold;
    hide Compress;
    hide Padding;
    hide HashIn;
    hide Whole;
    var size := pos0 + |data0|;
    var pos, data, remaining := pos0, data0, |data0|;
    var alignedSize := remaining - remaining % 64;
    RoundedDown(remaining);
    WholeAdds(pos, alignedSize);
    WholeAdds(64, pos + alignedSize);
    if alignedSize != 0 {
      FeedBoth(build, box, content, head, pos, alignedSize, data, hashFile, dir);
      remaining := remaining - alignedSize;
      assert data[alignedSize..] == content[pos + alignedSize..];
      data := data[alignedSize..];
      pos := pos + alignedSize;
    }
    WholeRest(data);
    FinishBoth(build, box, content, head, pos);
    match build {
      case Sse2 => TigerSse2LastChunk(box, data, data, remaining, size, size + 64, hashFile, dir, TIGER_PADDING);
      case Portable => Tiger2LastChunk(box, data, data, remaining, size, size + 64, hashFile, dir, TIGER_PADDING);
    }
  }

  lemma FoldNothingYet(box: SBoxes, head: Bytes, content: Bytes)
    requires |head| == 64
    ensures Fold(box, INITIAL, content[..0]) == INITIAL
    ensures head + content[..0] == head && Whole(64)
  {}

  /** The old hash of the directory goes first, as if it were data. */
  method StartDirectory(build: Build, box: SBoxes, dir: array<word>)
    requires dir.Length == 3
    modifies dir
    ensures StateOf(dir) == Fold(box, INITIAL, HashBytes(old(StateOf(dir))) + Zeros(40))
  {
    hide Fold;
    hide HashBytes;
    var buffer := new byte[64];
    MemCopy(buffer, 0, HashBytes(StateOf(dir)), 0, 24);
    MemZero(buffer, 24, 40);
    assert buffer[..] == HashBytes(StateOf(dir)) + Zeros(40) == buffer[..64];
    var dummy := new word[3];
    Init(dir);
    FeedLanes(build, box, buffer[..], 64, dummy, dir);
  }

  /** The whole blocks of a buffer to both lanes. */
  method FeedLanes(build: Build, box: SBoxes, data: Bytes, n: nat, res1: array<word>, res2: array<word>)
    requires n <= |data| && Whole(n) && res1.Length == 3 && res2.Length == 3 && res1 != res2
    modifies res1, res2
    ensures StateOf(res1) == Fold(box, old(StateOf(res1)), data[..n])
    ensures StateOf(res2) == Fold(box, old(StateOf(res2)), data[..n])
  {
    hide Fold;
    match build {
      case Sse2 => TigerSse2Chunk(box, data, data, n, res1, res2);
      case Portable => Tiger2Chunk(box, data, data, n, res1, res2);
    }
  }

  /** One buffer to both lanes. */
  method FeedBoth(build: Build, box: SBoxes, ghost content: Bytes, ghost head: Bytes, ghost pos: nat, n: nat, data: Bytes,
                  hashFile: array<word>, dir: array<word>)
    requires |head| == 64 && Whole(n) && pos + n <= |content|
    requires Whole(pos) && Whole(64 + pos) && Whole(pos + n) && Whole(64 + pos + n)
    requires n <= |data| && data[..n] == content[pos..pos + n]
    requires hashFile.Length == 3 && dir.Length == 3 && hashFile != dir
    requires StateOf(hashFile) == Fold(box, INITIAL, content[..pos])
    requires StateOf(dir) == Fold(box, INITIAL, head + content[..pos])
    modifies hashFile, dir
    ensures StateOf(hashFile) == Fold(box, INITIAL, content[..pos + n])
    ensures StateOf(dir) == Fold(box, INITIAL, head + content[..pos + n])
  {
    hide Fold;
    FeedLanes(build, box, data, n, hashFile, dir);
    FoldAppend(box, INITIAL, content[..pos], content[pos..pos + n]);
    FoldAppend(box, INITIAL, head + content[..pos], content[pos..pos + n]);
    assert content[..pos + n] == content[..pos] + content[pos..pos + n];
    assert head + content[..pos + n] == head + content[..pos] + content[pos..pos + n];
  }

  lemma FinishBoth(build: Build, box: SBoxes, content: Bytes, head: Bytes, pos: nat)
    requires |head| == 64 && Whole(pos) && Whole(64 + pos) && pos <= |content| < pos + 64
    ensures var rest, n := content[pos..], |content|;
            && HashIn(build, box, content)
               == Fold(box, Fold(box, INITIAL, content[..pos]),
                       rest + Padding(|rest|, if build.Sse2? then n else |rest|, TIGER_PADDING))
            && HashIn(build, box, head + content)
               == Fold(box, Fold(box, INITIAL, head + content[..pos]),
                       rest + Padding(|rest|, if build.Sse2? then n + 64 else |rest|, TIGER_PADDING))
  {
    hide *;
    FinishOne(build, box, content, pos);
    FinishOne(build, box, head + content, 64 + pos);
    BehindHead(head, content, pos);
  }

  lemma BehindHead(head: Bytes, content: Bytes, pos: nat)
    requires |head| == 64 && pos <= |content|
    ensures (head + content)[..64 + pos] == head + content[..pos] && (head + content)[64 + pos..] == content[pos..]
  {}

  lemma FinishOne(build: Build, box: SBoxes, message: Bytes, pos: nat)
    requires Whole(pos) && pos <= |message| < pos + 64
    ensures var rest := message[pos..];
            HashIn(build, box, message)
            == Fold(box, Fold(box, INITIAL, message[..pos]),
                    rest + Padding(|rest|, if build.Sse2? then |message| else |rest|, TIGER_PADDING))
  {
    hide Fold;
    hide Padding;
    hide Hash;
    if build.Sse2? {
      HashInTwoSteps(box, message[..pos], message[pos..], TIGER_PADDING);
      assert message[..pos] + message[pos..] == message;
    } else {
      FoldInTwoSteps(box, message, pos, TIGER_PADDING);
    }
    hide PaddedByRest;
  }
}
