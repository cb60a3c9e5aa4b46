/** The fixed-size forms of Tiger and the salted form in two stages (tiger.c). */
module TigerVariants {
  import opened Basics
  import opened TigerCore
  import opened TigerHash

  const TREE_PADDING: byte := 0x01

  // ----- fixed sizes -----

  /** Forty-eight bytes behind a byte 0x01, in one block. */
  method Tiger49(box: SBoxes, str: Bytes, res: array<word>)
    requires |str| == 48 && res.Length == 3
    modifies res
    ensures StateOf(res) == Hash(box, [0x01] + str, 0x01)
  {
    hide Fold;
    hide Compress;
    hide LengthBytes;
    Init(res);
    var tmp := new byte[64];
    tmp[0] := 0x01;
    MemCopy(tmp, 1, str, 0, 47);
    tmp[48], tmp[49] := str[47], 0x01;
    MemZero(tmp, 50, 6);
    MemCopy(tmp, 56, LengthBytes(49), 0, 8);
    TigerBlock(box, tmp[..], res);
    var message := [0x01] + str;
    assert str == str[..47] + [str[47]];
    assert tmp[..] == message + Padding(49, 49, TREE_PADDING);
    FoldOne(box, INITIAL, tmp[..]);
  }

  /** One thousand and twenty-four bytes behind a byte 0x00: sixteen blocks and a last one. */
  method Tiger1025(box: SBoxes, str: Bytes, res: array<word>)
    requires |str| == 1024 && res.Length == 3
    modifies res
    ensures StateOf(res) == Hash(box, [0x00] + str, 0x01)
  {
    hide Fold;
    hide Compress;
    hide LengthBytes;
    hide Padding;
    ghost var message := [0x00] + str;
    Init(res);
    var tmp := new byte[64];
    tmp[0] := 0x00;
    MemCopy(tmp, 1, str, 0, 63);
    assert message[..64] == [0x00] + str[..63];
    assert tmp[..] == message[..64];
    TigerBlock(box, tmp[..], res);
    FoldOne(box, INITIAL, message[..64]);
    var pos := 63;
    while pos != 1023
      invariant 63 <= pos <= 1023 && Whole(pos + 1)
      invariant StateOf(res) == Fold(box, INITIAL, message[..pos + 1])
      decreases 1023 - pos
    {
      assert str[pos..pos + 64] == message[pos + 1..pos + 65];
      TigerBlock(box, str[pos..pos + 64], res);
      FoldNext(box, INITIAL, message, pos + 1);
      FoldOne(box, Fold(box, INITIAL, message[..pos + 1]), message[pos + 1..pos + 65]);
      WholeAdds(pos + 1, 64);
      pos := pos + 64;
    }
    ghost var before := tmp[..];
    tmp[0], tmp[1] := str[1023], 0x01;
    MemZero(tmp, 2, 54);
    MemCopy(tmp, 56, LengthBytes(1025), 0, 8);
    LastBlockOf1025(message, tmp[..]);
    ghost var middle := Fold(box, INITIAL, message[..1024]);
    TigerBlock(box, tmp[..], res);
    FoldOne(box, middle, tmp[..]);
    HashInTwoSteps(box, message[..1024], message[1024..], TREE_PADDING);
    assert message[..1024] + message[1024..] == message;
  }

  lemma LastBlockOf1025(message: Bytes, last: Bytes)
    requires |message| == 1025
    requires last == [message[1024]] + [0x01] + Zeros(54) + LengthBytes(1025)
    ensures last == message[1024..] + Padding(1, 1025, TREE_PADDING)
  {
    hide LengthBytes;
  }

  // ----- password, salt and second salt -----

  /** The state between the two stages: hash, salt, bytes of the salt used, bytes hashed. */
  datatype PartialResult = PartialResult(h: State, r: Bytes, n: nat, hs: nat)

  /** What the first stage leaves: whole blocks of the password and the front of the salt. */
  ghost predicate Stage(box: SBoxes, p: PartialResult, password: Bytes, salt: Bytes) {
    && |salt| == 128 && p.r == salt && 64 < p.n <= 128
    && p.hs == |password| + p.n && Whole(p.hs)
    && p.h == Fold(box, INITIAL, password + salt[..p.n])
  }

  method TigerP1(box: SBoxes, password: Bytes, salt: Bytes) returns (pres: PartialResult)
    requires |salt| == 128
    ensures Stage(box, pres, password, salt)
  {
    hide Fold;
    hide Compress;
    var res := new word[3];
    Init(res);
    TigerChunk(box, password, |password|, res);
    var i := |password| % 64;
    var end := |password| - i;
    var tmp := new byte[64];
    MemCopy(tmp, 0, password, end, i);
    var n := 64 - i;
    MemCopy(tmp, i, salt, 0, n);
    assert tmp[..] == password[end..] + salt[..n];
    ghost var all := password + salt;
    SaltBlocks(password, salt, end, n);
    FoldNext(box, INITIAL, all, end);
    FoldOne(box, Fold(box, INITIAL, all[..end]), all[end..end + 64]);
    TigerBlock(box, tmp[..], res);
    FoldNext(box, INITIAL, all, end + 64);
    FoldOne(box, Fold(box, INITIAL, all[..end + 64]), all[end + 64..end + 128]);
    TigerBlock(box, salt[n..n + 64], res);
    n := n + 64;
    pres := PartialResult(StateOf(res), salt, n, |password| + n);
  }

  /** Where the two blocks that take in the salt lie in the password and the salt put together. */
  lemma SaltBlocks(password: Bytes, salt: Bytes, end: nat, n: nat)
    requires |salt| == 128 && end == |password| - |password| % 64 && n == 64 - |password| % 64
    ensures Whole(end) && Whole(end + 64) && Whole(end + 128)
    ensures var all := password + salt;
            && all[..end] == password[..end]
            && all[end..end + 64] == password[end..] + salt[..n]
            && all[end + 64..end + 128] == salt[n..n + 64]
            && all[..end + 128] == password + salt[..n + 64]
  {
    var all := password + salt;
    assert end + 64 == |password| + n;
    assert all[end + 64..end + 128] == salt[n..n + 64];
    assert all[end..end + 64] == password[end..] + salt[..n];
  }

  /** Pads the buffered rest of a message of `total` bytes and finishes the hash. */
  method PadAndFinish(box: SBoxes, tmp: array<byte>, i0: nat, total: nat, res: array<word>)
    requires tmp.Length == 64 && i0 < 64 && res.Length == 3
    modifies tmp, res
    ensures StateOf(res) == Fold(box, old(StateOf(res)), old(tmp[..i0]) + Padding(i0, total, TREE_PADDING))
  {
    hide Fold;
    hide Compress;
    hide Padding;
    hide Aligned;
    hide Finished;
    ghost var start, rest := StateOf(res), tmp[..i0];
    FoldLastBlocks(box, start, rest, total, TREE_PADDING);
    FoldNone(box, start);
    var i := PadToWord(tmp, i0, TREE_PADDING);
    if i == 64 {
      assert tmp[..64] == tmp[..];
      TigerBlock(box, tmp[..], res);
      FoldOne(box, start, tmp[..]);
      i := 0;
    }
    FinishBlock(tmp, i, total);
    TigerBlock(box, tmp[..], res);
  }

  /** The unused salt and as much of the second salt as fits the block. */
  method FillBlock(tmp: array<byte>, pres: PartialResult, salt2: Bytes) returns (i: nat, pos: nat)
    requires tmp.Length == 64 && |pres.r| == 128 && 64 < pres.n <= 128
    modifies tmp
    ensures i == 128 - pres.n + pos && i <= 64 && pos <= |salt2| && (i == 64 || pos == |salt2|)
    ensures tmp[..i] == (pres.r[pres.n..] + salt2)[..i]
  {
    ghost var rest := pres.r[pres.n..] + salt2;
    i, pos := 128 - pres.n, 0;
    MemCopy(tmp, 0, pres.r, pres.n, i);
    while i != 64 && pos != |salt2|
      invariant i == 128 - pres.n + pos && i <= 64 && pos <= |salt2|
      invariant tmp[..i] == rest[..i]
      decreases 64 - i
    {
      tmp[i] := salt2[pos];
      i, pos := i + 1, pos + 1;
    }
  }

  /** The second stage hashes the rest of the salt and the second salt, with the length of everything. */
  method TigerP2(box: SBoxes, pres: PartialResult, salt2: Bytes, res: array<word>, ghost password: Bytes)
    requires res.Length == 3 && Stage(box, pres, password, pres.r)
    modifies res
    ensures StateOf(res) == Hash(box, password + pres.r + salt2, 0x01)
  {
    hide Fold;
    hide Compress;
    hide Padding;
    hide Hash;
    ghost var first, rest := password + pres.r[..pres.n], pres.r[pres.n..] + salt2;
    ghost var start := Fold(box, INITIAL, first);
    res[0], res[1], res[2] := pres.h.a, pres.h.b, pres.h.c;
    var length := |salt2|;
    var tmp := new byte[64];
    var i, pos := FillBlock(tmp, pres, salt2);
    ghost var whole := 0;
    if i == 64 {
      assert tmp[..] == tmp[..64] == rest[..64];
      FoldOne(box, start, rest[..64]);
      TigerBlock(box, tmp[..], res);
      i, whole := AfterFirstBlock(box, tmp, pres, salt2, pos, start, res);
    } else {
      FoldNone(box, start);
      assert rest[..0] == [] && rest[0..] == rest == rest[..i];
    }
    SaltedHash(box, password, pres, salt2, first, rest, whole);
    PadAndFinish(box, tmp, i, pres.hs + length + (128 - pres.n), res);
  }

  method AfterFirstBlock(box: SBoxes, tmp: array<byte>, pres: PartialResult, salt2: Bytes, pos0: nat, ghost start: State,
                         res: array<word>)
    returns (i: nat, ghost whole: nat)
    requires tmp.Length == 64 && |pres.r| == 128 && 64 < pres.n <= 128 && pos0 == pres.n - 64 && pos0 <= |salt2|
    requires res.Length == 3 && StateOf(res) == Fold(box, start, (pres.r[pres.n..] + salt2)[..64])
    modifies tmp, res
    ensures var rest := pres.r[pres.n..] + salt2;
            && i < 64 && Whole(whole) && whole + i == |rest| && tmp[..i] == rest[whole..]
            && StateOf(res) == Fold(box, start, rest[..whole])
  {
    hide Fold;
    hide Compress;
    ghost var rest := pres.r[pres.n..] + salt2;
    i := |salt2| + 64 - pres.n;
    assert rest[64..] == salt2[pos0..];
    whole := SecondSaltBlocks(box, salt2, pos0, i, rest, start, res);
    var pos := pos0 + (i - i % 64);
    i := i % 64;
    MemCopy(tmp, 0, salt2, pos, i);
    assert rest[whole..] == salt2[pos..] == salt2[pos..pos + i];
  }

  /** The whole blocks of the second salt behind the first mixed block. */
  method SecondSaltBlocks(box: SBoxes, salt2: Bytes, pos0: nat, left: nat, ghost rest: Bytes, ghost start: State, res: array<word>)
    returns (ghost whole: nat)
    requires pos0 + left == |salt2| && |rest| == 64 + left && rest[64..] == salt2[pos0..]
    requires res.Length == 3 && StateOf(res) == Fold(box, start, rest[..64])
    modifies res
    ensures whole == 64 + (left - left % 64) && Whole(whole)
    ensures StateOf(res) == Fold(box, start, rest[..whole])
  {
    hide Fold;
    hide Compress;
    var end := pos0 + (left - left % 64);
    var pos := pos0;
    whole := 64;
    while pos < end
      invariant pos0 <= pos <= end && whole == 64 + (pos - pos0) && Whole(whole) && (end - pos) % 64 == 0
      invariant StateOf(res) == Fold(box, start, rest[..whole])
    {
      assert salt2[pos..pos + 64] == salt2[pos0..][pos - pos0..pos - pos0 + 64] == rest[whole..whole + 64];
      TigerBlock(box, salt2[pos..pos + 64], res);
      FoldNext(box, start, rest, whole);
      FoldOne(box, Fold(box, start, rest[..whole]), rest[whole..whole + 64]);
      WholeAdds(whole, 64);
      pos, whole := pos + 64, whole + 64;
    }
  }

  lemma SaltedHash(box: SBoxes, password: Bytes, pres: PartialResult, salt2: Bytes, first: Bytes, rest: Bytes, whole: nat)
    requires Stage(box, pres, password, pres.r)
    requires first == password + pres.r[..pres.n] && rest == pres.r[pres.n..] + salt2
    requires Whole(whole) && whole <= |rest| < whole + 64
    ensures Hash(box, password + pres.r + salt2, TREE_PADDING)
         == Fold(box, Fold(box, Fold(box, INITIAL, first), rest[..whole]),
                 rest[whole..] + Padding(|rest| - whole, |password| + 128 + |salt2|, TREE_PADDING))
  {
    hide Fold;
    hide Compress;
    hide Padding;
    WholeAdds(|first|, whole);
    FoldAppend(box, INITIAL, first, rest[..whole]);
    HashInTwoSteps(box, first + rest[..whole], rest[whole..], TREE_PADDING);
    assert (first + rest[..whole]) + rest[whole..] == first + rest == password + pres.r + salt2;
  }

  /** Both stages together: one padded hash of the password, the salt and the second salt. */
  method SaltedTiger(box: SBoxes, password: Bytes, salt: Bytes, salt2: Bytes, res: array<word>)
    requires |salt| == 128 && res.Length == 3
    modifies res
    ensures StateOf(res) == Hash(box, password + salt + salt2, 0x01)
  {
    var pres := TigerP1(box, password, salt);
    TigerP2(box, pres, salt2, res, password);
  }
}
