/**
 What the hash of a directory is made from (scantask/hashing.cpp), byte by byte: names as their
 characters, and the hash of a subdirectory as three words before its name.
 */
module DirectoryBlob {
  import opened TigerCore
  import opened TigerHash
  import opened Hashing

  /** Names are bytes in the program. */
  predicate IsBytes(name: string) { forall i :: 0 <= i < |name| ==> name[i] as int < 0x100 }

  predicate AllBytes(entries: seq<Entry>) { forall k :: 0 <= k < |entries| ==> IsBytes(entries[k].name) }

  /** `b` holds the characters of `name` from `p` on. */
  predicate HoldsName(b: Bytes, p: nat, name: string) {
    p + |name| <= |b| && forall i :: 0 <= i < |name| ==> b[p + i] == name[i] as int
  }

  /** `b` holds the words of `s` from `p` on, each with its lowest byte first. */
  predicate HoldsHash(b: Bytes, p: nat, s: State) {
    && p + 24 <= |b|
    && LittleEndian(b[p..p + 8]) == s.a
    && LittleEndian(b[p + 8..p + 16]) == s.b
    && LittleEndian(b[p + 16..p + 24]) == s.c
  }

  /** The bytes of a name are its characters, so different names have different bytes. */
  lemma NameIsItsBytes(name: string, other: string)
    requires IsBytes(name) && IsBytes(other)
    ensures |NameBytes(name)| == |name| && HoldsName(NameBytes(name), 0, name)
    ensures NameBytes(name) == NameBytes(other) ==> name == other
  {
    if NameBytes(name) == NameBytes(other) {
      forall i | 0 <= i < |name| ensures name[i] == other[i] {
        assert NameBytes(name)[i] == NameBytes(other)[i];
      }
    }
  }

  lemma WordRoundTrip(w: word)
    ensures LittleEndian(BytesOf(w, 8)) == w
  {
    WordsIsPow2();
    hide LittleEndian;
    hide BytesOf;
    BytesRoundTrip(w, 8);
  }

  lemma HashInBytes(s: State)
    ensures HoldsHash(HashBytes(s), 0, s)
  {
    hide LittleEndian;
    hide BytesOf;
    WordRoundTrip(s.a);
    WordRoundTrip(s.b);
    WordRoundTrip(s.c);
    var b := HashBytes(s);
    assert b[0..8] == BytesOf(s.a, 8) && b[8..16] == BytesOf(s.b, 8) && b[16..24] == BytesOf(s.c, 8);
  }

  lemma HashShifted(a: Bytes, b: Bytes, c: Bytes, p: nat, s: State)
    requires HoldsHash(b, p, s)
    ensures HoldsHash(a + b + c, |a| + p, s)
  {
    var all, q := a + b + c, |a| + p;
    assert all[q..q + 8] == b[p..p + 8];
    assert all[q + 8..q + 16] == b[p + 8..p + 16];
    assert all[q + 16..q + 24] == b[p + 16..p + 24];
    hide LittleEndian;
  }

  lemma NameShifted(a: Bytes, b: Bytes, c: Bytes, p: nat, name: string)
    requires HoldsName(b, p, name)
    ensures HoldsName(a + b + c, |a| + p, name)
  {
    forall i | 0 <= i < |name| ensures (a + b + c)[|a| + p + i] == name[i] as int {
      assert (a + b + c)[|a| + (p + i)] == b[p + i];
    }
  }

  /** How many bytes an entry takes: a subdirectory has its hash before its name. */
  function Share(e: Entry): nat { if e.Directory? then 24 + |e.name| else |e.name| }

  function SharesBefore(entries: seq<Entry>, k: nat): nat
    requires k <= |entries|
  {
    if k == 0 then 0 else Share(entries[0]) + SharesBefore(entries[1..], k - 1)
  }

  /** The share of one entry at `p`. */
  predicate HoldsEntry(box: SBoxes, b: Bytes, p: nat, e: Entry) {
    if e.Directory? then HoldsHash(b, p, EntryHash(box, e)) && HoldsName(b, p + 24, e.name) else HoldsName(b, p, e.name)
  }

  lemma SubdirectoryEntry(box: SBoxes, b: Bytes, p: nat, e: Entry)
    requires e.Directory?
    ensures HoldsEntry(box, b, p, e) <==> HoldsHash(b, p, EntryHash(box, e)) && HoldsName(b, p + 24, e.name)
    ensures Share(e) == 24 + |e.name|
  {
    hide HoldsHash;
    hide HoldsName;
    hide EntryHash;
  }

  lemma FileEntryIs(box: SBoxes, b: Bytes, p: nat, e: Entry)
    requires e.File?
    ensures HoldsEntry(box, b, p, e) <==> HoldsName(b, p, e.name)
    ensures Share(e) == |e.name|
  {
    hide HoldsName;
  }

  lemma HashInFront(h: Bytes, n: Bytes, s: State)
    requires HoldsHash(h, 0, s)
    ensures HoldsHash(h + n, 0, s)
  {
    hide HoldsHash;
    assert [] + h + n == h + n;
    HashShifted([], h, n, 0, s);
  }

  lemma NameBehind(h: Bytes, n: Bytes, name: string)
    requires HoldsName(n, 0, name)
    ensures HoldsName(h + n, |h|, name)
  {
    hide HoldsName;
    assert h + n + [] == h + n;
    NameShifted(h, n, [], 0, name);
  }

  lemma PieceHolds(box: SBoxes, e: Entry)
    requires IsBytes(e.name)
    ensures |Piece(box, e)| == Share(e) && HoldsEntry(box, Piece(box, e), 0, e)
  {
    hide *;
    var n, piece := NameBytes(e.name), Piece(box, e);
    NameIsItsBytes(e.name, e.name);
    PieceIs(box, e);
    if e.Directory? {
      var s := EntryHash(box, e);
      var h := HashBytes(s);
      HashInBytes(s);
      SubdirectoryEntry(box, piece, 0, e);
      HashInFront(h, n, s);
      NameBehind(h, n, e.name);
    } else {
      FileEntryIs(box, piece, 0, e);
    }
  }

  lemma EntryShifted(box: SBoxes, a: Bytes, b: Bytes, c: Bytes, p: nat, e: Entry)
    requires HoldsEntry(box, b, p, e)
    ensures HoldsEntry(box, a + b + c, |a| + p, e)
  {
    hide *;
    if e.Directory? {
      SubdirectoryEntry(box, b, p, e);
      HashShifted(a, b, c, p, EntryHash(box, e));
      NameShifted(a, b, c, p + 24, e.name);
      assert |a| + p + 24 == |a| + (p + 24);
      SubdirectoryEntry(box, a + b + c, |a| + p, e);
    } else {
      FileEntryIs(box, b, p, e);
      NameShifted(a, b, c, p, e.name);
      FileEntryIs(box, a + b + c, |a| + p, e);
    }
  }

  /**
   The blob of a directory by positions: it is as long as the shares of its entries, and where that of
   an entry begins stand the hash of a subdirectory and the name.
   */
  lemma {:induction false} BlobByPositions(box: SBoxes, entries: seq<Entry>, k: nat)
    requires AllBytes(entries) && k < |entries|
    ensures |Blob(box, entries)| == SharesBefore(entries, |entries|)
    ensures HoldsEntry(box, Blob(box, entries), SharesBefore(entries, k), entries[k])
  {
    hide *;
    var e, rest := entries[0], entries[1..];
    assert [e] + rest == entries;
    TailBytes(entries);
    var piece, others := Piece(box, e), Blob(box, rest);
    EntriesOfStep(box, e, rest);
    PieceHolds(box, e);
    SharesStep(entries, |entries|);
    if rest == [] { NoShares(box); } else { BlobByPositions(box, rest, if k == 0 then 0 else k - 1); }
    EntryPlaced(box, e, rest, k, piece, others);
  }

  lemma EntryPlaced(box: SBoxes, e: Entry, rest: seq<Entry>, k: nat, piece: Bytes, others: Bytes)
    requires k <= |rest| && |piece| == Share(e) && HoldsEntry(box, piece, 0, e)
    requires k > 0 ==> HoldsEntry(box, others, SharesBefore(rest, k - 1), rest[k - 1])
    ensures HoldsEntry(box, piece + others, SharesBefore([e] + rest, k), ([e] + rest)[k])
  {
    hide *;
    SharesStep([e] + rest, k);
    assert ([e] + rest)[1..] == rest;
    if k == 0 {
      assert [] + piece + others == piece + others;
      EntryShifted(box, [], piece, others, 0, e);
    } else {
      assert piece + others + [] == piece + others;
      EntryShifted(box, piece, others, [], SharesBefore(rest, k - 1), rest[k - 1]);
    }
  }

  lemma TailBytes(entries: seq<Entry>)
    requires AllBytes(entries) && entries != []
    ensures IsBytes(entries[0].name) && AllBytes(entries[1..])
  {
    hide IsBytes;
  }

  lemma SharesStep(entries: seq<Entry>, k: nat)
    requires k <= |entries|
    ensures SharesBefore(entries, k) == if k == 0 then 0 else Share(entries[0]) + SharesBefore(entries[1..], k - 1)
  {}

  lemma NoShares(box: SBoxes)
    ensures Blob(box, []) == [] && SharesBefore([], 0) == 0
  {}

  function AllNames(entries: seq<Entry>): string {
    if entries == [] then [] else entries[0].name + AllNames(entries[1..])
  }

  /** Without subdirectories it is the characters of the names in order. */
  lemma {:induction false} BlobOfFiles(box: SBoxes, entries: seq<Entry>)
    requires AllBytes(entries) && forall k :: 0 <= k < |entries| ==> entries[k].File?
    ensures |Blob(box, entries)| == |AllNames(entries)| && HoldsName(Blob(box, entries), 0, AllNames(entries))
  {
    if entries != [] {
      var e, rest := entries[0], entries[1..];
      assert [e] + rest == entries;
      EntriesOfStep(box, e, rest);
      PieceHolds(box, e);
      hide Blob;
      hide Piece;
      BlobOfFiles(box, rest);
    }
  }

  lemma HeldNameIsUnique(b: Bytes, p: nat, x: string, y: string)
    requires HoldsName(b, p, x) && HoldsName(b, p, y) && |x| == |y|
    ensures x == y
  {
    forall i | 0 <= i < |x| ensures x[i] == y[i] {
      assert b[p + i] == x[i] as int;
      assert b[p + i] == y[i] as int;
    }
  }

  /** What a file between other entries gives to the blob, and how long the blob is. */
  lemma FileInBlob(box: SBoxes, before: seq<Entry>, e: Entry, after: seq<Entry>)
    requires AllBytes(before + [e] + after) && e.File?
    ensures var b := Blob(box, before + [e] + after);
            && HoldsName(b, SharesBefore(before, |before|), e.name)
            && |b| == SharesBefore(before, |before|) + |e.name| + SharesBefore(after, |after|)
  {
    hide *;
    var x, k := before + [e] + after, |before|;
    assert x[k] == e;
    BlobByPositions(box, x, k);
    SharesAround(before, e, after);
    FileEntryIs(box, Blob(box, x), SharesBefore(before, k), e);
  }

  /** Renaming a file of a directory changes what is hashed. */
  lemma RenamedFileIsSeen(box: SBoxes, before: seq<Entry>, e: Entry, f: Entry, after: seq<Entry>)
    requires AllBytes(before + [e] + after) && AllBytes(before + [f] + after) && e.File? && f.File?
    requires Blob(box, before + [e] + after) == Blob(box, before + [f] + after)
    ensures e.name == f.name
  {
    hide *;
    FileInBlob(box, before, e, after);
    FileInBlob(box, before, f, after);
    HeldNameIsUnique(Blob(box, before + [e] + after), SharesBefore(before, |before|), e.name, f.name);
  }

  lemma {:induction false} SharesAround(before: seq<Entry>, e: Entry, after: seq<Entry>)
    ensures var x := before + [e] + after;
            && SharesBefore(x, |before|) == SharesBefore(before, |before|)
            && SharesBefore(x, |x|) == SharesBefore(before, |before|) + Share(e) + SharesBefore(after, |after|)
  {
    var x := before + [e] + after;
    if before == [] {
      assert x[1..] == after;
    } else {
      assert x[1..] == before[1..] + [e] + after;
      SharesAround(before[1..], e, after);
    }
  }
}
