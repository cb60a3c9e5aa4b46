/**
 Hashing a set (scantask/hashing.cpp): the walk over the flat list computes a recursive hash of
 the directory tree.
 */
module Hashing {
  import opened Paths
  import opened FlatTree
  import opened TigerCore
  import opened TigerHash
  import opened Listing

  // ----- the hash of a tree -----

  /** A directory tree with names and file contents, free of any list. */
  datatype Entry = File(name: string, data: FileData) | Directory(name: string, entries: seq<Entry>)

  /** A name as the bytes it is made of. */
  function NameBytes(name: string): Bytes { seq(|name|, i requires 0 <= i < |name| => name[i] as int % 256) }

  function EntryHash(box: SBoxes, e: Entry): State {
    match e
    case File(_, data) => Hash(box, data.content, TIGER_PADDING)
    case Directory(_, entries) =>
      FoldFiles(box, Hash(box, Blob(box, entries), TIGER_PADDING), entries)
  }

  /** Names of all entries in order, those of directories behind their hash. */
  function Blob(box: SBoxes, entries: seq<Entry>): Bytes {
    if entries == [] then []
    else
      (if entries[0].Directory? then HashBytes(EntryHash(box, entries[0])) else [])
      + NameBytes(entries[0].name) + Blob(box, entries[1..])
  }

  /** The hash of a directory takes in its readable files one after the other. */
  function FoldFiles(box: SBoxes, s: State, entries: seq<Entry>): State
    decreases entries
  {
    if entries == [] then s
    else
      var s' := if entries[0].File? && entries[0].data.Readable() then DirectoryHash(box, s, entries[0].data.content) else s;
      FoldFiles(box, s', entries[1..])
  }

  predicate AllReadable(e: Entry) {
    match e
    case File(_, data) => data.Readable()
    case Directory(_, entries) => forall i :: 0 <= i < |entries| ==> AllReadable(entries[i])
  }

  function FileCount(e: Entry): nat {
    match e
    case File(_, _) => 1
    case Directory(_, entries) => FilesIn(entries)
  }

  function FilesIn(entries: seq<Entry>): nat {
    if entries == [] then 0 else FileCount(entries[0]) + FilesIn(entries[1..])
  }

  /** The share of the subdirectories, and that of the files lying in the directory itself. */
  predicate DirectoriesReadable(entries: seq<Entry>) {
    forall i :: 0 <= i < |entries| && entries[i].Directory? ==> AllReadable(entries[i])
  }

  predicate FilesReadable(entries: seq<Entry>) {
    forall i :: 0 <= i < |entries| && entries[i].File? ==> AllReadable(entries[i])
  }

  function FilesInDirectories(entries: seq<Entry>): nat {
    if entries == [] then 0
    else (if entries[0].Directory? then FileCount(entries[0]) else 0) + FilesInDirectories(entries[1..])
  }

  function PlainFiles(entries: seq<Entry>): nat {
    if entries == [] then 0 else (if entries[0].File? then 1 else 0) + PlainFiles(entries[1..])
  }

  lemma {:induction false} FilesAddUp(entries: seq<Entry>)
    ensures FilesIn(entries) == FilesInDirectories(entries) + PlainFiles(entries)
  {
    if entries != [] { FilesAddUp(entries[1..]); }
  }

  // ----- the tree a list stands for -----

  /** What is on disk, by absolute path. */
  type FileSystem = string -> FileData

  function EntryOf(list: Records, fs: FileSystem, k: nat): Entry
    requires k < |list|
    decreases |list| - k, 1
  {
    var name := LastAtom(list[k].Atoms());
    if list[k].isDirectory then Directory(name, EntriesFrom(list, fs, list[k].Atoms(), k + 1))
    else File(name, fs(list[k].absPath))
  }

  function EntriesFrom(list: Records, fs: FileSystem, base: Atoms, from: nat): seq<Entry>
    decreases |list| - from, 2
  {
    if from >= |list| then []
    else (if IsChild(NodesOf(list), base, from) then [EntryOf(list, fs, from)] else []) + EntriesFrom(list, fs, base, from + 1)
  }

  // ----- what hashing writes -----

  datatype Fields = Fields(hash: State, size: nat, hashValid: bool, unreadable: bool)

  ghost function FieldsOf(r: FileRecordData): Fields
    reads r
  {
    Fields(r.hash, r.size, r.hashValid, r.unreadable)
  }

  /** The fields of record `k` are what hashing leaves there. */
  ghost predicate Hashed(box: SBoxes, list: Records, fs: FileSystem, k: nat, f: Fields)
    requires k < |list|
  {
    var e := EntryOf(list, fs, k);
    if e.File? && !e.data.Readable() then f.unreadable && f.hash == State(0, 0, 0)
    else f.hashValid && f.hash == EntryHash(box, e) && (e.File? ==> f.size == |e.data.content|)
  }

  class ProgressInfo {
    var currPath: string
    var totalBytesRead: nat
    var fileNum: nat

    constructor ()
      ensures currPath == "" && totalBytesRead == 0 && fileNum == 0
    {
      currPath, totalBytesRead, fileNum := "", 0, 0;
    }
  }

  /** Hashes one file and takes it into the hash of its directory; a read error is final unless ignored. */
  method HashFile(box: SBoxes, fs: FileSystem, file: FileRecordData, entry: FileRecordData, ignoreErrors: bool,
                  progress: ProgressInfo)
    returns (ok: bool)
    requires file != entry
    modifies file, entry`hash, progress
    ensures var data := fs(file.absPath);
            && (ok <==> data.Readable() || ignoreErrors)
            && entry.hash == (if data.Readable() then DirectoryHash(box, old(entry.hash), data.content) else old(entry.hash))
            && (data.Readable() ==>
                  file.hashValid && file.hash == Hash(box, data.content, TIGER_PADDING) && file.size == |data.content|)
            && (ok && !data.Readable() ==> file.unreadable && file.hash == State(0, 0, 0))
            && progress.fileNum == old(progress.fileNum) + 1
            && progress.totalBytesRead == old(progress.totalBytesRead) + (if data.Readable() then |data.content| else 0)
  {
    hide Hash;
    hide DirectoryHash;
    progress.fileNum := progress.fileNum + 1;
    progress.currPath := file.absPath;
    var hashFile, hashDir := new word[3], new word[3];
    hashDir[0], hashDir[1], hashDir[2] := entry.hash.a, entry.hash.b, entry.hash.c;
    var size;
    ok, size := TigerFile(Sse2, box, fs(file.absPath), hashFile, hashDir);
    file.hash := State(hashFile[0], hashFile[1], hashFile[2]);
    if ok {
      file.size := size;
      entry.hash := State(hashDir[0], hashDir[1], hashDir[2]);
      file.hashValid := true;
      progress.totalBytesRead := progress.totalBytesRead + file.size;
    } else if ignoreErrors {
      file.unreadable := true;
      file.hash := State(0, 0, 0);
      ok := true;
    }
  }

  /** The blob of a directory as its first hash. */
  method TigerData(box: SBoxes, data: Bytes) returns (hash: State)
    ensures hash == Hash(box, data, TIGER_PADDING)
  {
    hide Hash;
    var res := new word[3];
    Tiger(box, data, res, TIGER_PADDING);
    hash := State(res[0], res[1], res[2]);
  }

  // ----- positions and entries -----

  predicate InSubtree(list: Records, d: nat, k: nat) {
    d < |list| && k < |list| && NodesOf(list)[d].path <= NodesOf(list)[k].path
  }

  lemma EntriesStep(list: Records, fs: FileSystem, base: Atoms, k: nat)
    requires IsChild(NodesOf(list), base, k)
    ensures k < |list|
    ensures EntriesFrom(list, fs, base, k) == [EntryOf(list, fs, k)] + EntriesFrom(list, fs, base, k + 1)
  {}

  lemma {:induction false} EntriesSkip(list: Records, fs: FileSystem, base: Atoms, from: nat, upTo: nat)
    requires from <= upTo && ChildrenFrom(NodesOf(list), base, from) == ChildrenFrom(NodesOf(list), base, upTo)
    ensures EntriesFrom(list, fs, base, from) == EntriesFrom(list, fs, base, upTo)
    decreases upTo - from
  {
    hide NodesOf;
    hide IsChild;
    hide EntryOf;
    if from < upTo {
      ChildrenAreAll(NodesOf(list), base, from, from);
      ChildrenAreAll(NodesOf(list), base, upTo, from);
      if from < |list| { EntriesSkip(list, fs, base, from + 1, upTo); }
    }
  }

  lemma EntriesEnd(list: Records, fs: FileSystem, base: Atoms, from: nat)
    requires ChildrenFrom(NodesOf(list), base, from) == []
    ensures EntriesFrom(list, fs, base, from) == []
  {
    if from < |list| { EntriesSkip(list, fs, base, from, |list|); }
  }

  // ----- snapshots: the fields of all records as one value -----

  type Snapshot = seq<Fields>

  ghost function SnapshotOf(list: Records): (s: Snapshot)
    reads list
    ensures |s| == |list| && forall k :: 0 <= k < |list| ==> s[k] == FieldsOf(list[k])
  {
    if list == [] then [] else [FieldsOf(list[0])] + SnapshotOf(list[1..])
  }

  /** Between two snapshots nothing changed but at `d` and below it. */
  ghost predicate ChangedUnder(list: Records, d: nat, before: Snapshot, after: Snapshot) {
    && |before| == |after| == |list|
    && forall k :: 0 <= k < |list| && !InSubtree(list, d, k) ==> after[k] == before[k]
  }

  /** Between two snapshots nothing changed but strictly below `path`. */
  ghost predicate ChangedBelow(list: Records, path: Atoms, before: Snapshot, after: Snapshot) {
    && |before| == |after| == |list|
    && forall k :: 0 <= k < |list| && !(path < NodesOf(list)[k].path) ==> after[k] == before[k]
  }

  /** `d` and everything below it is hashed. */
  ghost predicate SubtreeHashed(box: SBoxes, list: Records, fs: FileSystem, d: nat, s: Snapshot) {
    |s| == |list| && forall k: nat :: InSubtree(list, d, k) ==> Hashed(box, list, fs, k, s[k])
  }

  /** The subtrees of the subdirectories of `path` standing before `upTo` are hashed. */
  ghost predicate SubdirectoriesHashed(box: SBoxes, list: Records, fs: FileSystem, path: Atoms, upTo: nat, s: Snapshot) {
    forall c: nat :: c < upTo && IsChild(NodesOf(list), path, c) && NodesOf(list)[c].isDirectory ==>
                       SubtreeHashed(box, list, fs, c, s)
  }

  lemma SubtreesOfChildrenAreApart(list: Records, path: Atoms, c: nat, d: nat, k: nat)
    requires WellFormed(list) && c != d && IsChild(NodesOf(list), path, c) && IsChild(NodesOf(list), path, d)
    requires InSubtree(list, c, k)
    ensures !InSubtree(list, d, k)
  {
    var t := NodesOf(list);
    hide NodesOf;
    hide Tree;
    if InSubtree(list, d, k) {
      assert t[c].path == t[k].path[..|path| + 1] == t[d].path;
      SamePathSamePlace(t, c, d);
    }
  }

  lemma OtherSubtreeStaysHashed(box: SBoxes, list: Records, fs: FileSystem, path: Atoms, c: nat, d: nat, before: Snapshot, after: Snapshot)
    requires WellFormed(list) && c != d && IsChild(NodesOf(list), path, c) && IsChild(NodesOf(list), path, d)
    requires SubtreeHashed(box, list, fs, c, before) && ChangedUnder(list, d, before, after)
    ensures SubtreeHashed(box, list, fs, c, after)
  {
    hide Hashed;
    hide NodesOf;
    hide WellFormed;
    hide IsChild;
    forall k: nat | InSubtree(list, c, k) ensures Hashed(box, list, fs, k, after[k]) {
      SubtreesOfChildrenAreApart(list, path, c, d, k);
    }
  }

  /** Hashing one more child keeps what the subdirectories before it have got. */
  lemma OneMoreChild(box: SBoxes, list: Records, fs: FileSystem, path: Atoms, d: nat, upTo: nat, before: Snapshot, after: Snapshot)
    requires WellFormed(list) && IsChild(NodesOf(list), path, d)
    requires SubdirectoriesHashed(box, list, fs, path, d, before)
    requires ChangedUnder(list, d, before, after)
    requires NodesOf(list)[d].isDirectory ==> SubtreeHashed(box, list, fs, d, after)
    requires d < upTo && ChildrenFrom(NodesOf(list), path, d + 1) == ChildrenFrom(NodesOf(list), path, upTo)
    ensures SubdirectoriesHashed(box, list, fs, path, upTo, after)
  {
    forall c: nat | c < upTo && IsChild(NodesOf(list), path, c) && NodesOf(list)[c].isDirectory
      ensures SubtreeHashed(box, list, fs, c, after)
    {
      hide *;
      if c > d { NoChildIn(NodesOf(list), path, d + 1, upTo); }
      if c < d { EarlierChild(box, list, fs, path, c, d, before, after); }
    }
  }

  lemma EarlierChild(box: SBoxes, list: Records, fs: FileSystem, path: Atoms, c: nat, d: nat, before: Snapshot, after: Snapshot)
    requires WellFormed(list) && c < d && IsChild(NodesOf(list), path, c) && IsChild(NodesOf(list), path, d)
    requires SubdirectoriesHashed(box, list, fs, path, d, before) && c < |list| && NodesOf(list)[c].isDirectory
    requires ChangedUnder(list, d, before, after)
    ensures SubtreeHashed(box, list, fs, c, after)
  {
    hide NodesOf;
    hide WellFormed;
    hide IsChild;
    hide SubtreeHashed;
    hide ChangedUnder;
    OtherSubtreeStaysHashed(box, list, fs, path, c, d, before, after);
  }

  lemma ChildChangesBelow(list: Records, path: Atoms, d: nat, first: Snapshot, before: Snapshot, after: Snapshot)
    requires IsChild(NodesOf(list), path, d)
    requires ChangedBelow(list, path, first, before) && ChangedUnder(list, d, before, after)
    ensures ChangedBelow(list, path, first, after)
  {
    hide NodesOf;
  }

  // ----- hash_dir -----

  /** What one entry adds to the blob of its directory. */
  function Piece(box: SBoxes, e: Entry): Bytes {
    (if e.Directory? then HashBytes(EntryHash(box, e)) else []) + NameBytes(e.name)
  }

  lemma EntriesOfStep(box: SBoxes, e: Entry, rest: seq<Entry>)
    ensures Blob(box, [e] + rest) == Piece(box, e) + Blob(box, rest)
    ensures DirectoriesReadable([e] + rest) <==> (e.Directory? ==> AllReadable(e)) && DirectoriesReadable(rest)
    ensures FilesReadable([e] + rest) <==> (e.File? ==> AllReadable(e)) && FilesReadable(rest)
    ensures FilesInDirectories([e] + rest) == (if e.Directory? then FileCount(e) else 0) + FilesInDirectories(rest)
    ensures PlainFiles([e] + rest) == (if e.File? then 1 else 0) + PlainFiles(rest)
  {
    hide EntryHash;
    hide HashBytes;
    hide AllReadable;
    hide FileCount;
    var all := [e] + rest;
    assert all[0] == e && all[1..] == rest;
    assert forall i :: 0 <= i < |rest| ==> all[i + 1] == rest[i];
    if DirectoriesReadable(all) {
      forall i | 0 <= i < |rest| && rest[i].Directory? ensures AllReadable(rest[i]) { assert all[i + 1] == rest[i]; }
    }
    if FilesReadable(all) {
      forall i | 0 <= i < |rest| && rest[i].File? ensures AllReadable(rest[i]) { assert all[i + 1] == rest[i]; }
    }
  }

  lemma NoChangeIsUnder(list: Records, d: nat, s: Snapshot)
    requires |s| == |list|
    ensures ChangedUnder(list, d, s, s)
  {}

  /** One child in the first pass: a directory is hashed with all below it, a file gives its name. */
  method HashOneChild(box: SBoxes, fs: FileSystem, it: DirIterator, ignoreErrors: bool, progress: ProgressInfo)
    returns (ok: bool, piece: Bytes)
    requires it.Valid() && !it.IsEnd() && DirectoriesFirst(it.list)
    modifies it.list, progress
    ensures ChangedUnder(it.list, it.current, old(SnapshotOf(it.list)), SnapshotOf(it.list))
    ensures ok && it.list[it.current].isDirectory ==> SubtreeHashed(box, it.list, fs, it.current, SnapshotOf(it.list))
    ensures var e := EntryOf(it.list, fs, it.current);
            && (ok <==> ignoreErrors || (e.Directory? ==> AllReadable(e)))
            && (ok ==> piece == Piece(box, e))
            && (ok ==> progress.fileNum == old(progress.fileNum) + (if e.Directory? then FileCount(e) else 0))
    decreases |it.list| - it.current, 2
  {
    hide *;
    it.AtChild();
    EntryKind(it.list, fs, it.current);
    var r := it.list[it.current];
    var currPath := new PathName(r.Path());
    var name := Basename(currPath);
    OnlyLastAtom(currPath.pool, name);
    ok, piece := true, NameBytes(name);
    if r.isDirectory {
      var inside := new SetListingView.FromIterator(it);
      ViewIs(inside);
      ok := HashDir(box, fs, r, inside, ignoreErrors, progress);
      if ok { piece := HashBytes(r.hash) + NameBytes(name); }
    } else {
      NoChangeIsUnder(it.list, it.current, SnapshotOf(it.list));
    }
    PieceIs(box, EntryOf(it.list, fs, it.current));
  }

  lemma PieceIs(box: SBoxes, e: Entry)
    ensures Piece(box, e) == if e.Directory? then HashBytes(EntryHash(box, e)) + NameBytes(e.name) else NameBytes(e.name)
  {
    assert [] + NameBytes(e.name) == NameBytes(e.name);
  }

  lemma EntryKind(list: Records, fs: FileSystem, k: nat)
    requires k < |list|
    ensures EntryOf(list, fs, k).Directory? <==> list[k].isDirectory
    ensures EntryOf(list, fs, k).name == LastAtom(Split(list[k].Path()))
    ensures list[k].Atoms() == Split(list[k].Path())
    ensures NodesOf(list)[k].isDirectory == list[k].isDirectory
  {}

  /** How far the first pass has got when the children before `upTo` are done. */
  ghost predicate FirstPass(box: SBoxes, list: Records, fs: FileSystem, path: Atoms, entries: seq<Entry>, ignoreErrors: bool,
                            upTo: nat, blob: Bytes, files: int, first: Snapshot, now: Snapshot)
  {
    var rest := EntriesFrom(list, fs, path, upTo);
    && ChangedBelow(list, path, first, now)
    && SubdirectoriesHashed(box, list, fs, path, upTo, now)
    && blob + Blob(box, rest) == Blob(box, entries)
    && files + FilesInDirectories(rest) == FilesInDirectories(entries)
    && (ignoreErrors || (DirectoriesReadable(entries) <==> DirectoriesReadable(rest)))
  }

  lemma FirstPassStarts(box: SBoxes, list: Records, fs: FileSystem, d: nat, current: nat, ignoreErrors: bool, s: Snapshot)
    requires WellFormed(list) && d < |list| && |s| == |list| && d <= current
    requires ChildrenFrom(NodesOf(list), list[d].Atoms(), d) == ChildrenFrom(NodesOf(list), list[d].Atoms(), current)
    ensures FirstPass(box, list, fs, list[d].Atoms(), EntriesFrom(list, fs, list[d].Atoms(), d), ignoreErrors, current, [], 0, s, s)
  {
    hide NodesOf;
    hide WellFormed;
    hide ChildrenFrom;
    hide EntriesFrom;
    hide Blob;
    hide FilesInDirectories;
    hide SubdirectoriesHashed;
    hide ChangedBelow;
    hide DirectoriesReadable;
    hide FileRecordData.Atoms;
    NothingYet(box, list, fs, d, current, s);
  }

  lemma FirstPassStep(box: SBoxes, list: Records, fs: FileSystem, path: Atoms, entries: seq<Entry>, ignoreErrors: bool,
                      at: nat, next: nat, blob: Bytes, files: int, first: Snapshot, before: Snapshot, after: Snapshot)
    requires WellFormed(list) && IsChild(NodesOf(list), path, at)
    requires FirstPass(box, list, fs, path, entries, ignoreErrors, at, blob, files, first, before)
    requires ChangedUnder(list, at, before, after)
    requires NodesOf(list)[at].isDirectory ==> SubtreeHashed(box, list, fs, at, after)
    requires at < next && ChildrenFrom(NodesOf(list), path, at + 1) == ChildrenFrom(NodesOf(list), path, next)
    ensures at < |list|
    ensures var e := EntryOf(list, fs, at);
            (ignoreErrors || (e.Directory? ==> AllReadable(e))) ==>
            FirstPass(box, list, fs, path, entries, ignoreErrors, next, blob + Piece(box, e),
                      files + (if e.Directory? then FileCount(e) else 0), first, after)
  {
    hide NodesOf;
    hide WellFormed;
    hide IsChild;
    hide ChildrenFrom;
    hide SubtreeHashed;
    hide ChangedUnder;
    hide AllReadable;
    hide FileCount;
    hide EntryOf;
    hide EntriesFrom;
    hide Blob;
    hide Piece;
    hide FilesInDirectories;
    hide SubdirectoriesHashed;
    hide ChangedBelow;
    hide DirectoriesReadable;
    ChildEntry(box, list, fs, path, at);
    ChildChangesBelow(list, path, at, first, before, after);
    EntriesSkip(list, fs, path, at + 1, next);
    OneMoreChild(box, list, fs, path, at, next, before, after);
  }

  /** A read error below one child is one below the directory. */
  lemma FirstPassFails(box: SBoxes, list: Records, fs: FileSystem, path: Atoms, entries: seq<Entry>,
                       at: nat, blob: Bytes, files: int, first: Snapshot, before: Snapshot, after: Snapshot)
    requires IsChild(NodesOf(list), path, at) && ChangedUnder(list, at, before, after)
    requires FirstPass(box, list, fs, path, entries, false, at, blob, files, first, before)
    ensures at < |list|
    ensures ChangedBelow(list, path, first, after)
    ensures var e := EntryOf(list, fs, at); e.Directory? && !AllReadable(e) ==> !DirectoriesReadable(entries)
  {
    ChildEntry(box, list, fs, path, at);
    ChildChangesBelow(list, path, at, first, before, after);
    hide *;
  }

  lemma FirstPassEnds(box: SBoxes, list: Records, fs: FileSystem, path: Atoms, entries: seq<Entry>, ignoreErrors: bool,
                      upTo: nat, blob: Bytes, files: int, first: Snapshot, now: Snapshot)
    requires FirstPass(box, list, fs, path, entries, ignoreErrors, upTo, blob, files, first, now)
    requires ChildrenFrom(NodesOf(list), path, upTo) == []
    ensures ChangedBelow(list, path, first, now) && SubdirectoriesHashed(box, list, fs, path, |list|, now)
    ensures blob == Blob(box, entries) && files == FilesInDirectories(entries)
    ensures ignoreErrors || DirectoriesReadable(entries)
  {
    hide Blob;
    hide EntriesFrom;
    hide ChangedBelow;
    hide SubdirectoriesHashed;
    NothingLeft(box, list, fs, path, upTo, now);
  }

  /** The body of the loop over the children. */
  method HashNextChild(box: SBoxes, fs: FileSystem, it: DirIterator, ignoreErrors: bool, progress: ProgressInfo, blob0: Bytes,
                       ghost entries: seq<Entry>, ghost first: Snapshot, ghost files0: nat)
    returns (ok: bool, blob: Bytes)
    requires it.Valid() && !it.IsEnd() && DirectoriesFirst(it.list)
    requires FirstPass(box, it.list, fs, it.base.pool, entries, ignoreErrors, it.current, blob0,
                       progress.fileNum - files0, first, SnapshotOf(it.list))
    modifies it, it.list, progress
    ensures it.Valid() && old(it.current) <= it.current <= |it.list|
    ensures ok ==>
              && old(it.current) < it.current
              && FirstPass(box, it.list, fs, it.base.pool, entries, ignoreErrors, it.current, blob,
                           progress.fileNum - files0, first, SnapshotOf(it.list))
    ensures !ok ==>
              !ignoreErrors && !DirectoriesReadable(entries) && ChangedBelow(it.list, it.base.pool, first, SnapshotOf(it.list))
    decreases |it.list| - it.current, 3
  {
    hide *;
    it.AtChild();
    it.InRange();
    EntryKind(it.list, fs, it.current);
    ghost var list, path, at, before := it.list, it.base.pool, it.current, SnapshotOf(it.list);
    ghost var files := progress.fileNum - files0;
    var piece;
    ok, piece := HashOneChild(box, fs, it, ignoreErrors, progress);
    if !ok {
      blob := blob0;
      FirstPassFails(box, list, fs, path, entries, at, blob, files, first, before, SnapshotOf(list));
      return;
    }
    it.Increment();
    it.InRange();
    it.RemainingIs();
    FirstPassStep(box, list, fs, path, entries, ignoreErrors, at, it.current, blob0, files, first, before, SnapshotOf(list));
    blob := blob0 + piece;
  }

  /** The first pass: subdirectories are hashed and the blob is put together. */
  method HashSubdirectories(box: SBoxes, fs: FileSystem, view: SetListingView, ignoreErrors: bool, progress: ProgressInfo)
    returns (ok: bool, blob: Bytes)
    requires ViewOf(view) && DirectoriesFirst(view.list)
    modifies view.list, progress
    ensures ChangedBelow(view.list, view.base.pool, old(SnapshotOf(view.list)), SnapshotOf(view.list))
    ensures ok ==> SubdirectoriesHashed(box, view.list, fs, view.base.pool, |view.list|, SnapshotOf(view.list))
    ensures var entries := EntriesFrom(view.list, fs, view.base.pool, view.begin);
            && (ok <==> ignoreErrors || DirectoriesReadable(entries))
            && (ok ==> blob == Blob(box, entries))
            && (ok ==> progress.fileNum == old(progress.fileNum) + FilesInDirectories(entries))
    decreases |view.list| - view.begin, 0
  {
    hide *;
    ViewStart(view);
    ghost var list, path := view.list, view.base.pool;
    ghost var entries, first := EntriesFrom(list, fs, path, view.begin), SnapshotOf(list);
    ok, blob := true, [];
    var it := view.Begin();
    it.RemainingIs();
    FirstPassStarts(box, list, fs, view.begin, it.current, ignoreErrors, first);
    var end := view.End();
    var done := it.Equal(end);
    while !done
      invariant it.Valid() && it.list == list && it.base == view.base && view.base.pool == path && fresh(it)
      invariant end.Valid() && end.list == list && end.base == view.base && end.IsEnd() && done == it.IsEnd()
      invariant ok && view.begin <= it.current
      invariant FirstPass(box, list, fs, path, entries, ignoreErrors, it.current, blob,
                          progress.fileNum - old(progress.fileNum), first, SnapshotOf(list))
      decreases |list| - it.current
    {
      it.AtChild();
      ChildIsPastBegin(view, it.current);
      ok, blob := HashNextChild(box, fs, it, ignoreErrors, progress, blob, entries, first, old(progress.fileNum));
      if !ok { return; }
      done := it.Equal(end);
    }
    it.AtEnd();
    it.RemainingIs();
    FirstPassEnds(box, list, fs, path, entries, ignoreErrors, it.current, blob, progress.fileNum - old(progress.fileNum), first,
                  SnapshotOf(list));
  }

  lemma NothingLeft(box: SBoxes, list: Records, fs: FileSystem, path: Atoms, from: nat, s: Snapshot)
    requires ChildrenFrom(NodesOf(list), path, from) == []
    ensures EntriesFrom(list, fs, path, from) == []
    ensures Blob(box, []) == [] && FilesInDirectories([]) == 0 && PlainFiles([]) == 0
    ensures DirectoriesReadable([]) && FilesReadable([])
    ensures SubdirectoriesHashed(box, list, fs, path, from, s) ==> SubdirectoriesHashed(box, list, fs, path, |list|, s)
  {
    hide SubtreeHashed;
    hide NodesOf;
    EntriesEnd(list, fs, path, from);
    forall c: nat | from <= c ensures !IsChild(NodesOf(list), path, c) {
      ChildrenAreAll(NodesOf(list), path, from, c);
    }
  }

  /** The view of the directory it starts at. */
  ghost predicate ViewOf(view: SetListingView)
    reads view.base
  {
    view.Valid() && view.begin < |view.list| && view.list[view.begin].isDirectory
    && view.base.pool == view.list[view.begin].Atoms()
  }

  lemma ViewIs(view: SetListingView)
    requires view.begin < |view.list| && view.list[view.begin].isDirectory
    ensures ViewOf(view) <==> view.Valid() && view.base.pool == view.list[view.begin].Atoms()
    ensures view.Valid() ==> WellFormed(view.list)
  {}

  lemma ViewStart(view: SetListingView)
    requires ViewOf(view)
    ensures view.Valid() && WellFormed(view.list) && view.begin < |view.list| && view.list[view.begin].isDirectory
    ensures view.base.pool == view.list[view.begin].Atoms()
  {}

  lemma NothingYet(box: SBoxes, list: Records, fs: FileSystem, d: nat, current: nat, s: Snapshot)
    requires WellFormed(list) && d < |list| && |s| == |list| && d <= current
    requires ChildrenFrom(NodesOf(list), list[d].Atoms(), d) == ChildrenFrom(NodesOf(list), list[d].Atoms(), current)
    ensures EntriesFrom(list, fs, list[d].Atoms(), d) == EntriesFrom(list, fs, list[d].Atoms(), current)
    ensures ChangedBelow(list, list[d].Atoms(), s, s)
    ensures SubdirectoriesHashed(box, list, fs, list[d].Atoms(), current, s)
  {
    var t, path := NodesOf(list), list[d].Atoms();
    assert t[d].path == path;
    hide NodesOf;
    hide FileRecordData.Atoms;
    EntriesSkip(list, fs, path, d, current);
    forall c: nat | c < current ensures !IsChild(t, path, c) {
      if IsChild(t, path, c) {
        ChildIsBehind(t, d, c);
        NoChildIn(t, path, d, current);
      }
    }
  }

  lemma ChildEntry(box: SBoxes, list: Records, fs: FileSystem, path: Atoms, k: nat)
    requires IsChild(NodesOf(list), path, k)
    ensures k < |list|
    ensures var e, rest := EntryOf(list, fs, k), EntriesFrom(list, fs, path, k + 1);
            var all := EntriesFrom(list, fs, path, k);
            && Blob(box, all) == Piece(box, e) + Blob(box, rest)
            && (DirectoriesReadable(all) <==> (e.Directory? ==> AllReadable(e)) && DirectoriesReadable(rest))
            && (FilesReadable(all) <==> (e.File? ==> AllReadable(e)) && FilesReadable(rest))
            && FilesInDirectories(all) == (if e.Directory? then FileCount(e) else 0) + FilesInDirectories(rest)
            && PlainFiles(all) == (if e.File? then 1 else 0) + PlainFiles(rest)
  {
    EntriesStep(list, fs, path, k);
    hide *;
    EntriesOfStep(box, EntryOf(list, fs, k), EntriesFrom(list, fs, path, k + 1));
  }

  // ----- the second pass: files -----

  /** Nothing changed but the record of the directory itself and those of the files in it. */
  ghost predicate ChangedFiles(list: Records, path: Atoms, d: nat, before: Snapshot, after: Snapshot) {
    && |before| == |after| == |list|
    && forall k :: 0 <= k < |list| && k != d && !IsFileIn(NodesOf(list), path, k) ==> after[k] == before[k]
  }

  ghost predicate FilesHashed(box: SBoxes, list: Records, fs: FileSystem, path: Atoms, upTo: nat, s: Snapshot) {
    |s| == |list| && forall k: nat :: k < upTo && IsFileIn(NodesOf(list), path, k) ==> Hashed(box, list, fs, k, s[k])
  }

  /** What the entries before `upTo` have added to the hash of the directory and to the count. */
  predicate SecondSums(box: SBoxes, list: Records, fs: FileSystem, path: Atoms, entries: seq<Entry>, ignoreErrors: bool,
                       upTo: nat, initial: State, hash: State, files: int)
  {
    var rest := EntriesFrom(list, fs, path, upTo);
    && FoldFiles(box, hash, rest) == FoldFiles(box, initial, entries)
    && files + PlainFiles(rest) == PlainFiles(entries)
    && (ignoreErrors || (FilesReadable(entries) <==> FilesReadable(rest)))
  }

  ghost predicate SecondPass(box: SBoxes, list: Records, fs: FileSystem, path: Atoms, d: nat, entries: seq<Entry>, ignoreErrors: bool,
                             upTo: nat, initial: State, hash: State, files: int, first: Snapshot, now: Snapshot)
  {
    && ChangedFiles(list, path, d, first, now)
    && FilesHashed(box, list, fs, path, upTo, now)
    && SecondSums(box, list, fs, path, entries, ignoreErrors, upTo, initial, hash, files)
  }

  /** The directories skipped by the first file add nothing. */
  lemma {:induction false} DirectoriesSkipped(box: SBoxes, list: Records, fs: FileSystem, path: Atoms, from: nat, upTo: nat, s: State)
    requires from <= upTo && forall c :: from <= c < upTo ==> !IsFileIn(NodesOf(list), path, c)
    ensures var all, rest := EntriesFrom(list, fs, path, from), EntriesFrom(list, fs, path, upTo);
            && FoldFiles(box, s, all) == FoldFiles(box, s, rest)
            && PlainFiles(all) == PlainFiles(rest) && (FilesReadable(all) <==> FilesReadable(rest))
    decreases upTo - from
  {
    hide *;
    if from < upTo {
      DirectoriesSkipped(box, list, fs, path, from + 1, upTo, s);
      OneDirectorySkipped(box, list, fs, path, from, s);
    }
  }

  lemma OneDirectorySkipped(box: SBoxes, list: Records, fs: FileSystem, path: Atoms, k: nat, s: State)
    requires !IsFileIn(NodesOf(list), path, k)
    ensures var all, rest := EntriesFrom(list, fs, path, k), EntriesFrom(list, fs, path, k + 1);
            && FoldFiles(box, s, all) == FoldFiles(box, s, rest)
            && PlainFiles(all) == PlainFiles(rest) && (FilesReadable(all) <==> FilesReadable(rest))
  {
    hide NodesOf;
    hide EntryOf;
    hide FilesReadable;
    hide PlainFiles;
    hide FoldFiles;
    if IsChild(NodesOf(list), path, k) {
      EntryKind(list, fs, k);
      EntriesStep(list, fs, path, k);
      ChildEntry(box, list, fs, path, k);
      FoldSkip(box, s, EntryOf(list, fs, k), EntriesFrom(list, fs, path, k + 1));
    } else {
      assert [] + EntriesFrom(list, fs, path, k + 1) == EntriesFrom(list, fs, path, k + 1);
    }
  }

  lemma FoldSkip(box: SBoxes, s: State, e: Entry, rest: seq<Entry>)
    requires e.Directory?
    ensures FoldFiles(box, s, [e] + rest) == FoldFiles(box, s, rest)
  {
    hide DirectoryHash;
    assert ([e] + rest)[0] == e && ([e] + rest)[1..] == rest;
  }

  lemma SecondPassStarts(box: SBoxes, list: Records, fs: FileSystem, d: nat, current: nat, ignoreErrors: bool,
                         initial: State, s: Snapshot)
    requires WellFormed(list) && d < |list| && |s| == |list| && d <= current
    requires forall c :: d <= c < current ==> !IsFileIn(NodesOf(list), list[d].Atoms(), c)
    ensures var path := list[d].Atoms();
            SecondPass(box, list, fs, path, d, EntriesFrom(list, fs, path, d), ignoreErrors, current, initial, initial, 0, s, s)
  {
    var t, path := NodesOf(list), list[d].Atoms();
    assert t[d].path == path;
    hide NodesOf;
    hide WellFormed;
    hide FileRecordData.Atoms;
    hide EntriesFrom;
    hide FoldFiles;
    hide PlainFiles;
    hide FilesReadable;
    hide Hashed;
    assert Tree(t) by { TreeOfList(list); }
    DirectoriesSkipped(box, list, fs, path, d, current, initial);
    forall k: nat | k < current ensures !IsFileIn(t, path, k) {
      if IsFileIn(t, path, k) { ChildIsBehind(t, d, k); }
    }
  }

  lemma TreeOfList(list: Records)
    requires WellFormed(list)
    ensures Tree(NodesOf(list))
  {}

  lemma FoldStep(box: SBoxes, s: State, e: Entry, rest: seq<Entry>)
    requires e.File?
    ensures FoldFiles(box, s, [e] + rest)
         == FoldFiles(box, if e.data.Readable() then DirectoryHash(box, s, e.data.content) else s, rest)
  {
    hide DirectoryHash;
    assert ([e] + rest)[0] == e && ([e] + rest)[1..] == rest;
  }

  lemma SecondPassStep(box: SBoxes, list: Records, fs: FileSystem, path: Atoms, d: nat, entries: seq<Entry>, ignoreErrors: bool,
                       at: nat, next: nat, initial: State, hash: State, files: int, first: Snapshot, before: Snapshot, after: Snapshot)
    requires IsFileIn(NodesOf(list), path, at) && !IsFileIn(NodesOf(list), path, d)
    requires SecondPass(box, list, fs, path, d, entries, ignoreErrors, at, initial, hash, files, first, before)
    requires |after| == |list| && forall k :: 0 <= k < |list| && k != at && k != d ==> after[k] == before[k]
    requires at < next && ChildrenFrom(NodesOf(list), path, at + 1) == ChildrenFrom(NodesOf(list), path, next)
    requires Hashed(box, list, fs, at, after[at])
    requires ignoreErrors || fs(list[at].absPath).Readable()
    ensures var data := fs(list[at].absPath);
            SecondPass(box, list, fs, path, d, entries, ignoreErrors, next, initial,
                       if data.Readable() then DirectoryHash(box, hash, data.content) else hash, files + 1, first, after)
  {
    hide SecondSums;
    hide NodesOf;
    hide FilesHashed;
    hide ChangedFiles;
    hide Hashed;
    hide ChildrenFrom;
    hide DirectoryHash;
    assert IsChild(NodesOf(list), path, at);
    hide IsFileIn;
    SecondSumsStep(box, list, fs, path, entries, ignoreErrors, at, next, initial, hash, files);
    OneMoreFile(box, list, fs, path, d, at, next, first, before, after);
  }

  lemma SecondSumsStep(box: SBoxes, list: Records, fs: FileSystem, path: Atoms, entries: seq<Entry>, ignoreErrors: bool,
                       at: nat, next: nat, initial: State, hash: State, files: int)
    requires IsFileIn(NodesOf(list), path, at)
    requires SecondSums(box, list, fs, path, entries, ignoreErrors, at, initial, hash, files)
    requires at < next && ChildrenFrom(NodesOf(list), path, at + 1) == ChildrenFrom(NodesOf(list), path, next)
    ensures var data := fs(list[at].absPath);
            ignoreErrors || data.Readable() ==>
              SecondSums(box, list, fs, path, entries, ignoreErrors, next, initial,
                         if data.Readable() then DirectoryHash(box, hash, data.content) else hash, files + 1)
  {
    hide NodesOf;
    hide IsChild;
    hide Blob;
    hide Piece;
    hide FilesInDirectories;
    hide DirectoriesReadable;
    hide FileCount;
    hide EntryOf;
    hide EntriesFrom;
    hide FoldFiles;
    hide PlainFiles;
    hide FilesReadable;
    hide AllReadable;
    hide DirectoryHash;
    hide ChildrenFrom;
    EntriesStep(list, fs, path, at);
    ChildEntry(box, list, fs, path, at);
    FileEntry(list, fs, at);
    FoldStep(box, hash, EntryOf(list, fs, at), EntriesFrom(list, fs, path, at + 1));
    EntriesSkip(list, fs, path, at + 1, next);
  }

  lemma SecondSumsFail(box: SBoxes, list: Records, fs: FileSystem, path: Atoms, entries: seq<Entry>,
                       at: nat, initial: State, hash: State, files: int)
    requires IsFileIn(NodesOf(list), path, at) && !fs(list[at].absPath).Readable()
    requires SecondSums(box, list, fs, path, entries, false, at, initial, hash, files)
    ensures !FilesReadable(entries)
  {
    hide NodesOf;
    hide EntryOf;
    hide EntriesFrom;
    hide FoldFiles;
    hide PlainFiles;
    hide FilesReadable;
    hide AllReadable;
    hide Blob;
    hide Piece;
    hide FilesInDirectories;
    hide DirectoriesReadable;
    hide FileCount;
    ChildEntry(box, list, fs, path, at);
    FileEntry(list, fs, at);
  }

  lemma OneMoreFile(box: SBoxes, list: Records, fs: FileSystem, path: Atoms, d: nat, at: nat, next: nat,
                    first: Snapshot, before: Snapshot, after: Snapshot)
    requires IsFileIn(NodesOf(list), path, at) && !IsFileIn(NodesOf(list), path, d)
    requires ChangedFiles(list, path, d, first, before) && FilesHashed(box, list, fs, path, at, before)
    requires |after| == |list| && forall k :: 0 <= k < |list| && k != at && k != d ==> after[k] == before[k]
    requires at < next && ChildrenFrom(NodesOf(list), path, at + 1) == ChildrenFrom(NodesOf(list), path, next)
    requires Hashed(box, list, fs, at, after[at])
    ensures ChangedFiles(list, path, d, first, after) && FilesHashed(box, list, fs, path, next, after)
  {
    hide NodesOf;
    hide Hashed;
    hide ChildrenFrom;
    NoChildIn(NodesOf(list), path, at + 1, next);
  }

  lemma FileEntry(list: Records, fs: FileSystem, k: nat)
    requires k < |list| && !NodesOf(list)[k].isDirectory
    ensures EntryOf(list, fs, k).File? && EntryOf(list, fs, k).data == fs(list[k].absPath)
    ensures AllReadable(EntryOf(list, fs, k)) <==> fs(list[k].absPath).Readable()
  {}

  lemma RecordsAreDistinct(list: Records, k: nat)
    requires WellFormed(list) && k < |list|
    ensures forall j :: 0 <= j < |list| && j != k ==> list[j] != list[k]
  {
    forall j | 0 <= j < |list| && j != k ensures list[j] != list[k] {
      LevelIsDepth(list, j);
      LevelIsDepth(list, k);
      if list[j] == list[k] { SamePathSamePlace(NodesOf(list), j, k); }
    }
  }

  /** Behind a file of a directory come files only: directories stand first on every level. */
  lemma FilesFollow(list: Records, path: Atoms, j: nat, k: nat)
    requires WellFormed(list) && DirectoriesFirst(list) && j < k
    requires IsFileIn(NodesOf(list), path, j) && IsChild(NodesOf(list), path, k)
    ensures IsFileIn(NodesOf(list), path, k)
  {
    LevelIsDepth(list, j);
    LevelIsDepth(list, k);
    hide NodesOf;
    hide Tree;
  }

  /** What `HashFile` leaves in the records, as snapshots. */
  lemma FileIsHashed(box: SBoxes, list: Records, fs: FileSystem, path: Atoms, at: nat, f: Fields)
    requires IsFileIn(NodesOf(list), path, at)
    requires var data := fs(list[at].absPath);
             if data.Readable() then f.hashValid && f.hash == Hash(box, data.content, TIGER_PADDING) && f.size == |data.content|
             else f.unreadable && f.hash == State(0, 0, 0)
    ensures Hashed(box, list, fs, at, f)
  {
    hide NodesOf;
    hide Hash;
    FileEntry(list, fs, at);
  }

  /** One file of the second pass, between snapshots of all records. */
  method HashFileAt(box: SBoxes, fs: FileSystem, list: Records, at: nat, d: nat, ignoreErrors: bool, progress: ProgressInfo,
                    ghost path: Atoms)
    returns (ok: bool)
    requires WellFormed(list) && d < |list| && IsFileIn(NodesOf(list), path, at) && !IsFileIn(NodesOf(list), path, d)
    modifies list, progress
    ensures var data := fs(list[at].absPath); var before, after := old(SnapshotOf(list)), SnapshotOf(list);
            && (ok <==> data.Readable() || ignoreErrors)
            && (forall k :: 0 <= k < |list| && k != at && k != d ==> after[k] == before[k])
            && (ok ==> Hashed(box, list, fs, at, after[at]))
            && list[d].hash == (if data.Readable() then DirectoryHash(box, old(list[d].hash), data.content) else old(list[d].hash))
            && progress.fileNum == old(progress.fileNum) + 1
  {
    RecordsAreDistinct(list, at);
    RecordsAreDistinct(list, d);
    ghost var before := SnapshotOf(list);
    hide WellFormed;
    hide NodesOf;
    hide Hash;
    hide Hashed;
    hide DirectoryHash;
    assert at < |list|;
    ok := HashFile(box, fs, list[at], list[d], ignoreErrors, progress);
    if ok { FileIsHashed(box, list, fs, path, at, FieldsOf(list[at])); }
  }

  lemma NextIsFile(it: DirIterator, at: nat)
    requires it.Valid() && !it.IsEnd() && DirectoriesFirst(it.list)
    requires at < it.current && IsFileIn(NodesOf(it.list), it.base.pool, at)
    ensures IsFileIn(NodesOf(it.list), it.base.pool, it.current)
  {
    hide *;
    it.AtChild();
    FilesFollow(it.list, it.base.pool, at, it.current);
  }

  lemma SecondPassFails(box: SBoxes, list: Records, fs: FileSystem, path: Atoms, d: nat, entries: seq<Entry>,
                        at: nat, initial: State, hash: State, files: int, first: Snapshot, before: Snapshot, after: Snapshot)
    requires IsFileIn(NodesOf(list), path, at)
    requires SecondPass(box, list, fs, path, d, entries, false, at, initial, hash, files, first, before)
    requires |after| == |list| && forall k :: 0 <= k < |list| && k != at && k != d ==> after[k] == before[k]
    ensures ChangedFiles(list, path, d, first, after)
    ensures !fs(list[at].absPath).Readable() ==> !FilesReadable(entries)
  {
    hide NodesOf;
    hide DirectoryHash;
    hide SecondSums;
    hide FilesHashed;
    hide FilesReadable;
    hide ChildrenFrom;
    assert SecondSums(box, list, fs, path, entries, false, at, initial, hash, files);
    if !fs(list[at].absPath).Readable() { SecondSumsFail(box, list, fs, path, entries, at, initial, hash, files); }
    hide IsFileIn;
  }

  lemma SecondPassEnds(box: SBoxes, list: Records, fs: FileSystem, path: Atoms, d: nat, entries: seq<Entry>, ignoreErrors: bool,
                       upTo: nat, initial: State, hash: State, files: int, first: Snapshot, now: Snapshot)
    requires SecondPass(box, list, fs, path, d, entries, ignoreErrors, upTo, initial, hash, files, first, now)
    requires ChildrenFrom(NodesOf(list), path, upTo) == []
    ensures ChangedFiles(list, path, d, first, now) && FilesHashed(box, list, fs, path, |list|, now)
    ensures hash == FoldFiles(box, initial, entries) && files == PlainFiles(entries)
    ensures ignoreErrors || FilesReadable(entries)
  {
    hide NodesOf;
    hide EntriesFrom;
    hide Hashed;
    NothingLeft(box, list, fs, path, upTo, now);
    assert FoldFiles(box, hash, []) == hash;
    forall k: nat | upTo <= k ensures !IsFileIn(NodesOf(list), path, k) {
      ChildrenAreAll(NodesOf(list), path, upTo, k);
    }
  }

  /** The body of the loop over the files. */
  method HashNextFile(box: SBoxes, fs: FileSystem, it: DirIterator, d: nat, ignoreErrors: bool, progress: ProgressInfo,
                      ghost entries: seq<Entry>, ghost initial: State, ghost first: Snapshot, ghost files0: nat)
    returns (ok: bool)
    requires it.Valid() && !it.IsEnd() && DirectoriesFirst(it.list) && d < |it.list|
    requires IsFileIn(NodesOf(it.list), it.base.pool, it.current) && !IsFileIn(NodesOf(it.list), it.base.pool, d)
    requires SecondPass(box, it.list, fs, it.base.pool, d, entries, ignoreErrors, it.current, initial, it.list[d].hash,
                        progress.fileNum - files0, first, SnapshotOf(it.list))
    modifies it, it.list, progress
    ensures it.Valid() && old(it.current) <= it.current <= |it.list|
    ensures ok ==>
              && old(it.current) < it.current
              && (!it.IsEnd() ==> IsFileIn(NodesOf(it.list), it.base.pool, it.current))
              && SecondPass(box, it.list, fs, it.base.pool, d, entries, ignoreErrors, it.current, initial, it.list[d].hash,
                            progress.fileNum - files0, first, SnapshotOf(it.list))
    ensures !ok ==>
              !ignoreErrors && !FilesReadable(entries) && ChangedFiles(it.list, it.base.pool, d, first, SnapshotOf(it.list))
  {
    hide *;
    it.AtChild();
    it.InRange();
    ghost var list, path, at, before := it.list, it.base.pool, it.current, SnapshotOf(it.list);
    ghost var files, hash := progress.fileNum - files0, list[d].hash;
    ok := HashFileAt(box, fs, it.list, it.current, d, ignoreErrors, progress, path);
    if !ok {
      SecondPassFails(box, list, fs, path, d, entries, at, initial, hash, files, first, before, SnapshotOf(list));
      return;
    }
    it.Increment();
    it.InRange();
    it.RemainingIs();
    if !it.IsEnd() { NextIsFile(it, at); }
    SecondPassStep(box, list, fs, path, d, entries, ignoreErrors, at, it.current, initial, hash, files, first, before, SnapshotOf(list));
  }

  /** The second pass: the files of a directory, from the first one on. */
  method HashFiles(box: SBoxes, fs: FileSystem, view: SetListingView, ignoreErrors: bool, progress: ProgressInfo)
    returns (ok: bool)
    requires ViewOf(view) && DirectoriesFirst(view.list)
    modifies view.list, progress
    ensures view.begin < |view.list|
    ensures ChangedFiles(view.list, view.base.pool, view.begin, old(SnapshotOf(view.list)), SnapshotOf(view.list))
    ensures ok ==> FilesHashed(box, view.list, fs, view.base.pool, |view.list|, SnapshotOf(view.list))
    ensures var entries := EntriesFrom(view.list, fs, view.base.pool, view.begin);
            && (ok <==> ignoreErrors || FilesReadable(entries))
            && (ok ==> view.list[view.begin].hash == FoldFiles(box, old(view.list[view.begin].hash), entries))
            && (ok ==> progress.fileNum == old(progress.fileNum) + PlainFiles(entries))
  {
    hide *;
    ViewStart(view);
    ghost var list, path, d := view.list, view.base.pool, view.begin;
    ghost var entries, first, initial := EntriesFrom(list, fs, path, d), SnapshotOf(list), list[d].hash;
    ok := true;
    DirectoryFlag(list, path, d);
    var it := FirstFile(view);
    SecondPassStarts(box, list, fs, d, it.current, ignoreErrors, initial, first);
    var end := view.End();
    var done := it.Equal(end);
    while !done
      invariant it.Valid() && it.list == list && it.base == view.base && view.base.pool == path && fresh(it)
      invariant end.Valid() && end.list == list && end.base == view.base && end.IsEnd() && done == it.IsEnd()
      invariant ok && d <= it.current
      invariant !done ==> IsFileIn(NodesOf(list), path, it.current)
      invariant SecondPass(box, list, fs, path, d, entries, ignoreErrors, it.current, initial, list[d].hash,
                           progress.fileNum - old(progress.fileNum), first, SnapshotOf(list))
      decreases |list| - it.current
    {
      ok := HashNextFile(box, fs, it, view.begin, ignoreErrors, progress, entries, initial, first, old(progress.fileNum));
      if !ok { return; }
      done := it.Equal(end);
    }
    it.AtEnd();
    it.RemainingIs();
    SecondPassEnds(box, list, fs, path, d, entries, ignoreErrors, it.current, initial, list[d].hash,
                   progress.fileNum - old(progress.fileNum), first, SnapshotOf(list));
  }

  // ----- both passes together -----

  lemma ChangedFilesTwice(list: Records, path: Atoms, d: nat, a: Snapshot, b: Snapshot, c: Snapshot)
    requires ChangedFiles(list, path, d, a, b) && ChangedFiles(list, path, d, b, c)
    ensures ChangedFiles(list, path, d, a, c)
  {
    hide NodesOf;
    hide IsFileIn;
  }

  lemma FilesStayHashed(box: SBoxes, list: Records, fs: FileSystem, path: Atoms, d: nat, a: Snapshot, b: Snapshot)
    requires FilesHashed(box, list, fs, path, |list|, a) && !IsFileIn(NodesOf(list), path, d)
    requires |b| == |list| && forall k :: 0 <= k < |list| && k != d ==> b[k] == a[k]
    ensures FilesHashed(box, list, fs, path, |list|, b)
  {
    hide NodesOf;
    hide IsFileIn;
    hide Hashed;
  }

  /** Subdirectories, files and the directory itself make up its subtree. */
  lemma SubtreeIsHashed(box: SBoxes, list: Records, fs: FileSystem, d: nat, mid: Snapshot, now: Snapshot)
    requires WellFormed(list) && d < |list| && list[d].isDirectory
    requires SubdirectoriesHashed(box, list, fs, list[d].Atoms(), |list|, mid)
    requires ChangedFiles(list, list[d].Atoms(), d, mid, now)
    requires FilesHashed(box, list, fs, list[d].Atoms(), |list|, now)
    requires Hashed(box, list, fs, d, now[d])
    ensures SubtreeHashed(box, list, fs, d, now)
  {
    var t, path := NodesOf(list), list[d].Atoms();
    assert t[d].path == path;
    TreeOfList(list);
    hide NodesOf;
    hide WellFormed;
    hide Tree;
    hide Hashed;
    hide FileRecordData.Atoms;
    forall k: nat | InSubtree(list, d, k) ensures Hashed(box, list, fs, k, now[k]) {
      if t[k].path == path {
        SamePathSamePlace(t, d, k);
      } else {
        var c := WayUp(t, path, k);
        ChildIsHashed(box, list, fs, d, path, c, k, mid, now);
      }
    }
  }

  lemma ChildIsHashed(box: SBoxes, list: Records, fs: FileSystem, d: nat, path: Atoms, c: nat, k: nat, mid: Snapshot, now: Snapshot)
    requires Tree(NodesOf(list)) && d < |list| && NodesOf(list)[d].path == path
    requires Through(NodesOf(list), path, 0, c, k) && c <= k < |list|
    requires SubdirectoriesHashed(box, list, fs, path, |list|, mid)
    requires ChangedFiles(list, path, d, mid, now)
    requires FilesHashed(box, list, fs, path, |list|, now)
    ensures |now| == |list| && Hashed(box, list, fs, k, now[k])
  {
    hide *;
    if NodesOf(list)[c].isDirectory {
      BelowSubdirectory(NodesOf(list), d, path, c, k);
      InSubdirectory(box, list, fs, path, c, k, mid);
      NotTouched(list, path, d, k, mid, now);
    } else {
      NothingBelowFile(NodesOf(list), path, c, k);
      FileIn(box, list, fs, path, k, now);
    }
  }

  lemma NotTouched(list: Records, path: Atoms, d: nat, k: nat, before: Snapshot, after: Snapshot)
    requires k < |list| && k != d && !IsFileIn(NodesOf(list), path, k) && ChangedFiles(list, path, d, before, after)
    ensures |before| == |after| == |list| && after[k] == before[k]
  {
    hide IsFileIn;
    hide NodesOf;
  }

  lemma FileIn(box: SBoxes, list: Records, fs: FileSystem, path: Atoms, k: nat, s: Snapshot)
    requires k < |list| && IsFileIn(NodesOf(list), path, k) && FilesHashed(box, list, fs, path, |list|, s)
    ensures |s| == |list| && Hashed(box, list, fs, k, s[k])
  {
    hide Hashed;
    hide NodesOf;
  }

  lemma InSubdirectory(box: SBoxes, list: Records, fs: FileSystem, path: Atoms, c: nat, k: nat, s: Snapshot)
    requires Through(NodesOf(list), path, 0, c, k) && c < |list| && NodesOf(list)[c].isDirectory
    requires SubdirectoriesHashed(box, list, fs, path, |list|, s)
    ensures k < |s| == |list| && Hashed(box, list, fs, k, s[k])
  {
    hide Hashed;
    hide NodesOf;
    hide IsChild;
    assert InSubtree(list, c, k);
    assert SubtreeHashed(box, list, fs, c, s);
  }

  /** What lies at or below a subdirectory is neither the directory itself nor a file in it. */
  lemma BelowSubdirectory(t: Nodes, d: nat, path: Atoms, c: nat, k: nat)
    requires Tree(t) && d < |t| && t[d].path == path
    requires Through(t, path, 0, c, k) && t[c].isDirectory
    ensures k != d && !IsFileIn(t, path, k)
  {
    hide Tree;
    assert |t[k].path| > |path|;
    if IsFileIn(t, path, k) { SamePathSamePlace(t, c, k); }
  }

  lemma NothingBelowFile(t: Nodes, path: Atoms, c: nat, k: nat)
    requires Tree(t) && Through(t, path, 0, c, k) && c < |t| && !t[c].isDirectory
    ensures k == c && IsFileIn(t, path, k)
  {
    hide Tree;
    if t[c].path == t[k].path {
      SamePathSamePlace(t, c, k);
    } else {
      var e := AncestorIsListed(t, k, |t[c].path|);
      SamePathSamePlace(t, c, e);
    }
  }

  lemma ChangesAreUnder(list: Records, d: nat, first: Snapshot, mid: Snapshot, now: Snapshot)
    requires d < |list|
    requires ChangedBelow(list, list[d].Atoms(), first, mid) && ChangedFiles(list, list[d].Atoms(), d, mid, now)
    ensures ChangedUnder(list, d, first, now)
  {
    assert NodesOf(list)[d].path == list[d].Atoms();
    hide NodesOf;
    hide FileRecordData.Atoms;
  }

  lemma DirectoryEntry(box: SBoxes, list: Records, fs: FileSystem, d: nat)
    requires WellFormed(list) && d < |list| && list[d].isDirectory
    ensures var e, entries := EntryOf(list, fs, d), EntriesFrom(list, fs, list[d].Atoms(), d);
            && e.Directory?
            && EntryHash(box, e) == FoldFiles(box, Hash(box, Blob(box, entries), TIGER_PADDING), entries)
            && (AllReadable(e) <==> DirectoriesReadable(entries) && FilesReadable(entries))
            && FileCount(e) == FilesInDirectories(entries) + PlainFiles(entries)
  {
    LevelIsDepth(list, d);
    hide NodesOf;
    hide WellFormed;
    hide Hash;
    hide FoldFiles;
    hide Blob;
    var entries := EntriesFrom(list, fs, list[d].Atoms(), d + 1);
    assert !IsChild(NodesOf(list), list[d].Atoms(), d);
    assert EntriesFrom(list, fs, list[d].Atoms(), d) == [] + entries == entries;
    FilesAddUp(entries);
    ReadableByParts(entries);
  }

  lemma ReadableByParts(entries: seq<Entry>)
    ensures (forall i :: 0 <= i < |entries| ==> AllReadable(entries[i])) <==> DirectoriesReadable(entries) && FilesReadable(entries)
  {
    hide AllReadable;
  }

  /**
   Hashes the directory a view stands for. Every record in its subtree, and no other, gets what the
   recursive hash of the tree says; a read error that is not ignored stops the walk.
   */
  method HashDir(box: SBoxes, fs: FileSystem, entry: FileRecordData, view: SetListingView, ignoreErrors: bool, progress: ProgressInfo)
    returns (ok: bool)
    requires view.begin < |view.list| && entry == view.list[view.begin]
    requires ViewOf(view) && DirectoriesFirst(view.list)
    modifies view.list, progress
    ensures ChangedUnder(view.list, view.begin, old(SnapshotOf(view.list)), SnapshotOf(view.list))
    ensures ok ==> SubtreeHashed(box, view.list, fs, view.begin, SnapshotOf(view.list))
    ensures var e := EntryOf(view.list, fs, view.begin);
            && (ok <==> ignoreErrors || AllReadable(e))
            && (ok ==> entry.hash == EntryHash(box, e))
            && (ok ==> progress.fileNum == old(progress.fileNum) + FileCount(e))
    decreases |view.list| - view.begin, 1
  {
    hide *;
    ViewStart(view);
    ghost var list, d, first := view.list, view.begin, SnapshotOf(view.list);
    DirectoryEntry(box, list, fs, d);
    RecordsAreDistinct(list, d);
    DirectoryFlag(list, view.base.pool, d);
    var blob;
    ok, blob := HashSubdirectories(box, fs, view, ignoreErrors, progress);
    ghost var mid := SnapshotOf(list);
    OnlyOneChanged(list, view.base.pool, d, mid, mid);
    if !ok {
      ChangesAreUnder(list, d, first, mid, mid);
      return;
    }
    entry.hash := TigerData(box, blob);
    ghost var started := SnapshotOf(list);
    OnlyOneChanged(list, view.base.pool, d, mid, started);
    ok := HashFiles(box, fs, view, ignoreErrors, progress);
    ghost var filed := SnapshotOf(list);
    ChangedFilesTwice(list, view.base.pool, d, mid, started, filed);
    if !ok {
      ChangesAreUnder(list, d, first, mid, filed);
      return;
    }
    entry.hashValid := true;
    ghost var last := SnapshotOf(list);
    OnlyOneChanged(list, view.base.pool, d, filed, last);
    ChangedFilesTwice(list, view.base.pool, d, mid, filed, last);
    ChangesAreUnder(list, d, first, mid, last);
    FilesStayHashed(box, list, fs, view.base.pool, d, filed, last);
    DirectoryIsHashed(box, list, fs, d, entry);
    SubtreeIsHashed(box, list, fs, d, mid, last);
  }

  lemma OnlyOneChanged(list: Records, path: Atoms, d: nat, a: Snapshot, b: Snapshot)
    requires |a| == |b| == |list| && forall k :: 0 <= k < |list| && k != d ==> b[k] == a[k]
    ensures ChangedFiles(list, path, d, a, b)
  {}

  lemma DirectoryIsHashed(box: SBoxes, list: Records, fs: FileSystem, d: nat, r: FileRecordData)
    requires d < |list| && EntryOf(list, fs, d).Directory?
    requires r.hashValid && r.hash == EntryHash(box, EntryOf(list, fs, d))
    ensures Hashed(box, list, fs, d, FieldsOf(r))
  {
    hide EntryOf;
    hide EntryHash;
  }

  // ----- hashing a set -----

  /** Every record of the list is hashed. */
  ghost predicate AllHashed(box: SBoxes, list: Records, fs: FileSystem, s: Snapshot) {
    |s| == |list| && forall k :: 0 <= k < |list| ==> Hashed(box, list, fs, k, s[k])
  }

  /** What a set may look like: nothing, one single file, or a directory with all below it. */
  ghost predicate IsSet(list: Records) {
    list == [] || (|list| == 1 && !list[0].isDirectory) || (WellFormed(list) && DirectoriesFirst(list))
  }

  lemma RootIsFirst(list: Records)
    requires WellFormed(list)
    ensures list != [] && list[0].isDirectory && forall k :: 0 <= k < |list| ==> InSubtree(list, 0, k)
  {
    hide Split;
    assert NodesOf(list)[0] == Node([], true);
  }

  lemma SubtreeIsAll(box: SBoxes, list: Records, fs: FileSystem, s: Snapshot)
    requires WellFormed(list) && list != [] && SubtreeHashed(box, list, fs, 0, s)
    ensures AllHashed(box, list, fs, s)
  {
    RootIsFirst(list);
    hide Hashed;
    hide InSubtree;
    hide WellFormed;
  }

  /** One file on its own: it has no directory whose hash it could go into. */
  method HashSingleFile(box: SBoxes, fs: FileSystem, file: FileRecordData, ignoreErrors: bool) returns (ok: bool)
    modifies file
    ensures var data := fs(file.absPath);
            && (ok <==> data.Readable() || ignoreErrors)
            && (data.Readable() ==>
                  file.hashValid && file.hash == Hash(box, data.content, TIGER_PADDING) && file.size == |data.content|)
            && (ok && !data.Readable() ==> file.unreadable && file.hash == State(0, 0, 0))
  {
    hide Hash;
    hide DirectoryHash;
    var hashFile, dummy := new word[3], new word[3];
    dummy[0], dummy[1], dummy[2] := 0, 0, 0;
    var size;
    ok, size := TigerFile(Sse2, box, fs(file.absPath), hashFile, dummy);
    file.hash := State(hashFile[0], hashFile[1], hashFile[2]);
    if ok {
      file.size := size;
      file.hashValid := true;
    } else if ignoreErrors {
      file.unreadable := true;
      file.hash := State(0, 0, 0);
      ok := true;
    }
  }

  lemma SingleIsHashed(box: SBoxes, list: Records, fs: FileSystem, r: FileRecordData)
    requires |list| == 1 && r == list[0] && !r.isDirectory
    requires var data := fs(r.absPath);
             if data.Readable() then r.hashValid && r.hash == Hash(box, data.content, TIGER_PADDING) && r.size == |data.content|
             else r.unreadable && r.hash == State(0, 0, 0)
    ensures AllHashed(box, list, fs, SnapshotOf(list))
    ensures AllReadable(EntryOf(list, fs, 0)) <==> fs(r.absPath).Readable()
  {
    hide Hash;
    hide Split;
  }

  lemma SingleEntry(list: Records, fs: FileSystem)
    requires list != [] && !list[0].isDirectory
    ensures AllReadable(EntryOf(list, fs, 0)) <==> fs(list[0].absPath).Readable()
  {
    hide Split;
  }

  /** Hashes a whole set; fails exactly on a read error that is not to be ignored. */
  method OnDataFill(box: SBoxes, fs: FileSystem, list: Records, ignoreErrors: bool) returns (ok: bool)
    requires IsSet(list)
    modifies list
    ensures ok <==> list == [] || ignoreErrors || AllReadable(EntryOf(list, fs, 0))
    ensures ok ==> AllHashed(box, list, fs, SnapshotOf(list))
  {
    hide Hash;
    hide Hashed;
    hide Split;
    hide EntryOf;
    hide AllReadable;
    hide SnapshotOf;
    hide SubtreeHashed;
    hide InSubtree;
    hide ChangedUnder;
    hide EntryHash;
    hide NodesOf;
    if list == [] { return true; }
    var progress := new ProgressInfo();
    if list[0].isDirectory {
      var view := new SetListingView.OfRange(list, 0, 0);
      ViewIs(view);
      ok := HashDir(box, fs, list[0], view, ignoreErrors, progress);
      if ok { SubtreeIsAll(box, list, fs, SnapshotOf(list)); }
    } else {
      assert |list| == 1 by { if WellFormed(list) { RootIsFirst(list); } }
      ok := HashSingleFile(box, fs, list[0], ignoreErrors);
      SingleEntry(list, fs);
      if ok { SingleIsHashed(box, list, fs, list[0]); }
    }
  }
}
