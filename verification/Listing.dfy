/**
 The sorted list of records of a set (set_listing.cpp, set_listing_helpers.hpp): the iterator over
 the children of a directory, the views, and the recursive walks built on them.
 */
module Listing {
  import opened Paths
  import opened FlatTree
  import opened TigerCore

  /** One file or directory. What the walks look at never changes; hashing fills in the rest. */
  class FileRecordData {
    const absPath: string
    const pathOffset: nat
    const level: nat
    const isDirectory: bool
    var hash: State
    var size: nat
    var hashValid: bool
    var unreadable: bool

    constructor (path: string, relPathOffset: nat, level: nat, isDirectory: bool)
      requires relPathOffset <= |path|
      ensures absPath == path && pathOffset == relPathOffset && this.level == level && this.isDirectory == isDirectory
      ensures hash == State(0, 0, 0) && size == 0 && !hashValid && !unreadable
    {
      absPath, pathOffset := path, relPathOffset;
      this.level, this.isDirectory := level, isDirectory;
      hash, size, hashValid, unreadable := State(0, 0, 0), 0, false, false;
    }

    /** The path relative to the root of the set. */
    function Path(): string {
      if pathOffset <= |absPath| then absPath[pathOffset..] else ""
    }

    function Atoms(): Atoms { Split(Path()) }
  }

  type Records = seq<FileRecordData>

  function NodeOf(r: FileRecordData): Node { Node(r.Atoms(), r.isDirectory) }

  function NodesOf(list: Records): (t: Nodes)
    ensures |t| == |list|
    ensures forall k :: 0 <= k < |list| ==> t[k] == NodeOf(list[k])
  {
    if list == [] then [] else [NodeOf(list[0])] + NodesOf(list[1..])
  }

  /** The records form a tree and their levels count the atoms of their paths. */
  ghost predicate WellFormed(list: Records) {
    Tree(NodesOf(list)) && forall k :: 0 <= k < |list| ==> list[k].level == |NodesOf(list)[k].path|
  }

  /** On every level directories stand before files; the sorted order sees to that. */
  ghost predicate DirectoriesFirst(list: Records) {
    forall j, k :: 0 <= j < k < |list| && list[j].level == list[k].level && list[k].isDirectory ==> list[j].isDirectory
  }

  /** Walks the children of the directory whose path is `base`. */
  class DirIterator {
    const list: Records
    var current: nat
    const end: nat
    const base: PathName
    const levelOffset: nat

    ghost predicate Valid()
      reads this, base
    {
      && WellFormed(list) && end == |list| && current <= end && base.Valid() && levelOffset == 0
      && (current < end ==> IsChild(NodesOf(list), base.pool, current) || list[current].level > |base.pool| + 1)
    }

    /** The children that have not been visited, in list order. */
    ghost function Remaining(): seq<nat>
      reads this, base
    {
      ChildrenFrom(NodesOf(list), base.pool, current)
    }

    predicate IsEnd()
      reads this, base
    {
      current >= |list| || list[current].level + levelOffset != |base.pool| + 1
    }

    /** Is the parent of the current record not the directory walked? */
    method HasOtherParent() returns (other: bool)
      requires current < |list| && base.Valid()
      ensures other <==> Parent(list[current].Atoms()) != base.pool
    {
      var parent := new PathName(list[current].Path());
      parent.PopRight();
      var same := parent.Equals(base);
      other := !same;
    }

    /** The condition on which the constructor moves on: still at the level of the directory, or not its child. */
    method BeforeChildren() returns (more: bool)
      requires WellFormed(list) && base.Valid() && levelOffset == 0 && current <= |list| == end
      ensures more <==> current < end && !IsChild(NodesOf(list), base.pool, current)
    {
      hide Split;
      hide WellFormed;
      if current == end { return false; }
      LevelIsDepth(list, current);
      if list[current].level + levelOffset == |base.pool| { return true; }
      more := HasOtherParent();
    }

    /** The condition on which `Increment` moves on: at the level of the children, but not one of them. */
    method AmongOthers() returns (more: bool)
      requires WellFormed(list) && base.Valid() && levelOffset == 0 && current <= |list| == end
      ensures more ==> current < end && !IsChild(NodesOf(list), base.pool, current)
      ensures !more && current < end ==>
                IsChild(NodesOf(list), base.pool, current) || list[current].level != |base.pool| + 1
    {
      hide Split;
      hide WellFormed;
      if current == end { return false; }
      LevelIsDepth(list, current);
      if list[current].level + levelOffset != |base.pool| + 1 { return false; }
      more := HasOtherParent();
    }

    /** The loop of the constructor: to the point where the children of the directory start. */
    method SkipToChildren()
      requires WellFormed(list) && base.Valid() && levelOffset == 0 && current <= |list| == end
      modifies this
      ensures old(current) <= current <= end
      ensures current < end ==> IsChild(NodesOf(list), base.pool, current)
      ensures forall k :: old(current) <= k < current ==> !IsChild(NodesOf(list), base.pool, k)
    {
      hide *;
      ghost var t, path := NodesOf(list), base.pool;
      var more := BeforeChildren();
      while more
        invariant old(current) <= current <= end && base.pool == path && base.Valid()
        invariant more <==> current < end && !IsChild(t, path, current)
        invariant forall k :: old(current) <= k < current ==> !IsChild(t, path, k)
        decreases end - current
      {
        current := current + 1;
        more := BeforeChildren();
      }
    }

    /** The loop of `Increment`: past records at the level of the children that belong elsewhere. */
    method SkipOthers()
      requires WellFormed(list) && base.Valid() && levelOffset == 0 && current <= |list| == end
      modifies this
      ensures old(current) <= current <= end
      ensures current < end ==> IsChild(NodesOf(list), base.pool, current) || list[current].level != |base.pool| + 1
      ensures forall k :: old(current) <= k < current ==> !IsChild(NodesOf(list), base.pool, k)
    {
      hide *;
      ghost var t, path := NodesOf(list), base.pool;
      var more := AmongOthers();
      while more
        invariant old(current) <= current <= end && base.pool == path && base.Valid()
        invariant more ==> current < end && !IsChild(t, path, current)
        invariant !more && current < end ==> IsChild(t, path, current) || list[current].level != |path| + 1
        invariant forall k :: old(current) <= k < current ==> !IsChild(t, path, k)
        decreases end - current
      {
        current := current + 1;
        more := AmongOthers();
      }
    }

    constructor (list: Records, begin: nat, base: PathName, levelOffset: nat)
      requires WellFormed(list) && begin <= |list| && base.Valid() && levelOffset == 0
      requires begin < |list| ==> list[begin].level + levelOffset == |base.pool|
      ensures Valid() && this.list == list && this.base == base && begin <= current
      ensures Remaining() == ChildrenFrom(NodesOf(list), base.pool, begin)
      ensures FlattenFrom(NodesOf(list), base.pool, current) == FlattenFrom(NodesOf(list), base.pool, begin)
    {
      this.list, this.current, this.end, this.base, this.levelOffset := list, begin, |list|, base, levelOffset;
      new;
      hide WellFormed;
      hide IsChild;
      hide ChildrenFrom;
      hide FlattenFrom;
      hide NodesOf;
      SkipToChildren();
      NoChildrenBetween(NodesOf(list), base.pool, begin, current);
    }

    method Increment()
      requires Valid() && !IsEnd()
      modifies this
      ensures Valid() && old(current) < current
      ensures Remaining() == old(Remaining())[1..]
      ensures FlattenFrom(NodesOf(list), base.pool, current) == FlattenFrom(NodesOf(list), base.pool, old(current) + 1)
    {
      AtChild();
      LevelsAscend(list, current);
      hide WellFormed;
      hide IsChild;
      hide ChildrenFrom;
      hide FlattenFrom;
      hide NodesOf;
      ghost var start := current + 1;
      current := current + 1;
      SkipOthers();
      NoChildrenBetween(NodesOf(list), base.pool, start, current);
    }

    lemma InRange()
      requires Valid()
      ensures current <= |list|
    {}

    lemma RemainingIs()
      ensures Remaining() == ChildrenFrom(NodesOf(list), base.pool, current)
    {}

    lemma AtChild()
      requires Valid() && !IsEnd()
      ensures WellFormed(list) && current < |list| && IsChild(NodesOf(list), base.pool, current) && Remaining() != [] && Remaining()[0] == current
      ensures Remaining()[1..] == ChildrenFrom(NodesOf(list), base.pool, current + 1)
    {}

    /** At the end no children are left, neither for this walk nor for one into subdirectories. */
    lemma AtEnd()
      requires Valid() && IsEnd()
      ensures Remaining() == [] && FlattenFrom(NodesOf(list), base.pool, current) == []
    {
      hide Split;
      forall k | current <= k < |list| ensures !IsChild(NodesOf(list), base.pool, k) {
        LevelIsDepth(list, k);
        LevelsAscend(list, current);
      }
      NoChildrenBetween(NodesOf(list), base.pool, current, |list|);
    }

    /** Two iterators over the same list are equal at the same place, and everywhere behind the end. */
    method Equal(other: DirIterator) returns (same: bool)
      requires Valid() && other.Valid()
      ensures same <==> end == other.end && (current == other.current || (IsEnd() && other.IsEnd()))
      ensures list == other.list && base == other.base && other.IsEnd() ==> (same <==> IsEnd())
    {
      same := end == other.end && (current == other.current || (IsEnd() && other.IsEnd()));
    }
  }

  lemma LevelIsDepth(list: Records, k: nat)
    requires WellFormed(list) && k < |list|
    ensures list[k].level == |list[k].Atoms()| && NodesOf(list)[k] == NodeOf(list[k])
  {}

  lemma LevelsAscend(list: Records, k: nat)
    requires WellFormed(list) && k < |list|
    ensures forall j :: k <= j < |list| ==> list[k].level <= list[j].level
  {
    hide Split;
    forall j | k <= j < |list| ensures list[k].level <= list[j].level {
      LevelIsDepth(list, k);
      LevelIsDepth(list, j);
    }
  }

  /** A directory to walk: where it stands in the list and its path. */
  class SetListingView {
    const list: Records
    const begin: nat
    const base: PathName
    const levelOffset: nat

    ghost predicate Valid()
      reads base
    {
      && WellFormed(list) && begin <= |list| && base.Valid() && levelOffset == 0
      && (begin < |list| ==> list[begin].level == |base.pool|)
    }

    /** The view of the directory a range of records starts with. */
    constructor OfRange(list: Records, begin: nat, levelOffset: nat)
      requires WellFormed(list) && begin < |list| && levelOffset == 0
      ensures Valid() && fresh(base) && this.list == list && this.begin == begin && base.pool == list[begin].Atoms()
    {
      hide WellFormed;
      hide NodesOf;
      hide Split;
      LevelIsDepth(list, begin);
      this.list, this.begin, this.levelOffset := list, begin, levelOffset;
      base := new PathName(list[begin].Path());
    }

    /** The view of the directory an iterator stands at. */
    constructor FromIterator(it: DirIterator)
      requires it.Valid() && !it.IsEnd()
      ensures Valid() && fresh(base) && list == it.list && begin == it.current < |list| && base.pool == list[begin].Atoms()
    {
      hide WellFormed;
      hide IsChild;
      hide NodesOf;
      hide Split;
      it.AtChild();
      LevelIsDepth(it.list, it.current);
      list, begin, levelOffset := it.list, it.current, it.levelOffset;
      base := new PathName(it.list[it.current].Path());
    }

    method Begin() returns (it: DirIterator)
      requires Valid()
      ensures fresh(it) && it.Valid() && it.list == list && it.base == base && begin <= it.current
      ensures it.Remaining() == ChildrenFrom(NodesOf(list), base.pool, begin)
      ensures FlattenFrom(NodesOf(list), base.pool, it.current) == FlattenFrom(NodesOf(list), base.pool, begin)
    {
      hide WellFormed;
      it := new DirIterator(list, begin, base, levelOffset);
    }

    method End() returns (it: DirIterator)
      requires Valid()
      ensures fresh(it) && it.Valid() && it.list == list && it.base == base && it.IsEnd()
    {
      hide WellFormed;
      it := new DirIterator(list, |list|, base, levelOffset);
    }
  }

  // ----- walks -----

  /** The walk below a view: everything in preorder. */
  ghost function Below(view: SetListingView): seq<nat>
    reads view.base
  {
    FlattenFrom(NodesOf(view.list), view.base.pool, view.begin)
  }

  /** What one child contributes to the walk of its directory. */
  lemma WalkStep(list: Records, base: Atoms, k: nat)
    requires WellFormed(list) && IsChild(NodesOf(list), base, k)
    ensures FlattenFrom(NodesOf(list), base, k)
         == [k] + SubtreeOf(NodesOf(list), k) + FlattenFrom(NodesOf(list), base, k + 1)
    ensures SubtreeOf(NodesOf(list), k)
         == if list[k].isDirectory then FlattenFrom(NodesOf(list), list[k].Atoms(), k) else []
    ensures list[k].level == |base| + 1
  {
    LevelIsDepth(list, k);
    hide Split;
    hide WellFormed;
    hide NodesOf;
    assert !IsChild(NodesOf(list), list[k].Atoms(), k);
  }

  /** A child is never the record its view starts at. */
  lemma ChildIsPastBegin(view: SetListingView, k: nat)
    requires view.Valid() && view.begin <= k && IsChild(NodesOf(view.list), view.base.pool, k)
    ensures view.begin < k
  {
    LevelIsDepth(view.list, k);
  }

  /** Appends the positions of all records below the view, each directory followed by its whole subtree. */
  method FlattenedListing(view: SetListingView, out0: seq<nat>) returns (out: seq<nat>)
    requires view.Valid()
    ensures out == out0 + Below(view)
    decreases |view.list| - view.begin, 0
  {
    hide WellFormed;
    hide NodesOf;
    hide IsChild;
    hide SubtreeOf;
    hide FlattenFrom;
    hide DirIterator.Remaining;
    hide DirIterator.Valid;
    hide DirIterator.IsEnd;
    hide SetListingView.Valid;
    hide FileRecordData.Atoms;
    ghost var t, path := NodesOf(view.list), view.base.pool;
    var end := view.End();
    out := out0;
    var it := view.Begin();
    var done := it.Equal(end);
    while !done
      invariant fresh(it) && it.Valid() && it.list == view.list && it.base == view.base && view.base.pool == path
      invariant end.Valid() && end.list == view.list && end.base == view.base && end.IsEnd() && done == it.IsEnd()
      invariant view.begin <= it.current
      invariant out + FlattenFrom(t, path, it.current) == out0 + FlattenFrom(t, path, view.begin)
      decreases |view.list| - it.current
    {
      it.AtChild();
      ChildIsPastBegin(view, it.current);
      WalkStep(view.list, path, it.current);
      out := FlattenOne(it, out);
      it.Increment();
      done := it.Equal(end);
    }
    it.AtEnd();
  }

  /** The body of the loop: the record itself, and what lies below it. */
  method FlattenOne(it: DirIterator, out0: seq<nat>) returns (out: seq<nat>)
    requires it.Valid() && !it.IsEnd()
    ensures out == out0 + [it.current] + SubtreeOf(NodesOf(it.list), it.current)
    decreases |it.list| - it.current, 1
  {
    it.AtChild();
    WalkStep(it.list, it.base.pool, it.current);
    hide WellFormed;
    hide NodesOf;
    hide IsChild;
    hide SubtreeOf;
    hide FlattenFrom;
    hide FileRecordData.Atoms;
    out := out0 + [it.current];
    if it.list[it.current].isDirectory {
      var inside := new SetListingView.FromIterator(it);
      out := FlattenedListing(inside, out);
    }
  }

  /** The number of records below the view, counted directory by directory. */
  method CountListingItemsRecursive(view: SetListingView) returns (count: nat)
    requires view.Valid()
    ensures count == |Below(view)|
    decreases |view.list| - view.begin, 0
  {
    hide WellFormed;
    hide NodesOf;
    hide IsChild;
    hide SubtreeOf;
    hide FlattenFrom;
    hide DirIterator.Remaining;
    hide DirIterator.Valid;
    hide DirIterator.IsEnd;
    hide SetListingView.Valid;
    hide FileRecordData.Atoms;
    ghost var t, path := NodesOf(view.list), view.base.pool;
    count := 0;
    var it := view.Begin();
    var end := view.End();
    var done := it.Equal(end);
    while !done
      invariant fresh(it) && it.Valid() && it.list == view.list && it.base == view.base && view.base.pool == path
      invariant end.Valid() && end.list == view.list && end.base == view.base && end.IsEnd() && done == it.IsEnd()
      invariant view.begin <= it.current
      invariant count + |FlattenFrom(t, path, it.current)| == |FlattenFrom(t, path, view.begin)|
      decreases |view.list| - it.current
    {
      it.AtChild();
      ChildIsPastBegin(view, it.current);
      WalkStep(view.list, path, it.current);
      var inside := CountInside(it);
      count := count + inside;
      it.Increment();
      count := count + 1;
      done := it.Equal(end);
    }
    it.AtEnd();
  }

  method CountInside(it: DirIterator) returns (count: nat)
    requires it.Valid() && !it.IsEnd()
    ensures count == |SubtreeOf(NodesOf(it.list), it.current)|
    decreases |it.list| - it.current, 1
  {
    it.AtChild();
    WalkStep(it.list, it.base.pool, it.current);
    hide WellFormed;
    hide NodesOf;
    hide IsChild;
    hide SubtreeOf;
    hide FlattenFrom;
    hide FileRecordData.Atoms;
    count := 0;
    if it.list[it.current].isDirectory {
      var inside := new SetListingView.FromIterator(it);
      count := CountListingItemsRecursive(inside);
    }
  }

  /** The number of direct children. */
  method CountListingItems(view: SetListingView) returns (count: nat)
    requires view.Valid()
    ensures count == |ChildrenFrom(NodesOf(view.list), view.base.pool, view.begin)|
  {
    hide WellFormed;
    hide NodesOf;
    hide IsChild;
    hide FileRecordData.Atoms;
    ghost var all := ChildrenFrom(NodesOf(view.list), view.base.pool, view.begin);
    count := 0;
    var it := view.Begin();
    var end := view.End();
    var done := it.Equal(end);
    while !done
      invariant fresh(it) && it.Valid() && it.list == view.list && it.base == view.base
      invariant end.Valid() && end.list == view.list && end.base == view.base && end.IsEnd() && done == it.IsEnd()
      invariant count + |it.Remaining()| == |all|
      decreases |view.list| - it.current
    {
      it.AtChild();
      it.Increment();
      count := count + 1;
      done := it.Equal(end);
    }
    it.AtEnd();
  }

  /** The first child that is no directory, or the end. */
  method FirstFile(view: SetListingView) returns (it: DirIterator)
    requires view.Valid()
    ensures fresh(it) && it.Valid() && it.list == view.list && it.base == view.base && view.begin <= it.current
    ensures !it.IsEnd() ==> IsFileIn(NodesOf(view.list), view.base.pool, it.current)
    ensures forall c :: view.begin <= c < it.current ==> !IsFileIn(NodesOf(view.list), view.base.pool, c)
  {
    hide *;
    ghost var t, path := NodesOf(view.list), view.base.pool;
    var end := view.End();
    it := view.Begin();
    it.RemainingIs();
    NoChildIn(t, path, view.begin, it.current);
    var done := it.Equal(end);
    while !done
      invariant fresh(it) && it.Valid() && it.list == view.list && it.base == view.base && view.base.pool == path
      invariant end.Valid() && end.list == view.list && end.base == view.base && end.IsEnd() && done == it.IsEnd()
      invariant view.begin <= it.current
      invariant forall c :: view.begin <= c < it.current ==> !IsFileIn(t, path, c)
      decreases |view.list| - it.current
    {
      it.AtChild();
      DirectoryFlag(view.list, path, it.current);
      if !it.list[it.current].isDirectory { return; }
      ghost var at := it.current;
      it.Increment();
      it.RemainingIs();
      NoChildIn(t, path, at + 1, it.current);
      done := it.Equal(end);
    }
  }

  lemma DirectoryFlag(list: Records, path: Atoms, k: nat)
    requires k < |list|
    ensures NodesOf(list)[k].isDirectory == list[k].isDirectory
    ensures IsFileIn(NodesOf(list), path, k) <==> IsChild(NodesOf(list), path, k) && !list[k].isDirectory
  {}

  lemma NoChildIn(t: Nodes, path: Atoms, from: nat, upTo: nat)
    requires ChildrenFrom(t, path, from) == ChildrenFrom(t, path, upTo)
    ensures forall c :: from <= c < upTo ==> !IsChild(t, path, c) && !IsFileIn(t, path, c)
  {
    forall c: nat | from <= c < upTo ensures !IsChild(t, path, c) {
      ChildrenAreAll(t, path, from, c);
      ChildrenAreAll(t, path, upTo, c);
    }
  }

  /**
   What `guess_content_type` counts on: the walk from the root holds every other record exactly
   once, so its length is the size of the list less one.
   */
  lemma WalkFromRootIsEverything(list: Records)
    requires WellFormed(list)
    ensures var walk := FlattenFrom(NodesOf(list), [], 0);
            && |walk| == |list| - 1 && NoRepeats(walk) && (forall k: nat :: k in walk <==> 0 < k < |list|)
            && forall p :: 0 <= p < |walk| ==> Followed(NodesOf(list), walk, p)
  {
    FlattenIsEverything(NodesOf(list));
    forall p | 0 <= p < |FlattenFrom(NodesOf(list), [], 0)| ensures Followed(NodesOf(list), FlattenFrom(NodesOf(list), [], 0), p) {
      SubtreeFollows(NodesOf(list), [], 0, p);
    }
  }
}
