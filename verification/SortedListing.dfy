/**
 The order of the records of a set (set_listing.cpp) and the scan that inserts one record after the
 other at its place (scantask/dirtree.cpp): whatever the order of the visits, the outcome is the
 same, and it is a list the walks of `Listing` and `Hashing` can work on.
 */
module SortedListing {
  import opened Paths
  import opened FlatTree
  import opened TigerCore
  import opened Listing

  /** What the order looks at; also what is known of a file when it is found. */
  datatype SearchRecord = SearchRecord(path: string, level: nat, isDirectory: bool)

  type Keys = seq<SearchRecord>

  function KeyOf(r: FileRecordData): SearchRecord { SearchRecord(r.absPath, r.level, r.isDirectory) }

  function KeysOf(list: Records): (keys: Keys)
    ensures |keys| == |list| && forall k :: 0 <= k < |list| ==> keys[k] == KeyOf(list[k])
  {
    if list == [] then [] else [KeyOf(list[0])] + KeysOf(list[1..])
  }

  // ----- the order -----

  /** Texts are compared character by character. */
  predicate TextBefore(a: string, b: string) {
    b != "" && (a == "" || a[0] < b[0] || (a[0] == b[0] && TextBefore(a[1..], b[1..])))
  }

  predicate Less(l: SearchRecord, r: SearchRecord) {
    || l.level < r.level
    || (l.level == r.level && l.isDirectory && !r.isDirectory)
    || (l.level == r.level && l.isDirectory == r.isDirectory && TextBefore(l.path, r.path))
  }

  lemma {:induction false} TextsAreOrdered(a: string, b: string, c: string)
    ensures !TextBefore(a, a)
    ensures TextBefore(a, b) || a == b || TextBefore(b, a)
    ensures TextBefore(a, b) && TextBefore(b, c) ==> TextBefore(a, c)
  {
    if a != "" && b != "" && c != "" {
      TextsAreOrdered(a[1..], b[1..], c[1..]);
      assert a == [a[0]] + a[1..] && b == [b[0]] + b[1..];
    } else {
      NotBeforeItself(a);
      if a != "" && b != "" { TextsCompare(a, b); }
    }
  }

  lemma {:induction false} NotBeforeItself(a: string)
    ensures !TextBefore(a, a)
  {
    if a != "" { NotBeforeItself(a[1..]); }
  }

  lemma {:induction false} TextsCompare(a: string, b: string)
    ensures TextBefore(a, b) || a == b || TextBefore(b, a)
  {
    if a != "" && b != "" {
      TextsCompare(a[1..], b[1..]);
      assert a == [a[0]] + a[1..] && b == [b[0]] + b[1..];
    }
  }

  /** The first place where they differ decides, and a text that goes on comes behind one that ends there. */
  lemma {:induction false} TextBeforeExactlyWhen(a: string, b: string)
    ensures TextBefore(a, b) <==>
            exists k :: 0 <= k <= |a| && k < |b| && a[..k] == b[..k] && (k < |a| ==> a[k] < b[k])
  {
    if a == "" || b == "" {
      if b != "" { assert a[..0] == b[..0]; }
    } else {
      var x, y := a[1..], b[1..];
      TextBeforeExactlyWhen(x, y);
      if TextBefore(a, b) {
        if a[0] < b[0] {
          assert a[..0] == b[..0];
        } else {
          var k :| 0 <= k <= |x| && k < |y| && x[..k] == y[..k] && (k < |x| ==> x[k] < y[k]);
          OneMoreInFront(a, b, k);
          assert a[..k + 1] == b[..k + 1];
        }
      }
      if k :| 0 <= k <= |a| && k < |b| && a[..k] == b[..k] && (k < |a| ==> a[k] < b[k]) {
        if k > 0 {
          assert a[0] == a[..k][0] == b[..k][0] == b[0];
          assert x[..k - 1] == a[..k][1..] == b[..k][1..] == y[..k - 1];
        }
      }
    }
  }

  lemma OneMoreInFront(a: string, b: string, k: nat)
    requires a != "" && b != "" && a[0] == b[0] && k <= |a[1..]| && k <= |b[1..]| && a[1..][..k] == b[1..][..k]
    ensures a[..k + 1] == b[..k + 1]
  {
    assert a[..k + 1] == [a[0]] + a[1..][..k];
    assert b[..k + 1] == [b[0]] + b[1..][..k];
  }

  /** What `std::sort` and `std::lower_bound` ask for, and more: no two different records are equivalent. */
  lemma LessIsStrictTotalOrder(a: SearchRecord, b: SearchRecord, c: SearchRecord)
    ensures !Less(a, a)
    ensures Less(a, b) || a == b || Less(b, a)
    ensures Less(a, b) && Less(b, c) ==> Less(a, c)
  {
    TextsAreOrdered(a.path, b.path, c.path);
  }

  ghost predicate Sorted(keys: Keys) { forall i, j :: 0 <= i < j < |keys| ==> !Less(keys[j], keys[i]) }

  lemma SmallestIsFirst(a: Keys, k: SearchRecord)
    requires Sorted(a) && k in a
    ensures a[0] == k || Less(a[0], k)
  {
    hide Less;
    var j :| 0 <= j < |a| && a[j] == k;
    LessIsStrictTotalOrder(a[0], k, k);
  }

  lemma RestOf(a: Keys)
    requires a != []
    ensures multiset(a[1..]) == multiset(a) - multiset{a[0]} && a == [a[0]] + a[1..]
  {
    assert a == [a[0]] + a[1..];
  }

  /** There is one way to sort. */
  lemma {:induction false} SortedIsUnique(a: Keys, b: Keys)
    requires Sorted(a) && Sorted(b) && multiset(a) == multiset(b)
    ensures a == b
    decreases |a|
  {
    hide Less;
    if a == [] || b == [] {
      assert |multiset(a)| == |multiset(b)|;
    } else {
      assert a[0] in multiset(b) && b[0] in multiset(a);
      SmallestIsFirst(a, b[0]);
      SmallestIsFirst(b, a[0]);
      LessIsStrictTotalOrder(a[0], b[0], a[0]);
      RestOf(a);
      RestOf(b);
      SortedIsUnique(a[1..], b[1..]);
    }
  }

  // ----- finding the place -----

  /** The binary search of the standard library, over what is left of the list. */
  method LowerBound(list: Records, key: SearchRecord) returns (at: nat)
    requires Sorted(KeysOf(list))
    ensures at <= |list|
    ensures forall i :: 0 <= i < at ==> Less(KeysOf(list)[i], key)
    ensures forall i :: at <= i < |list| ==> !Less(KeysOf(list)[i], key)
  {
    hide Less;
    hide KeyOf;
    ghost var keys := KeysOf(list);
    at := 0;
    var len := |list|;
    while len > 0
      invariant 0 <= at && 0 <= len && at + len <= |list|
      invariant forall i :: 0 <= i < at ==> Less(keys[i], key)
      invariant forall i :: at + len <= i < |list| ==> !Less(keys[i], key)
    {
      var half := len / 2;
      var mid := at + half;
      if Less(KeyOf(list[mid]), key) {
        forall i | 0 <= i < mid ensures Less(keys[i], key) { LessIsStrictTotalOrder(keys[i], keys[mid], key); }
        at, len := mid + 1, len - half - 1;
      } else {
        forall i | mid < i < |list| ensures !Less(keys[i], key) { LessIsStrictTotalOrder(keys[mid], keys[i], key); }
        len := half;
      }
    }
  }

  /** The record found belongs to the set with this root. */
  predicate IsUnder(root: string, v: SearchRecord) {
    && Normalised(v.path) && IsAbsolute(v.path) == IsAbsolute(root)
    && Split(root) <= Split(v.path) && |Split(v.path)| == |Split(root)| + v.level
  }

  /** The relative path of a record is what its path has beyond the root. */
  predicate IsPlaced(root: string, r: FileRecordData) {
    IsUnder(root, KeyOf(r)) && r.Atoms() == Split(r.absPath)[|Split(root)|..]
  }

  lemma InsertKeepsSorted(keys: Keys, at: nat, key: SearchRecord)
    requires Sorted(keys) && at <= |keys|
    requires forall i :: 0 <= i < at ==> Less(keys[i], key)
    requires forall i :: at <= i < |keys| ==> !Less(keys[i], key)
    ensures Sorted(keys[..at] + [key] + keys[at..])
    ensures multiset(keys[..at] + [key] + keys[at..]) == multiset(keys) + multiset{key}
  {
    hide Less;
    assert keys == keys[..at] + keys[at..];
    var all := keys[..at] + [key] + keys[at..];
    forall i, j | 0 <= i < j < |all| ensures !Less(all[j], all[i]) {
      LessIsStrictTotalOrder(all[i], all[j], all[i]);
    }
  }

  lemma KeysOfJoined(a: Records, b: Records)
    ensures KeysOf(a + b) == KeysOf(a) + KeysOf(b)
  {
    hide KeyOf;
    var all, parts := KeysOf(a + b), KeysOf(a) + KeysOf(b);
    forall k | 0 <= k < |a + b| ensures all[k] == parts[k] {
      assert (a + b)[k] == if k < |a| then a[k] else b[k - |a|];
    }
  }

  lemma KeysOfInserted(list: Records, at: nat, r: FileRecordData)
    requires at <= |list|
    ensures KeysOf(list[..at] + [r] + list[at..]) == KeysOf(list)[..at] + [KeyOf(r)] + KeysOf(list)[at..]
  {
    var a, b := list[..at], list[at..];
    assert KeysOf([r]) == [KeyOf(r)];
    assert a + b == list;
    hide *;
    KeysOfJoined(a, b);
    KeysOfJoined(a, [r]);
    KeysOfJoined(a + [r], b);
    assert KeysOf(a) == KeysOf(list)[..at] && KeysOf(b) == KeysOf(list)[at..];
  }

  ghost predicate AllPlaced(root: string, list: Records) { forall r :: r in list ==> IsPlaced(root, r) }

  lemma InsertKeepsPlaced(root: string, list: Records, at: nat, r: FileRecordData)
    requires IsPlaced(root, r) && at <= |list|
    requires AllPlaced(root, list)
    ensures AllPlaced(root, list[..at] + [r] + list[at..])
  {
    hide IsPlaced;
  }

  /** A record at its place in the list of a set. */
  lemma InsertRecord(root: string, list: Records, at: nat, r: FileRecordData, key: SearchRecord)
    requires Sorted(KeysOf(list)) && AllPlaced(root, list) && IsPlaced(root, r) && at <= |list| && KeyOf(r) == key
    requires forall i :: 0 <= i < at ==> Less(KeysOf(list)[i], key)
    requires forall i :: at <= i < |list| ==> !Less(KeysOf(list)[i], key)
    ensures var all := list[..at] + [r] + list[at..];
            && Sorted(KeysOf(all)) && AllPlaced(root, all)
            && multiset(KeysOf(all)) == multiset(KeysOf(list)) + multiset{key}
  {
    hide *;
    InsertKeepsSorted(KeysOf(list), at, key);
    KeysOfInserted(list, at, r);
    InsertKeepsPlaced(root, list, at, r);
  }

  /** The list of a set while it is being scanned. */
  class PathList {
    var items: Records

    constructor ()
      ensures items == []
    {
      items := [];
    }

    ghost predicate Valid(root: string)
      reads this
    {
      Sorted(KeysOf(items)) && AllPlaced(root, items)
    }

    /** Takes in one more file or directory, at its place. */
    method AddPath(root: PathName, ghost rootText: string, path: string, level: nat, isDirectory: bool) returns (more: bool)
      requires root.Valid() && root.pool == Split(rootText) && root.absolute == IsAbsolute(rootText)
      requires Valid(rootText) && IsUnder(rootText, SearchRecord(path, level, isDirectory))
      modifies this
      ensures more && Valid(rootText)
      ensures multiset(KeysOf(items)) == multiset(KeysOf(old(items))) + multiset{SearchRecord(path, level, isDirectory)}
      ensures exists at, r :: 0 <= at <= |old(items)| && fresh(r) && items == old(items)[..at] + [r] + old(items)[at..]
    {
      hide *;
      UnderRoot(rootText, SearchRecord(path, level, isDirectory));
      ScanState(this, rootText);
      ghost var list := items;
      var at := LowerBound(items, SearchRecord(path, level, isDirectory));
      var offs := CalcRelPathOffs(root, path);
      var r := new FileRecordData(path, offs, level, isDirectory);
      NewRecordIsPlaced(rootText, r, SearchRecord(path, level, isDirectory));
      InsertRecord(rootText, items, at, r, SearchRecord(path, level, isDirectory));
      items := items[..at] + [r] + items[at..];
      ScanState(this, rootText);
      more := true;
    }
  }

  lemma ScanState(list: PathList, root: string)
    ensures list.Valid(root) <==> Sorted(KeysOf(list.items)) && AllPlaced(root, list.items)
  {}

  lemma NewRecordIsPlaced(root: string, r: FileRecordData, key: SearchRecord)
    requires IsUnder(root, key) && SearchRecord(r.absPath, r.level, r.isDirectory) == key && r.pathOffset <= |key.path|
    requires Split(key.path[r.pathOffset..]) == Split(key.path)[|Split(root)|..]
    ensures IsPlaced(root, r) && KeyOf(r) == key
  {
    hide Split;
  }

  lemma UnderRoot(root: string, v: SearchRecord)
    requires IsUnder(root, v)
    ensures Normalised(v.path) && IsAbsolute(v.path) == IsAbsolute(root) && Split(root) <= Split(v.path)
    ensures |RelativeText(Split(root), IsAbsolute(root), v.path)| <= |JointText(Split(v.path), IsAbsolute(v.path), 0)|
  {
    RelativeUnderAncestor(Split(root), Split(v.path));
    RelativeTextIsSuffix(Split(root), v.path);
  }

  // ----- the whole scan -----

  /** The atoms a path has beyond the root. */
  function Beyond(root: string, v: SearchRecord): Atoms {
    if |Split(root)| <= |Split(v.path)| then Split(v.path)[|Split(root)|..] else []
  }

  predicate IsParentOf(root: string, d: SearchRecord, v: SearchRecord) {
    d.isDirectory && Beyond(root, d) == Parent(Beyond(root, v))
  }

  /** What a walk of a file tree finds: the root, everything else under a directory found too, nothing twice. */
  ghost predicate IsWalk(root: string, found: multiset<SearchRecord>) {
    && (forall v :: v in found ==> IsUnder(root, v) && found[v] == 1)
    && (forall v, w :: v in found && w in found && Beyond(root, v) == Beyond(root, w) ==> v == w)
    && (exists v :: v in found && v.isDirectory && v.level == 0)
    && (forall v :: v in found && v.level > 0 ==> exists d :: d in found && IsParentOf(root, d, v))
  }

  lemma PlacedNode(root: string, list: Records, k: nat)
    requires AllPlaced(root, list) && k < |list|
    ensures IsUnder(root, KeysOf(list)[k])
    ensures NodesOf(list)[k] == Node(Beyond(root, KeysOf(list)[k]), KeysOf(list)[k].isDirectory)
    ensures |Beyond(root, KeysOf(list)[k])| == KeysOf(list)[k].level == list[k].level
  {
    hide Split;
    assert IsPlaced(root, list[k]);
  }

  /** The list the scan leaves does not depend on the order in which it came upon the files. */
  lemma OrderOfVisitsIsIrrelevant(root: string, a: PathList, b: PathList)
    requires a.Valid(root) && b.Valid(root) && multiset(KeysOf(a.items)) == multiset(KeysOf(b.items))
    ensures KeysOf(a.items) == KeysOf(b.items) && NodesOf(a.items) == NodesOf(b.items)
  {
    ScanState(a, root);
    ScanState(b, root);
    hide *;
    SortedIsUnique(KeysOf(a.items), KeysOf(b.items));
    var s, t := NodesOf(a.items), NodesOf(b.items);
    assert |s| == |KeysOf(a.items)| == |t|;
    forall k | 0 <= k < |s| ensures s[k] == t[k] {
      PlacedNode(root, a.items, k);
      PlacedNode(root, b.items, k);
    }
  }

  lemma OccursTwice(keys: Keys, j: nat, k: nat)
    requires j < k < |keys| && keys[j] == keys[k]
    ensures multiset(keys)[keys[k]] >= 2
  {
    assert keys == keys[..k] + keys[k..];
    assert keys[j] in keys[..k] && keys[k] in keys[k..];
  }

  lemma SortedLevels(keys: Keys, j: nat, k: nat)
    requires Sorted(keys) && j < k < |keys|
    ensures keys[j].level <= keys[k].level
    ensures keys[j].level == keys[k].level && keys[k].isDirectory ==> keys[j].isDirectory
  {
    assert !Less(keys[k], keys[j]);
  }

  ghost predicate LevelsAscending(t: Nodes) { forall j, k :: 0 <= j < k < |t| ==> |t[j].path| <= |t[k].path| }

  ghost predicate PathsDiffer(t: Nodes) { forall j, k :: 0 <= j < k < |t| ==> t[j].path != t[k].path }

  ghost predicate ParentsListed(t: Nodes) { forall k :: 0 < k < |t| ==> HasParent(t, k) }

  lemma TreeByParts(t: Nodes)
    requires |t| > 0 && t[0] == Node([], true) && LevelsAscending(t) && PathsDiffer(t) && ParentsListed(t)
    ensures Tree(t)
  {}

  lemma OrderOfNodes(root: string, list: Records)
    requires AllPlaced(root, list) && Sorted(KeysOf(list))
    ensures LevelsAscending(NodesOf(list)) && DirectoriesFirst(list)
  {
    hide AllPlaced;
    hide KeyOf;
    hide NodesOf;
    hide Sorted;
    hide Beyond;
    hide IsUnder;
    forall j, k | 0 <= j < k < |list|
      ensures |NodesOf(list)[j].path| <= |NodesOf(list)[k].path|
      ensures list[j].level == list[k].level && list[k].isDirectory ==> list[j].isDirectory
    {
      PlacedNode(root, list, j);
      PlacedNode(root, list, k);
      SortedLevels(KeysOf(list), j, k);
      DirectoryFlag(list, [], j);
      DirectoryFlag(list, [], k);
    }
  }

  lemma DifferentPlaces(root: string, list: Records, j: nat, k: nat)
    requires AllPlaced(root, list) && IsWalk(root, multiset(KeysOf(list))) && j < k < |list|
    ensures NodesOf(list)[j].path != NodesOf(list)[k].path
  {
    hide AllPlaced;
    hide Beyond;
    hide IsUnder;
    hide KeysOf;
    hide NodesOf;
    var keys := KeysOf(list);
    PlacedNode(root, list, j);
    PlacedNode(root, list, k);
    assert keys[j] in multiset(keys) && keys[k] in multiset(keys);
    if keys[j] == keys[k] { OccursTwice(keys, j, k); }
  }

  lemma ParentPlace(root: string, list: Records, k: nat) returns (d: nat)
    requires AllPlaced(root, list) && IsWalk(root, multiset(KeysOf(list))) && k < |list| && list[k].level > 0
    ensures IsDirectoryAt(NodesOf(list), d, Parent(NodesOf(list)[k].path))
  {
    hide AllPlaced;
    hide Beyond;
    hide IsUnder;
    hide KeyOf;
    hide KeysOf;
    hide NodesOf;
    var keys := KeysOf(list);
    PlacedNode(root, list, k);
    assert keys[k] in multiset(keys);
    var p :| p in multiset(keys) && IsParentOf(root, p, keys[k]);
    d :| 0 <= d < |keys| && keys[d] == p;
    PlacedNode(root, list, d);
  }

  lemma RootComesFirst(root: string, list: Records)
    requires AllPlaced(root, list) && Sorted(KeysOf(list)) && IsWalk(root, multiset(KeysOf(list)))
    ensures |list| > 0 && NodesOf(list)[0] == Node([], true)
  {
    hide AllPlaced;
    hide Beyond;
    hide IsUnder;
    hide KeyOf;
    hide KeysOf;
    hide NodesOf;
    hide Sorted;
    var keys := KeysOf(list);
    var v: SearchRecord :| v in multiset(keys) && v.isDirectory && v.level == 0;
    var r: nat :| r < |keys| && keys[r] == v;
    PlacedNode(root, list, r);
    if r > 0 {
      SortedLevels(keys, 0, r);
      PlacedNode(root, list, 0);
      DifferentPlaces(root, list, 0, r);
    }
  }

  /** A scanned file tree is a list the walks can work on. */
  lemma ScanIsWellFormed(root: string, list: Records)
    requires AllPlaced(root, list) && Sorted(KeysOf(list)) && IsWalk(root, multiset(KeysOf(list)))
    ensures WellFormed(list) && DirectoriesFirst(list)
  {
    hide *;
    var t := NodesOf(list);
    OrderOfNodes(root, list);
    RootComesFirst(root, list);
    assert PathsDiffer(t) by { NodesDiffer(root, list); }
    assert ParentsListed(t) by { NodesHaveParents(root, list); }
    TreeByParts(t);
    LevelsMatch(root, list);
  }

  lemma NodesDiffer(root: string, list: Records)
    requires AllPlaced(root, list) && IsWalk(root, multiset(KeysOf(list)))
    ensures PathsDiffer(NodesOf(list))
  {
    hide NodesOf;
    hide IsWalk;
    hide AllPlaced;
    hide KeyOf;
    forall j, k | 0 <= j < k < |list| ensures NodesOf(list)[j].path != NodesOf(list)[k].path { DifferentPlaces(root, list, j, k); }
  }

  lemma NodesHaveParents(root: string, list: Records)
    requires AllPlaced(root, list) && Sorted(KeysOf(list)) && IsWalk(root, multiset(KeysOf(list)))
    ensures ParentsListed(NodesOf(list))
  {
    hide NodesOf;
    hide IsWalk;
    hide AllPlaced;
    hide Sorted;
    hide IsDirectoryAt;
    hide KeyOf;
    var t := NodesOf(list);
    RootComesFirst(root, list);
    forall k: nat | 0 < k < |t| ensures HasParent(t, k) {
      DifferentPlaces(root, list, 0, k);
      PlacedNode(root, list, k);
      var d := ParentPlace(root, list, k);
    }
  }

  lemma LevelsMatch(root: string, list: Records)
    requires AllPlaced(root, list) && Tree(NodesOf(list))
    ensures WellFormed(list)
  {
    hide NodesOf;
    hide AllPlaced;
    hide Tree;
    hide KeyOf;
    hide Beyond;
    forall k: nat | k < |list| ensures list[k].level == |NodesOf(list)[k].path| { PlacedNode(root, list, k); }
  }

  class DirTree {
    const root: string

    constructor (root: string)
      requires root != ""
      ensures this.root == root
    {
      this.root := root;
    }

    /** Scans the tree; `visits` is what the search reports, in any order. */
    method OnDataCreate(visits: seq<SearchRecord>) returns (list: PathList)
      requires forall v :: v in visits ==> IsUnder(root, v)
      ensures fresh(list) && list.Valid(root) && multiset(KeysOf(list.items)) == multiset(visits)
      ensures IsWalk(root, multiset(visits)) ==> WellFormed(list.items) && DirectoriesFirst(list.items)
    {
      hide *;
      list := new PathList();
      EmptyList(list, root);
      var rootPath := new PathName(root);
      for i := 0 to |visits|
        invariant fresh(list) && list.Valid(root) && rootPath.Valid()
        invariant rootPath.pool == Split(root) && rootPath.absolute == IsAbsolute(root)
        invariant multiset(KeysOf(list.items)) == multiset(visits[..i])
      {
        OneMoreVisit(visits, i);
        var more := list.AddPath(rootPath, root, visits[i].path, visits[i].level, visits[i].isDirectory);
      }
      assert visits[..|visits|] == visits;
      ScanState(list, root);
      if IsWalk(root, multiset(visits)) { ScanIsWellFormed(root, list.items); }
    }
  }

  lemma OneMoreVisit(visits: seq<SearchRecord>, i: nat)
    requires i < |visits|
    ensures multiset(visits[..i + 1]) == multiset(visits[..i]) + multiset{SearchRecord(visits[i].path, visits[i].level, visits[i].isDirectory)}
    ensures SearchRecord(visits[i].path, visits[i].level, visits[i].isDirectory) == visits[i] && visits[i] in visits
  {
    assert visits[..i + 1] == visits[..i] + [visits[i]];
  }

  lemma EmptyList(list: PathList, root: string)
    requires list.items == []
    ensures list.Valid(root) && KeysOf(list.items) == []
  {}

  // ----- the order of iteration -----

  predicate ComesFirst(l: FileRecordData, r: FileRecordData) {
    (l.isDirectory && !r.isDirectory) || (l.isDirectory == r.isDirectory && TextBefore(l.absPath, r.absPath))
  }

  /** The children of a directory are visited directories first, then by path. */
  lemma ChildrenInOrder(root: string, list: Records, base: Atoms, i: nat, j: nat)
    requires WellFormed(list) && Sorted(KeysOf(list)) && AllPlaced(root, list)
    requires i < j < |ChildrenFrom(NodesOf(list), base, 0)|
    ensures var children := ChildrenFrom(NodesOf(list), base, 0);
            children[i] < children[j] < |list| && ComesFirst(list[children[i]], list[children[j]])
  {
    hide NodesOf;
    hide Sorted;
    hide WellFormed;
    hide Split;
    hide AllPlaced;
    var t := NodesOf(list);
    var children: seq<nat> := ChildrenFrom(t, base, 0);
    ChildrenAscend(t, base, 0, i, j);
    ChildrenAreAll(t, base, 0, children[i]);
    ChildrenAreAll(t, base, 0, children[j]);
    LevelIsDepth(list, children[i]);
    LevelIsDepth(list, children[j]);
    RecordsDiffer(list, children[i], children[j]);
    PlacedNode(root, list, children[i]);
    PlacedNode(root, list, children[j]);
    InOrder(list, children[i], children[j]);
  }

  lemma RecordsDiffer(list: Records, j: nat, k: nat)
    requires WellFormed(list) && j < k < |list|
    ensures NodesOf(list)[j].path != NodesOf(list)[k].path
  {
    hide NodesOf;
  }

  lemma InOrder(list: Records, j: nat, k: nat)
    requires Sorted(KeysOf(list)) && j < k < |list|
    ensures Less(KeyOf(list[j]), KeyOf(list[k])) || KeyOf(list[j]) == KeyOf(list[k])
  {
    hide Less;
    LessIsStrictTotalOrder(KeyOf(list[j]), KeyOf(list[k]), KeyOf(list[j]));
    assert !Less(KeysOf(list)[k], KeysOf(list)[j]);
  }
}
