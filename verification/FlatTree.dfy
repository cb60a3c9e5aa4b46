/**
 A directory tree kept as a flat list: what the order of the list and the parent relation say
 about each other. Positions stand for records; `Listing` connects them to the program's records.
 */
module FlatTree {
  import opened Paths

  datatype Node = Node(path: Atoms, isDirectory: bool)

  type Nodes = seq<Node>

  predicate IsChild(t: Nodes, base: Atoms, k: nat) {
    k < |t| && t[k].path != [] && Parent(t[k].path) == base
  }

  predicate IsFileIn(t: Nodes, base: Atoms, k: nat) { IsChild(t, base, k) && !t[k].isDirectory }

  predicate IsDirectoryAt(t: Nodes, d: nat, path: Atoms) {
    d < |t| && t[d].isDirectory && t[d].path == path
  }

  ghost predicate HasParent(t: Nodes, k: nat) {
    k < |t| && exists d :: IsDirectoryAt(t, d, Parent(t[k].path))
  }

  /**
   The root comes first, paths never get shorter along the list and differ from each other, and
   the parent of every other node is there, as a directory.
   */
  ghost predicate Tree(t: Nodes) {
    && |t| > 0 && t[0] == Node([], true)
    && (forall j, k :: 0 <= j < k < |t| ==> |t[j].path| <= |t[k].path|)
    && (forall j, k :: 0 <= j < k < |t| ==> t[j].path != t[k].path)
    && (forall k :: 0 < k < |t| ==> HasParent(t, k))
  }

  /** `k` lies below the directory whose path is `base`. */
  predicate Below(t: Nodes, base: Atoms, k: nat) { k < |t| && base < t[k].path }

  lemma ShorterIsBefore(t: Nodes, d: nat, k: nat)
    requires Tree(t) && d < |t| && k < |t| && |t[d].path| < |t[k].path|
    ensures d < k
  {}

  lemma SamePathSamePlace(t: Nodes, d: nat, k: nat)
    requires Tree(t) && d < |t| && k < |t| && t[d].path == t[k].path
    ensures d == k
  {}

  lemma ParentIsListed(t: Nodes, k: nat) returns (d: nat)
    requires Tree(t) && k < |t| && t[k].path != []
    ensures IsDirectoryAt(t, d, Parent(t[k].path)) && d < k
  {
    assert HasParent(t, k);
    d :| IsDirectoryAt(t, d, Parent(t[k].path));
    ShorterIsBefore(t, d, k);
  }

  /** Every node has each of its ancestors in the list, as a directory standing before it. */
  lemma {:induction false} AncestorIsListed(t: Nodes, k: nat, n: nat) returns (d: nat)
    requires Tree(t) && k < |t| && n < |t[k].path|
    ensures IsDirectoryAt(t, d, t[k].path[..n]) && d < k
    decreases |t[k].path| - n
  {
    hide Tree;
    if n == |t[k].path| - 1 {
      d := ParentIsListed(t, k);
    } else {
      var e := AncestorIsListed(t, k, n + 1);
      d := AncestorIsListed(t, e, n);
      assert t[k].path[..n + 1][..n] == t[k].path[..n];
    }
  }

  /** Children stand behind their directory. */
  lemma ChildIsBehind(t: Nodes, d: nat, k: nat)
    requires Tree(t) && d < |t| && IsChild(t, t[d].path, k)
    ensures d < k && t[d].isDirectory
  {
    hide Tree;
    var p := ParentIsListed(t, k);
    SamePathSamePlace(t, d, p);
  }

  // ----- the children of a directory, and the whole subtree -----

  /** Positions of the children of `base` from `from` on, in list order. */
  function ChildrenFrom(t: Nodes, base: Atoms, from: nat): seq<nat>
    decreases |t| - from
  {
    if from >= |t| then []
    else (if IsChild(t, base, from) then [from] else []) + ChildrenFrom(t, base, from + 1)
  }

  /** Preorder: each child of `base` from `from` on, followed by what its subtree holds. */
  function FlattenFrom(t: Nodes, base: Atoms, from: nat): seq<nat>
    decreases |t| - from
  {
    if from >= |t| then []
    else if IsChild(t, base, from) then [from] + SubtreeOf(t, from) + FlattenFrom(t, base, from + 1)
    else FlattenFrom(t, base, from + 1)
  }

  function SubtreeOf(t: Nodes, k: nat): seq<nat>
    requires k < |t|
    decreases |t| - k, 0
  {
    if t[k].isDirectory then FlattenFrom(t, t[k].path, k + 1) else []
  }

  lemma {:induction false} NoChildrenBetween(t: Nodes, base: Atoms, from: nat, upTo: nat)
    requires from <= upTo && forall k :: from <= k < upTo ==> !IsChild(t, base, k)
    ensures FlattenFrom(t, base, from) == FlattenFrom(t, base, upTo)
    ensures ChildrenFrom(t, base, from) == ChildrenFrom(t, base, upTo)
    decreases upTo - from
  {
    if from < upTo { NoChildrenBetween(t, base, from + 1, upTo); }
  }

  /** Exactly the children are iterated. */
  lemma {:induction false} ChildrenAreAll(t: Nodes, base: Atoms, from: nat, k: nat)
    ensures k in ChildrenFrom(t, base, from) <==> from <= k && IsChild(t, base, k)
    decreases |t| - from
  {
    if from < |t| { ChildrenAreAll(t, base, from + 1, k); }
  }

  /** They come in list order, each once. */
  lemma {:induction false} ChildrenAscend(t: Nodes, base: Atoms, from: nat, i: nat, j: nat)
    requires i < j < |ChildrenFrom(t, base, from)|
    ensures ChildrenFrom(t, base, from)[i] < ChildrenFrom(t, base, from)[j]
    decreases |t| - from
  {
    if !IsChild(t, base, from) {
      ChildrenAscend(t, base, from + 1, i, j);
    } else if i > 0 {
      ChildrenAscend(t, base, from + 1, i - 1, j - 1);
    } else {
      var rest := ChildrenFrom(t, base, from + 1);
      ChildrenAreAll(t, base, from + 1, rest[j - 1]);
    }
  }

  /** `c` is a child of `base` at or behind `from`, and `k` is `c` or lies below it. */
  predicate Through(t: Nodes, base: Atoms, from: nat, c: nat, k: nat) {
    from <= c && IsChild(t, base, c) && k < |t| && t[c].path <= t[k].path
  }

  /** `k` is a child of `base` from `from` on, or lies below one. */
  ghost predicate Reached(t: Nodes, base: Atoms, from: nat, k: nat) {
    exists c :: Through(t, base, from, c, k)
  }

  /** What `k` lies below: the child of `base` on its way up. */
  lemma WayUp(t: Nodes, base: Atoms, k: nat) returns (c: nat)
    requires Tree(t) && Below(t, base, k)
    ensures c <= k && Through(t, base, 0, c, k)
  {
    hide Tree;
    var n := |base| + 1;
    if |t[k].path| == n {
      c := k;
    } else {
      c := AncestorIsListed(t, k, n);
    }
    assert t[c].path == t[k].path[..n];
  }

  /** The walk from `from` on visits exactly what lies in the subtrees of the children from there on. */
  lemma {:induction false} FlattenMembers(t: Nodes, base: Atoms, from: nat, k: nat)
    requires Tree(t)
    ensures k in FlattenFrom(t, base, from) <==> Reached(t, base, from, k)
    decreases |t| - from
  {
    hide Tree;
    hide Reached;
    if from >= |t| {
      NothingReached(t, base, from, k);
    } else {
      FlattenMembers(t, base, from + 1, k);
      SubtreeMembers(t, from, k);
      ReachedFrom(t, base, from, k);
      if k < |t| && t[from].path == t[k].path { SamePathSamePlace(t, from, k); }
      hide SubtreeOf;
      hide IsChild;
    }
  }

  lemma NothingReached(t: Nodes, base: Atoms, from: nat, k: nat)
    requires from >= |t|
    ensures !Reached(t, base, from, k)
  {}

  lemma ReachedFrom(t: Nodes, base: Atoms, from: nat, k: nat)
    requires from < |t|
    ensures Reached(t, base, from, k) <==>
              Reached(t, base, from + 1, k) || (IsChild(t, base, from) && k < |t| && t[from].path <= t[k].path)
  {
    hide IsChild;
    if Reached(t, base, from, k) {
      var c: nat :| Through(t, base, from, c, k);
      assert c == from || Through(t, base, from + 1, c, k);
    }
    if Reached(t, base, from + 1, k) {
      var c: nat :| Through(t, base, from + 1, c, k);
      assert Through(t, base, from, c, k);
    }
    if IsChild(t, base, from) && k < |t| && t[from].path <= t[k].path { assert Through(t, base, from, from, k); }
  }

  /** A directory's part of the walk is everything below it, without itself. */
  lemma SubtreeMembers(t: Nodes, d: nat, k: nat)
    requires Tree(t) && d < |t|
    ensures k in SubtreeOf(t, d) <==> k < |t| && t[d].path < t[k].path
    decreases |t| - d, 0
  {
    hide Tree;
    if t[d].isDirectory {
      FlattenMembers(t, t[d].path, d + 1, k);
      BelowIsReached(t, d, k);
    } else if k < |t| && t[d].path < t[k].path {
      var e := AncestorIsListed(t, k, |t[d].path|);
      SamePathSamePlace(t, d, e);
    }
  }

  lemma BelowIsReached(t: Nodes, d: nat, k: nat)
    requires Tree(t) && d < |t|
    ensures Reached(t, t[d].path, d + 1, k) <==> k < |t| && t[d].path < t[k].path
  {
    hide Tree;
    if Reached(t, t[d].path, d + 1, k) {
      var c: nat :| Through(t, t[d].path, d + 1, c, k);
      assert t[d].path == t[c].path[..|t[c].path| - 1];
      assert t[d].path < t[c].path <= t[k].path;
    }
    if k < |t| && t[d].path < t[k].path {
      var c := WayUp(t, t[d].path, k);
      ChildIsBehind(t, d, c);
      assert Through(t, t[d].path, d + 1, c, k);
    }
  }

  // ----- each record once -----

  ghost predicate NoRepeats(s: seq<nat>) { forall i, j :: 0 <= i < j < |s| ==> s[i] != s[j] }

  lemma NoRepeatsJoined(a: seq<nat>, b: seq<nat>)
    requires NoRepeats(a) && NoRepeats(b) && forall k :: k in a ==> k !in b
    ensures NoRepeats(a + b)
  {
    forall i, j | 0 <= i < j < |a + b| ensures (a + b)[i] != (a + b)[j] {
      if i < |a| <= j { assert a[i] in a && b[j - |a|] in b; }
    }
  }

  /** Two children of one directory have nothing below them in common. */
  lemma SubtreesAreApart(t: Nodes, base: Atoms, from: nat, k: nat)
    requires Tree(t) && IsChild(t, base, from) && Reached(t, base, from + 1, k)
    ensures !(t[from].path <= t[k].path)
  {
    hide Tree;
    var c: nat :| Through(t, base, from + 1, c, k);
    if t[from].path <= t[k].path {
      assert t[from].path == t[k].path[..|base| + 1] == t[c].path;
      SamePathSamePlace(t, from, c);
    }
  }

  lemma {:induction false} FlattenOnce(t: Nodes, base: Atoms, from: nat)
    requires Tree(t)
    ensures NoRepeats(FlattenFrom(t, base, from))
    decreases |t| - from
  {
    hide Tree;
    if from >= |t| { return; }
    FlattenOnce(t, base, from + 1);
    if IsChild(t, base, from) {
      var sub, rest := SubtreeOf(t, from), FlattenFrom(t, base, from + 1);
      assert FlattenFrom(t, base, from) == [from] + sub + rest;
      if t[from].isDirectory { FlattenOnce(t, t[from].path, from + 1); }
      forall k | k in [from] + sub ensures k !in rest {
        SubtreeMembers(t, from, k);
        FlattenMembers(t, base, from + 1, k);
        if k in rest { SubtreesAreApart(t, base, from, k); }
      }
      SubtreeMembers(t, from, from);
      hide FlattenFrom;
      hide SubtreeOf;
      NoRepeatsJoined([from], sub);
      NoRepeatsJoined([from] + sub, rest);
    }
  }

  lemma FirstIsMember(s: seq<nat>)
    ensures s != [] ==> s[0] in s
  {}

  lemma {:induction false} CountOfRange(s: seq<nat>, lo: nat, hi: nat)
    requires lo <= hi && NoRepeats(s) && forall k: nat :: k in s <==> lo <= k < hi
    ensures |s| == hi - lo
    decreases hi
  {
    FirstIsMember(s);
    if lo < hi {
      assert hi - 1 in s;
      var i :| 0 <= i < |s| && s[i] == hi - 1;
      var rest := s[..i] + s[i + 1..];
      forall k: nat ensures k in rest <==> lo <= k < hi - 1 { assert k in rest <==> k in s && k != hi - 1; }
      CountOfRange(rest, lo, hi - 1);
    }
  }

  /** The walk from the root holds every record but the root, each exactly once. */
  lemma FlattenIsEverything(t: Nodes)
    requires Tree(t)
    ensures forall k: nat :: k in FlattenFrom(t, [], 0) <==> 0 < k < |t|
    ensures NoRepeats(FlattenFrom(t, [], 0)) && |FlattenFrom(t, [], 0)| == |t| - 1
  {
    var all := FlattenFrom(t, [], 0);
    assert all == SubtreeOf(t, 0);
    forall k: nat ensures k in all <==> 0 < k < |t| {
      SubtreeMembers(t, 0, k);
      if k < |t| && t[k].path == [] { SamePathSamePlace(t, 0, k); }
    }
    FlattenOnce(t, [], 0);
    hide FlattenFrom;
    CountOfRange(all, 1, |t|);
  }

  /** Behind position `p` of the walk comes everything below the record standing there. */
  predicate Followed(t: Nodes, walk: seq<nat>, p: nat) {
    && p < |walk| && walk[p] < |t|
    && p + 1 + |SubtreeOf(t, walk[p])| <= |walk|
    && walk[p + 1..p + 1 + |SubtreeOf(t, walk[p])|] == SubtreeOf(t, walk[p])
  }

  lemma FollowedInside(t: Nodes, a: seq<nat>, walk: seq<nat>, b: seq<nat>, p: nat)
    requires Followed(t, walk, p)
    ensures Followed(t, a + walk + b, |a| + p)
  {
    hide SubtreeOf;
    var n, all := |SubtreeOf(t, walk[p])|, a + walk + b;
    assert all[|a| + p] == walk[p];
    assert all[|a| + p + 1..|a| + p + 1 + n] == walk[p + 1..p + 1 + n];
  }

  /** Wherever a directory stands in a walk, everything below it follows at once. */
  lemma {:induction false} SubtreeFollows(t: Nodes, base: Atoms, from: nat, p: nat)
    requires p < |FlattenFrom(t, base, from)|
    ensures Followed(t, FlattenFrom(t, base, from), p)
    decreases |t| - from
  {
    hide Followed;
    hide IsChild;
    if !IsChild(t, base, from) {
      SubtreeFollows(t, base, from + 1, p);
    } else {
      var sub, rest := SubtreeOf(t, from), FlattenFrom(t, base, from + 1);
      assert FlattenFrom(t, base, from) == [from] + sub + rest;
      if p == 0 {
        FollowedAtOnce(t, from, sub, rest);
      } else if p <= |sub| {
        SubtreeFollows(t, t[from].path, from + 1, p - 1);
        FollowedInside(t, [from], sub, rest, p - 1);
      } else {
        SubtreeFollows(t, base, from + 1, p - 1 - |sub|);
        FollowedInside(t, [from] + sub, rest, [], p - 1 - |sub|);
        assert [from] + sub + rest + [] == [from] + sub + rest;
      }
    }
  }

  lemma FollowedAtOnce(t: Nodes, d: nat, sub: seq<nat>, rest: seq<nat>)
    requires d < |t| && sub == SubtreeOf(t, d)
    ensures Followed(t, [d] + sub + rest, 0)
  {
    hide SubtreeOf;
    assert ([d] + sub + rest)[1..1 + |sub|] == sub;
  }
}
