/** Paths as lists of atoms (pathname.cpp) and the offset of a relative path inside its text (dirtree.cpp). */
module Paths {

  type Atoms = seq<string>

  /** A path component: not empty, no separator inside. */
  predicate IsAtom(a: string) { a != "" && '/' !in a }

  predicate AllAtoms(atoms: Atoms) { forall k :: 0 <= k < |atoms| ==> IsAtom(atoms[k]) }

  /** Length of the text before the first separator. */
  function AtomLength(text: string): (n: nat)
    ensures n <= |text|
    ensures forall k :: 0 <= k < n ==> text[k] != '/'
    ensures n < |text| ==> text[n] == '/'
  {
    if text == "" || text[0] == '/' then 0 else 1 + AtomLength(text[1..])
  }

  /** The atoms of a text: what lies between runs of separators. */
  function Split(text: string): (atoms: Atoms)
    ensures AllAtoms(atoms)
    decreases |text|
  {
    if text == "" then []
    else if text[0] == '/' then Split(text[1..])
    else [text[..AtomLength(text)]] + Split(text[AtomLength(text)..])
  }

  /** The atoms separated by single slashes. */
  function Joined(atoms: Atoms): string {
    if atoms == [] then ""
    else if |atoms| == 1 then atoms[0]
    else atoms[0] + "/" + Joined(atoms[1..])
  }

  /** The text of a path. */
  function PathText(atoms: Atoms, absolute: bool): string {
    (if absolute then "/" else "") + Joined(atoms)
  }

  predicate IsAbsolute(text: string) { text != "" && text[0] == '/' }

  // ----- splitting -----

  method FindSlash(text: string, from: nat) returns (next: nat)
    requires from <= |text|
    ensures next == from + AtomLength(text[from..])
  {
    next := from;
    while next < |text| && text[next] != '/'
      invariant from <= next <= |text|
      invariant AtomLength(text[from..]) == next - from + AtomLength(text[next..])
    {
      assert text[next..][1..] == text[next + 1..];
      next := next + 1;
    }
  }

  method SplitPath(text: string) returns (atoms: Atoms)
    ensures atoms == Split(text)
  {
    hide Split;
    hide AtomLength;
    atoms := [];
    var from := 0;
    assert text[0..] == text;
    var next := FindSlash(text, from);
    while next < |text|
      invariant from <= next <= |text| && next == from + AtomLength(text[from..])
      invariant Split(text) == atoms + Split(text[from..])
      decreases |text| - from
    {
      SplitHere(text, from, next);
      if next != from {
        atoms := atoms + [text[from..next]];
        from := next;
      }
      from := from + 1;
      next := FindSlash(text, from);
    }
    SplitHere(text, from, next);
    if next != from {
      atoms := atoms + [text[from..next]];
    }
  }

  /** What `Split` does at an atom that ends at `next`. */
  lemma SplitHere(text: string, from: nat, next: nat)
    requires from <= next <= |text| && next == from + AtomLength(text[from..])
    ensures Split(text[from..]) == (if from < next then [text[from..next]] else [])
                                   + (if next < |text| then Split(text[next + 1..]) else [])
  {
    assert text[from..][..next - from] == text[from..next];
    assert text[from..][next - from..] == text[next..];
    if next < |text| { assert text[next..][1..] == text[next + 1..]; }
  }

  lemma SplitOfAtom(a: string, rest: string)
    requires IsAtom(a) && (rest == "" || rest[0] == '/')
    ensures Split(a + rest) == [a] + Split(rest)
  {
    AtomThenSlash(a, rest);
    assert (a + rest)[..|a|] == a && (a + rest)[|a|..] == rest;
  }

  lemma {:induction false} AtomThenSlash(a: string, rest: string)
    requires '/' !in a && (rest == "" || rest[0] == '/')
    ensures AtomLength(a + rest) == |a|
  {
    if a != "" {
      assert a[0] in a && (forall x :: x in a[1..] ==> x in a);
      assert (a + rest)[1..] == a[1..] + rest;
      AtomThenSlash(a[1..], rest);
    } else {
      assert a + rest == rest;
    }
  }

  /** Splitting the text of a path gives its atoms back. */
  lemma {:induction false} SplitOfPathText(atoms: Atoms, absolute: bool)
    requires AllAtoms(atoms)
    ensures Split(PathText(atoms, absolute)) == atoms
  {
    if absolute {
      SplitOfPathText(atoms, false);
      assert PathText(atoms, true)[1..] == Joined(atoms) == PathText(atoms, false);
    } else if |atoms| == 1 {
      SplitOfAtom(atoms[0], "");
      assert atoms[0] + "" == atoms[0] == PathText(atoms, false);
    } else if |atoms| > 1 {
      var rest := PathText(atoms[1..], true);
      SplitOfPathText(atoms[1..], true);
      SplitOfAtom(atoms[0], rest);
      assert PathText(atoms, false) == atoms[0] + rest;
    }
  }

  // ----- reserving -----

  /** Runs of separators in `text`, when the character before it is `prev`. */
  function GroupsAfter(text: string, prev: char): nat {
    if text == "" then 0
    else (if text[0] == '/' && prev != '/' then 1 else 0) + GroupsAfter(text[1..], text[0])
  }

  method CountGrouped(text: string) returns (count: nat)
    ensures count == GroupsAfter(text, '\0')
  {
    count := 0;
    var prev := '\0';
    for k := 0 to |text|
      invariant count + GroupsAfter(text[k..], prev) == GroupsAfter(text, '\0')
    {
      assert text[k..][1..] == text[k + 1..];
      count := count + (if text[k] == '/' && prev != '/' then 1 else 0);
      prev := text[k];
    }
  }

  /** The number of atoms a path constructor reserves room for. */
  function Reserved(text: string): int
    requires text != ""
  {
    GroupsAfter(text, '\0') + 1 - (if text[|text| - 1] == '/' then 1 else 0) - (if text[0] == '/' then 1 else 0)
  }

  lemma {:induction false} AtomsByGroups(text: string, prev: char)
    requires text != ""
    ensures |Split(text)| == GroupsAfter(text, prev) + (if text[|text| - 1] == '/' then 0 else 1)
                             - (if text[0] == '/' && prev != '/' then 1 else 0)
    decreases |text|
  {
    if text[0] == '/' {
      if |text| > 1 { AtomsByGroups(text[1..], '/'); }
    } else {
      SplitAfterFirst(text);
      if |text| > 1 { AtomsByGroups(text[1..], text[0]); }
    }
  }

  /** Dropping one character of an atom keeps the number of atoms unless it was the last one. */
  lemma SplitAfterFirst(text: string)
    requires text != "" && text[0] != '/'
    ensures |Split(text)| == |Split(text[1..])| + (if |text| == 1 || text[1] == '/' then 1 else 0)
  {
    var n := AtomLength(text);
    assert n == 1 + AtomLength(text[1..]);
    assert text[n..] == text[1..][n - 1..];
  }

  /** The constructor reserves exactly the atoms that splitting produces. */
  lemma ReservesExactly(text: string)
    requires text != ""
    ensures Reserved(text) == |Split(text)|
  {
    AtomsByGroups(text, '\0');
  }

  // ----- text of a path -----

  function AdjustedCount(atoms: Atoms, skipRight: nat): nat {
    if skipRight >= |atoms| then 0 else |atoms| - skipRight
  }

  /** The text of a path without its last `skipRight` atoms; "/" only for a path that has none at all. */
  function JointText(atoms: Atoms, absolute: bool, skipRight: nat): string {
    var count := AdjustedCount(atoms, skipRight);
    if count == 0 then if atoms == [] && absolute then "/" else ""
    else PathText(atoms[..count], absolute)
  }

  lemma {:induction false} JoinedGrows(atoms: Atoms, a: string)
    requires atoms != []
    ensures Joined(atoms + [a]) == Joined(atoms) + "/" + a
  {
    if |atoms| == 1 {
      assert (atoms + [a])[1..] == [a];
    } else {
      JoinedGrows(atoms[1..], a);
      assert (atoms + [a])[1..] == atoms[1..] + [a];
      assert (atoms + [a])[0] == atoms[0];
      assert atoms[0] + "/" + (Joined(atoms[1..]) + "/" + a) == atoms[0] + "/" + Joined(atoms[1..]) + "/" + a;
    }
  }

  lemma PathTextGrows(atoms: Atoms, k: nat, absolute: bool)
    requires k < |atoms|
    ensures PathText(atoms[..k + 1], absolute)
         == PathText(atoms[..k], absolute) + (if k == 0 then "" else "/") + atoms[k]
  {
    assert atoms[..k + 1] == atoms[..k] + [atoms[k]];
    if k > 0 { JoinedGrows(atoms[..k], atoms[k]); }
  }

  method CalcJoinSize(atoms: Atoms, absolute: bool, skipRight: nat) returns (reserve: nat)
    ensures reserve == |JointText(atoms, absolute, skipRight)|
  {
    var count := AdjustedCount(atoms, skipRight);
    if count == 0 { return if atoms == [] && absolute then 1 else 0; }
    reserve := if absolute then 1 else 0;
    for z := 0 to count
      invariant reserve + (if z == 0 then 0 else z - 1) == |PathText(atoms[..z], absolute)|
    {
      PathTextGrows(atoms, z, absolute);
      reserve := reserve + |atoms[z]|;
    }
    reserve := reserve + (count - 1);
  }

  /** Only a path without atoms has a text of one slash, and only an empty text has size 0. */
  lemma TextIsLong(atoms: Atoms, absolute: bool, count: nat)
    requires AllAtoms(atoms) && 0 < count <= |atoms|
    ensures |PathText(atoms[..count], absolute)| >= if absolute then 2 else 1
  {
    PathTextGrows(atoms, count - 1, absolute);
    assert IsAtom(atoms[count - 1]);
  }

  method GetJointAtoms(atoms: Atoms, absolute: bool, skipRight: nat) returns (out: string)
    requires AllAtoms(atoms)
    ensures out == JointText(atoms, absolute, skipRight)
  {
    hide Joined;
    hide PathText;
    var reserve := CalcJoinSize(atoms, absolute, skipRight);
    var count := AdjustedCount(atoms, skipRight);
    if count > 0 { TextIsLong(atoms, absolute, count); }
    if reserve == 0 { return ""; }
    if reserve == 1 && absolute { return "/"; }
    out := "";
    var slash := if absolute then "/" else "";
    for z := 0 to count
      invariant slash == if z > 0 || absolute then "/" else ""
      invariant out == if z == 0 then "" else PathText(atoms[..z], absolute)
    {
      PathTextGrows(atoms, z, absolute);
      NoAtomsText(atoms, absolute);
      out := out + slash;
      out := out + atoms[z];
      slash := "/";
    }
  }

  lemma NoAtomsText(atoms: Atoms, absolute: bool)
    ensures PathText(atoms[..0], absolute) == if absolute then "/" else ""
  {}

  // ----- the path object -----

  /** Appending atoms, dropping the last one, and the text: a list of atoms behind a small interface. */
  class PathName {
    var pool: Atoms
    var absolute: bool

    ghost predicate Valid()
      reads this
    {
      AllAtoms(pool)
    }

    constructor (path: string)
      ensures Valid() && pool == Split(path) && absolute == IsAbsolute(path)
    {
      var atoms := [];
      if path != "" { atoms := SplitPath(path); }
      pool := atoms;
      absolute := path != "" && path[0] == '/';
    }

    method Path() returns (text: string)
      requires Valid()
      ensures text == JointText(pool, absolute, 0)
    {
      text := GetJointAtoms(pool, absolute, 0);
    }

    method Dirname() returns (text: string)
      requires Valid()
      ensures text == if pool == [] then "" else JointText(pool, absolute, 1)
    {
      if |pool| == 0 { return ""; }
      text := GetJointAtoms(pool, absolute, 1);
    }

    method StrPathSize() returns (size: nat)
      requires Valid()
      ensures size == |JointText(pool, absolute, 0)|
    {
      size := CalcJoinSize(pool, absolute, 0);
    }

    method Join(other: string)
      requires Valid()
      modifies this
      ensures Valid() && pool == old(pool) + Split(other) && absolute == old(absolute)
    {
      var atoms := SplitPath(other);
      pool := pool + atoms;
    }

    method PopRight()
      requires Valid()
      modifies this
      ensures Valid() && pool == Parent(old(pool)) && absolute == old(absolute)
    {
      if pool != [] { pool := pool[..|pool| - 1]; }
    }

    /** Compares atoms only: an absolute and a relative path may be equal. */
    method Equals(other: PathName) returns (same: bool)
      ensures same <==> pool == other.pool
    {
      var count := |pool|;
      if count != |other.pool| { return false; }
      for z := 0 to count
        invariant pool[..z] == other.pool[..z]
      {
        if pool[z] != other.pool[z] { return false; }
      }
      assert pool[..count] == pool && other.pool[..count] == other.pool;
      return true;
    }
  }

  /** All but the last atom; nothing has no parent but itself. */
  function Parent(atoms: Atoms): Atoms { if atoms == [] then [] else atoms[..|atoms| - 1] }

  /** What `PopRight` takes away; nothing of a path without atoms. */
  method Basename(path: PathName) returns (name: string)
    ensures if path.pool == [] then name == "" else Parent(path.pool) + [name] == path.pool
  {
    var size := |path.pool|;
    if size == 0 { return ""; }
    name := path.pool[size - 1];
  }

  function LastAtom(atoms: Atoms): string { if atoms == [] then "" else atoms[|atoms| - 1] }

  lemma OnlyLastAtom(atoms: Atoms, name: string)
    requires if atoms == [] then name == "" else Parent(atoms) + [name] == atoms
    ensures name == LastAtom(atoms)
  {}

  /** Directory and base name make up the text again, and the path: the base name is all behind the last slash. */
  lemma DirnameThenBasename(atoms: Atoms, absolute: bool)
    requires AllAtoms(atoms) && atoms != []
    ensures var up, name := JointText(atoms, absolute, 1), LastAtom(atoms);
            && '/' !in name && Split(up + "/" + name) == atoms
            && JointText(atoms, absolute, 0) == up + (if |atoms| > 1 || absolute then "/" else "") + name
  {
    var n := |atoms| - 1;
    PathTextGrows(atoms, n, absolute);
    assert atoms[..n + 1] == atoms && IsAtom(atoms[n]);
    SplitOfPathText(atoms, n == 0 || absolute);
    hide Split;
  }

  // ----- relative paths -----

  /** How many leading atoms two paths share. */
  function Common(a: Atoms, b: Atoms): (n: nat)
    ensures n <= |a| && n <= |b| && a[..n] == b[..n]
    ensures n < |a| && n < |b| ==> a[n] != b[n]
  {
    if a == [] || b == [] || a[0] != b[0] then 0
    else
      assert forall n {:trigger a[1..][..n]} :: 0 <= n <= Common(a[1..], b[1..]) ==> a[1..][..n] == a[1..n + 1] && b[1..][..n] == b[1..n + 1];
      1 + Common(a[1..], b[1..])
  }

  function Ups(n: nat): Atoms { seq(n, _ => "..") }

  /** The atoms of `other` seen from `base`. */
  function RelativeAtoms(base: Atoms, other: Atoms): Atoms {
    Ups(|base| - Common(base, other)) + other[Common(base, other)..]
  }

  lemma SplitOfOneAtom(a: string)
    requires IsAtom(a)
    ensures Split(a) == [a]
  {
    SplitOfAtom(a, "");
    assert a + "" == a;
  }

  lemma SplitOfNothing()
    ensures Split("") == []
  {}

  lemma CommonEnds(a: Atoms, b: Atoms, n: nat)
    requires n <= Common(a, b)
    ensures n == |a| || n == |b| || a[n] != b[n] ==> n == Common(a, b)
  {
    assert n < Common(a, b) ==> a[n] == a[..Common(a, b)][n] == b[..Common(a, b)][n] == b[n];
  }

  method CommonAtoms(base: PathName, other: PathName) returns (common: nat)
    ensures common == Common(base.pool, other.pool)
  {
    hide Common;
    var shortest := if |other.pool| < |base.pool| then |other.pool| else |base.pool|;
    common := 0;
    while common < shortest && other.pool[common] == base.pool[common]
      invariant common <= Common(base.pool, other.pool)
    {
      CommonGrows(base.pool, other.pool, common);
      common := common + 1;
    }
    CommonEnds(base.pool, other.pool, common);
  }

  method MakeRelativePath(base: PathName, other: PathName) returns (rel: PathName)
    requires base.Valid() && other.Valid()
    ensures rel.Valid() && (rel == other || fresh(rel))
    ensures !base.absolute && other.absolute ==> rel == other
    ensures base.absolute || !other.absolute ==>
              fresh(rel) && !rel.absolute && rel.pool == RelativeAtoms(base.pool, other.pool)
  {
    hide Split;
    hide Common;
    if !base.absolute && other.absolute { return other; }
    SplitOfNothing();
    var common := CommonAtoms(base, other);
    rel := new PathName("");
    var ellipses := |base.pool| - common;
    for z := 0 to ellipses
      invariant fresh(rel) && rel.Valid() && !rel.absolute && rel.pool == Ups(z)
    {
      SplitOfOneAtom("..");
      rel.Join("..");
      assert Ups(z) + [".."] == Ups(z + 1);
    }
    JoinRest(rel, other, common);
  }

  method JoinRest(rel: PathName, other: PathName, common: nat)
    requires rel.Valid() && other.Valid() && rel != other && common <= |other.pool|
    modifies rel
    ensures rel.Valid() && rel.absolute == old(rel.absolute) && rel.pool == old(rel.pool) + other.pool[common..]
  {
    hide Split;
    var remaining := |other.pool| - common;
    for z := 0 to remaining
      invariant rel.Valid() && rel.absolute == old(rel.absolute)
      invariant rel.pool == old(rel.pool) + other.pool[common..common + z]
    {
      SplitOfOneAtom(other.pool[z + common]);
      assert other.pool[common..common + z + 1] == other.pool[common..common + z] + [other.pool[z + common]];
      rel.Join(other.pool[z + common]);
    }
  }

  lemma {:induction false} CommonGrows(a: Atoms, b: Atoms, n: nat)
    requires n < |a| && n < |b| && n <= Common(a, b) && a[n] == b[n]
    ensures n < Common(a, b)
  {}

  /** Following a relative path: ".." goes up where it can. */
  function Resolve(stack: Atoms, rel: Atoms): Atoms
    decreases |rel|
  {
    if rel == [] then stack
    else if rel[0] == ".." then Resolve(Parent(stack), rel[1..])
    else Resolve(stack + [rel[0]], rel[1..])
  }

  lemma {:induction false} ResolveUps(stack: Atoms, n: nat, rest: Atoms)
    requires n <= |stack|
    ensures Resolve(stack, Ups(n) + rest) == Resolve(stack[..|stack| - n], rest)
    decreases n
  {
    if n == 0 {
      assert Ups(0) + rest == rest && stack[..|stack|] == stack;
    } else {
      var rel := Ups(n) + rest;
      assert rel[0] == ".." && rel[1..] == Ups(n - 1) + rest;
      ResolveUps(Parent(stack), n - 1, rest);
      assert Parent(stack)[..|stack| - n] == stack[..|stack| - n];
    }
  }

  lemma {:induction false} ResolveDowns(stack: Atoms, rest: Atoms)
    ensures |Resolve(stack, rest)| <= |stack| + |rest|
    ensures ".." !in rest ==> Resolve(stack, rest) == stack + rest
    ensures ".." in rest ==> |Resolve(stack, rest)| < |stack| + |rest|
    decreases |rest|
  {
    if rest != [] {
      if rest[0] == ".." { ResolveDowns(Parent(stack), rest[1..]); } else { ResolveDowns(stack + [rest[0]], rest[1..]); }
    }
  }

  /** Going from `base` along the relative path leads to `other` exactly if nothing below goes up again. */
  lemma RelativePathLeadsToTarget(base: Atoms, other: Atoms)
    ensures Resolve(base, RelativeAtoms(base, other)) == other <==> ".." !in other[Common(base, other)..]
  {
    var n := Common(base, other);
    ResolveUps(base, |base| - n, other[n..]);
    ResolveDowns(base[..n], other[n..]);
    assert other == other[..n] + other[n..];
  }

  // ----- the offset of the relative path -----

  /** A path text without doubled or trailing slashes. */
  predicate Normalised(path: string) { path == JointText(Split(path), IsAbsolute(path), 0) }

  lemma {:induction false} CommonOfPrefix(root: Atoms, atoms: Atoms)
    requires root <= atoms
    ensures Common(root, atoms) == |root|
  {}

  lemma {:induction false} JoinedEndsWith(head: Atoms, tail: Atoms)
    requires tail != []
    ensures Joined(head + tail) == (if head == [] then "" else Joined(head) + "/") + Joined(tail)
  {
    if head == [] {
      assert head + tail == tail;
    } else {
      assert (head + tail)[0] == head[0] && (head + tail)[1..] == head[1..] + tail;
      JoinedEndsWith(head[1..], tail);
      if |head| > 1 {
        assert head[0] + "/" + (Joined(head[1..]) + "/" + Joined(tail)) == head[0] + "/" + Joined(head[1..]) + "/" + Joined(tail);
      }
    }
  }

  /** Under a root that is an ancestor, a normalised path ends with the text of its relative path. */
  lemma RelativeTextIsSuffix(root: Atoms, path: string)
    requires Normalised(path) && root <= Split(path)
    ensures var rel := JointText(Split(path)[|root|..], false, 0);
            |rel| <= |path| && path[|path| - |rel|..] == rel && Split(rel) == Split(path)[|root|..]
  {
    var atoms := Split(path);
    var tail := atoms[|root|..];
    assert atoms[..|root|] + tail == atoms && atoms[..|atoms|] == atoms && tail[..|tail|] == tail;
    SplitOfPathText(tail, false);
    if tail != [] { JoinedEndsWith(atoms[..|root|], tail); }
  }

  /** The text of what `MakeRelativePath` returns. */
  function RelativeText(root: Atoms, rootAbsolute: bool, path: string): string {
    if !rootAbsolute && IsAbsolute(path) then JointText(Split(path), true, 0)
    else JointText(RelativeAtoms(root, Split(path)), false, 0)
  }

  /** The difference of two text sizes; the program asserts that it is not negative. */
  method CalcRelPathOffs(root: PathName, path: string) returns (offs: nat)
    requires root.Valid()
    requires |RelativeText(root.pool, root.absolute, path)| <= |JointText(Split(path), IsAbsolute(path), 0)|
    ensures offs == |JointText(Split(path), IsAbsolute(path), 0)| - |RelativeText(root.pool, root.absolute, path)|
    ensures Normalised(path) && root.absolute == IsAbsolute(path) && root.pool <= Split(path) ==>
              && offs <= |path|
              && path[offs..] == RelativeText(root.pool, root.absolute, path)
              && Split(path[offs..]) == Split(path)[|root.pool|..]
  {
    hide Split;
    hide JointText;
    var whole := new PathName(path);
    var rel := MakeRelativePath(root, whole);
    var relLen := rel.StrPathSize();
    var pathLen := whole.StrPathSize();
    offs := pathLen - relLen;
    if Normalised(path) && root.absolute == IsAbsolute(path) && root.pool <= Split(path) {
      RelativeUnderAncestor(root.pool, Split(path));
      RelativeTextIsSuffix(root.pool, path);
    }
  }

  lemma RelativeUnderAncestor(root: Atoms, atoms: Atoms)
    requires root <= atoms
    ensures RelativeAtoms(root, atoms) == atoms[|root|..]
  {
    CommonOfPrefix(root, atoms);
  }
}
