/**
 The table of damerau_levenshtein.c: what its cells hold, for which costs the last one is the edit
 distance, and the loops that fill it.
 */
module DamerauLevenshtein {
  import opened Basics
  import opened EditScripts
  import opened EditDistance
  import opened Utf8

  type int32 = x: int | -0x8000_0000 <= x <= 0x7fff_ffff

  function Max(a: int, b: int): int { if a > b then a else b }

  function Times(n: nat, each: nat): nat { n * each }

  /**
   The value of cell (`i`, `j`). A crossing whose earlier end is in row 0 or column 0 reads the
   clamped neighbour inside the table instead of the border cost, except at the corner.
   */
  function Cell(s: Text, t: Text, c: Costs, i: nat, j: nat): nat
    requires i < |s| && j < |t|
    decreases i + j
  {
    if i == 0 && j == 0 then
      if s[0] == t[0] then 0 else Min(c.replace, c.delete + c.insert)
    else if j == 0 then
      Min(Min(Cell(s, t, c, i - 1, 0) + c.delete, Times(i + 1, c.delete) + c.insert),
          Times(i, c.delete) + PairCost(s[i], t[0], c))
    else if i == 0 then
      Min(Min(Times(j + 1, c.insert) + c.delete, Cell(s, t, c, 0, j - 1) + c.insert),
          Times(j, c.insert) + PairCost(s[0], t[j], c))
    else
      var plain := Min(Min(Cell(s, t, c, i - 1, j) + c.delete, Cell(s, t, c, i, j - 1) + c.insert),
                       Cell(s, t, c, i - 1, j - 1) + PairCost(s[i], t[j], c));
      var p, q := LastIndex(t[j], s, i), LastIndex(s[i], t, j);
      if p < 0 || q < 0 then plain
      else if p == 0 && q == 0 then Min(plain, CrossCost(i - 1, j - 1, c))
      else Min(plain, Cell(s, t, c, Max(0, p - 1), Max(0, q - 1)) + CrossCost(i - p - 1, j - q - 1, c))
  }

  /** What the program returns for decoded texts. */
  function TableDistance(s: Text, t: Text, c: Costs): int {
    if 2 * c.swap < c.insert + c.delete then -1
    else if s == [] then |t| * c.insert
    else if t == [] then |s| * c.delete
    else Cell(s, t, c, |s| - 1, |t| - 1)
  }

  /** The costs for which the clamped reads do no harm. */
  predicate Supported(c: Costs) {
    c.insert <= c.swap && c.delete <= c.swap && Min(c.replace, c.insert + c.delete) <= c.swap
  }

  lemma DistOfOneSource(s: Text, t: Text, c: Costs, q: nat)
    requires s != [] && 0 < q <= |t|
    ensures Dist(s, t, c, 1, q) <= (q - 1) * c.insert + Min(c.replace, c.insert + c.delete)
  {
    hide Dist;
    DistAlone(s, t, c, 0, 0);
    DistPairThenGaps(s, t, c, 0, 0, 1, q);
    DistAfterGaps(s, t, c, 0, 1, 0, q);
    Distribute(q - 1, 1, c.insert);
  }

  lemma DistOfOneTarget(s: Text, t: Text, c: Costs, p: nat)
    requires t != [] && 0 < p <= |s|
    ensures Dist(s, t, c, p, 1) <= (p - 1) * c.delete + Min(c.replace, c.insert + c.delete)
  {
    hide Dist;
    DistAlone(s, t, c, 0, 0);
    DistPairThenGaps(s, t, c, 0, 0, p, 1);
    DistAfterGaps(s, t, c, 0, p, 0, 1);
    Distribute(p - 1, 1, c.delete);
  }

  /** The cheapest of the three plain endings, as the table and the recurrence both take it. */
  function Plain(s: Text, t: Text, c: Costs, i: nat, j: nat): nat
    requires 0 < i <= |s| && 0 < j <= |t|
  {
    Min(Min(Dist(s, t, c, i - 1, j) + c.delete, Dist(s, t, c, i, j - 1) + c.insert),
        Dist(s, t, c, i - 1, j - 1) + PairCost(s[i - 1], t[j - 1], c))
  }

  /**
   A crossing that starts at the first source character: reading `Dist(1, q)` where the border
   cost `q * insert` is meant changes no minimum.
   */
  lemma ClampedRowIsHarmless(s: Text, t: Text, c: Costs, i: nat, j: nat, q: nat)
    requires Supported(c)
    requires 1 < i <= |s| && 0 < q && q + 1 < j <= |t| && s[0] == t[j - 1] && t[q] == s[i - 1]
    ensures Min(Plain(s, t, c, i, j), Dist(s, t, c, 1, q) + CrossCost(i - 2, j - 2 - q, c))
         == Min(Plain(s, t, c, i, j), Dist(s, t, c, 0, q) + CrossCost(i - 2, j - 2 - q, c))
  {
    hide Dist;
    DistAlone(s, t, c, 0, q);
    DistOfOneSource(s, t, c, q);
    DistAfterGaps(s, t, c, 1, i - 1, q, q);
    DistPairThenGaps(s, t, c, i - 1, q, i, j - 1);
    Distribute(q - 1, 1, c.insert);
  }

  lemma ClampedColumnIsHarmless(s: Text, t: Text, c: Costs, i: nat, j: nat, p: nat)
    requires Supported(c)
    requires 1 < j <= |t| && 0 < p && p + 1 < i <= |s| && s[p] == t[j - 1] && t[0] == s[i - 1]
    ensures Min(Plain(s, t, c, i, j), Dist(s, t, c, p, 1) + CrossCost(i - 2 - p, j - 2, c))
         == Min(Plain(s, t, c, i, j), Dist(s, t, c, p, 0) + CrossCost(i - 2 - p, j - 2, c))
  {
    hide Dist;
    DistAlone(s, t, c, p, 0);
    DistOfOneTarget(s, t, c, p);
    DistAfterGaps(s, t, c, p, p, 1, j - 1);
    DistPairThenGaps(s, t, c, p, j - 1, i - 1, j);
    Distribute(p - 1, 1, c.delete);
  }

  /** One unfolding of an inner cell, for proofs that hide the definition. */
  lemma CellUnfolds(s: Text, t: Text, c: Costs, i: nat, j: nat)
    requires 0 < i < |s| && 0 < j < |t|
    ensures Cell(s, t, c, i, j) == InnerCell(s, t, c, i, j)
  {
    hide Min;
    hide CrossCost;
    hide PairCost;
    hide LastIndex;
    hide Times;
  }

  function InnerCell(s: Text, t: Text, c: Costs, i: nat, j: nat): nat
    requires 0 < i < |s| && 0 < j < |t|
  {
    var plain := Min(Min(Cell(s, t, c, i - 1, j) + c.delete, Cell(s, t, c, i, j - 1) + c.insert),
                     Cell(s, t, c, i - 1, j - 1) + PairCost(s[i], t[j], c));
    var p, q := LastIndex(t[j], s, i), LastIndex(s[i], t, j);
    if p < 0 || q < 0 then plain
    else if p == 0 && q == 0 then Min(plain, CrossCost(i - 1, j - 1, c))
    else Min(plain, Cell(s, t, c, Max(0, p - 1), Max(0, q - 1)) + CrossCost(i - p - 1, j - q - 1, c))
  }

  lemma BorderCell(s: Text, t: Text, c: Costs, i: nat, j: nat)
    requires i < |s| && j < |t| && (i == 0 || j == 0)
    ensures Cell(s, t, c, i, j)
         == if i == 0 && j == 0 then
              if s[0] == t[0] then 0 else Min(c.replace, c.delete + c.insert)
            else if j == 0 then
              Min(Min(Cell(s, t, c, i - 1, 0) + c.delete, Times(i + 1, c.delete) + c.insert),
                  Times(i, c.delete) + PairCost(s[i], t[0], c))
            else
              Min(Min(Times(j + 1, c.insert) + c.delete, Cell(s, t, c, 0, j - 1) + c.insert),
                  Times(j, c.insert) + PairCost(s[0], t[j], c))
  {
    hide Min;
    hide Times;
    hide PairCost;
    hide LastIndex;
  }

  lemma BorderCellsAreDist(s: Text, t: Text, c: Costs, i: nat, j: nat)
    requires i < |s| && j < |t| && (i == 0 || j == 0)
    requires i > 0 ==> Cell(s, t, c, i - 1, j) == Dist(s, t, c, i, j + 1)
    requires j > 0 ==> Cell(s, t, c, i, j - 1) == Dist(s, t, c, i + 1, j)
    ensures Cell(s, t, c, i, j) == Dist(s, t, c, i + 1, j + 1)
  {
    hide Dist;
    hide Cell;
    DistUnfolds(s, t, c, i + 1, j + 1);
    BorderCell(s, t, c, i, j);
    DistAlone(s, t, c, i, 0);
    DistAlone(s, t, c, 0, j);
    DistAlone(s, t, c, i + 1, 0);
    DistAlone(s, t, c, 0, j + 1);
    LastIndexStep(t[j], s, 1);
    LastIndexStep(s[i], t, 1);
    hide LastIndex;
  }

  lemma {:induction false} CellIsDist(s: Text, t: Text, c: Costs, i: nat, j: nat)
    requires Supported(c)
    requires i < |s| && j < |t|
    ensures Cell(s, t, c, i, j) == Dist(s, t, c, i + 1, j + 1)
    decreases i + j
  {
    hide Dist;
    hide Cell;
    if i > 0 { CellIsDist(s, t, c, i - 1, j); }
    if j > 0 { CellIsDist(s, t, c, i, j - 1); }
    if i == 0 || j == 0 {
      BorderCellsAreDist(s, t, c, i, j);
    } else {
      CellIsDist(s, t, c, i - 1, j - 1);
      DistUnfolds(s, t, c, i + 1, j + 1);
      CellUnfolds(s, t, c, i, j);
      var p, q := LastIndex(t[j], s, i), LastIndex(s[i], t, j);
      hide LastIndex;
      if p >= 0 && q >= 0 { CrossingIsDist(s, t, c, i, j, p, q); }
    }
  }

  /** Whatever the clamped read yields, the minimum with the plain endings is the right one. */
  lemma CrossingIsDist(s: Text, t: Text, c: Costs, i: nat, j: nat, p: nat, q: nat)
    requires Supported(c)
    requires p < i < |s| && q < j < |t| && s[p] == t[j] && t[q] == s[i]
    ensures var before := if p == 0 && q == 0 then 0 else Cell(s, t, c, Max(0, p - 1), Max(0, q - 1));
            Min(Plain(s, t, c, i + 1, j + 1), before + CrossCost(i - p - 1, j - q - 1, c))
            == Min(Plain(s, t, c, i + 1, j + 1), Dist(s, t, c, p, q) + CrossCost(i - p - 1, j - q - 1, c))
    decreases i + j, 0
  {
    hide Dist;
    hide Cell;
    if p == 0 && q == 0 {
      DistAlone(s, t, c, 0, 0);
    } else if p == 0 {
      CellIsDist(s, t, c, 0, q - 1);
      ClampedRowIsHarmless(s, t, c, i + 1, j + 1, q);
    } else if q == 0 {
      CellIsDist(s, t, c, p - 1, 0);
      ClampedColumnIsHarmless(s, t, c, i + 1, j + 1, p);
    } else {
      CellIsDist(s, t, c, p - 1, q - 1);
    }
  }

  lemma {:induction false} DistCoversTheLengths(s: Text, t: Text, c: Costs, i: nat, j: nat)
    requires i <= |s| && j <= |t|
    ensures j >= i ==> Dist(s, t, c, i, j) >= (j - i) * c.insert
    ensures i >= j ==> Dist(s, t, c, i, j) >= (i - j) * c.delete
    decreases i + j
  {
    hide Dist;
    if i == 0 || j == 0 {
      DistAlone(s, t, c, i, j);
      return;
    }
    var end := OptimalEnd(s, t, c, i, j);
    match end
    case Deletes =>
      DistCoversTheLengths(s, t, c, i - 1, j);
      if i > j { Distribute(i - 1 - j, 1, c.delete); } else { Distribute(j - i, 1, c.insert); }
    case Inserts =>
      DistCoversTheLengths(s, t, c, i, j - 1);
      if j > i { Distribute(j - 1 - i, 1, c.insert); } else { Distribute(i - j, 1, c.delete); }
    case Pairs =>
      DistCoversTheLengths(s, t, c, i - 1, j - 1);
    case Crosses(p, q) =>
      DistCoversTheLengths(s, t, c, p, q);
      GapsCoverTheLengths(p, i - 2, q, j - 2, c);
  }

  lemma GapsCoverTheLengths(p: nat, i: nat, q: nat, j: nat, c: Costs)
    requires p <= i && q <= j
    ensures var paid := (i - p) * c.delete + (j - q) * c.insert;
            && (j >= i && q >= p ==> (q - p) * c.insert + paid >= (j - i) * c.insert)
            && (j >= i && q < p ==> paid >= (j - i) * c.insert)
            && (i >= j && p >= q ==> (p - q) * c.delete + paid >= (i - j) * c.delete)
            && (i >= j && p < q ==> paid >= (i - j) * c.delete)
  {
  }

  // ----- strings -----

  /** The texts of two strings, as many characters as are counted; None where counting goes astray. */
  function StringDistance(source: CString, target: CString, c: Costs): Option<int> {
    var n, m := Counted(source, 0), Counted(target, 0);
    if n.None? || m.None? then None
    else Some(TableDistance(Characters(source, 0, n.value), Characters(target, 0, m.value), c))
  }

  lemma EncodedDistance(s: Text, t: Text, c: Costs)
    requires 0 !in s && 0 !in t
    ensures StringDistance(EncodeAll(s), EncodeAll(t), c) == Some(TableDistance(s, t, c))
  {
    hide TableDistance;
    EncodedIsRead(s);
    EncodedIsRead(t);
    hide EncodeAll;
    hide Counted;
    hide Characters;
  }

  lemma EncodedIsRead(s: Text)
    requires 0 !in s
    ensures Counted(EncodeAll(s), 0) == Some(|s|) && Characters(EncodeAll(s), 0, |s|) == s
  {
    var b := EncodeAll(s);
    assert b[0..] == b;
    hide EncodeAll;
    EncodedAreCounted(s, b, 0);
    DecodeEncodeAll(s, b, 0);
  }

  lemma AsciiDistance(s: Text, t: Text, c: Costs)
    requires forall k :: 0 <= k < |s| ==> 0 < s[k] < 0x80
    requires forall k :: 0 <= k < |t| ==> 0 < t[k] < 0x80
    ensures 0 !in s && 0 !in t && EncodeAll(s) == s && EncodeAll(t) == t
    ensures StringDistance(s, t, c) == Some(TableDistance(s, t, c))
  {
    AsciiIsItself(s);
    AsciiIsItself(t);
    EncodedDistance(s, t, c);
    hide *;
  }

  // ----- costs the table does not support -----

  /** "ab" to "aba": the clamped read drops the insertion. */
  lemma CheapSwapAgainstInsert(s: Text, t: Text, c: Costs)
    requires s == [97, 98] && t == [97, 98, 97]
    requires c.insert + c.delete <= 2 * c.swap && c.swap < c.insert
    ensures TableDistance(s, t, c) < Dist(s, t, c, |s|, |t|)
    ensures EncodeAll(s) == s && EncodeAll(t) == t && StringDistance(s, t, c) == Some(TableDistance(s, t, c))
  {
    hide *;
    AsciiDistance(s, t, c);
    InsertionIsDropped(s, t, c);
  }

  lemma InsertionIsDropped(s: Text, t: Text, c: Costs)
    requires s == [97, 98] && t == [97, 98, 97]
    requires c.insert + c.delete <= 2 * c.swap && c.swap < c.insert
    ensures TableDistance(s, t, c) < Dist(s, t, c, |s|, |t|)
  {
    hide Dist;
    hide Cell;
    hide LastIndex;
    LastIndexStep(t[2], s, 1);
    LastIndexStep(s[1], t, 2);
    DistCoversTheLengths(s, t, c, 2, 3);
    CellUnfolds(s, t, c, 1, 2);
    BorderCell(s, t, c, 0, 0);
  }

  lemma LastIndexStep(x: Character, s: Text, n: nat)
    requires 0 < n <= |s|
    ensures LastIndex(x, s, n) == if s[n - 1] == x then n - 1 else LastIndex(x, s, n - 1)
    ensures LastIndex(x, s, 0) == -1
  {}

  /** "aba" to "ab": the clamped read drops the deletion. */
  lemma CheapSwapAgainstDelete(s: Text, t: Text, c: Costs)
    requires s == [97, 98, 97] && t == [97, 98]
    requires c.insert + c.delete <= 2 * c.swap && c.swap < c.delete
    ensures TableDistance(s, t, c) < Dist(s, t, c, |s|, |t|)
    ensures EncodeAll(s) == s && EncodeAll(t) == t && StringDistance(s, t, c) == Some(TableDistance(s, t, c))
  {
    hide *;
    AsciiDistance(s, t, c);
    DeletionIsDropped(s, t, c);
  }

  lemma DeletionIsDropped(s: Text, t: Text, c: Costs)
    requires s == [97, 98, 97] && t == [97, 98]
    requires c.insert + c.delete <= 2 * c.swap && c.swap < c.delete
    ensures TableDistance(s, t, c) < Dist(s, t, c, |s|, |t|)
  {
    hide Dist;
    hide Cell;
    hide LastIndex;
    LastIndexStep(t[1], s, 2);
    LastIndexStep(s[2], t, 1);
    DistCoversTheLengths(s, t, c, 3, 2);
    CellUnfolds(s, t, c, 2, 1);
    BorderCell(s, t, c, 0, 0);
  }

  /** "ab" to "xba": the clamped read charges a replacement where one insertion is enough. */
  lemma CheapSwapAgainstReplace(s: Text, t: Text, c: Costs)
    requires s == [97, 98] && t == [120, 98, 97]
    requires c.insert <= c.swap && c.delete <= c.swap && c.swap < Min(c.replace, c.insert + c.delete)
    ensures TableDistance(s, t, c) > Dist(s, t, c, |s|, |t|)
    ensures EncodeAll(s) == s && EncodeAll(t) == t && StringDistance(s, t, c) == Some(TableDistance(s, t, c))
  {
    hide *;
    AsciiDistance(s, t, c);
    ReplacementIsCharged(s, t, c);
  }

  lemma ReplacementIsCharged(s: Text, t: Text, c: Costs)
    requires s == [97, 98] && t == [120, 98, 97]
    requires c.insert <= c.swap && c.delete <= c.swap && c.swap < Min(c.replace, c.insert + c.delete)
    ensures TableDistance(s, t, c) > Dist(s, t, c, |s|, |t|)
  {
    hide Dist;
    hide Cell;
    hide LastIndex;
    DistAlone(s, t, c, 0, 1);
    DistAfterCross(s, t, c, 2, 3, 0, 1);
    LastIndexStep(t[2], s, 1);
    LastIndexStep(s[1], t, 2);
    ReplaceCellsAreDear(s, t, c);
    CellUnfolds(s, t, c, 1, 2);
  }

  /** The cells the last cell of "ab" to "xba" is computed from. */
  lemma ReplaceCellsAreDear(s: Text, t: Text, c: Costs)
    requires s == [97, 98] && t == [120, 98, 97]
    ensures var e := Min(c.replace, c.insert + c.delete);
            && Cell(s, t, c, 0, 0) >= e
            && Cell(s, t, c, 1, 1) >= e
            && Cell(s, t, c, 0, 1) >= c.insert + e
            && Cell(s, t, c, 0, 2) >= 2 * c.insert
  {
    hide Cell;
    hide LastIndex;
    LastIndexStep(t[1], s, 1);
    BorderCell(s, t, c, 0, 0);
    BorderCell(s, t, c, 0, 1);
    BorderCell(s, t, c, 0, 2);
    BorderCell(s, t, c, 1, 0);
    CellUnfolds(s, t, c, 1, 1);
  }

  /** What is returned for two encoded texts is their edit distance. */
  ghost predicate IsRight(s: Text, t: Text, c: Costs)
    requires 0 !in s && 0 !in t
  {
    var d := StringDistance(EncodeAll(s), EncodeAll(t), c);
    d.Some? && IsEditDistance(d.value, s, t, c)
  }

  lemma RightIs(s: Text, t: Text, c: Costs)
    requires 0 !in s && 0 !in t
    ensures IsRight(s, t, c) <==> IsEditDistance(TableDistance(s, t, c), s, t, c)
  {
    EncodedDistance(s, t, c);
    hide StringDistance;
    hide TableDistance;
  }

  /**
   The table holds the edit distance of all texts exactly for the supported costs. The check the
   program makes, that two swaps cost at least an insertion and a deletion, is not enough.
   */
  lemma TableIsEditDistanceExactlyWhen(c: Costs)
    ensures Supported(c) <==> forall s, t :: 0 !in s && 0 !in t ==> IsRight(s, t, c)
  {
    hide Dist;
    hide TableDistance;
    hide IsRight;
    if Supported(c) {
      forall s, t | 0 !in s && 0 !in t ensures IsRight(s, t, c) {
        RightIs(s, t, c);
        TableIsRight(s, t, c);
      }
    } else {
      var s, t := UnsupportedTexts(c);
      RightIs(s, t, c);
      if IsEditDistance(TableDistance(s, t, c), s, t, c) {
        if c.insert + c.delete <= 2 * c.swap {
          DistIsEditDistance(s, t, c);
          EditDistanceIsUnique(TableDistance(s, t, c), Dist(s, t, c, |s|, |t|), s, t, c);
        }
      }
    }
  }

  lemma TableIsDist(s: Text, t: Text, c: Costs)
    requires Supported(c)
    ensures TableDistance(s, t, c) == Dist(s, t, c, |s|, |t|)
  {
    hide Dist;
    hide Cell;
    if s == [] || t == [] {
      DistAlone(s, t, c, |s|, |t|);
    } else {
      CellIsDist(s, t, c, |s| - 1, |t| - 1);
    }
  }

  lemma TableIsRight(s: Text, t: Text, c: Costs)
    requires Supported(c)
    ensures IsEditDistance(TableDistance(s, t, c), s, t, c)
  {
    TableIsDist(s, t, c);
    DistIsEditDistance(s, t, c);
    hide *;
  }

  /** Texts on which the table goes wrong. */
  lemma UnsupportedTexts(c: Costs) returns (s: Text, t: Text)
    requires !Supported(c)
    ensures 0 !in s && 0 !in t
    ensures c.insert + c.delete <= 2 * c.swap ==> TableDistance(s, t, c) != Dist(s, t, c, |s|, |t|)
    ensures 2 * c.swap < c.insert + c.delete ==> TableDistance(s, t, c) == -1
  {
    hide Dist;
    hide Cell;
    if 2 * c.swap < c.insert + c.delete {
      s, t := [], [];
    } else if c.swap < c.insert {
      s, t := [97, 98], [97, 98, 97];
      CheapSwapAgainstInsert(s, t, c);
    } else if c.swap < c.delete {
      s, t := [97, 98, 97], [97, 98];
      CheapSwapAgainstDelete(s, t, c);
    } else {
      s, t := [97, 98], [120, 98, 97];
      CheapSwapAgainstReplace(s, t, c);
    }
  }

  // ----- the program -----

  /** No intermediate sum leaves 32 bits. */
  predicate FitsInt(n: nat, m: nat, c: Costs) {
    Times(n + 1, c.delete) + Times(m + 1, c.insert) + c.replace + 2 * c.swap <= INT_MAX
  }

  predicate CountsFit(n: Option<nat>, m: Option<nat>, c: Costs) {
    n.Some? && m.Some? ==> FitsInt(n.value, m.value, c) && n.value <= INT_MAX && m.value <= INT_MAX
  }

  lemma {:induction false} CellBound(s: Text, t: Text, c: Costs, i: nat, j: nat)
    requires i < |s| && j < |t|
    ensures Cell(s, t, c, i, j) <= Times(i + 1, c.delete) + Times(j + 1, c.insert)
    decreases i + j
  {
    hide Cell;
    if i == 0 || j == 0 {
      BorderCell(s, t, c, i, j);
    } else {
      CellBound(s, t, c, i - 1, j);
      CellUnfolds(s, t, c, i, j);
      Distribute(i, 1, c.delete);
    }
  }

  lemma TimesGrows(a: nat, b: nat, each: nat)
    requires a <= b
    ensures Times(a, each) <= Times(b, each)
  {
    Distribute(a, b - a, each);
  }

  /** Where cell (`i`, `j`) lies in the flat table of rows of length `n`. */
  function Index(i: nat, j: nat, n: nat): nat { i + j * n }

  lemma IndexInRange(i: nat, j: nat, n: nat, m: nat)
    requires i < n && j < m
    ensures Index(i, j, n) < n * m
  {
    Distribute(j, 1, n);
    Distribute(j + 1, m - j - 1, n);
  }

  lemma IndexInjective(i: nat, j: nat, a: nat, b: nat, n: nat)
    requires i < n && a < n && Index(i, j, n) == Index(a, b, n)
    ensures i == a && j == b
  {
    if j < b { Distribute(j, b - j, n); Distribute(1, b - j - 1, n); }
    if b < j { Distribute(b, j - b, n); Distribute(1, j - b - 1, n); }
  }

  /** Cell (`a`, `b`) has its final value. */
  ghost predicate Filled(table: seq<int32>, s: Text, t: Text, c: Costs, a: nat, b: nat)
    requires |table| == |s| * |t|
  {
    a < |s| && b < |t| ==>
      Index(a, b, |s|) < |table| && table[Index(a, b, |s|)] == Cell(s, t, c, a, b)
  }

  lemma FillKeepsOthers(table: seq<int32>, s: Text, t: Text, c: Costs, i: nat, j: nat, cost: int32)
    requires i < |s| && j < |t| && |table| == |s| * |t| && Index(i, j, |s|) < |table|
    requires cost == Cell(s, t, c, i, j)
    ensures var written := table[Index(i, j, |s|) := cost];
            && Filled(written, s, t, c, i, j)
            && forall a: nat, b: nat :: Filled(table, s, t, c, a, b) ==> Filled(written, s, t, c, a, b)
  {
    hide Cell;
    var written := table[Index(i, j, |s|) := cost];
    forall a: nat, b: nat | Filled(table, s, t, c, a, b) ensures Filled(written, s, t, c, a, b) {
      if a < |s| && b < |t| && Index(a, b, |s|) == Index(i, j, |s|) { IndexInjective(i, j, a, b, |s|); }
    }
  }

  method Fill(table: array<int32>, ghost s: Text, ghost t: Text, ghost c: Costs, n: nat, i: nat, j: nat, cost: int32)
    requires n == |s| && i < n && j < |t| && table.Length == n * |t| && cost == Cell(s, t, c, i, j)
    modifies table
    ensures Filled(table[..], s, t, c, i, j)
    ensures forall a: nat, b: nat :: Filled(old(table[..]), s, t, c, a, b) ==> Filled(table[..], s, t, c, a, b)
  {
    IndexInRange(i, j, n, |t|);
    FillKeepsOthers(table[..], s, t, c, i, j, cost);
    ghost var before := table[..];
    table[i + j * n] := cost;
    assert table[..] == before[Index(i, j, n) := cost];
  }

  method Read(table: array<int32>, ghost s: Text, ghost t: Text, ghost c: Costs, n: nat, i: nat, j: nat) returns (cost: int32)
    requires n == |s| && i < n && j < |t| && table.Length == n * |t| && Filled(table[..], s, t, c, i, j)
    ensures cost == Cell(s, t, c, i, j)
  {
    IndexInRange(i, j, n, |t|);
    cost := table[i + j * n];
  }

  type CharacterMap = map<Character, int32>

  function InsertPair(m: CharacterMap, key: Character, value: int32): CharacterMap { m[key := value] }

  function GetValue(m: CharacterMap, key: Character): int32 { if key in m then m[key] else -1 }

  /** The map holds the last index of every character among the first `n`. */
  ghost predicate LastIndices(m: CharacterMap, s: Text, n: nat)
    requires n <= |s|
  {
    forall x: Character :: GetValue(m, x) == LastIndex(x, s, n)
  }

  lemma LastIndicesStep(m: CharacterMap, s: Text, n: nat)
    requires n < |s| && n <= INT_MAX && LastIndices(m, s, n)
    ensures LastIndices(InsertPair(m, s[n], n), s, n + 1)
  {
    forall x: Character ensures GetValue(InsertPair(m, s[n], n), x) == LastIndex(x, s, n + 1) {
      LastIndexStep(x, s, n + 1);
    }
  }

  lemma NoLastIndices(s: Text)
    ensures LastIndices(map[], s, 0)
  {}

  /** The cells the loops have filled when they reach (`i`, `j`), the borders included. */
  ghost predicate Ready(table: seq<int32>, s: Text, t: Text, c: Costs, i: nat, j: nat)
    requires |table| == |s| * |t|
  {
    forall a: nat, b: nat :: a < i || b == 0 || a == 0 || (a == i && b < j) ==> Filled(table, s, t, c, a, b)
  }

  /** Four candidates and their minimum, for an inner cell. */
  method InnerCost(table: array<int32>, ghost s: Text, ghost t: Text, c: Costs, n: nat, m: nat, i: nat, j: nat,
                   sourceChar: Character, targetChar: Character, candidateSwapIndex: int32, jSwap: int32)
    returns (cost: int32)
    requires n == |s| && m == |t| && 0 < i < n && 0 < j < m && table.Length == n * m && FitsInt(n, m, c)
    requires Ready(table[..], s, t, c, i, j)
    requires sourceChar == s[i] && targetChar == t[j]
    requires candidateSwapIndex == LastIndex(t[j], s, i) && jSwap == LastIndex(s[i], t, j)
    ensures cost == Cell(s, t, c, i, j)
  {
    hide Cell;
    hide LastIndex;
    CellUnfolds(s, t, c, i, j);
    CellBound(s, t, c, i, j);
    var deleteDistance := Read(table, s, t, c, n, i - 1, j);
    var insertDistance := Read(table, s, t, c, n, i, j - 1);
    var matchDistance := Read(table, s, t, c, n, i - 1, j - 1);
    PlainSumsFit(s, t, c, i, j);
    deleteDistance := deleteDistance + c.delete;
    insertDistance := insertDistance + c.insert;
    if sourceChar != targetChar { matchDistance := matchDistance + c.replace; }
    var swapDistance: int32;
    if candidateSwapIndex != -1 && jSwap != -1 {
      var iSwap := candidateSwapIndex;
      var preSwapCost: int32 := 0;
      if !(iSwap == 0 && jSwap == 0) {
        preSwapCost := Read(table, s, t, c, n, Max(0, iSwap - 1), Max(0, jSwap - 1));
      }
      SwapSumFits(s, t, c, i, j, iSwap, jSwap);
      swapDistance := preSwapCost + (i - iSwap - 1) * c.delete + (j - jSwap - 1) * c.insert + c.swap;
    } else {
      swapDistance := INT_MAX;
    }
    cost := Min(Min(Min(deleteDistance, insertDistance), matchDistance), swapDistance);
  }

  lemma PlainSumsFit(s: Text, t: Text, c: Costs, i: nat, j: nat)
    requires 0 < i < |s| && 0 < j < |t| && FitsInt(|s|, |t|, c)
    ensures Cell(s, t, c, i - 1, j) + c.delete <= INT_MAX
    ensures Cell(s, t, c, i, j - 1) + c.insert <= INT_MAX
    ensures Cell(s, t, c, i - 1, j - 1) + c.replace <= INT_MAX
  {
    hide Cell;
    CellBound(s, t, c, i - 1, j);
    CellBound(s, t, c, i, j - 1);
    CellBound(s, t, c, i - 1, j - 1);
    TimesGrows(i, |s|, c.delete);
    TimesGrows(i + 1, |s|, c.delete);
    TimesGrows(j, |t|, c.insert);
    TimesGrows(j + 1, |t|, c.insert);
    Distribute(|s|, 1, c.delete);
    Distribute(|t|, 1, c.insert);
  }

  lemma SwapSumFits(s: Text, t: Text, c: Costs, i: nat, j: nat, p: nat, q: nat)
    requires p < i < |s| && q < j < |t| && FitsInt(|s|, |t|, c)
    ensures CrossCost(i - p - 1, j - q - 1, c) <= INT_MAX
    ensures Cell(s, t, c, Max(0, p - 1), Max(0, q - 1)) + CrossCost(i - p - 1, j - q - 1, c) <= INT_MAX
  {
    hide Cell;
    var a, b := Max(0, p - 1), Max(0, q - 1);
    CellBound(s, t, c, a, b);
    Distribute(a + 1, i - p - 1, c.delete);
    Distribute(b + 1, j - q - 1, c.insert);
    TimesGrows(a + 1 + (i - p - 1), |s| + 1, c.delete);
    TimesGrows(b + 1 + (j - q - 1), |t| + 1, c.insert);
  }

  method DamerauLevenshteinWithSize(source: CString, sourceLen: nat, target: CString, targetLen: nat, c: Costs)
    returns (distance: int32)
    requires FitsInt(sourceLen, targetLen, c) && sourceLen <= INT_MAX && targetLen <= INT_MAX
    ensures var s, t := Characters(source, 0, sourceLen), Characters(target, 0, targetLen);
            && distance == TableDistance(s, t, c)
            && (Supported(c) ==> IsEditDistance(distance, s, t, c))
  {
    hide Cell;
    hide LastIndex;
    hide Characters;
    hide Step;
    hide After;
    ghost var s, t := Characters(source, 0, sourceLen), Characters(target, 0, targetLen);
    if Supported(c) { TableIsRight(s, t, c); }
    hide Supported;
    hide IsEditDistance;
    if 2 * c.swap < c.insert + c.delete { return -1; }
    if sourceLen == 0 {
      TimesGrows(targetLen, targetLen + 1, c.insert);
      return targetLen * c.insert;
    }
    if targetLen == 0 {
      TimesGrows(sourceLen, sourceLen + 1, c.delete);
      return sourceLen * c.delete;
    }
    var table := new int32[sourceLen * targetLen](_ => 0);
    FillTable(source, sourceLen, target, targetLen, c, table, s, t);
    distance := Read(table, s, t, c, sourceLen, sourceLen - 1, targetLen - 1);
  }

  /** The characters of both strings are counted first, however the strings are encoded. */
  method DamerauLevenshtein(source: CString, target: CString, c: Costs) returns (distance: Option<int>)
    requires CountsFit(Counted(source, 0), Counted(target, 0), c)
    ensures distance == StringDistance(source, target, c)
    ensures Supported(c) ==> forall s, t :: 0 !in s && 0 !in t && source == EncodeAll(s) && target == EncodeAll(t) ==>
              distance.Some? && IsEditDistance(distance.value, s, t, c)
  {
    hide TableDistance;
    var n := Strlen(source);
    var m := Strlen(target);
    if Supported(c) { StringsAreRight(source, target, c); }
    hide IsEditDistance;
    hide Supported;
    hide EncodeAll;
    hide Counted;
    hide Characters;
    if n.None? || m.None? { return None; }
    var d := DamerauLevenshteinWithSize(source, n.value, target, m.value, c);
    distance := Some(d);
  }

  lemma StringsAreRight(source: CString, target: CString, c: Costs)
    requires Supported(c)
    ensures forall s, t :: 0 !in s && 0 !in t && source == EncodeAll(s) && target == EncodeAll(t) ==>
              StringDistance(source, target, c).Some? && IsEditDistance(StringDistance(source, target, c).value, s, t, c)
  {
    hide *;
    forall s, t | 0 !in s && 0 !in t && source == EncodeAll(s) && target == EncodeAll(t)
      ensures StringDistance(source, target, c).Some? && IsEditDistance(StringDistance(source, target, c).value, s, t, c)
    {
      EncodedDistance(s, t, c);
      TableIsRight(s, t, c);
    }
  }

  lemma BorderSumsFit(s: Text, t: Text, c: Costs, i: nat, j: nat)
    requires i < |s| && j < |t| && FitsInt(|s|, |t|, c)
    ensures Times(i + 1, c.delete) + c.insert <= INT_MAX && Times(i, c.delete) + c.replace <= INT_MAX
    ensures Times(j + 1, c.insert) + c.delete <= INT_MAX && Times(j, c.insert) + c.replace <= INT_MAX
    ensures c.delete + c.insert <= INT_MAX
    ensures i > 0 ==> Cell(s, t, c, i - 1, j) + c.delete <= INT_MAX
    ensures j > 0 ==> Cell(s, t, c, i, j - 1) + c.insert <= INT_MAX
  {
    hide Cell;
    if i > 0 { CellBound(s, t, c, i - 1, j); }
    if j > 0 { CellBound(s, t, c, i, j - 1); }
    TimesGrows(i + 1, |s|, c.delete);
    TimesGrows(j + 1, |t|, c.insert);
    TimesGrows(1, |s|, c.delete);
    Distribute(i, 1, c.delete);
    Distribute(j, 1, c.insert);
    Distribute(|s|, 1, c.delete);
    Distribute(|t|, 1, c.insert);
  }

  /** The corner cell and the cells of the first target character. */
  method FirstColumn(source: CString, sourceIndex1: nat, n: nat, sourceChar0: Character, targetChar0: Character, c: Costs,
                     table: array<int32>, ghost s: Text, ghost t: Text)
    requires 0 < n && t != [] && FitsInt(n, |t|, c) && table.Length == n * |t|
    requires |s| == n && s == Characters(source, 0, n) && sourceIndex1 == After(source, 0, 1)
    requires sourceChar0 == s[0] && targetChar0 == t[0]
    modifies table
    ensures forall a: nat :: a < n ==> Filled(table[..], s, t, c, a, 0)
  {
    hide Cell;
    hide Characters;
    hide Step;
    hide After;
    BorderSumsFit(s, t, c, 0, 0);
    BorderCell(s, t, c, 0, 0);
    var corner: int32 := 0;
    if sourceChar0 != targetChar0 { corner := Min(c.replace, c.delete + c.insert); }
    Fill(table, s, t, c, n, 0, 0, corner);
    var pos := sourceIndex1;
    for i := 1 to n
      invariant pos == After(source, 0, i)
      invariant forall a: nat :: a < i ==> Filled(table[..], s, t, c, a, 0)
    {
      BorderSumsFit(s, t, c, i, 0);
      BorderCell(s, t, c, i, 0);
      var sourceChar;
      sourceChar, pos := ReadCharacter(source, pos, s, i);
      var deleteDistance: int32 := Read(table, s, t, c, n, i - 1, 0);
      deleteDistance := deleteDistance + c.delete;
      var insertDistance: int32 := (i + 1) * c.delete + c.insert;
      var matchDistance: int32 := i * c.delete + (if sourceChar == targetChar0 then 0 else c.replace);
      Fill(table, s, t, c, n, i, 0, Min(Min(deleteDistance, insertDistance), matchDistance));
    }
  }

  /** The cells of the first source character. */
  method FirstRow(target: CString, targetIndex1: nat, m: nat, n: nat, sourceChar0: Character, targetChar0: Character,
                  c: Costs, table: array<int32>, ghost s: Text, ghost t: Text)
    requires 0 < n && 0 < m && FitsInt(n, m, c) && table.Length == n * m && |s| == n
    requires |t| == m && t == Characters(target, 0, m) && targetIndex1 == After(target, 0, 1)
    requires sourceChar0 == s[0] && targetChar0 == t[0]
    requires forall a: nat :: a < n ==> Filled(table[..], s, t, c, a, 0)
    modifies table
    ensures Ready(table[..], s, t, c, 1, 0)
  {
    hide Cell;
    hide Characters;
    hide Step;
    hide After;
    var pos := targetIndex1;
    for j := 1 to m
      invariant pos == After(target, 0, j)
      invariant forall a: nat :: a < n ==> Filled(table[..], s, t, c, a, 0)
      invariant forall b: nat :: b < j ==> Filled(table[..], s, t, c, 0, b)
    {
      BorderSumsFit(s, t, c, 0, j);
      BorderCell(s, t, c, 0, j);
      var targetChar;
      targetChar, pos := ReadCharacter(target, pos, t, j);
      var deleteDistance: int32 := (j + 1) * c.insert + c.delete;
      var insertDistance: int32 := Read(table, s, t, c, n, 0, j - 1);
      insertDistance := insertDistance + c.insert;
      var matchDistance: int32 := j * c.insert + (if sourceChar0 == targetChar then 0 else c.replace);
      Fill(table, s, t, c, n, 0, j, Min(Min(deleteDistance, insertDistance), matchDistance));
    }
  }

  method FillTable(source: CString, n: nat, target: CString, m: nat, c: Costs, table: array<int32>, ghost s: Text, ghost t: Text)
    requires 0 < n <= INT_MAX && 0 < m <= INT_MAX && FitsInt(n, m, c) && table.Length == n * m
    requires s == Characters(source, 0, n) && t == Characters(target, 0, m)
    modifies table
    ensures Ready(table[..], s, t, c, n, 0)
  {
    hide Cell;
    hide LastIndex;
    hide Characters;
    hide Step;
    var sourceChar0, sourceIndex1 := ReadCharacter(source, 0, s, 0);
    var targetChar0, targetIndex1 := ReadCharacter(target, 0, t, 0);
    FirstColumn(source, sourceIndex1, n, sourceChar0, targetChar0, c, table, s, t);
    FirstRow(target, targetIndex1, m, n, sourceChar0, targetChar0, c, table, s, t);
    NoLastIndices(s);
    LastIndicesStep(map[], s, 0);
    var sourceIndexByCharacter: CharacterMap := InsertPair(map[], sourceChar0, 0);
    var sourcePos := sourceIndex1;
    for i := 1 to n
      invariant sourcePos == After(source, 0, i)
      invariant LastIndices(sourceIndexByCharacter, s, i)
      invariant Ready(table[..], s, t, c, i, 0)
    {
      var sourceChar;
      sourceChar, sourcePos := ReadCharacter(source, sourcePos, s, i);
      var maxSourceLetterMatchIndex: int32 := if sourceChar == targetChar0 then 0 else -1;
      LastIndexStep(sourceChar, t, 1);
      var targetPos := targetIndex1;
      for j := 1 to m
        invariant targetPos == After(target, 0, j)
        invariant maxSourceLetterMatchIndex == LastIndex(sourceChar, t, j)
        invariant Ready(table[..], s, t, c, i, j)
      {
        var targetChar;
        targetChar, targetPos := ReadCharacter(target, targetPos, t, j);
        var cost := InnerCost(table, s, t, c, n, m, i, j, sourceChar, targetChar,
                              GetValue(sourceIndexByCharacter, targetChar), maxSourceLetterMatchIndex);
        LastIndexStep(sourceChar, t, j + 1);
        if sourceChar == targetChar { maxSourceLetterMatchIndex := j; }
        Fill(table, s, t, c, n, i, j, cost);
      }
      LastIndicesStep(sourceIndexByCharacter, s, i);
      sourceIndexByCharacter := InsertPair(sourceIndexByCharacter, sourceChar, i);
    }
  }
}
