/**
 The recurrence behind the Damerau-Levenshtein table, and the proof that it is the edit distance:
 the least cost of any sequence of insertions, deletions, replacements and swaps of neighbours.
 */
module EditDistance {
  import opened EditScripts

  /** The last index below `n` where `c` stands in `s`, or -1. */
  function LastIndex(c: Character, s: Text, n: nat): (k: int)
    requires n <= |s|
    ensures -1 <= k < n
    ensures k >= 0 ==> s[k] == c
  {
    if n == 0 then -1 else if s[n - 1] == c then n - 1 else LastIndex(c, s, n - 1)
  }

  lemma {:induction false} LastIndexIsLast(c: Character, s: Text, n: nat, m: nat)
    requires m < n <= |s| && s[m] == c
    ensures m <= LastIndex(c, s, n)
  {
    if s[n - 1] != c { LastIndexIsLast(c, s, n - 1, m); }
  }

  function Min(a: int, b: int): int { if a < b then a else b }

  function PairCost(a: Character, b: Character, c: Costs): nat {
    if a == b then 0 else c.replace
  }

  /** What is deleted and inserted between the two ends of a crossing pair, plus the swap itself. */
  function CrossCost(gapSource: nat, gapTarget: nat, c: Costs): nat {
    gapSource * c.delete + gapTarget * c.insert + c.swap
  }

  /** Distance between the first `i` characters of `s` and the first `j` of `t`. */
  function Dist(s: Text, t: Text, c: Costs, i: nat, j: nat): nat
    requires i <= |s| && j <= |t|
    decreases i + j
  {
    if i == 0 then j * c.insert
    else if j == 0 then i * c.delete
    else
      var plain := Min(Min(Dist(s, t, c, i - 1, j) + c.delete, Dist(s, t, c, i, j - 1) + c.insert),
                       Dist(s, t, c, i - 1, j - 1) + PairCost(s[i - 1], t[j - 1], c));
      var p, q := LastIndex(t[j - 1], s, i - 1), LastIndex(s[i - 1], t, j - 1);
      if p < 0 || q < 0 then plain
      else Min(plain, Dist(s, t, c, p, q) + CrossCost(i - 2 - p, j - 2 - q, c))
  }

  /** One unfolding of `Dist`, for proofs that hide its definition. */
  lemma DistUnfolds(s: Text, t: Text, c: Costs, i: nat, j: nat)
    requires 0 < i <= |s| && 0 < j <= |t|
    ensures var plain := Min(Min(Dist(s, t, c, i - 1, j) + c.delete, Dist(s, t, c, i, j - 1) + c.insert),
                             Dist(s, t, c, i - 1, j - 1) + PairCost(s[i - 1], t[j - 1], c));
            var p, q := LastIndex(t[j - 1], s, i - 1), LastIndex(s[i - 1], t, j - 1);
            Dist(s, t, c, i, j) == if p < 0 || q < 0 then plain
                                   else Min(plain, Dist(s, t, c, p, q) + CrossCost(i - 2 - p, j - 2 - q, c))
  {
    hide Min;
    hide CrossCost;
    hide PairCost;
    hide LastIndex;
  }

  lemma DistAlone(s: Text, t: Text, c: Costs, i: nat, j: nat)
    requires i <= |s| && j <= |t| && (i == 0 || j == 0)
    ensures Dist(s, t, c, i, j) == i * c.delete + j * c.insert
  {}

  // ----- upper bounds: every way of ending is allowed -----

  lemma Distribute(a: nat, b: nat, each: nat)
    ensures (a + b) * each == a * each + b * each
  {}

  lemma DistAfterDelete(s: Text, t: Text, c: Costs, i: nat, j: nat)
    requires 0 < i <= |s| && j <= |t|
    ensures Dist(s, t, c, i, j) <= Dist(s, t, c, i - 1, j) + c.delete
  {
    if j == 0 { Distribute(i - 1, 1, c.delete); }
  }

  lemma DistAfterInsert(s: Text, t: Text, c: Costs, i: nat, j: nat)
    requires i <= |s| && 0 < j <= |t|
    ensures Dist(s, t, c, i, j) <= Dist(s, t, c, i, j - 1) + c.insert
  {
    if i == 0 { Distribute(j - 1, 1, c.insert); }
  }

  lemma DistAfterPair(s: Text, t: Text, c: Costs, i: nat, j: nat)
    requires 0 < i <= |s| && 0 < j <= |t|
    ensures Dist(s, t, c, i, j) <= Dist(s, t, c, i - 1, j - 1) + PairCost(s[i - 1], t[j - 1], c)
  {}

  lemma {:induction false} DistAfterGaps(s: Text, t: Text, c: Costs, i0: nat, i: nat, j0: nat, j: nat)
    requires i0 <= i <= |s| && j0 <= j <= |t|
    ensures Dist(s, t, c, i, j) <= Dist(s, t, c, i0, j0) + (i - i0) * c.delete + (j - j0) * c.insert
    decreases i + j
  {
    hide Dist;
    if i0 < i {
      DistAfterGaps(s, t, c, i0, i - 1, j0, j);
      DistAfterDelete(s, t, c, i, j);
      Distribute(i - 1 - i0, 1, c.delete);
    } else if j0 < j {
      DistAfterGaps(s, t, c, i0, i, j0, j - 1);
      DistAfterInsert(s, t, c, i, j);
      Distribute(j - 1 - j0, 1, c.insert);
    }
  }

  lemma DistAfterLastCross(s: Text, t: Text, c: Costs, i: nat, j: nat)
    requires 0 < i <= |s| && 0 < j <= |t|
    ensures var p, q := LastIndex(t[j - 1], s, i - 1), LastIndex(s[i - 1], t, j - 1);
            p >= 0 && q >= 0 ==> Dist(s, t, c, i, j) <= Dist(s, t, c, p, q) + CrossCost(i - 2 - p, j - 2 - q, c)
  {}

  /** Looking only at the last crossing pair loses nothing: any earlier one costs at least as much. */
  lemma DistAfterCross(s: Text, t: Text, c: Costs, i: nat, j: nat, p: nat, q: nat)
    requires p + 1 < i <= |s| && q + 1 < j <= |t|
    requires s[p] == t[j - 1] && t[q] == s[i - 1]
    ensures Dist(s, t, c, i, j) <= Dist(s, t, c, p, q) + CrossCost(i - 2 - p, j - 2 - q, c)
  {
    hide Dist;
    var p', q' := LastIndex(t[j - 1], s, i - 1), LastIndex(s[i - 1], t, j - 1);
    LastIndexIsLast(t[j - 1], s, i - 1, p);
    LastIndexIsLast(s[i - 1], t, j - 1, q);
    DistAfterLastCross(s, t, c, i, j);
    DistAfterGaps(s, t, c, p, p', q, q');
    Distribute(i - 2 - p', p' - p, c.delete);
    Distribute(j - 2 - q', q' - q, c.insert);
  }

  /** Pair `s[a]` with `t[b]`, then delete and insert up to `i` and `j`. */
  lemma DistPairThenGaps(s: Text, t: Text, c: Costs, a: nat, b: nat, i: nat, j: nat)
    requires a < i <= |s| && b < j <= |t|
    ensures Dist(s, t, c, i, j) <= Dist(s, t, c, a, b) + PairCost(s[a], t[b], c)
                                   + (i - a - 1) * c.delete + (j - b - 1) * c.insert
  {
    hide Dist;
    DistAfterPair(s, t, c, a + 1, b + 1);
    DistAfterGaps(s, t, c, a + 1, i, b + 1, j);
  }

  /** Giving up a crossing by keeping one of its two matches. */
  lemma DistUncrossed(s: Text, t: Text, c: Costs, i: nat, j: nat, p: nat, q: nat)
    requires p + 1 < i <= |s| && q + 1 < j <= |t|
    requires s[p] == t[j - 1] || t[q] == s[i - 1]
    ensures Dist(s, t, c, i, j)
         <= Dist(s, t, c, p, q) + (i - 2 - p) * c.delete + (j - 2 - q) * c.insert + c.delete + c.insert
  {
    hide Dist;
    if s[p] == t[j - 1] {
      DistAfterGaps(s, t, c, p, p, q, j - 1);
      DistPairThenGaps(s, t, c, p, j - 1, i, j);
    } else {
      DistAfterGaps(s, t, c, p, i - 1, q, q);
      DistPairThenGaps(s, t, c, i - 1, q, i, j);
    }
    Distribute(i - 2 - p, 1, c.delete);
    Distribute(j - 2 - q, 1, c.insert);
  }

  /** Giving up a crossing by pairing its ends in order, as two replacements at worst. */
  lemma DistStraightened(s: Text, t: Text, c: Costs, i: nat, j: nat, p: nat, q: nat)
    requires p + 1 < i <= |s| && q + 1 < j <= |t|
    ensures Dist(s, t, c, i, j) <= Dist(s, t, c, p, q) + (i - 2 - p) * c.delete + (j - 2 - q) * c.insert
                                   + PairCost(s[p], t[q], c) + PairCost(s[i - 1], t[j - 1], c)
  {
    hide Dist;
    DistPairThenGaps(s, t, c, p, q, i - 1, j - 1);
    DistAfterPair(s, t, c, i, j);
  }

  /** How an optimal edit of non-empty prefixes ends. */
  datatype End = Deletes | Inserts | Pairs | Crosses(p: nat, q: nat)

  predicate EndsWith(s: Text, t: Text, c: Costs, i: nat, j: nat, end: End)
    requires 0 < i <= |s| && 0 < j <= |t|
  {
    match end
    case Deletes => Dist(s, t, c, i, j) == Dist(s, t, c, i - 1, j) + c.delete
    case Inserts => Dist(s, t, c, i, j) == Dist(s, t, c, i, j - 1) + c.insert
    case Pairs => Dist(s, t, c, i, j) == Dist(s, t, c, i - 1, j - 1) + PairCost(s[i - 1], t[j - 1], c)
    case Crosses(p, q) =>
      && p + 1 < i && q + 1 < j && s[p] == t[j - 1] && t[q] == s[i - 1]
      && Dist(s, t, c, i, j) == Dist(s, t, c, p, q) + CrossCost(i - 2 - p, j - 2 - q, c)
  }

  lemma OptimalEnd(s: Text, t: Text, c: Costs, i: nat, j: nat) returns (end: End)
    requires 0 < i <= |s| && 0 < j <= |t|
    ensures EndsWith(s, t, c, i, j, end)
  {
    var p, q := LastIndex(t[j - 1], s, i - 1), LastIndex(s[i - 1], t, j - 1);
    end := if EndsWith(s, t, c, i, j, Deletes) then Deletes
           else if EndsWith(s, t, c, i, j, Inserts) then Inserts
           else if p < 0 || q < 0 || EndsWith(s, t, c, i, j, Pairs) then Pairs
           else Crosses(p, q);
  }

  lemma {:induction false} LastIndexLocal(x: Character, s: Text, s': Text, n: nat)
    requires n <= |s| && n <= |s'| && forall k :: 0 <= k < n ==> s[k] == s'[k]
    ensures LastIndex(x, s, n) == LastIndex(x, s', n)
  {
    if n > 0 { LastIndexLocal(x, s, s', n - 1); }
  }

  /** Only the prefixes count. */
  lemma {:induction false} DistLocal(s: Text, s': Text, t: Text, c: Costs, i: nat, j: nat)
    requires i <= |s| && i <= |s'| && j <= |t|
    requires forall k :: 0 <= k < i ==> s[k] == s'[k]
    ensures Dist(s, t, c, i, j) == Dist(s', t, c, i, j)
    decreases i + j
  {
    hide Dist;
    hide Min;
    hide CrossCost;
    if i == 0 || j == 0 {
      DistAlone(s, t, c, i, j);
      DistAlone(s', t, c, i, j);
    } else {
      DistUnfolds(s, t, c, i, j);
      DistUnfolds(s', t, c, i, j);
      var p, q := LastIndex(t[j - 1], s, i - 1), LastIndex(s[i - 1], t, j - 1);
      LastIndexLocal(t[j - 1], s, s', i - 1);
      DistLocal(s, s', t, c, i - 1, j);
      DistLocal(s, s', t, c, i, j - 1);
      DistLocal(s, s', t, c, i - 1, j - 1);
      if p >= 0 && q >= 0 { DistLocal(s, s', t, c, p, q); }
    }
  }

  // ----- lower bound: no edit brings the target closer by more than it costs -----

  lemma {:induction false} DeleteIsPaid(s: Text, s': Text, t: Text, c: Costs, k: nat, i: nat, j: nat)
    requires k < i <= |s| && j <= |t| && s' == s[..k] + s[k + 1..]
    ensures Dist(s, t, c, i, j) <= Dist(s', t, c, i - 1, j) + c.delete
    decreases i + j
  {
    hide Dist;
    if i == k + 1 {
      DistLocal(s, s', t, c, k, j);
      DistAfterDelete(s, t, c, i, j);
    } else if j == 0 {
      DistAlone(s, t, c, i, 0);
      DistAlone(s', t, c, i - 1, 0);
      Distribute(i - 1, 1, c.delete);
    } else {
      var end := OptimalEnd(s', t, c, i - 1, j);
      match end
      case Inserts =>
        DeleteIsPaid(s, s', t, c, k, i, j - 1);
        DistAfterInsert(s, t, c, i, j);
      case Deletes =>
        DeleteIsPaid(s, s', t, c, k, i - 1, j);
        DistAfterDelete(s, t, c, i, j);
      case Pairs =>
        DeleteIsPaid(s, s', t, c, k, i - 1, j - 1);
        DistAfterPair(s, t, c, i, j);
      case Crosses(p, q) =>
        if k <= p {
          DeleteIsPaid(s, s', t, c, k, p + 1, q);
          DistAfterCross(s, t, c, i, j, p + 1, q);
        } else {
          DistLocal(s, s', t, c, p, q);
          DistAfterCross(s, t, c, i, j, p, q);
          Distribute(i - 3 - p, 1, c.delete);
        }
    }
  }

  lemma {:induction false} InsertIsPaid(s: Text, s': Text, t: Text, c: Costs, k: nat, x: Character, i: nat, j: nat)
    requires k <= i <= |s| && j <= |t| && s' == s[..k] + [x] + s[k..]
    ensures Dist(s, t, c, i, j) <= Dist(s', t, c, i + 1, j) + c.insert
    decreases i + j
  {
    hide Dist;
    if j == 0 {
      DistAlone(s, t, c, i, 0);
      DistAlone(s', t, c, i + 1, 0);
      Distribute(i, 1, c.delete);
      return;
    }
    var end := OptimalEnd(s', t, c, i + 1, j);
    match end
    case Inserts =>
      InsertIsPaid(s, s', t, c, k, x, i, j - 1);
      DistAfterInsert(s, t, c, i, j);
    case Deletes =>
      if i == k {
        DistLocal(s, s', t, c, k, j);
      } else {
        InsertIsPaid(s, s', t, c, k, x, i - 1, j);
        DistAfterDelete(s, t, c, i, j);
      }
    case Pairs =>
      if i == k {
        DistLocal(s, s', t, c, k, j - 1);
        DistAfterInsert(s, t, c, k, j);
      } else {
        InsertIsPaid(s, s', t, c, k, x, i - 1, j - 1);
        DistAfterPair(s, t, c, i, j);
      }
    case Crosses(p, q) =>
      if k < p {
        InsertIsPaid(s, s', t, c, k, x, p - 1, q);
        DistAfterCross(s, t, c, i, j, p - 1, q);
      } else {
        DistLocal(s, s', t, c, p, q);
        if p < k < i {
          DistAfterCross(s, t, c, i, j, p, q);
          Distribute(i - 2 - p, 1, c.delete);
        } else if p < k {
          // the inserted character was the later end: keep the match of the earlier one
          DistAfterGaps(s, t, c, p, p, q, j - 1);
          DistPairThenGaps(s, t, c, p, j - 1, i, j);
          Distribute(j - 2 - q, 1, c.insert);
        } else {
          // the inserted character was the earlier end: keep the match of the later one
          DistAfterGaps(s, t, c, k, i - 1, q, q);
          DistPairThenGaps(s, t, c, i - 1, q, i, j);
          Distribute(j - 2 - q, 1, c.insert);
        }
      }
  }

  lemma {:induction false} ReplaceIsPaid(s: Text, s': Text, t: Text, c: Costs, k: nat, x: Character, i: nat, j: nat)
    requires c.insert + c.delete <= 2 * c.swap
    requires k < i <= |s| && j <= |t| && s' == s[k := x]
    ensures Dist(s, t, c, i, j) <= Dist(s', t, c, i, j) + c.replace
    decreases i + j
  {
    hide Dist;
    if j == 0 {
      DistAlone(s, t, c, i, 0);
      DistAlone(s', t, c, i, 0);
      return;
    }
    var end := OptimalEnd(s', t, c, i, j);
    match end
    case Inserts =>
      ReplaceIsPaid(s, s', t, c, k, x, i, j - 1);
      DistAfterInsert(s, t, c, i, j);
    case Deletes =>
      if i == k + 1 { DistLocal(s, s', t, c, k, j); } else { ReplaceIsPaid(s, s', t, c, k, x, i - 1, j); }
      DistAfterDelete(s, t, c, i, j);
    case Pairs =>
      if i == k + 1 { DistLocal(s, s', t, c, k, j - 1); } else { ReplaceIsPaid(s, s', t, c, k, x, i - 1, j - 1); }
      DistAfterPair(s, t, c, i, j);
    case Crosses(p, q) =>
      if k < p {
        ReplaceIsPaid(s, s', t, c, k, x, p, q);
        DistAfterCross(s, t, c, i, j, p, q);
      } else {
        DistLocal(s, s', t, c, p, q);
        if p < k < i - 1 {
          DistAfterCross(s, t, c, i, j, p, q);
        } else {
          // the replaced character was an end of the crossing
          DistStraightened(s, t, c, i, j, p, q);
          DistUncrossed(s, t, c, i, j, p, q);
        }
      }
  }

  /**
   The neighbours `k` and `k + 1` exchanged, the second one being paired with `t[m]`:
   the case where the swap can meet every kind of ending of the first one.
   */
  lemma {:induction false} SwapBeforePair(s: Text, s': Text, t: Text, c: Costs, k: nat, j: nat, m: nat)
    requires c.insert + c.delete <= 2 * c.swap
    requires k + 1 < |s| && s' == s[k := s[k + 1]][k + 1 := s[k]]
    requires j <= m < |t|
    ensures Dist(s, t, c, k + 2, m + 1)
         <= Dist(s', t, c, k + 1, j) + (m - j) * c.insert + PairCost(s'[k + 1], t[m], c) + c.swap
    decreases j
  {
    hide Dist;
    if j == 0 {
      DistAlone(s', t, c, k + 1, 0);
      DistAlone(s, t, c, k, 0);
      Distribute(k, 1, c.delete);
      PairThenDeleteOne(s, t, c, k, 0, m);
      return;
    }
    var end := OptimalEnd(s', t, c, k + 1, j);
    match end
    case Deletes =>
      DistLocal(s, s', t, c, k, j);
      PairThenDeleteOne(s, t, c, k, j, m);
    case Inserts =>
      SwapBeforePair(s, s', t, c, k, j - 1, m);
      Distribute(m - j, 1, c.insert);
    case Pairs =>
      DistLocal(s, s', t, c, k, j - 1);
      SwapTwoPairs(s, t, c, k, j - 1, m);
    case Crosses(p, q) =>
      // the earlier crossing is given up: s'[k] is deleted and its partner inserted
      DistLocal(s, s', t, c, p, q);
      DistAfterGaps(s, t, c, p, p, q, j - 1);
      DistPairThenGaps(s, t, c, p, j - 1, k, j);
      PairThenDeleteOne(s, t, c, k, j, m);
      Distribute(j - 2 - q, 1, c.insert);
  }

  /** `s[k]` is paired with `t[m]`, what lies between `j` and `m` inserted and `s[k + 1]` deleted. */
  lemma PairThenDeleteOne(s: Text, t: Text, c: Costs, k: nat, j: nat, m: nat)
    requires k + 1 < |s| && j <= m < |t|
    ensures Dist(s, t, c, k + 2, m + 1)
         <= Dist(s, t, c, k, j) + (m - j) * c.insert + PairCost(s[k], t[m], c) + c.delete
  {
    hide Dist;
    DistAfterGaps(s, t, c, k, k, j, m);
    DistPairThenGaps(s, t, c, k, m, k + 2, m + 1);
  }

  /** Two pairs made after the swap: one crossing, two pairs in order, or one pair given up. */
  lemma SwapTwoPairs(s: Text, t: Text, c: Costs, k: nat, q: nat, m: nat)
    requires c.insert + c.delete <= 2 * c.swap
    requires k + 1 < |s| && q < m < |t|
    ensures Dist(s, t, c, k + 2, m + 1)
         <= Dist(s, t, c, k, q) + PairCost(s[k + 1], t[q], c) + (m - 1 - q) * c.insert
            + PairCost(s[k], t[m], c) + c.swap
  {
    hide Dist;
    if s[k + 1] == t[q] && s[k] == t[m] {
      DistAfterCross(s, t, c, k + 2, m + 1, k, q);
    } else if c.replace <= c.swap || (s[k + 1] != t[q] && s[k] != t[m]) {
      DistStraightened(s, t, c, k + 2, m + 1, k, q);
    } else {
      DistUncrossed(s, t, c, k + 2, m + 1, k, q);
    }
  }

  /** The swap lemma proper, past both neighbours. */
  lemma {:induction false} SwapIsPaid(s: Text, s': Text, t: Text, c: Costs, k: nat, i: nat, j: nat)
    requires c.insert + c.delete <= 2 * c.swap
    requires k + 2 <= i <= |s| && j <= |t| && s' == s[k := s[k + 1]][k + 1 := s[k]]
    ensures Dist(s, t, c, i, j) <= Dist(s', t, c, i, j) + c.swap
    decreases i + j
  {
    hide Dist;
    if j == 0 {
      DistAlone(s, t, c, i, 0);
      DistAlone(s', t, c, i, 0);
      return;
    }
    var end := OptimalEnd(s', t, c, i, j);
    match end
    case Inserts =>
      SwapIsPaid(s, s', t, c, k, i, j - 1);
      DistAfterInsert(s, t, c, i, j);
    case Deletes =>
      if i == k + 2 {
        SwappedPrefix(s, s', t, c, k, j);
      } else {
        SwapIsPaid(s, s', t, c, k, i - 1, j);
        DistAfterDelete(s, t, c, i, j);
      }
    case Pairs =>
      if i == k + 2 {
        SwapBeforePair(s, s', t, c, k, j - 1, j - 1);
      } else {
        SwapIsPaid(s, s', t, c, k, i - 1, j - 1);
        DistAfterPair(s, t, c, i, j);
      }
    case Crosses(p, q) =>
      if k + 2 <= p {
        SwapIsPaid(s, s', t, c, k, p, q);
        DistAfterCross(s, t, c, i, j, p, q);
      } else if p == k + 1 {
        // s'[k + 1] is the earlier end: it is deleted and its partner inserted
        SwappedPrefix(s, s', t, c, k, q);
        DistAfterGaps(s, t, c, k + 2, i - 1, q, q);
        DistPairThenGaps(s, t, c, i - 1, q, i, j);
        Distribute(j - 2 - q, 1, c.insert);
      } else {
        DistLocal(s, s', t, c, p, q);
        SwapInsideCross(s, t, c, k, i, j, p, q);
      }
  }

  /** Without `s[k]`, the first `k + 2` characters are the first `k + 1` of the swapped text. */
  lemma SwappedPrefix(s: Text, s': Text, t: Text, c: Costs, k: nat, j: nat)
    requires k + 1 < |s| && j <= |t| && s' == s[k := s[k + 1]][k + 1 := s[k]]
    ensures Dist(s, t, c, k + 2, j) <= Dist(s', t, c, k + 1, j) + c.delete
  {
    hide Dist;
    var shorter := s[..k] + s[k + 1..];
    DeleteIsPaid(s, shorter, t, c, k, k + 2, j);
    DistLocal(shorter, s', t, c, k + 1, j);
  }

  /** A crossing of the swapped text that starts at or before `k`, and ends past it. */
  lemma SwapInsideCross(s: Text, t: Text, c: Costs, k: nat, i: nat, j: nat, p: nat, q: nat)
    requires p <= k && k + 2 <= i <= |s| && q + 1 < j <= |t|
    requires var s' := s[k := s[k + 1]][k + 1 := s[k]]; s'[p] == t[j - 1] && t[q] == s'[i - 1]
    ensures Dist(s, t, c, i, j) <= Dist(s, t, c, p, q) + CrossCost(i - 2 - p, j - 2 - q, c) + c.swap
  {
    hide Dist;
    if p < k && k + 2 < i {
      DistAfterCross(s, t, c, i, j, p, q);
    } else if p == k && i == k + 2 {
      // both ends: they are in order before the swap
      DistStraightened(s, t, c, i, j, p, q);
    } else if p == k {
      // the deleted neighbour moves out to the left
      DistAfterDelete(s, t, c, k + 1, q);
      DistAfterCross(s, t, c, i, j, k + 1, q);
      Distribute(i - 3 - k, 1, c.delete);
    } else {
      // the deleted neighbour moves out to the right
      DistAfterCross(s, t, c, i - 1, j, p, q);
      DistAfterDelete(s, t, c, i, j);
      Distribute(i - 3 - p, 1, c.delete);
    }
  }

  lemma EditIsPaid(e: Edit, s: Text, t: Text, c: Costs)
    requires c.insert + c.delete <= 2 * c.swap
    requires e.AppliesTo(s)
    ensures Dist(s, t, c, |s|, |t|) <= e.Cost(c) + Dist(e.Apply(s), t, c, |e.Apply(s)|, |t|)
  {
    hide Dist;
    match e
    case Insert(at, what) => InsertIsPaid(s, e.Apply(s), t, c, at, what, |s|, |t|);
    case Delete(at) => DeleteIsPaid(s, e.Apply(s), t, c, at, |s|, |t|);
    case Replace(at, what) => ReplaceIsPaid(s, e.Apply(s), t, c, at, what, |s|, |t|);
    case Swap(at) => SwapIsPaid(s, e.Apply(s), t, c, at, |s|, |t|);
  }

  lemma {:induction false} DistToItself(t: Text, c: Costs, n: nat)
    requires n <= |t|
    ensures Dist(t, t, c, n, n) == 0
  {
    if n > 0 {
      DistToItself(t, c, n - 1);
      DistAfterPair(t, t, c, n, n);
    }
  }

  lemma {:induction false} NoScriptIsCheaper(script: Script, s: Text, t: Text, c: Costs)
    requires c.insert + c.delete <= 2 * c.swap
    requires Turns(script, s, t)
    ensures Dist(s, t, c, |s|, |t|) <= ScriptCost(script, c)
  {
    hide Dist;
    if script == [] {
      DistToItself(t, c, |t|);
    } else {
      NoScriptIsCheaper(script[1..], script[0].Apply(s), t, c);
      EditIsPaid(script[0], s, t, c);
    }
  }

  // ----- the recurrence is attained: a script for every optimal ending -----

  /** A script for prefixes, followed by one for what stands behind them. */
  lemma Append(first: Script, u: Text, v: Text, second: Script, w: Text, x: Text, c: Costs) returns (script: Script)
    requires Turns(first, u, v) && Turns(second, w, x)
    ensures Turns(script, u + w, v + x)
    ensures ScriptCost(script, c) == ScriptCost(first, c) + ScriptCost(second, c)
  {
    var shifted := UnderPrefix(second, u, w, x, c);
    TurnsUnderSuffix(first, u, v, x);
    TurnsThenTurns(shifted, first, u + w, u + x, v + x, c);
    script := shifted + first;
  }

  function Moved(e: Edit, offset: nat): Edit { e.(at := e.at + offset) }

  lemma MovedApplies(e: Edit, prefix: Text, s: Text, c: Costs)
    requires e.AppliesTo(s)
    ensures var m := Moved(e, |prefix|);
            m.AppliesTo(prefix + s) && m.Apply(prefix + s) == prefix + e.Apply(s) && m.Cost(c) == e.Cost(c)
  {
    var at, m, all := e.at, Moved(e, |prefix|), prefix + s;
    assert all[..m.at] == prefix + s[..at] && all[m.at..] == s[at..];
    match e
    case Insert(_, what) =>
      assert prefix + s[..at] + [what] + s[at..] == prefix + (s[..at] + [what] + s[at..]);
    case Delete(_) =>
      assert all[m.at + 1..] == s[at + 1..];
      assert prefix + s[..at] + s[at + 1..] == prefix + (s[..at] + s[at + 1..]);
    case Replace(_, what) =>
      assert all[m.at := what] == prefix + s[at := what];
    case Swap(_) =>
      assert all[m.at] == s[at] && all[m.at + 1] == s[at + 1];
      assert all[m.at := s[at + 1]] == prefix + s[at := s[at + 1]];
      assert m.Apply(all) == prefix + s[at := s[at + 1]][at + 1 := s[at]];
  }

  /** A script works behind any prefix, its positions moved. */
  lemma {:induction false} UnderPrefix(script: Script, prefix: Text, s: Text, t: Text, c: Costs) returns (moved: Script)
    requires Turns(script, s, t)
    ensures Turns(moved, prefix + s, prefix + t) && ScriptCost(moved, c) == ScriptCost(script, c)
    decreases |script|
  {
    if script == [] {
      moved := [];
    } else {
      MovedApplies(script[0], prefix, s, c);
      var rest := UnderPrefix(script[1..], prefix, script[0].Apply(s), t, c);
      moved := [Moved(script[0], |prefix|)] + rest;
      assert moved[1..] == rest;
    }
  }

  lemma {:induction false} DeleteRun(gone: Text, rest: Text, c: Costs) returns (script: Script)
    ensures Turns(script, gone + rest, rest)
    ensures ScriptCost(script, c) == |gone| * c.delete
    decreases |gone|
  {
    if gone == [] {
      assert gone + rest == rest;
      script := [];
    } else {
      var others := DeleteRun(gone[1..], rest, c);
      var e := Delete(0);
      assert e.Apply(gone + rest) == gone[1..] + rest;
      script := [e] + others;
      assert script[1..] == others;
      Distribute(|gone| - 1, 1, c.delete);
    }
  }

  lemma {:induction false} InsertRun(made: Text, rest: Text, c: Costs) returns (script: Script)
    ensures Turns(script, rest, made + rest)
    ensures ScriptCost(script, c) == |made| * c.insert
    decreases |made|
  {
    if made == [] {
      assert made + rest == rest;
      script := [];
    } else {
      var n := |made| - 1;
      var e := Insert(0, made[n]);
      assert e.Apply(rest) == [made[n]] + rest;
      var others := InsertRun(made[..n], [made[n]] + rest, c);
      assert made[..n] + ([made[n]] + rest) == made + rest;
      script := [e] + others;
      assert script[1..] == others;
      Distribute(n, 1, c.insert);
    }
  }

  lemma OneSidedScript(s: Text, t: Text, c: Costs) returns (script: Script)
    requires s == [] || t == []
    ensures Turns(script, s, t) && ScriptCost(script, c) == |s| * c.delete + |t| * c.insert
  {
    assert s + [] == s && t + [] == t;
    if s == [] { script := InsertRun(t, [], c); } else { script := DeleteRun(s, [], c); }
  }

  /** A crossing as edits: delete what lies between, swap, insert what the target has between. */
  lemma CrossScript(s: Text, t: Text, c: Costs) returns (script: Script)
    requires |s| >= 2 && |t| >= 2 && s[0] == t[|t| - 1] && s[|s| - 1] == t[0]
    ensures Turns(script, s, t) && ScriptCost(script, c) == CrossCost(|s| - 2, |t| - 2, c)
  {
    hide Turns;
    hide ScriptCost;
    var a, b, gone, made := s[0], t[0], s[1..|s| - 1], t[1..|t| - 1];
    var deletes := DeleteRun(gone, [b], c);
    deletes := UnderPrefix(deletes, [a], gone + [b], [b], c);
    assert s == [a] + (gone + [b]);
    var swapped := Swap(0);
    assert swapped.Apply([a] + [b]) == [b] + [a];
    OneEdit(swapped, [a] + [b], c);
    var inserts := InsertRun(made, [a], c);
    inserts := UnderPrefix(inserts, [b], [a], made + [a], c);
    assert t == [b] + (made + [a]);
    TurnsThenTurns(deletes, [swapped], s, [a] + [b], [b] + [a], c);
    TurnsThenTurns(deletes + [swapped], inserts, s, [b] + [a], t, c);
    script := deletes + [swapped] + inserts;
  }

  lemma PairScript(a: Character, b: Character, c: Costs) returns (script: Script)
    ensures Turns(script, [a], [b]) && ScriptCost(script, c) == PairCost(a, b, c)
  {
    if a == b {
      script := [];
    } else {
      OneEdit(Replace(0, b), [a], c);
      script := [Replace(0, b)];
    }
  }

  lemma {:induction false} CheapestScript(s: Text, t: Text, c: Costs, i: nat, j: nat) returns (script: Script)
    requires i <= |s| && j <= |t|
    ensures Turns(script, s[..i], t[..j]) && ScriptCost(script, c) == Dist(s, t, c, i, j)
    decreases i + j
  {
    hide Dist;
    hide Turns;
    if i == 0 || j == 0 {
      DistAlone(s, t, c, i, j);
      script := OneSidedScript(s[..i], t[..j], c);
      return;
    }
    var end := OptimalEnd(s, t, c, i, j);
    match end
    case Deletes =>
      var first := CheapestScript(s, t, c, i - 1, j);
      var second := OneSidedScript([s[i - 1]], [], c);
      script := Append(first, s[..i - 1], t[..j], second, [s[i - 1]], [], c);
      assert s[..i] == s[..i - 1] + [s[i - 1]] && t[..j] + [] == t[..j];
    case Inserts =>
      var first := CheapestScript(s, t, c, i, j - 1);
      var second := OneSidedScript([], [t[j - 1]], c);
      script := Append(first, s[..i], t[..j - 1], second, [], [t[j - 1]], c);
      assert s[..i] + [] == s[..i] && t[..j] == t[..j - 1] + [t[j - 1]];
    case Pairs =>
      var first := CheapestScript(s, t, c, i - 1, j - 1);
      var second := PairScript(s[i - 1], t[j - 1], c);
      script := Append(first, s[..i - 1], t[..j - 1], second, [s[i - 1]], [t[j - 1]], c);
      assert s[..i] == s[..i - 1] + [s[i - 1]] && t[..j] == t[..j - 1] + [t[j - 1]];
    case Crosses(p, q) =>
      var first := CheapestScript(s, t, c, p, q);
      var second := CrossScript(s[p..i], t[q..j], c);
      script := Append(first, s[..p], t[..q], second, s[p..i], t[q..j], c);
      assert s[..i] == s[..p] + s[p..i] && t[..j] == t[..q] + t[q..j];
  }

  /**
   The recurrence computes the edit distance whenever two swaps cost at least an insertion and a
   deletion: the restriction under which the algorithm is published.
   */
  lemma DistIsEditDistance(s: Text, t: Text, c: Costs)
    requires c.insert + c.delete <= 2 * c.swap
    ensures IsEditDistance(Dist(s, t, c, |s|, |t|), s, t, c)
  {
    hide Dist;
    var script := CheapestScript(s, t, c, |s|, |t|);
    assert s[..|s|] == s && t[..|t|] == t;
    forall other | Turns(other, s, t)
      ensures Dist(s, t, c, |s|, |t|) <= ScriptCost(other, c)
    {
      NoScriptIsCheaper(other, s, t, c);
    }
  }

  lemma EditDistanceIsUnique(d: int, e: int, s: Text, t: Text, c: Costs)
    requires IsEditDistance(d, s, t, c) && IsEditDistance(e, s, t, c)
    ensures d == e
  {}
}
