/** What a coin selection is, when one is better, and the order in which the
    branch-and-bound search of src/coins.c meets them. */
module CoinSelection {
  import opened Common

  /** `WALLY_CS_MAX_ASSETS`: no more inputs than this are ever selected. */
  const MAX_ASSETS: nat := 256

  /** A selection is a strictly increasing sequence of indices into the values. */
  ghost predicate IsSelection(n: nat, s: seq<nat>) {
    && (forall i :: 0 <= i < |s| ==> s[i] < n)
    && (forall i, j :: 0 <= i < j < |s| ==> s[i] < s[j])
  }

  ghost predicate Descending(values: seq<nat>) {
    forall i, j :: 0 <= i < j < |values| ==> values[j] <= values[i]
  }

  function Sum(values: seq<nat>, s: seq<nat>): nat
    requires forall i :: 0 <= i < |s| ==> s[i] < |values|
  {
    if s == [] then 0 else Sum(values, s[..|s| - 1]) + values[s[|s| - 1]]
  }

  /** The total of the values from index `v` on. */
  function SumFrom(values: seq<nat>, v: nat): nat
    requires v <= |values|
    decreases |values| - v
  {
    if v == |values| then 0 else values[v] + SumFrom(values, v + 1)
  }

  /** `0, 1, .., k - 1`: the selection of the first `k` values. */
  function Iota(k: nat): (s: seq<nat>)
    ensures |s| == k && forall i :: 0 <= i < k ==> s[i] == i
  {
    seq(k, i => i)
  }

  datatype Problem = Problem(values: seq<nat>, target: nat, ioRatio: nat)
  {
    /** A selection the documentation calls a solution, within the input cap. */
    ghost predicate Feasible(s: seq<nat>) {
      IsSelection(|values|, s) && |s| <= MAX_ASSETS && target <= Sum(values, s)
    }

    /** An exact match needs no change output, so it is not charged `ioRatio`. */
    function Score(s: seq<nat>): nat
      requires forall i :: 0 <= i < |s| ==> s[i] < |values|
    {
      |s| + if Sum(values, s) == target then 0 else ioRatio
    }

    ghost predicate Exact(s: seq<nat>) {
      Feasible(s) && Sum(values, s) == target
    }

    ghost predicate Optimal(s: seq<nat>) {
      Feasible(s) && forall t :: Feasible(t) ==> Score(s) <= Score(t)
    }

    /** Some exact selection has this score. */
    ghost predicate ExactScore(score: nat) {
      exists e :: Exact(e) && Score(e) == score
    }

    /** `s` takes a value equal to its predecessor only together with that
        predecessor; of equivalent combinations only this one is tested. */
    ghost predicate Canonical(s: seq<nat>) {
      forall j :: 0 < j < |s| && s[j] < |values| && s[j - 1] + 1 < s[j] ==> values[s[j]] != values[s[j] - 1]
    }

    /** Nothing exceeds its machine width: the values total below 2^64 and a
        full selection's score fits 32 bits. */
    ghost predicate Fits() {
      SumFrom(values, 0) < TWO_64 && ioRatio + MAX_ASSETS < TWO_32
    }
  }

  // ----- sums

  lemma {:induction false} SumFromMonotonic(values: seq<nat>, v: nat, w: nat)
    requires v <= w <= |values|
    ensures SumFrom(values, w) <= SumFrom(values, v)
    decreases w - v
  {
    if v < w {
      SumFromMonotonic(values, v + 1, w);
    }
  }

  lemma SumAppend(values: seq<nat>, s: seq<nat>, k: nat)
    requires forall i :: 0 <= i < |s| ==> s[i] < |values|
    requires k < |values|
    ensures Sum(values, s + [k]) == Sum(values, s) + values[k]
  {
    assert (s + [k])[..|s|] == s;
  }

  /** A selection that agrees with `s` on its first `m` indices and takes the rest
      from `v` on lies between the sum of those `m` and that plus all that remains. */
  lemma {:induction false} SumExtension(values: seq<nat>, s: seq<nat>, m: nat, v: nat)
    requires IsSelection(|values|, s) && m <= |s| && v <= |values|
    requires m < |s| ==> v <= s[m]
    ensures Sum(values, s[..m]) <= Sum(values, s) <= Sum(values, s[..m]) + SumFrom(values, v)
    decreases |s| - m
  {
    if m == |s| {
      assert s[..m] == s;
    } else {
      SumExtension(values, s, m + 1, s[m] + 1);
      assert s[..m + 1] == s[..m] + [s[m]];
      SumAppend(values, s[..m], s[m]);
      SumFromMonotonic(values, v, s[m]);
    }
  }

  lemma {:induction false} SumReplace(values: seq<nat>, s: seq<nat>, j: nat, k: nat)
    requires forall i :: 0 <= i < |s| ==> s[i] < |values|
    requires j < |s| && k < |values| && values[k] == values[s[j]]
    ensures Sum(values, s[j := k]) == Sum(values, s)
    decreases |s|
  {
    var n := |s| - 1;
    if j == n {
      assert s[j := k][..n] == s[..n];
    } else {
      assert s[j := k][..n] == s[..n][j := k];
      SumReplace(values, s[..n], j, k);
    }
  }

  lemma {:induction false} SumIotaFrom(values: seq<nat>, k: nat)
    requires k <= |values|
    ensures Sum(values, Iota(k)) + SumFrom(values, k) == SumFrom(values, 0)
  {
    if k > 0 {
      SumIotaFrom(values, k - 1);
      assert Iota(k) == Iota(k - 1) + [k - 1];
      SumAppend(values, Iota(k - 1), k - 1);
    }
  }

  lemma {:induction false} IndexAtLeastPosition(n: nat, s: seq<nat>, i: nat)
    requires IsSelection(n, s) && i < |s|
    ensures i <= s[i]
  {
    if i > 0 {
      IndexAtLeastPosition(n, s, i - 1);
    }
  }

  /** In descending order no selection of `k` values beats the first `k`, nor any longer run of them. */
  lemma {:induction false} FirstValuesAreLargest(values: seq<nat>, s: seq<nat>, m: nat)
    requires Descending(values) && IsSelection(|values|, s) && |s| <= m <= |values|
    ensures Sum(values, s) <= Sum(values, Iota(m))
    decreases m
  {
    if m > 0 {
      assert Iota(m) == Iota(m - 1) + [m - 1];
      SumAppend(values, Iota(m - 1), m - 1);
      if |s| == m {
        IndexAtLeastPosition(|values|, s, m - 1);
        FirstValuesAreLargest(values, s[..m - 1], m - 1);
      } else {
        FirstValuesAreLargest(values, s, m - 1);
      }
    }
  }

  // ----- the search tree

  /** `t` agrees with the current selection `sel` on every index below the cursor `v`. */
  predicate InSubtree(t: seq<nat>, sel: seq<nat>, v: nat) {
    sel <= t && (|sel| < |t| ==> v <= t[|sel|])
  }

  /** `t` is in the current subtree, or in one that backtracking has still to enter. */
  predicate Pending(t: seq<nat>, sel: seq<nat>, v: nat)
    decreases |sel|
  {
    || InSubtree(t, sel, v)
    || (sel != [] && Pending(t, sel[..|sel| - 1], sel[|sel| - 1] + 1))
  }

  /** The tree nodes at depth `v` or below among `n` values: a full binary tree. */
  function TreeSize(n: nat, v: nat): nat
    requires v <= n
    decreases n - v
  {
    if v == n then 1 else 1 + 2 * TreeSize(n, v + 1)
  }

  /** How many nodes the search could still visit, the current one included. */
  function NodesLeft(n: nat, sel: seq<nat>, v: nat): (r: nat)
    requires v <= n && forall i :: 0 <= i < |sel| ==> sel[i] < n
    ensures r >= 1
    decreases |sel|
  {
    TreeSize(n, v) + if sel == [] then 0 else NodesLeft(n, sel[..|sel| - 1], sel[|sel| - 1] + 1)
  }

  lemma {:induction false} TreeSizeIsPower(n: nat, v: nat)
    requires v <= n
    ensures TreeSize(n, v) + 1 == Pow(2, n - v + 1)
    decreases n - v
  {
    if v < n {
      TreeSizeIsPower(n, v + 1);
    }
  }

  /** Including value `v` moves on by exactly one node. */
  lemma IncludeAdvances(n: nat, sel: seq<nat>, v: nat)
    requires v < n && forall i :: 0 <= i < |sel| ==> sel[i] < n
    ensures NodesLeft(n, sel + [v], v + 1) + 1 == NodesLeft(n, sel, v)
  {
    assert (sel + [v])[..|sel|] == sel;
  }

  lemma OmitAdvances(n: nat, sel: seq<nat>, v: nat)
    requires v < n && forall i :: 0 <= i < |sel| ==> sel[i] < n
    ensures NodesLeft(n, sel, v + 1) < NodesLeft(n, sel, v)
  {
  }

  lemma BacktrackAdvances(n: nat, sel: seq<nat>, v: nat)
    requires v <= n && sel != [] && forall i :: 0 <= i < |sel| ==> sel[i] < n
    ensures NodesLeft(n, sel[..|sel| - 1], sel[|sel| - 1] + 1) < NodesLeft(n, sel, v)
  {
  }

  /** Including value `v` abandons nothing. */
  lemma IncludeKeepsPending(n: nat, t: seq<nat>, sel: seq<nat>, v: nat)
    requires IsSelection(n, t) && Pending(t, sel, v)
    ensures Pending(t, sel + [v], v + 1)
  {
    assert (sel + [v])[..|sel|] == sel;
    if InSubtree(t, sel, v) && |sel| < |t| && t[|sel|] == v {
      assert sel + [v] == t[..|sel| + 1];
    } else {
      assert Pending(t, sel, v + 1);
    }
  }

  /** Nothing that contains all of `sel`, other than in its subtree, is still to come. */
  lemma {:induction false} ExtensionNotPending(t: seq<nat>, sel: seq<nat>, v: nat)
    requires sel <= t && !InSubtree(t, sel, v)
    ensures !Pending(t, sel, v)
    decreases |sel|
  {
    if sel != [] {
      var k := |sel| - 1;
      assert sel[..k] <= t && t[k] == sel[k];
      ExtensionNotPending(t, sel[..k], sel[k] + 1);
    }
  }

  /** Two selections diverge at some position, and `t` takes the smaller index there:
      the search meets `t` first. */
  ghost predicate Before(t: seq<nat>, u: seq<nat>) {
    exists j :: 0 <= j < |t| && j < |u| && t[..j] == u[..j] && t[j] < u[j]
  }

  /** Whatever is no longer pending was met before `sel`, unless it properly extends it. */
  lemma {:induction false} DoneIsBefore(n: nat, t: seq<nat>, sel: seq<nat>, v: nat)
    requires IsSelection(n, t) && IsSelection(n, sel)
    requires !Pending(t, sel, v) && !(sel <= t)
    ensures Before(t, sel)
    decreases |sel|
  {
    var k := |sel| - 1;
    if sel[..k] <= t {
      assert !InSubtree(t, sel[..k], sel[k] + 1);
      assert |t| > k && t[k] < sel[k] + 1;
      assert t[..k + 1] != sel && t[..k] == sel[..k];
    } else {
      DoneIsBefore(n, t, sel[..k], sel[k] + 1);
      var j :| 0 <= j < |t| && j < k && t[..j] == sel[..k][..j] && t[j] < sel[..k][j];
      assert sel[..k][..j] == sel[..j];
    }
  }

  // ----- the search invariant

  /** A moment of the search: the current node, the best selection recorded, and
      the most recently scored selection that ties with it. */
  datatype Search = Search(sel: seq<nat>, v: nat, found: bool, bestScore: nat, bestSum: nat,
                           best: seq<nat>, last: seq<nat>)

  /** The best so far is no worse than `t`: it scores less, or ties and has at least
      `t`'s change, which only an exact match of that score can upset. */
  ghost predicate Settled(p: Problem, c: Search, t: seq<nat>)
    requires p.Feasible(t)
  {
    && c.found
    && (|| c.bestScore < p.Score(t)
        || (c.bestScore == p.Score(t) && (Sum(p.values, t) <= c.bestSum || p.ExactScore(c.bestScore))))
  }

  ghost predicate Shape(p: Problem, sel: seq<nat>, v: nat) {
    && IsSelection(|p.values|, sel) && |sel| <= MAX_ASSETS && v <= |p.values|
    && (sel != [] ==> sel[|sel| - 1] < v)
    && p.Canonical(sel)
  }

  ghost predicate Recorded(p: Problem, c: Search) {
    if c.found then
      && p.Feasible(c.best) && p.Canonical(c.best) && c.bestScore == p.Score(c.best)
      && c.bestSum == Sum(p.values, c.best)
      && p.Feasible(c.last) && p.Canonical(c.last) && p.Score(c.last) == c.bestScore
      && (p.Exact(c.best) <==> p.Exact(c.last))
    else
      c.bestScore == TWO_32 - 1 && c.bestSum == 0 && c.best == []
  }

  /** A canonical exact selection of this score comes after `t`. */
  ghost predicate Overtaken(p: Problem, score: nat, t: seq<nat>) {
    exists e :: p.Exact(e) && p.Canonical(e) && p.Score(e) == score && Before(t, e)
  }

  /** What a canonical selection that ties with the best and was left behind has come to:
      it was met no later than the last one scored; its sum is no larger, or an exact one
      came after it; and if it is exact, the best is exact or came after it. */
  ghost predicate Tied(p: Problem, c: Search, t: seq<nat>)
    requires p.Feasible(t)
  {
    && (t == c.last || Before(t, c.last))
    && (Sum(p.values, t) <= c.bestSum || Overtaken(p, c.bestScore, t))
    && (p.Exact(t) ==> c.bestSum == p.target || Before(t, c.best))
  }

  /** What the search owes a feasible selection it has left behind: the best so
      far is no worse, and a canonical tie has had its turn. */
  ghost predicate Behind(p: Problem, c: Search, t: seq<nat>)
    requires p.Feasible(t)
  {
    && Settled(p, c, t)
    && (p.Canonical(t) && p.Score(t) == c.bestScore ==> Tied(p, c, t))
  }

  ghost predicate Invariant(p: Problem, c: Search) {
    match c
    case Search(sel, v, _, _, _, _, _) =>
      && Shape(p, sel, v)
      && Recorded(p, c)
      && (forall t {:trigger Pending(t, sel, v)} :: p.Feasible(t) && !Pending(t, sel, v) ==> Behind(p, c, t))
  }

  /** Leaving the current subtree loses nothing: all in it score worse, except
      possibly the selection just scored. */
  ghost predicate Spent(p: Problem, c: Search) {
    match c
    case Search(sel, v, _, _, _, _, _) =>
      forall t {:trigger InSubtree(t, sel, v)} :: p.Feasible(t) && InSubtree(t, sel, v) ==> Behind(p, c, t)
  }

  lemma InvariantInitially(p: Problem, c: Search)
    requires c == Search([], 0, false, TWO_32 - 1, 0, [], [])
    ensures Invariant(p, c)
  {
    assert forall t :: InSubtree(t, [], 0);
  }

  lemma InvariantInclude(p: Problem, c: Search)
    requires Invariant(p, c) && c.v < |p.values| && |c.sel| < MAX_ASSETS
    requires c.sel == [] || c.v - 1 == c.sel[|c.sel| - 1] || p.values[c.v] != p.values[c.v - 1]
    ensures Invariant(p, c.(sel := c.sel + [c.v], v := c.v + 1))
  {
    var d := c.(sel := c.sel + [c.v], v := c.v + 1);
    forall t | p.Feasible(t) && !Pending(t, d.sel, d.v) ensures Behind(p, d, t) {
      if Pending(t, c.sel, c.v) {
        IncludeKeepsPending(|p.values|, t, c.sel, c.v);
      }
      assert Behind(p, c, t);
    }
    assert Shape(p, d.sel, d.v);
  }

  /** `t` with the cursor's predecessor in place of the cursor. */
  lemma TwinIsEquivalent(p: Problem, sel: seq<nat>, v: nat, t: seq<nat>)
    requires 0 < v < |p.values| && p.values[v] == p.values[v - 1]
    requires sel != [] && sel[|sel| - 1] < v - 1
    requires p.Feasible(t) && sel <= t && |sel| < |t| && t[|sel|] == v
    ensures var twin := t[|sel| := v - 1];
            p.Feasible(twin) && p.Score(twin) == p.Score(t) && Sum(p.values, twin) == Sum(p.values, t)
    ensures !p.Canonical(t)
  {
    SumReplace(p.values, t, |sel|, v - 1);
    assert t[|sel| - 1] == sel[|sel| - 1];
  }

  /** The equal-value skip: a selection it passes over has a twin that is settled already. */
  lemma SkippedIsBehind(p: Problem, c: Search, t: seq<nat>)
    requires Invariant(p, c) && 0 < c.v < |p.values| && c.sel != []
    requires c.v - 1 != c.sel[|c.sel| - 1] && p.values[c.v] == p.values[c.v - 1]
    requires p.Feasible(t) && c.sel <= t && |c.sel| < |t| && t[|c.sel|] == c.v
    ensures Behind(p, c, t)
  {
    var twin := t[|c.sel| := c.v - 1];
    TwinIsEquivalent(p, c.sel, c.v, t);
    ExtensionNotPending(twin, c.sel, c.v);
    assert Settled(p, c, twin);
  }

  lemma InvariantOmit(p: Problem, c: Search)
    requires Invariant(p, c) && 0 < c.v < |p.values| && c.sel != []
    requires c.v - 1 != c.sel[|c.sel| - 1] && p.values[c.v] == p.values[c.v - 1]
    ensures Invariant(p, c.(v := c.v + 1))
  {
    var d := c.(v := c.v + 1);
    forall t | p.Feasible(t) && !Pending(t, d.sel, d.v) ensures Behind(p, d, t) {
      if Pending(t, c.sel, c.v) {
        SkippedIsBehind(p, c, t);
      }
      assert Behind(p, c, t);
    }
  }

  lemma InvariantBacktrack(p: Problem, c: Search)
    requires Invariant(p, c) && Spent(p, c) && c.sel != []
    ensures Invariant(p, c.(sel := c.sel[..|c.sel| - 1], v := c.sel[|c.sel| - 1] + 1))
  {
    var k := |c.sel| - 1;
    var d := c.(sel := c.sel[..k], v := c.sel[k] + 1);
    forall t | p.Feasible(t) && !Pending(t, d.sel, d.v) ensures Behind(p, d, t) {
      if !InSubtree(t, c.sel, c.v) {
        assert !Pending(t, c.sel, c.v);
      }
      assert Behind(p, c, t);
    }
    assert Shape(p, d.sel, d.v);
  }

  /** Lines 129-131: the current selection is better than the best recorded. */
  predicate Better(p: Problem, c: Search)
    requires forall i :: 0 <= i < |c.sel| ==> c.sel[i] < |p.values|
  {
    var score, sum := p.Score(c.sel), Sum(p.values, c.sel);
    score < c.bestScore || (score == c.bestScore && (sum > c.bestSum || (sum == p.target && c.bestSum != p.target)))
  }

  /** Scoring a selection that reaches the target. */
  function Scored(p: Problem, c: Search): Search
    requires forall i :: 0 <= i < |c.sel| ==> c.sel[i] < |p.values|
  {
    if Better(p, c) then
      c.(found := true, bestScore := p.Score(c.sel), bestSum := Sum(p.values, c.sel), best := c.sel, last := c.sel)
    else if p.Score(c.sel) == c.bestScore then
      c.(last := c.sel)
    else
      c
  }

  lemma ProperExtensionScoresWorse(p: Problem, sel: seq<nat>, t: seq<nat>)
    requires p.Feasible(t) && sel <= t && t != sel
    requires forall i :: 0 <= i < |sel| ==> sel[i] < |p.values|
    requires p.target <= Sum(p.values, sel)
    ensures p.Score(sel) < p.Score(t)
  {
    assert t[..|sel|] == sel;
    SumExtension(p.values, t, |sel|, 0);
  }

  /** A tie that was met stays accounted for when a later tie is scored. */
  lemma ScoredKeepsTied(p: Problem, c: Search, t: seq<nat>)
    requires Recorded(p, c) && c.found && p.Feasible(c.sel) && p.Canonical(c.sel) && p.Score(c.sel) == c.bestScore
    requires p.Feasible(t) && p.Score(t) == c.bestScore && Tied(p, c, t) && Before(t, c.sel)
    ensures Tied(p, Scored(p, c), t)
  {
    var d := Scored(p, c);
    assert d.last == c.sel;
    if Sum(p.values, t) > d.bestSum {
      if !Overtaken(p, c.bestScore, t) {
        assert p.Exact(c.sel);
      }
      assert Overtaken(p, d.bestScore, t);
    }
  }

  /** What was left behind stays so when a selection is scored: anything it ties with came before it. */
  lemma ScoredKeepsBehind(p: Problem, c: Search, t: seq<nat>)
    requires Invariant(p, c) && p.Feasible(c.sel)
    requires p.Feasible(t) && !Pending(t, c.sel, c.v)
    ensures Behind(p, Scored(p, c), t)
  {
    assert Behind(p, c, t);
    assert Sum(p.values, c.sel) == p.target ==> p.Exact(c.sel);
    if p.Score(t) == p.Score(c.sel) {
      if c.sel <= t && t != c.sel {
        ProperExtensionScoresWorse(p, c.sel, t);
      }
      DoneIsBefore(|p.values|, t, c.sel, c.v);
      if p.Canonical(t) && c.bestScore == p.Score(t) {
        ScoredKeepsTied(p, c, t);
      }
    }
  }

  lemma ScoredIsRecorded(p: Problem, c: Search)
    requires Invariant(p, c) && p.Feasible(c.sel) && 0 < p.target && p.ioRatio + MAX_ASSETS < TWO_32
    ensures Recorded(p, Scored(p, c)) && Scored(p, c).found
    ensures Scored(p, c).bestScore <= p.Score(c.sel)
    ensures p.Score(c.sel) == Scored(p, c).bestScore ==> Scored(p, c).last == c.sel && Settled(p, Scored(p, c), c.sel)
    ensures p.Score(c.sel) == Scored(p, c).bestScore ==> Tied(p, Scored(p, c), c.sel)
  {
    assert Sum(p.values, c.sel) == p.target ==> p.Exact(c.sel);
  }

  lemma ScoredIsSpent(p: Problem, c: Search)
    requires Invariant(p, c) && p.Feasible(c.sel) && 0 < p.target && p.ioRatio + MAX_ASSETS < TWO_32
    ensures Spent(p, Scored(p, c))
  {
    ScoredIsRecorded(p, c);
    var d := Scored(p, c);
    forall t | p.Feasible(t) && InSubtree(t, d.sel, d.v) ensures Behind(p, d, t) {
      if t != c.sel {
        ProperExtensionScoresWorse(p, c.sel, t);
      }
    }
  }

  lemma InvariantScored(p: Problem, c: Search)
    requires Invariant(p, c) && 0 < p.target <= Sum(p.values, c.sel)
    requires p.ioRatio + MAX_ASSETS < TWO_32
    ensures Invariant(p, Scored(p, c)) && Spent(p, Scored(p, c))
    ensures Scored(p, c).found
  {
    ScoredIsRecorded(p, c);
    ScoredIsSpent(p, c);
    var d := Scored(p, c);
    forall t | p.Feasible(t) && !Pending(t, d.sel, d.v) ensures Behind(p, d, t) {
      ScoredKeepsBehind(p, c, t);
    }
  }

  /** Cut: what remains cannot bring the selection to the target. */
  lemma SpentWhenInsufficient(p: Problem, c: Search)
    requires Shape(p, c.sel, c.v) && Sum(p.values, c.sel) + SumFrom(p.values, c.v) < p.target
    ensures Spent(p, c)
  {
    forall t | p.Feasible(t) && InSubtree(t, c.sel, c.v) ensures false {
      assert t[..|c.sel|] == c.sel;
      SumExtension(p.values, t, |c.sel|, c.v);
    }
  }

  /** Cut: the target is not reached and one more input already cannot win. */
  lemma SpentWhenTooMany(p: Problem, c: Search)
    requires Invariant(p, c) && Sum(p.values, c.sel) < p.target
    requires (c.found && c.bestScore <= |c.sel|) || MAX_ASSETS <= |c.sel|
    ensures Spent(p, c)
  {
    forall t | p.Feasible(t) && InSubtree(t, c.sel, c.v) ensures Behind(p, c, t) {
      assert t != c.sel;
    }
  }
}
