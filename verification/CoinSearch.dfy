/** `wally_coinselect_assets` of src/coins.c: the search itself, and what its
    results promise. */
module CoinSearch {
  import opened Common
  import opened CoinSelection

  /** A canonical minimum-score selection that the search meets after every exact one. */
  ghost predicate Late(p: Problem, t: seq<nat>) {
    && p.Optimal(t) && p.Canonical(t)
    && forall e :: p.Exact(e) && p.Optimal(e) && p.Canonical(e) ==> !Before(t, e)
  }

  /** What an exhausted search returns: of the minimum-score selections, one with the
      largest sum that a late one has. */
  ghost predicate BestPossible(p: Problem, s: seq<nat>) {
    if s == [] then
      forall t :: !p.Feasible(t)
    else
      && p.Optimal(s)
      && (exists t :: Late(p, t) && Sum(p.values, t) == Sum(p.values, s))
      && (forall t :: Late(p, t) ==> Sum(p.values, t) <= Sum(p.values, s))
      && (p.ExactScore(p.Score(s)) || forall t :: p.Optimal(t) ==> Sum(p.values, t) <= Sum(p.values, s))
  }

  lemma BeforeIsAsymmetric(t: seq<nat>, u: seq<nat>)
    requires Before(t, u)
    ensures !Before(u, t)
  {
    var j :| 0 <= j < |t| && j < |u| && t[..j] == u[..j] && t[j] < u[j];
    forall k | 0 <= k < |u| && k < |t| ensures u[..k] != t[..k] || t[k] <= u[k] {
      if j < k {
        assert t[..k][j] == t[j] && u[..k][j] == u[j];
      } else if k < j {
        assert t[..j][k] == t[k] && u[..j][k] == u[k];
      }
    }
  }

  /** The result is late itself, or ties with the last selection scored, which is. */
  lemma SomeLateTies(p: Problem, c: Search)
    requires c.found && Recorded(p, c) && p.Optimal(c.best) && p.Optimal(c.last)
    requires forall t :: p.Feasible(t) ==> Behind(p, c, t)
    ensures exists t :: Late(p, t) && Sum(p.values, t) == Sum(p.values, c.best)
  {
    var t := if p.Exact(c.best) then c.last else c.best;
    forall e | p.Exact(e) && p.Optimal(e) && p.Canonical(e) ensures !Before(t, e) {
      assert Behind(p, c, e) && Tied(p, c, e);
      if e != t {
        BeforeIsAsymmetric(e, t);
      }
    }
    assert Late(p, t);
  }

  lemma LateSumsAreLess(p: Problem, c: Search, t: seq<nat>)
    requires c.found && Recorded(p, c) && p.Optimal(c.best) && p.Optimal(c.last)
    requires Late(p, t) && p.Score(t) == c.bestScore && Behind(p, c, t)
    ensures Sum(p.values, t) <= Sum(p.values, c.best)
  {
    forall e | p.Exact(e) && p.Canonical(e) && p.Score(e) == c.bestScore ensures !Before(t, e) {
      assert p.Optimal(e);
    }
    assert !Overtaken(p, c.bestScore, t);
  }

  lemma SearchedAllFound(p: Problem, c: Search)
    requires c.found && Recorded(p, c) && 0 < p.target
    requires forall t :: p.Feasible(t) ==> Behind(p, c, t)
    ensures BestPossible(p, c.best)
  {
    assert p.Optimal(c.best) && p.Optimal(c.last);
    SomeLateTies(p, c);
    forall t | p.Optimal(t) ensures p.Feasible(t) && Behind(p, c, t) && p.Score(t) == c.bestScore {
      assert p.Feasible(t);
    }
    forall t | Late(p, t) ensures Sum(p.values, t) <= Sum(p.values, c.best) {
      LateSumsAreLess(p, c, t);
    }
  }

  /** The search backtracked past its first index: nothing is left to visit. */
  lemma SearchedAll(p: Problem, c: Search)
    requires Invariant(p, c) && Spent(p, c) && c.sel == [] && 0 < p.target
    ensures BestPossible(p, c.best)
  {
    forall t | p.Feasible(t) ensures Behind(p, c, t) {
      if !InSubtree(t, c.sel, c.v) {
        assert !Pending(t, c.sel, c.v);
      }
    }
    if c.found {
      SearchedAllFound(p, c);
    }
  }

  /** Of single exact inputs the one furthest down is late. */
  lemma {:induction false} LateSingle(p: Problem, k: nat)
    requires p.Optimal([k]) && p.Exact([k]) && p.Score([k]) == 1
    requires forall i :: k < i < |p.values| ==> p.values[i] != p.target
    ensures Late(p, [k])
  {
    forall t | p.Exact(t) && p.Optimal(t) ensures !Before([k], t) {
      assert p.Score(t) == 1 && t == [t[0]];
      assert Sum(p.values, [t[0]]) == p.values[t[0]];
    }
  }

  /** A single exact input cannot be improved on, so stopping at it is safe. */
  lemma {:induction false} PerfectSelection(p: Problem, k: nat)
    requires 0 < p.target && 0 < p.ioRatio && k < |p.values| && p.values[k] == p.target
    ensures BestPossible(p, [k])
    decreases |p.values| - k
  {
    assert Sum(p.values, [k]) == p.target;
    assert p.Exact([k]) && p.Score([k]) == 1;
    forall t | p.Feasible(t) ensures 1 <= p.Score(t) && (p.Score(t) == 1 ==> p.Exact(t)) {
      assert t != [];
    }
    assert p.Optimal([k]);
    forall t | p.Optimal(t) ensures Sum(p.values, t) == p.target {
      assert p.Feasible(t) && p.Score(t) == 1;
    }
    if i :| k < i < |p.values| && p.values[i] == p.target {
      PerfectSelection(p, i);
      var t :| Late(p, t) && Sum(p.values, t) == Sum(p.values, [i]);
    } else {
      LateSingle(p, k);
    }
  }

  /** Values in descending order, or few enough for the input cap not to matter. */
  ghost predicate GreedyFinds(values: seq<nat>) {
    Descending(values) || |values| <= MAX_ASSETS
  }

  /** The run down the first values fills all 256 inputs without reaching the target. */
  ghost predicate CapReached(p: Problem) {
    MAX_ASSETS < |p.values| && Sum(p.values, Iota(MAX_ASSETS)) < p.target
  }

  lemma NothingWithinCap(p: Problem)
    requires CapReached(p) && GreedyFinds(p.values)
    ensures forall t :: !p.Feasible(t)
  {
    forall t | p.Feasible(t) ensures false {
      FirstValuesAreLargest(p.values, t, MAX_ASSETS);
    }
  }

  lemma NothingWithinTotal(p: Problem)
    requires SumFrom(p.values, 0) < p.target
    ensures forall t :: !p.Feasible(t)
  {
    forall t | p.Feasible(t) ensures false {
      SumExtension(p.values, t, 0, 0);
    }
  }

  /** A solution exists exactly when the total reaches the target and, past 256
      values, the largest 256 do. */
  lemma SolvableExactly(p: Problem)
    requires GreedyFinds(p.values) && 0 < p.target
    ensures (exists t :: p.Feasible(t)) <==> p.target <= SumFrom(p.values, 0) && !CapReached(p)
  {
    if SumFrom(p.values, 0) < p.target {
      NothingWithinTotal(p);
    } else if CapReached(p) {
      NothingWithinCap(p);
    } else {
      var k := if |p.values| <= MAX_ASSETS then |p.values| else MAX_ASSETS;
      SumIotaFrom(p.values, k);
      assert p.Feasible(Iota(k));
    }
  }

  lemma {:induction false} OnesAddUp(n: nat, v: nat)
    requires v <= n
    ensures SumFrom(seq(n, _ => 1), v) == n - v
    decreases n - v
  {
    if v < n {
      OnesAddUp(n, v + 1);
    }
  }

  /** 256 ones reach a target of 256, the largest number of inputs. */
  lemma CapInputs()
    ensures Problem(seq(256, _ => 1), 256, 1).Feasible(Iota(256))
  {
    OnesAddUp(256, 0);
    SumIotaFrom(seq(256, _ => 1), 256);
  }

  /** 257 ones and a target of 257: the inputs reach the target together, and no
      solution exists within the cap, however many attempts are allowed. */
  lemma AllInputsNeeded()
    ensures var p := Problem(seq(257, _ => 1), 257, 1);
            p.Fits() && GreedyFinds(p.values) && SumFrom(p.values, 0) == p.target && forall t :: !p.Feasible(t)
  {
    var p := Problem(seq(257, _ => 1), 257, 1);
    OnesAddUp(257, 0);
    OnesAddUp(257, MAX_ASSETS);
    SumIotaFrom(p.values, MAX_ASSETS);
    SolvableExactly(p);
  }

  predicate InvalidArguments(p: Problem, attempts: nat, outLen: nat) {
    || p.values == [] || p.target == 0 || attempts < |p.values| + 1 || p.ioRatio == 0
    || (outLen < |p.values| && outLen < MAX_ASSETS)
  }

  datatype ValueRemaining = ValueRemaining(remaining: nat, value: nat)

  /** Lines 101-117: the total, and for each index the value and what remains from it on. */
  method RemainingSums(values: seq<nat>) returns (total: nat, vr: seq<ValueRemaining>)
    requires forall i :: 0 <= i < |values| ==> values[i] < TWO_64
    ensures |vr| == |values| + 1 && vr[|values|] == ValueRemaining(0, 0)
    ensures forall i :: 0 <= i < |values| ==> vr[i].value == values[i]
    ensures SumFrom(values, 0) < TWO_64 ==> total == SumFrom(values, 0)
    ensures SumFrom(values, 0) < TWO_64 ==> forall i :: 0 <= i <= |values| ==> vr[i].remaining == SumFrom(values, i)
  {
    ghost var fits := SumFrom(values, 0) < TWO_64;
    total := 0;
    for i := 0 to |values|
      invariant fits ==> total + SumFrom(values, i) == SumFrom(values, 0)
    {
      total := Wrap64(total + values[i]);
    }
    vr := [];
    var remaining: int := total;
    for i := 0 to |values|
      invariant 0 <= remaining
      invariant |vr| == i && forall j :: 0 <= j < i ==> vr[j].value == values[j]
      invariant fits ==> remaining == SumFrom(values, i) <= SumFrom(values, 0)
      invariant fits ==> forall j :: 0 <= j < i ==> vr[j].remaining == SumFrom(values, j)
    {
      vr := vr + [ValueRemaining(remaining, values[i])];
      remaining := Wrap64(remaining - values[i]);
    }
    vr := vr + [ValueRemaining(0, 0)];
  }

  lemma {:induction false} SumExtensionFits(values: seq<nat>, s: seq<nat>, v: nat)
    requires IsSelection(|values|, s) && v <= |values| && (s != [] ==> s[|s| - 1] < v)
    ensures Sum(values, s) + SumFrom(values, v) <= SumFrom(values, 0)
    decreases |s|
  {
    if s == [] {
      SumFromMonotonic(values, 0, v);
    } else {
      var k := |s| - 1;
      SumExtensionFits(values, s[..k], s[k]);
      SumFromMonotonic(values, s[k] + 1, v);
    }
  }

  // ----- one attempt of the search, on values

  datatype Outcome = Continue(next: Search) | Finished(final: Search)

  /** Lines 147-154: drop the last index and resume just after it. */
  function Backtrack(c: Search): Outcome {
    if c.sel == [] then Finished(c)
    else Continue(c.(sel := c.sel[..|c.sel| - 1], v := c.sel[|c.sel| - 1] + 1))
  }

  /** Lines 155-163: include the value at the cursor unless it would repeat an
      equivalent combination. The cursor never gets here past the last value. */
  function Forward(p: Problem, c: Search): Outcome {
    if c.v >= |p.values| then
      Finished(c)
    else if c.sel == [] || c.v == 0 || c.v - 1 == c.sel[|c.sel| - 1] || p.values[c.v] != p.values[c.v - 1] then
      Continue(c.(sel := c.sel + [c.v], v := c.v + 1))
    else
      Continue(c.(v := c.v + 1))
  }

  /** One attempt, in exact arithmetic. */
  function Attempt(p: Problem, c: Search): Outcome
    requires c.v <= |p.values| && forall i :: 0 <= i < |c.sel| ==> c.sel[i] < |p.values|
  {
    var sum := Sum(p.values, c.sel);
    if sum + SumFrom(p.values, c.v) < p.target then
      Backtrack(c)
    else if p.target <= sum then
      var d := Scored(p, c);
      if Better(p, c) && |c.sel| == 1 && sum == p.target then Finished(d) else Backtrack(d)
    else if c.bestScore <= |c.sel| || MAX_ASSETS <= |c.sel| then
      Backtrack(c)
    else
      Forward(p, c)
  }

  predicate InTree(p: Problem, c: Search) {
    c.v <= |p.values| && forall i :: 0 <= i < |c.sel| ==> c.sel[i] < |p.values|
  }

  const START: Search := Search([], 0, false, TWO_32 - 1, 0, [], [])

  /** One more attempt, unless the search has ended. */
  function Then(p: Problem, o: Outcome): Outcome {
    match o
    case Continue(c) => if InTree(p, c) then Attempt(p, c) else o
    case Finished(_) => o
  }

  /** Where `k` attempts lead. */
  function After(p: Problem, k: nat): Outcome {
    if k == 0 then Continue(START) else Then(p, After(p, k - 1))
  }

  /** `k` attempts lead to `o`. */
  ghost predicate Leads(p: Problem, k: nat, o: Outcome) {
    forall j: nat :: j == k ==> After(p, j) == o
  }

  lemma {:induction false} StaysFinished(p: Problem, j: nat, k: nat)
    requires j <= k && After(p, j).Finished?
    ensures After(p, k) == After(p, j)
    decreases k
  {
    if j < k {
      StaysFinished(p, j, k - 1);
    }
  }

  /** Until a solution is recorded the search is still running down the first
      values, unless those cannot reach the target within the cap. */
  ghost predicate Greedy(p: Problem, c: Search) {
    !c.found ==> CapReached(p) || c.sel == Iota(c.v)
  }

  /** An attempt from node (`sel`, `v`) keeps the invariant and moves strictly
      forward through the tree, or ends with nothing better left. */
  ghost predicate Progress(p: Problem, sel: seq<nat>, v: nat, o: Outcome)
    requires v <= |p.values| && forall i :: 0 <= i < |sel| ==> sel[i] < |p.values|
  {
    match o
    case Continue(d) =>
      Invariant(p, d) && NodesLeft(|p.values|, d.sel, d.v) < NodesLeft(|p.values|, sel, v)
    case Finished(d) =>
      Recorded(p, d) && BestPossible(p, d.best)
  }

  lemma BacktrackProgress(p: Problem, c: Search)
    requires Invariant(p, c) && Spent(p, c) && 0 < p.target
    ensures Progress(p, c.sel, c.v, Backtrack(c))
  {
    if c.sel == [] {
      SearchedAll(p, c);
      assert Backtrack(c) == Finished(c);
    } else {
      var d := c.(sel := c.sel[..|c.sel| - 1], v := c.sel[|c.sel| - 1] + 1);
      InvariantBacktrack(p, c);
      BacktrackAdvances(|p.values|, c.sel, c.v);
      assert Backtrack(c) == Continue(d);
    }
  }

  lemma PerfectProgress(p: Problem, c: Search)
    requires Invariant(p, c) && p.Fits() && 0 < p.target == Sum(p.values, c.sel) && 0 < p.ioRatio
    requires Better(p, c) && |c.sel| == 1
    ensures Progress(p, c.sel, c.v, Finished(Scored(p, c)))
  {
    InvariantScored(p, c);
    var k := c.sel[0];
    assert c.sel == [k];
    assert Sum(p.values, [k]) == p.values[k];
    PerfectSelection(p, k);
  }

  lemma ScoredProgress(p: Problem, c: Search)
    requires Invariant(p, c) && p.Fits() && 0 < p.target <= Sum(p.values, c.sel) && 0 < p.ioRatio
    ensures Progress(p, c.sel, c.v, Attempt(p, c))
  {
    var d := Scored(p, c);
    if Better(p, c) && |c.sel| == 1 && Sum(p.values, c.sel) == p.target {
      PerfectProgress(p, c);
      assert Attempt(p, c) == Finished(d);
    } else {
      InvariantScored(p, c);
      BacktrackProgress(p, d);
      assert Attempt(p, c) == Backtrack(d);
    }
  }

  lemma ContinueProgress(p: Problem, sel: seq<nat>, v: nat, d: Search)
    requires v <= |p.values| && (forall i :: 0 <= i < |sel| ==> sel[i] < |p.values|)
    requires Invariant(p, d) && NodesLeft(|p.values|, d.sel, d.v) < NodesLeft(|p.values|, sel, v)
    ensures Progress(p, sel, v, Continue(d))
  {
  }

  lemma IncludeProgress(p: Problem, c: Search)
    requires Invariant(p, c) && c.v < |p.values| && |c.sel| < MAX_ASSETS
    requires c.sel == [] || c.v - 1 == c.sel[|c.sel| - 1] || p.values[c.v] != p.values[c.v - 1]
    ensures Progress(p, c.sel, c.v, Continue(c.(sel := c.sel + [c.v], v := c.v + 1)))
  {
    InvariantInclude(p, c);
    IncludeAdvances(|p.values|, c.sel, c.v);
    ContinueProgress(p, c.sel, c.v, c.(sel := c.sel + [c.v], v := c.v + 1));
  }

  lemma OmitProgress(p: Problem, c: Search)
    requires Invariant(p, c) && 0 < c.v < |p.values| && c.sel != []
    requires c.v - 1 != c.sel[|c.sel| - 1] && p.values[c.v] == p.values[c.v - 1]
    ensures Progress(p, c.sel, c.v, Continue(c.(v := c.v + 1)))
  {
    InvariantOmit(p, c);
    OmitAdvances(|p.values|, c.sel, c.v);
    ContinueProgress(p, c.sel, c.v, c.(v := c.v + 1));
  }

  lemma CursorIsPast(p: Problem, c: Search)
    requires Invariant(p, c)
    ensures c.sel != [] ==> c.sel[|c.sel| - 1] < c.v
  {
  }

  lemma ForwardProgress(p: Problem, c: Search)
    requires Invariant(p, c) && c.v < |p.values| && |c.sel| < MAX_ASSETS
    ensures Progress(p, c.sel, c.v, Forward(p, c))
  {
    CursorIsPast(p, c);
    if c.sel == [] || c.v - 1 == c.sel[|c.sel| - 1] || p.values[c.v] != p.values[c.v - 1] {
      IncludeProgress(p, c);
      assert Forward(p, c) == Continue(c.(sel := c.sel + [c.v], v := c.v + 1));
    } else {
      OmitProgress(p, c);
      assert Forward(p, c) == Continue(c.(v := c.v + 1));
    }
  }

  lemma AttemptProgress(p: Problem, c: Search)
    requires Invariant(p, c) && p.Fits() && 0 < p.target && 0 < p.ioRatio
    ensures Progress(p, c.sel, c.v, Attempt(p, c))
  {
    var sum := Sum(p.values, c.sel);
    if sum + SumFrom(p.values, c.v) < p.target {
      SpentWhenInsufficient(p, c);
      BacktrackProgress(p, c);
      assert Attempt(p, c) == Backtrack(c);
    } else if p.target <= sum {
      ScoredProgress(p, c);
    } else if c.bestScore <= |c.sel| || MAX_ASSETS <= |c.sel| {
      SpentWhenTooMany(p, c);
      BacktrackProgress(p, c);
      assert Attempt(p, c) == Backtrack(c);
    } else {
      ForwardProgress(p, c);
      assert Attempt(p, c) == Forward(p, c);
    }
  }

  /** While nothing is recorded, an attempt takes the next value, records the
      selection or runs into the cap. */
  lemma AttemptKeepsGreedy(p: Problem, c: Search)
    requires Shape(p, c.sel, c.v) && Recorded(p, c) && Greedy(p, c)
    requires p.Fits() && 0 < p.target <= SumFrom(p.values, 0)
    ensures match Attempt(p, c)
            case Continue(d) => Greedy(p, d) && (c.found || d.found || CapReached(p) || d.v == c.v + 1)
            case Finished(d) => d.found || CapReached(p)
  {
    if !c.found && !CapReached(p) {
      SumIotaFrom(p.values, c.v);
      assert Iota(c.v + 1) == Iota(c.v) + [c.v];
      if p.target <= Sum(p.values, c.sel) {
        assert Better(p, c);
      } else {
        assert |c.sel| < MAX_ASSETS && c.v < |p.values|;
        assert Attempt(p, c) == Forward(p, c);
      }
    }
  }

  /** The loop's variables are those of the search at `c`. */
  ghost predicate InStep(p: Problem, c: Search, sel: seq<nat>, v: nat, sum: int, bestScore: nat, bestSum: nat,
        best: seq<nat>) {
    match c
    case Search(cSel, cV, _, cScore, cSum, cBest, _) =>
      && cSel == sel && cV == v <= |p.values| && (forall i :: 0 <= i < |sel| ==> sel[i] < |p.values|)
      && sum == Sum(p.values, sel)
      && cScore == bestScore && cSum == bestSum && cBest == best
  }

  /** The suffix sums in exact arithmetic. */
  ghost predicate ExactSums(p: Problem, vr: seq<ValueRemaining>) {
    && |vr| == |p.values| + 1
    && (forall i :: 0 <= i <= |p.values| ==> vr[i].remaining == SumFrom(p.values, i))
  }

  /** Lines 120-145: decide whether to backtrack, recording a selection that is
      better than the best so far. */
  method Examine(p: Problem, ghost c: Search, vr: seq<ValueRemaining>, sum: int, v: nat, indices: array<nat>, ii: nat,
                 bestScore: nat, bestSum: nat, written: nat, indicesOut: array<nat>)
    returns (backtrack: bool, perfect: bool, newScore: nat, newSum: nat, newWritten: nat, ghost d: Search)
    requires ii <= v < |vr| == |p.values| + 1 && 0 <= sum < TWO_64 && indices != indicesOut
    requires ii <= indices.Length && ii <= MAX_ASSETS && (ii <= indicesOut.Length || MAX_ASSETS <= indicesOut.Length)
    requires written <= indicesOut.Length && written <= MAX_ASSETS
    requires IsSelection(|p.values|, indices[..ii]) && IsSelection(|p.values|, indicesOut[..written])
    requires p.Fits() ==> ExactSums(p, vr)
    requires p.Fits() ==> InStep(p, c, indices[..ii], v, sum, bestScore, bestSum, indicesOut[..written])
    requires p.Fits() ==> sum + SumFrom(p.values, v) < TWO_64
    modifies indicesOut
    ensures newWritten <= indicesOut.Length && newWritten <= MAX_ASSETS
    ensures IsSelection(|p.values|, indicesOut[..newWritten])
    ensures vr[v].remaining == 0 ==> backtrack || perfect
    ensures !backtrack && !perfect ==> ii < MAX_ASSETS
    ensures p.Fits() ==> InStep(p, d, indices[..ii], v, sum, newScore, newSum, indicesOut[..newWritten])
    ensures p.Fits() && perfect ==> Attempt(p, c) == Finished(d)
    ensures p.Fits() && backtrack && !perfect ==> Attempt(p, c) == Backtrack(d)
    ensures p.Fits() && !backtrack && !perfect ==> d == c && Attempt(p, c) == Forward(p, c)
  {
    backtrack, perfect, newScore, newSum, newWritten, d := false, false, bestScore, bestSum, written, c;
    if Wrap64(sum + vr[v].remaining) < p.target {
      backtrack := true;
    } else if sum >= p.target {
      var score := Wrap32(ii + if sum == p.target then 0 else p.ioRatio);
      if p.Fits() {
        d := Scored(p, c);
      }
      if score < bestScore || (score == bestScore && (sum > bestSum || (sum == p.target && bestSum != p.target))) {
        newScore, newSum, newWritten := score, sum, ii;
        forall i | 0 <= i < ii {
          indicesOut[i] := indices[i];
        }
        assert indicesOut[..newWritten] == indices[..ii];
        perfect := sum == p.target && ii == 1;
      }
      backtrack := true;
    } else if ii >= bestScore || ii >= MAX_ASSETS {
      backtrack := true;
    }
  }

  /** The loop's variables after a move are those of its outcome. */
  ghost predicate Moved(p: Problem, d: Search, o: Outcome, done: bool, sel: seq<nat>, v: nat, sum: int) {
    match o
    case Finished(e) => done && e == d
    case Continue(e) =>
      && !done && e == d.(sel := sel, v := v) && (forall i :: 0 <= i < |sel| ==> sel[i] < |p.values|)
      && sum == Sum(p.values, sel)
  }

  lemma BacktrackMoved(p: Problem, d: Search, v: nat, sum: int)
    requires (forall i :: 0 <= i < |d.sel| ==> d.sel[i] < |p.values|) && d.sel != []
    requires v == d.sel[|d.sel| - 1] && sum == Sum(p.values, d.sel) - p.values[v]
    ensures Moved(p, d, Backtrack(d), false, d.sel[..|d.sel| - 1], v + 1, sum)
  {
  }

  lemma ForwardMoved(p: Problem, d: Search, taken: bool, sum: int)
    requires (forall i :: 0 <= i < |d.sel| ==> d.sel[i] < |p.values|) && d.v < |p.values|
    requires taken <==> d.sel == [] || d.v == 0 || d.v - 1 == d.sel[|d.sel| - 1] || p.values[d.v] != p.values[d.v - 1]
    requires sum == Sum(p.values, d.sel) + if taken then p.values[d.v] else 0
    ensures Moved(p, d, Forward(p, d), false, if taken then d.sel + [d.v] else d.sel, d.v + 1, sum)
  {
    SumAppend(p.values, d.sel, d.v);
  }

  /** Lines 148-154: drop the last index, walk the cursor back to it and take its value off the sum. */
  method StepBack(p: Problem, ghost d: Search, vr: seq<ValueRemaining>, sum: int, v: nat, indices: array<nat>, ii: nat)
    returns (newSum: int, newV: nat)
    requires 0 < ii <= indices.Length && v < |vr| == |p.values| + 1 && 0 <= sum < TWO_64
    requires forall i :: 0 <= i < |p.values| ==> vr[i].value == p.values[i]
    requires IsSelection(|p.values|, indices[..ii]) && indices[ii - 1] < v
    requires p.Fits() ==> d.sel == indices[..ii] && sum == Sum(p.values, d.sel)
    ensures ii - 1 <= newV < |p.values| && 0 <= newSum < TWO_64
    ensures IsSelection(|p.values|, indices[..ii - 1]) && (ii > 1 ==> indices[ii - 2] < newV)
    ensures p.Fits() ==> Moved(p, d, Backtrack(d), false, indices[..ii - 1], newV + 1, newSum)
  {
    newV := v - 1;
    while newV > indices[ii - 1]
      invariant indices[ii - 1] <= newV < v
    {
      newV := newV - 1;
    }
    newSum := Wrap64(sum - vr[newV].value);
    IndexAtLeastPosition(|p.values|, indices[..ii], ii - 1);
    assert indices[..ii][..ii - 1] == indices[..ii - 1];
    if p.Fits() {
      BacktrackMoved(p, d, newV, newSum);
    }
  }

  /** Lines 155-161: include the value at the cursor unless that repeats an equivalent combination. */
  method StepForward(p: Problem, ghost d: Search, vr: seq<ValueRemaining>, sum: int, v: nat, indices: array<nat>,
        ii: nat)
    returns (newSum: int, newIi: nat)
    requires ii < indices.Length && ii <= v < |p.values| && |vr| == |p.values| + 1 && 0 <= sum < TWO_64
    requires forall i :: 0 <= i < |p.values| ==> vr[i].value == p.values[i]
    requires IsSelection(|p.values|, indices[..ii]) && (ii > 0 ==> indices[ii - 1] < v)
    requires p.Fits() ==> d.sel == indices[..ii] && d.v == v && sum == Sum(p.values, d.sel)
    requires p.Fits() ==> sum + p.values[v] < TWO_64
    modifies indices
    ensures 0 <= newSum < TWO_64 && ii <= newIi <= ii + 1 && newIi <= indices.Length
    ensures IsSelection(|p.values|, indices[..newIi]) && (newIi > 0 ==> indices[newIi - 1] <= v)
    ensures p.Fits() ==> Moved(p, d, Forward(p, d), false, indices[..newIi], v + 1, newSum)
  {
    newSum, newIi := sum, ii;
    ghost var sel := indices[..ii];
    if ii == 0 || v - 1 == indices[ii - 1] || vr[v].value != vr[v - 1].value {
      indices[ii] := v;
      newIi := ii + 1;
      newSum := Wrap64(sum + vr[v].value);
      assert indices[..newIi] == sel + [v];
    }
    if p.Fits() {
      ForwardMoved(p, d, newIi == ii + 1, newSum);
    }
  }

  /** The search after some attempts: its invariant holds, as many nodes of the tree
      are behind it, and until a solution is recorded it takes a value an attempt. */
  ghost predicate Live(p: Problem, c: Search, attempt: nat) {
    match c
    case Search(sel, v, found, _, _, _, _) =>
      && Invariant(p, c) && Greedy(p, c)
      && attempt + NodesLeft(|p.values|, sel, v) <= TreeSize(|p.values|, 0)
      && (found || CapReached(p) || attempt == v)
  }

  ghost predicate Ended(p: Problem, c: Search) {
    match c
    case Search(_, _, found, _, _, best, _) =>
      Recorded(p, c) && (found || CapReached(p)) && BestPossible(p, best)
  }

  lemma LiveInitially(p: Problem)
    requires 0 < p.target
    ensures Live(p, START, 0)
  {
    InvariantInitially(p, START);
  }

  /** After `k` attempts the search is live or has ended with the best. */
  ghost predicate Lasting(p: Problem, o: Outcome, k: nat) {
    match o
    case Continue(c) => Live(p, c, k)
    case Finished(c) => Ended(p, c)
  }

  lemma LiveNext(p: Problem, c: Search, attempt: nat)
    requires Live(p, c, attempt) && InTree(p, c) && p.Fits() && 0 < p.target <= SumFrom(p.values, 0) && 0 < p.ioRatio
    ensures Lasting(p, Attempt(p, c), attempt + 1)
  {
    AttemptProgress(p, c);
    AttemptKeepsGreedy(p, c);
  }

  lemma LiveInTree(p: Problem, c: Search, k: nat)
    requires Live(p, c, k)
    ensures InTree(p, c)
  {
  }

  lemma LastingThen(p: Problem, o: Outcome, k: nat)
    requires Lasting(p, o, k) && p.Fits() && 0 < p.target <= SumFrom(p.values, 0) && 0 < p.ioRatio
    ensures Lasting(p, Then(p, o), k + 1)
  {
    match o
    case Continue(c) =>
      LiveInTree(p, c, k);
      LiveNext(p, c, k);
    case Finished(_) =>
  }

  lemma {:induction false} AfterIsLive(p: Problem, k: nat)
    requires p.Fits() && 0 < p.target <= SumFrom(p.values, 0) && 0 < p.ioRatio
    ensures Lasting(p, After(p, k), k)
  {
    if k == 0 {
      LiveInitially(p);
    } else {
      AfterIsLive(p, k - 1);
      LastingThen(p, After(p, k - 1), k - 1);
    }
  }

  /** Every index was taken with the target out of reach of those before it, but in reach of all
      that remained. */
  predicate Needed(p: Problem, sel: seq<nat>)
    requires forall i :: 0 <= i < |sel| ==> sel[i] < |p.values|
  {
    forall j :: 0 <= j < |sel| ==>
      Sum(p.values, sel[..j]) < p.target <= Sum(p.values, sel[..j]) + SumFrom(p.values, sel[j])
  }

  lemma NeededPrefix(p: Problem, sel: seq<nat>, k: nat)
    requires (forall i :: 0 <= i < |sel| ==> sel[i] < |p.values|) && Needed(p, sel) && k <= |sel|
    ensures Needed(p, sel[..k])
  {
    forall j | 0 <= j < k ensures sel[..k][..j] == sel[..j] && sel[..k][j] == sel[j] {
    }
  }

  lemma NeededAppend(p: Problem, sel: seq<nat>, v: nat)
    requires (forall i :: 0 <= i < |sel| ==> sel[i] < |p.values|) && Needed(p, sel) && v < |p.values|
    requires Sum(p.values, sel) < p.target <= Sum(p.values, sel) + SumFrom(p.values, v)
    ensures Needed(p, sel + [v])
  {
    forall j | 0 <= j < |sel| ensures (sel + [v])[..j] == sel[..j] && (sel + [v])[j] == sel[j] {
    }
    assert (sel + [v])[..|sel|] == sel;
  }

  /** What the cuts leave to visit: needed indices only, and no more of them than can still win. */
  predicate Pruned(p: Problem, c: Search) {
    InTree(p, c) && |c.sel| <= MAX_ASSETS && |c.sel| <= c.bestScore && Needed(p, c.sel)
  }

  ghost predicate PrunedNext(p: Problem, o: Outcome) {
    match o
    case Continue(d) => Pruned(p, d)
    case Finished(_) => true
  }

  lemma BacktrackPruned(p: Problem, c: Search, d: Search)
    requires Pruned(p, c) && d.sel == c.sel && |c.sel| <= d.bestScore + 1
    ensures PrunedNext(p, Backtrack(d))
  {
    if c.sel != [] {
      NeededPrefix(p, c.sel, |c.sel| - 1);
    }
  }

  lemma ForwardPruned(p: Problem, c: Search)
    requires Pruned(p, c) && |c.sel| < MAX_ASSETS && |c.sel| < c.bestScore
    requires Sum(p.values, c.sel) < p.target <= Sum(p.values, c.sel) + SumFrom(p.values, c.v)
    ensures PrunedNext(p, Forward(p, c))
  {
    if c.v < |p.values| {
      NeededAppend(p, c.sel, c.v);
    }
  }

  lemma AttemptPruned(p: Problem, c: Search)
    requires Pruned(p, c)
    ensures PrunedNext(p, Attempt(p, c))
  {
    var sum := Sum(p.values, c.sel);
    if sum + SumFrom(p.values, c.v) < p.target {
      BacktrackPruned(p, c, c);
    } else if p.target <= sum {
      BacktrackPruned(p, c, Scored(p, c));
    } else if c.bestScore <= |c.sel| || MAX_ASSETS <= |c.sel| {
      BacktrackPruned(p, c, c);
    } else {
      ForwardPruned(p, c);
    }
  }

  lemma PrunedThen(p: Problem, o: Outcome)
    requires PrunedNext(p, o)
    ensures PrunedNext(p, Then(p, o))
  {
    match o
    case Continue(c) => AttemptPruned(p, c);
    case Finished(_) =>
  }

  /** Wherever the attempts lead, only that is visited. */
  lemma {:induction false} AfterIsPruned(p: Problem, k: nat)
    ensures PrunedNext(p, After(p, k))
  {
    if k > 0 {
      AfterIsPruned(p, k - 1);
      PrunedThen(p, After(p, k - 1));
    }
  }

  lemma AfterFits(p: Problem, c: Search, attempt: nat)
    requires Leads(p, attempt, Continue(c))
    requires p.Fits() && 0 < p.target <= SumFrom(p.values, 0) && 0 < p.ioRatio
    ensures InTree(p, c) && Sum(p.values, c.sel) + SumFrom(p.values, c.v) < TWO_64
  {
    assert After(p, attempt) == Continue(c);
    AfterIsLive(p, attempt);
    LiveInTree(p, c, attempt);
    SumExtensionFits(p.values, c.sel, c.v);
  }

  lemma AfterNext(p: Problem, c: Search, attempt: nat)
    requires Leads(p, attempt, Continue(c)) && InTree(p, c)
    ensures Leads(p, attempt + 1, Attempt(p, c))
  {
    assert After(p, attempt) == Continue(c);
  }

  lemma AfterMove(p: Problem, c: Search, attempt: nat, d: Search, o: Outcome, sel: seq<nat>, v: nat, sum: int)
    requires Leads(p, attempt, Continue(c)) && InTree(p, c)
    requires Attempt(p, c) == o && Moved(p, d, o, false, sel, v, sum) && v <= |p.values|
    ensures InStep(p, d.(sel := sel, v := v), sel, v, sum, d.bestScore, d.bestSum, d.best)
    ensures Leads(p, attempt + 1, Continue(d.(sel := sel, v := v)))
  {
    AfterNext(p, c, attempt);
  }

  lemma LeadsInitially(p: Problem)
    ensures Leads(p, 0, Continue(START))
  {
  }

  /** Running out of attempts leaves a recorded solution, unless none fits the cap. */
  lemma LiveAtEnd(p: Problem, c: Search, attempts: nat)
    requires Live(p, c, attempts) && |p.values| < attempts
    ensures Recorded(p, c) && (c.found || CapReached(p)) && attempts + 1 < Pow(2, |p.values| + 1)
  {
    TreeSizeIsPower(|p.values|, 0);
  }

  /** `s` is no worse than `t`: it scores less, or ties and has at least its change, which only
      an exact match of that score can upset. */
  ghost predicate NoWorse(p: Problem, s: seq<nat>, t: seq<nat>)
    requires p.Feasible(s) && p.Feasible(t)
  {
    || p.Score(s) < p.Score(t)
    || (p.Score(s) == p.Score(t) && (Sum(p.values, t) <= Sum(p.values, s) || p.ExactScore(p.Score(s))))
  }

  /** As many nodes as attempts are behind some node of the search tree, and no solution that the
      search has left behind there is better than `s`. */
  ghost predicate BestVisited(p: Problem, attempts: nat, s: seq<nat>) {
    exists sel: seq<nat>, v: nat ::
      && v <= |p.values| && (forall i :: 0 <= i < |sel| ==> sel[i] < |p.values|)
      && attempts + NodesLeft(|p.values|, sel, v) <= TreeSize(|p.values|, 0)
      && forall t {:trigger Pending(t, sel, v)} :: p.Feasible(t) && !Pending(t, sel, v) ==>
          p.Feasible(s) && NoWorse(p, s, t)
  }

  lemma LiveIsBest(p: Problem, c: Search, attempts: nat)
    requires Live(p, c, attempts)
    ensures BestVisited(p, attempts, c.best)
  {
    forall t | p.Feasible(t) && !Pending(t, c.sel, c.v) ensures p.Feasible(c.best) && NoWorse(p, c.best, t) {
      assert Behind(p, c, t);
    }
  }

  /** The best selection recorded. */
  function BestOf(o: Outcome): seq<nat> {
    match o
    case Continue(c) => c.best
    case Finished(c) => c.best
  }

  lemma NothingToSearch(p: Problem, attempts: nat)
    requires SumFrom(p.values, 0) < p.target && 0 < attempts
    ensures After(p, attempts) == Finished(START)
  {
    assert After(p, 0) == Continue(START);
    assert Attempt(p, START) == Backtrack(START) == Finished(START);
    assert After(p, 1) == Finished(START);
    StaysFinished(p, 1, attempts);
  }

  /** Lines 147-163: step back to the last included value, or forward over the
      current one. */
  method Move(p: Problem, ghost d: Search, vr: seq<ValueRemaining>, sum: int, v: nat, indices: array<nat>, ii: nat,
        backtrack: bool)
    returns (newSum: int, newV: nat, newIi: nat)
    requires ii <= v < |vr| == |p.values| + 1 && ii <= indices.Length && 0 <= sum < TWO_64
    requires forall i :: 0 <= i < |p.values| ==> vr[i].value == p.values[i]
    requires IsSelection(|p.values|, indices[..ii]) && (ii > 0 ==> indices[ii - 1] < v)
    requires if backtrack then 0 < ii else ii < indices.Length && v < |p.values|
    requires p.Fits() ==> d.sel == indices[..ii] && d.v == v && sum == Sum(p.values, d.sel)
    requires p.Fits() && !backtrack ==> sum + p.values[v] < TWO_64
    modifies indices
    ensures newIi <= newV <= |p.values| && newIi <= indices.Length && 0 <= newSum < TWO_64
    ensures IsSelection(|p.values|, indices[..newIi]) && (newIi > 0 ==> indices[newIi - 1] < newV)
    ensures p.Fits() ==>
              Moved(p, d, if backtrack then Backtrack(d) else Forward(p, d), false, indices[..newIi], newV, newSum)
  {
    if backtrack {
      newSum, newV := StepBack(p, d, vr, sum, v, indices, ii);
      newIi := ii - 1;
    } else {
      newV := v;
      newSum, newIi := StepForward(p, d, vr, sum, v, indices, ii);
    }
    newV := newV + 1;
  }

  /** Lines 120-163: one attempt. It either ends the search or leaves it live. */
  method TryOne(p: Problem, ghost c: Search, ghost attempt: nat, vr: seq<ValueRemaining>, sum: int, v: nat,
                indices: array<nat>, ii: nat, bestScore: nat, bestSum: nat, written: nat, indicesOut: array<nat>)
    returns (done: bool, newSum: int, newV: nat, newIi: nat, newScore: nat, newBestSum: nat, newWritten: nat,
             ghost d: Search)
    requires |vr| == |p.values| + 1 && vr[|p.values|].remaining == 0
    requires forall i :: 0 <= i < |p.values| ==> vr[i].value == p.values[i]
    requires |p.values| <= indicesOut.Length || MAX_ASSETS <= indicesOut.Length
    requires 0 < p.target && 0 < p.ioRatio && indices != indicesOut && indices.Length == MAX_ASSETS
    requires p.Fits() ==> ExactSums(p, vr) && p.target <= SumFrom(p.values, 0)
    requires ii <= MAX_ASSETS && ii <= v <= |p.values| && 0 <= sum < TWO_64
    requires IsSelection(|p.values|, indices[..ii]) && (ii > 0 ==> indices[ii - 1] < v)
    requires written <= indicesOut.Length && written <= MAX_ASSETS && IsSelection(|p.values|, indicesOut[..written])
    requires p.Fits() ==> InStep(p, c, indices[..ii], v, sum, bestScore, bestSum, indicesOut[..written])
    requires p.Fits() ==> Leads(p, attempt, Continue(c))
    modifies indices, indicesOut
    ensures newIi <= MAX_ASSETS && newIi <= newV <= |p.values| && 0 <= newSum < TWO_64
    ensures IsSelection(|p.values|, indices[..newIi]) && (newIi > 0 ==> indices[newIi - 1] < newV)
    ensures newWritten <= indicesOut.Length && newWritten <= MAX_ASSETS
    ensures IsSelection(|p.values|, indicesOut[..newWritten])
    ensures p.Fits() && !done ==>
              InStep(p, d, indices[..newIi], newV, newSum, newScore, newBestSum, indicesOut[..newWritten])
    ensures p.Fits() && !done ==> Leads(p, attempt + 1, Continue(d))
    ensures p.Fits() && done ==> Leads(p, attempt + 1, Finished(d)) && d.best == indicesOut[..newWritten]
  {
    done, newSum, newV, newIi := false, sum, v, ii;
    if p.Fits() {
      AfterFits(p, c, attempt);
    }
    var backtrack, perfect;
    backtrack, perfect, newScore, newBestSum, newWritten, d :=
      Examine(p, c, vr, sum, v, indices, ii, bestScore, bestSum, written, indicesOut);
    if perfect || (backtrack && ii == 0) {
      done := true;
      if p.Fits() {
        AfterNext(p, c, attempt);
      }
      return;
    }
    newSum, newV, newIi := Move(p, d, vr, sum, v, indices, ii, backtrack);
    if p.Fits() {
      AfterMove(p, c, attempt, d, if backtrack then Backtrack(d) else Forward(p, d), indices[..newIi], newV, newSum);
    }
    d := d.(sel := indices[..newIi], v := newV);
  }

  /** Lines 119-164: the search loop. */
  method SearchLoop(p: Problem, attempts: nat, vr: seq<ValueRemaining>, indicesOut: array<nat>)
    returns (attempt: nat, written: nat, ghost o: Outcome)
    requires |vr| == |p.values| + 1 && vr[|p.values|].remaining == 0
    requires forall i :: 0 <= i < |p.values| ==> vr[i].value == p.values[i]
    requires |p.values| <= indicesOut.Length || MAX_ASSETS <= indicesOut.Length
    requires |p.values| < attempts && 0 < p.target && 0 < p.ioRatio
    requires p.Fits() ==> ExactSums(p, vr) && p.target <= SumFrom(p.values, 0)
    modifies indicesOut
    ensures written <= indicesOut.Length && written <= MAX_ASSETS
    ensures IsSelection(|p.values|, indicesOut[..written])
    ensures attempt <= attempts && (attempt < attempts ==> o.Finished?)
    ensures p.Fits() ==> Leads(p, attempt, o) && BestOf(o) == indicesOut[..written]
  {
    written := 0;
    var indices := new nat[MAX_ASSETS];
    var sum: int, bestSum: nat, bestScore: nat, v: nat, ii: nat := 0, 0, TWO_32 - 1, 0, 0;
    ghost var c := START;
    LeadsInitially(p);
    attempt := 0;
    while attempt < attempts
      invariant ii <= MAX_ASSETS && ii <= v <= |p.values| && 0 <= sum < TWO_64 && attempt <= attempts
      invariant IsSelection(|p.values|, indices[..ii]) && (ii > 0 ==> indices[ii - 1] < v)
      invariant written <= indicesOut.Length && written <= MAX_ASSETS && IsSelection(|p.values|, indicesOut[..written])
      invariant p.Fits() ==> InStep(p, c, indices[..ii], v, sum, bestScore, bestSum, indicesOut[..written])
      invariant p.Fits() ==> Leads(p, attempt, Continue(c))
    {
      var done;
      done, sum, v, ii, bestScore, bestSum, written, c :=
        TryOne(p, c, attempt, vr, sum, v, indices, ii, bestScore, bestSum, written, indicesOut);
      attempt := attempt + 1;
      if done {
        o := Finished(c);
        return;
      }
    }
    o := Continue(c);
  }

  /** `wally_coinselect_assets`. The ghost result says whether the search ended by
      one of its two `break`s rather than by running out of attempts. */
  method CoinSelectAssets(p: Problem, attempts: nat, indicesOut: array<nat>)
    returns (ret: Status, written: nat, ghost exhausted: bool)
    requires |p.values| < TWO_32 && p.target < TWO_64 && p.ioRatio < TWO_32
    requires forall i :: 0 <= i < |p.values| ==> p.values[i] < TWO_64
    modifies indicesOut
    ensures ret == if |p.values| == 0 || p.target == 0 || attempts <= |p.values| || p.ioRatio == 0 then Invalid
                   else if indicesOut.Length < |p.values| && indicesOut.Length < 256 then Invalid else Ok
    ensures ret == Invalid ==> written == 0 && indicesOut[..] == old(indicesOut[..])
    // Whatever the arithmetic does, the result is a selection of at most 256 inputs.
    ensures written <= indicesOut.Length && written <= MAX_ASSETS
    ensures IsSelection(|p.values|, indicesOut[..written])
    // A non-empty result reaches the target.
    ensures ret == Ok && p.Fits() && written > 0 ==> p.Feasible(indicesOut[..written])
    // The result is where exactly so many attempts lead, unless fewer exhaust the search.
    ensures ret == Ok && p.Fits() ==> exhausted == After(p, attempts).Finished?
    ensures ret == Ok && p.Fits() ==> indicesOut[..written] == BestOf(After(p, attempts))
    // Running out of attempts, it is the best of all that they left behind.
    ensures ret == Ok && p.Fits() && !exhausted ==> BestVisited(p, attempts, indicesOut[..written])
    // An exhausted search is optimal, and enough attempts always exhaust it.
    ensures ret == Ok && p.Fits() && exhausted ==> BestPossible(p, indicesOut[..written])
    ensures ret == Ok && p.Fits() && Pow(2, |p.values| + 1) <= attempts + 1 ==> exhausted
    // However few the attempts, a solution is found if the total reaches the target and the
    // first 256 values suffice when there are more; in descending order, or up to 256 values,
    // exactly then, which is exactly when there is a solution.
    ensures ret == Ok && p.Fits() && p.target <= SumFrom(p.values, 0) && !CapReached(p) ==> written > 0
    ensures ret == Ok && p.Fits() && GreedyFinds(p.values) ==>
              (written > 0 <==> p.target <= SumFrom(p.values, 0) && !CapReached(p))
    ensures ret == Ok && p.Fits() && GreedyFinds(p.values) ==> (written > 0 <==> exists t :: p.Feasible(t))
  {
    written, exhausted := 0, false;
    if InvalidArguments(p, attempts, indicesOut.Length) {
      return Invalid, 0, false;
    }
    ret := Ok;
    if GreedyFinds(p.values) {
      SolvableExactly(p);
    }
    var remaining, vr := RemainingSums(p.values);
    if remaining < p.target {
      if p.Fits() {
        NothingWithinTotal(p);
        NothingToSearch(p, attempts);
      }
      return Ok, 0, true;
    }
    var attempt;
    ghost var o;
    attempt, written, o := SearchLoop(p, attempts, vr, indicesOut);
    exhausted := o.Finished?;
    if p.Fits() {
      AfterIsLive(p, attempts);
      if exhausted {
        StaysFinished(p, attempt, attempts);
      } else {
        LiveAtEnd(p, o.next, attempts);
        LiveIsBest(p, o.next, attempts);
      }
    }
  }
}
