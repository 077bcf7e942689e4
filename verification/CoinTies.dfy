/** The documented preferences of src/coins.c:45-50, as far as the code keeps them. */
module CoinTies {
  import opened Common
  import opened CoinSelection
  import opened CoinSearch

  /** No solution takes fewer than `k` inputs. */
  ghost predicate LeastCount(p: Problem, k: nat) {
    forall t :: p.Feasible(t) ==> k <= |t|
  }

  /** Some exact minimum-score selection that equivalence does not rule out comes after every
      change-generating one. */
  ghost predicate ExactComesLast(p: Problem) {
    exists e :: p.Exact(e) && p.Optimal(e) && p.Canonical(e) &&
                forall t :: p.Optimal(t) && p.Canonical(t) && !p.Exact(t) ==> !Before(e, t)
  }

  lemma BeforeIsTransitive(t: seq<nat>, u: seq<nat>, w: seq<nat>)
    requires Before(t, u) && Before(u, w)
    ensures Before(t, w)
  {
    var i :| 0 <= i < |t| && i < |u| && t[..i] == u[..i] && t[i] < u[i];
    var j :| 0 <= j < |u| && j < |w| && u[..j] == w[..j] && u[j] < w[j];
    if i <= j {
      assert t[..i] == u[..j][..i] == w[..i];
      assert i < j ==> u[..j][i] == w[..j][i];
    } else {
      assert t[..j] == u[..i][..j] == w[..j];
      assert t[..i][j] == u[..i][j];
    }
  }

  lemma {:induction false} BeforeIsTotal(t: seq<nat>, u: seq<nat>, m: nat)
    requires m <= |t| && m <= |u| && t[..m] == u[..m]
    ensures t <= u || u <= t || Before(t, u) || Before(u, t)
    decreases |t| - m
  {
    if m < |t| && m < |u| && t[m] == u[m] {
      assert t[..m + 1] == u[..m + 1];
      BeforeIsTotal(t, u, m + 1);
    }
  }

  /** Neither of two different minimum-score selections extends the other. */
  lemma OptimalAreOrdered(p: Problem, t: seq<nat>, u: seq<nat>)
    requires p.Optimal(t) && p.Optimal(u) && t != u
    ensures Before(t, u) || Before(u, t)
  {
    BeforeIsTotal(t, u, 0);
    if t <= u {
      ProperExtensionScoresWorse(p, t, u);
    } else if u <= t {
      ProperExtensionScoresWorse(p, u, t);
    }
  }

  lemma LateAfterLate(p: Problem, t: seq<nat>, u: seq<nat>)
    requires Late(p, t) && p.Optimal(u) && p.Canonical(u) && Before(t, u)
    ensures Late(p, u)
  {
    forall e | p.Exact(e) && p.Optimal(e) && p.Canonical(e) ensures !Before(u, e) {
      if Before(u, e) {
        BeforeIsTransitive(t, u, e);
      }
    }
  }

  /** A late selection that is exact comes after every change-generating one. */
  lemma LateExactIsLast(p: Problem, t: seq<nat>)
    requires Late(p, t) && p.Exact(t)
    requires forall u :: Late(p, u) ==> Sum(p.values, u) <= p.target
    ensures ExactComesLast(p)
  {
    forall u | p.Optimal(u) && p.Canonical(u) && !p.Exact(u) ensures !Before(t, u) {
      if Before(t, u) {
        LateAfterLate(p, t, u);
      }
    }
  }

  /** An exhausted search returns an exact match exactly when one of minimum score comes last. */
  lemma ExactExactly(p: Problem, s: seq<nat>)
    requires s != [] && BestPossible(p, s)
    ensures p.Exact(s) <==> ExactComesLast(p)
  {
    var t :| Late(p, t) && Sum(p.values, t) == Sum(p.values, s);
    if p.Exact(s) {
      LateExactIsLast(p, t);
    } else if e :| p.Exact(e) && p.Optimal(e) && p.Canonical(e) &&
                   forall u :: p.Optimal(u) && p.Canonical(u) && !p.Exact(u) ==> !Before(e, u) {
      OptimalAreOrdered(p, e, t);
    }
  }

  /** An exact match that takes up to `ioRatio` extra inputs: with fewer than that it is always
      preferred, with exactly that many when an exact one comes last. */
  lemma ExactMatchPreferred(p: Problem, k: nat, e: seq<nat>, s: seq<nat>)
    requires LeastCount(p, k) && p.Exact(e) && |e| <= k + p.ioRatio
    requires s != [] && BestPossible(p, s)
    ensures |e| < k + p.ioRatio ==> p.Exact(s)
    ensures p.Exact(s) <==> ExactComesLast(p)
  {
    assert p.Feasible(e) && p.Optimal(s);
    ExactExactly(p, s);
  }

  /** `s` has the largest sum, and so the largest change, of all minimum-score selections. */
  ghost predicate LargestOptimal(p: Problem, s: seq<nat>) {
    p.Optimal(s) && forall t :: p.Optimal(t) ==> Sum(p.values, t) <= Sum(p.values, s)
  }

  /** The larger change is preferred exactly when a selection that has it is late: with no
      exact match of minimum score, or with one that comes before it. */
  lemma LargerChangeExactly(p: Problem, s: seq<nat>)
    requires s != [] && BestPossible(p, s)
    ensures LargestOptimal(p, s) <==> exists t :: LargestOptimal(p, t) && Late(p, t)
    ensures !p.ExactScore(p.Score(s)) ==> LargestOptimal(p, s)
  {
    var t :| Late(p, t) && Sum(p.values, t) == Sum(p.values, s);
    if LargestOptimal(p, s) {
      assert LargestOptimal(p, t);
    }
  }

  /** Between two change-generating results of equal size the larger change is preferred. */
  lemma LargerChangePreferred(p: Problem, s: seq<nat>, t: seq<nat>)
    requires BestPossible(p, s) && !p.ExactScore(p.Score(s))
    requires p.Feasible(t) && !p.Exact(t) && |t| == |s|
    ensures Sum(p.values, t) <= Sum(p.values, s)
  {
    assert p.Feasible(s) && p.Optimal(s);
    assert !p.Exact(s);
    assert p.Score(t) == p.Score(s);
    assert p.Optimal(t);
  }

  const TIE: Problem := Problem([10, 9, 5, 1, 1], 12, 1)

  function TieValue(i: nat): nat {
    if i == 0 then 10 else if i == 1 then 9 else if i == 2 then 5 else 1
  }

  lemma TieSum1(i: nat)
    requires i < 5
    ensures Sum(TIE.values, [i]) == TieValue(i)
  {
    assert [i][..0] == [];
  }

  lemma TieSum2(i: nat, j: nat)
    requires i < j < 5
    ensures Sum(TIE.values, [i, j]) == TieValue(i) + TieValue(j)
  {
    assert [i, j][..1] == [i];
    TieSum1(i);
  }

  lemma TieSum3(i: nat, j: nat, k: nat)
    requires i < j < k < 5
    ensures Sum(TIE.values, [i, j, k]) == TieValue(i) + TieValue(j) + TieValue(k)
  {
    assert [i, j, k][..2] == [i, j];
    TieSum2(i, j);
  }

  lemma TiePairs(t: seq<nat>)
    requires IsSelection(5, t) && |t| <= 2 && 12 <= Sum(TIE.values, t)
    ensures t == [0, 1] || t == [0, 2] || t == [1, 2]
    ensures Sum(TIE.values, t) != 12
  {
    if |t| == 1 {
      assert t == [t[0]];
      TieSum1(t[0]);
    } else if |t| == 2 {
      assert t == [t[0], t[1]];
      TieSum2(t[0], t[1]);
    }
  }

  lemma TieExact(t: seq<nat>)
    requires IsSelection(5, t) && |t| == 3 && Sum(TIE.values, t) == 12
    ensures t == [0, 3, 4]
  {
    assert t == [t[0], t[1], t[2]];
    TieSum3(t[0], t[1], t[2]);
  }

  lemma TieFeasible(t: seq<nat>)
    requires TIE.Feasible(t)
    ensures 2 <= |t| && 3 <= TIE.Score(t)
    ensures TIE.Score(t) == 3 ==> t == [0, 3, 4] || t == [0, 1] || t == [0, 2] || t == [1, 2]
    ensures TIE.Score(t) == 3 ==> (TIE.Exact(t) <==> t == [0, 3, 4])
  {
    if |t| <= 2 {
      TiePairs(t);
    } else if |t| == 3 && Sum(TIE.values, t) == 12 {
      TieExact(t);
    }
    TieSum3(0, 3, 4);
  }

  lemma TieSums()
    ensures LeastCount(TIE, 2) && TIE.Exact([0, 3, 4]) && TIE.Feasible([0, 1])
    ensures TIE.Feasible([0, 2]) && TIE.Feasible([1, 2])
    ensures Sum(TIE.values, [0, 1]) == 19 && Sum(TIE.values, [0, 2]) == 15 && Sum(TIE.values, [1, 2]) == 14
  {
    TieSum3(0, 3, 4);
    TieSum2(0, 1);
    TieSum2(0, 2);
    TieSum2(1, 2);
    forall t | TIE.Feasible(t) ensures 2 <= |t| {
      TieFeasible(t);
    }
  }

  /** The minimum-score selections: three pairs, and one exact match of three inputs. */
  lemma TieOptimal(t: seq<nat>)
    ensures TIE.Optimal(t) <==> t == [0, 3, 4] || t == [0, 1] || t == [0, 2] || t == [1, 2]
    ensures TIE.Optimal(t) ==> (TIE.Exact(t) <==> t == [0, 3, 4])
  {
    TieSums();
    forall u | TIE.Feasible(u) ensures 3 <= TIE.Score(u) {
      TieFeasible(u);
    }
    if TIE.Feasible(t) {
      TieFeasible(t);
    }
  }

  lemma TieBefore()
    ensures Before([0, 1], [0, 3, 4]) && Before([0, 2], [0, 3, 4])
    ensures !Before([1, 2], [0, 3, 4]) && !Before([0, 3, 4], [0, 3, 4])
  {
    assert [0, 3, 4][..1] == [0] && [0, 1][..1] == [0] && [0, 2][..1] == [0];
    assert [0, 1][1] < [0, 3, 4][1] && [0, 2][1] < [0, 3, 4][1];
    assert [0, 3, 4][..0] == [1, 2][..0] && [0, 3, 4][0] < [1, 2][0];
    BeforeIsAsymmetric([0, 3, 4], [1, 2]);
  }

  /** Only the exact match and the last pair are late. */
  lemma TieLate(t: seq<nat>)
    ensures Late(TIE, t) <==> t == [0, 3, 4] || t == [1, 2]
  {
    TieOptimal(t);
    TieOptimal([0, 3, 4]);
    TieBefore();
    assert TIE.Canonical([0, 3, 4]) && TIE.Canonical([1, 2]);
    forall e | TIE.Exact(e) && TIE.Optimal(e) ensures e == [0, 3, 4] {
      TieOptimal(e);
    }
  }

  lemma TieIsBest()
    ensures BestPossible(TIE, [1, 2])
  {
    TieSums();
    TieOptimal([1, 2]);
    TieOptimal([0, 3, 4]);
    TieLate([1, 2]);
    forall t | Late(TIE, t) ensures Sum(TIE.values, t) <= 14 {
      TieLate(t);
    }
    assert TIE.ExactScore(TIE.Score([1, 2]));
  }

  lemma TieOnlyBest(s: seq<nat>)
    requires BestPossible(TIE, s)
    ensures s == [1, 2]
  {
    TieSums();
    assert s != [];
    TieOptimal(s);
    var t :| Late(TIE, t) && Sum(TIE.values, t) == Sum(TIE.values, s);
    TieLate(t);
    TieLate([1, 2]);
  }

  /** With exactly `ioRatio` extra inputs both preferences fail: of the values 10, 9, 5, 1 and 1
      and target 12 an exhausted search returns 9 and 5, although 10, 1 and 1 match exactly
      with one more input and 10 and 9 leave more change. */
  lemma TieBreakFails()
    ensures TIE.Exact([0, 3, 4]) && LeastCount(TIE, 2) && |[0, 3, 4]| == 2 + TIE.ioRatio
    ensures TIE.Optimal([0, 3, 4]) && TIE.Optimal([1, 2]) && TIE.Optimal([0, 1])
    ensures Sum(TIE.values, [1, 2]) < Sum(TIE.values, [0, 1])
    ensures forall s :: BestPossible(TIE, s) <==> s == [1, 2]
  {
    TieSums();
    TieOptimal([0, 3, 4]);
    TieOptimal([1, 2]);
    TieOptimal([0, 1]);
    TieIsBest();
    forall s | BestPossible(TIE, s) ensures s == [1, 2] {
      TieOnlyBest(s);
    }
  }
}
