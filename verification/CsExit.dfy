/**
 When Solver_MCSVM_CS stops at a minimiser of its dual problem.  A visit leaves an
 instance whose row is all zeros alone and looks for no gap there, so zero gaps
 everywhere else are not enough: such an instance must have its alpha on the cap of
 its own class, which never happens in a run with two classes or more.
 */
module CsExit {
  import opened LinAlg
  import opened Permutation
  import opened RunHistory
  import opened Sparse
  import opened CsSubProblem
  import opened CsRow
  import opened CsVisit
  import opened CsRun
  import opened CsOptimal

  ghost predicate Minimal(s: Setup, A: seq<Vec>) {
    FeasibleAll(s, A) && forall B :: FeasibleAll(s, B) ==> Dual(s, B) >= Dual(s, A)
  }

  /** w is the combination of the rows with the alphas. */
  ghost predicate Exact(s: Setup, p: Snapshot) {
    Fits(s, p.alpha) && |p.W| == |s.C| && forall c :: 0 <= c < |s.C| ==> p.W[c] == Weight(s, p.alpha, c)
  }

  /** Every class of every instance is active. */
  ghost predicate AllActive(s: Setup, p: Snapshot) {
    |p.act| == |s.x| && forall i :: 0 <= i < |s.x| ==> p.act[i] == |s.C|
  }

  ghost predicate NoGapFound(h: History<Snapshot, Finding>) {
    forall k :: 0 <= k < |h.marks| ==> h.marks[k].note.gap == 0.0
  }

  lemma SoundFeasible(s: Setup, p: Snapshot)
    requires Sound(s, p)
    ensures FeasibleAll(s, p.alpha)
  {
    hide LinAlg.Sum, CsSubProblem.Cap;
    forall i | 0 <= i < |s.x| ensures |p.alpha[i]| == |s.C| && FeasibleRow(s, i, p.alpha[i]) {
      assert RowOk(s, p, i);
    }
  }

  // ------------------------------------------------------------ all-zero rows

  /** There is one class only, or the alpha of the instance's own class is on its cap. */
  ghost predicate Settled(s: Setup, A: seq<Vec>, i: nat)
    requires Fits(s, A) && i < |A|
  {
    |s.C| == 1 || A[i][s.y[i]] >= s.C[s.y[i]]
  }

  lemma ZeroRowGrad(s: Setup, A: seq<Vec>, i: nat, c: nat)
    requires Fits(s, A) && i < |A| && c < |s.C| && Norm(s, i) == 0.0
    ensures Grad(s, A, i, c) == if c == s.y[i] then 0.0 else 1.0
  {
    hide Weight, Sparse.Dense;
    SquareNonNeg(Dense(s.x[i], s.n));
    DotZero(Weight(s, A, c));
  }

  /** An all-zero row has no gap if and only if it is settled. */
  lemma ZeroRowIff(s: Setup, A: seq<Vec>, i: nat)
    requires FeasibleAll(s, A) && i < |A| && Norm(s, i) == 0.0
    ensures Fits(s, A) && (NoGap(s, A, i) <==> Settled(s, A, i))
  {
    hide Grad, Norm, LinAlg.Sum;
    FeasibleFits(s, A);
    assert FeasibleRow(s, i, A[i]);
    var g, y := GradRow(s, A, i), s.y[i];
    forall c | 0 <= c < |s.C| ensures g[c] == if c == y then 0.0 else 1.0 { ZeroRowGrad(s, A, i, c); }
    if !Settled(s, A, i) {
      var c := if y == 0 then 1 else 0;
      assert A[i][y] < CapOf(s, i, y) && g[c] > g[y];
    }
  }

  /** A visit never changes the alphas of an all-zero row. */
  lemma ZeroRowStays(s: Setup, p: Snapshot, q: Snapshot, m: Mark<Finding>, i: nat)
    requires Visited(s, p, q, m) && i < |s.x| && Norm(s, i) == 0.0
    ensures |p.alpha| == |q.alpha| == |s.x| && q.alpha[i] == p.alpha[i]
  {
    VisitedShape(s, p, q, m);
    hide RowVisited, Norm;
  }

  lemma {:induction false} ZeroRowPass(s: Setup, h: History<Snapshot, Finding>, i: nat, k: nat)
    requires Runs(Visits(s), h) && Valid(s) && Shaped(s, h.points[0]) && k < |h.points|
    requires i < |s.x| && Norm(s, i) == 0.0
    ensures Shaped(s, h.points[k]) && h.points[k].alpha[i] == h.points[0].alpha[i]
  {
    hide Visited, Valid, Norm;
    if k > 0 {
      ZeroRowPass(s, h, i, k - 1);
      assert Visits(s)(h.points[k - 1], h.points[k], h.marks[k - 1]);
      VisitedShape(s, h.points[k - 1], h.points[k], h.marks[k - 1]);
      ZeroRowStays(s, h.points[k - 1], h.points[k], h.marks[k - 1], i);
    }
  }

  /** At every point of every run the alphas of an all-zero row are zero. */
  lemma {:induction false} ZeroRowRun(s: Setup, passes: seq<History<Snapshot, Finding>>, eps: real, i: nat, p: nat,
                                      k: nat)
    requires IsCsRun(s, passes, eps) && i < |s.x| && Norm(s, i) == 0.0 && p < |passes| && k < |passes[p].points|
    ensures Shaped(s, passes[p].points[k]) && passes[p].points[k].alpha[i] == Zeros(|s.C|)
    decreases p
  {
    hide Resets, Runs, VisitsOnce, CsDue, Norm;
    assert IsPass(s, passes, eps, p);
    if p > 0 {
      assert IsPass(s, passes, eps, p - 1);
      ZeroRowRun(s, passes, eps, i, p - 1, |passes[p - 1].points| - 1);
    }
    ZeroRowPass(s, passes[p], i, k);
  }

  /** With an all-zero row and two classes or more no point of a run is a minimiser of the dual problem. */
  lemma ZeroRowNeverMinimal(s: Setup, passes: seq<History<Snapshot, Finding>>, eps: real, i: nat, p: nat, k: nat)
    requires IsCsRun(s, passes, eps) && i < |s.x| && Norm(s, i) == 0.0 && |s.C| >= 2
    requires p < |passes| && k < |passes[p].points|
    ensures !Minimal(s, passes[p].points[k].alpha)
  {
    hide NoGap, Dual, Norm, FeasibleAll, IsCsRun, Fits;
    ZeroRowRun(s, passes, eps, i, p, k);
    var A := passes[p].points[k].alpha;
    if Minimal(s, A) {
      OptimalIff(s, A);
      ZeroRowIff(s, A, i);
      ZeroSettled(s, A, i);
    }
  }

  lemma ZeroSettled(s: Setup, A: seq<Vec>, i: nat)
    requires Fits(s, A) && i < |A| && A[i] == Zeros(|s.C|)
    ensures Settled(s, A, i) <==> |s.C| == 1
  {
    assert 0 <= s.y[i] < |s.C|;
  }

  // ------------------------------------------------------- passes that stand still

  /** A visit that finds no gap above 1e-12 changes neither the alphas nor w. */
  lemma IdleVisit(s: Setup, p: Snapshot, q: Snapshot, m: Mark<Finding>)
    requires Visited(s, p, q, m) && m.note.gap <= TINY
    ensures q.alpha == p.alpha && q.W == p.W
  {
    hide RowOk, CsRow.Extremal, CsRow.ShrunkBy, RowSolved, Norm, CsVisit.Absorbed;
    var i := m.i;
    if Norm(s, i) > 0.0 {
      assert q.alpha[i] == p.alpha[i];
      SameWeights(s.x[i], s.n, p.W, q.W, p.alpha[i]);
    }
  }

  lemma SameWeights(x: Row, n: nat, W: seq<Vec>, W': seq<Vec>, a: Vec)
    requires ValidRow(x, n) && Absorbed(x, n, W, W', a, a)
    ensures W' == W
  {
    hide Sparse.Dense;
    forall c | 0 <= c < |W| ensures W'[c] == W[c] {
      assert Passed(a[c] - a[c]) == 0.0;
    }
  }

  lemma {:induction false} StandsStill(s: Setup, h: History<Snapshot, Finding>, k: nat)
    requires Runs(Visits(s), h) && k < |h.points| && forall j :: 0 <= j < k ==> h.marks[j].note.gap == 0.0
    ensures h.points[k].alpha == h.points[0].alpha && h.points[k].W == h.points[0].W
  {
    hide Visited;
    if k > 0 {
      StandsStill(s, h, k - 1);
      assert Visits(s)(h.points[k - 1], h.points[k], h.marks[k - 1]);
      IdleVisit(s, h.points[k - 1], h.points[k], h.marks[k - 1]);
    }
  }

  /** With all classes active and w exact, the gap a visit finds is zero exactly when the instance has none. */
  lemma FoundIff(s: Setup, p: Snapshot, q: Snapshot, m: Mark<Finding>)
    requires Visited(s, p, q, m) && Norm(s, m.i) > 0.0 && Exact(s, p) && p.act[m.i] == |s.C|
    ensures m.note.gap == 0.0 <==> NoGap(s, p.alpha, m.i)
  {
    hide RowOk, CsRow.ShrunkBy, RowSolved, Norm, CsVisit.Absorbed, CsRow.Extremal, NoGap;
    VisitedShape(s, p, q, m);
    var i, f := m.i, m.note;
    ExactGrads(s, p, i);
    NoGapIff(s, p.alpha, i, p.idx[i], f.minG, f.minG + f.gap);
    GapNonNeg(p.alpha[i], p.idx[i], p.act[i], s.y[i], s.C[s.y[i]], Grads(s, p, i), f.minG, f.minG + f.gap);
  }

  lemma ExactGrads(s: Setup, p: Snapshot, i: nat)
    requires Exact(s, p) && Shaped(s, p) && i < |s.x|
    ensures Grads(s, p, i) == GradRow(s, p.alpha, i)
  {
    hide Weight, LinAlg.Dot, Sparse.Dense;
  }

  lemma GapNonNeg(alpha: Vec, idx: seq<int>, act: int, y: int, c: real, gv: Vec, minG: real, maxG: real)
    requires Extremal(alpha, idx, act, y, c, gv, minG, maxG)
    ensures minG <= maxG
  {
  }

  /** The same at visit k of a pass that stood still so far. */
  lemma FoundInPass(s: Setup, h: History<Snapshot, Finding>, k: nat)
    requires Runs(Visits(s), h) && VisitsOnce(h, Everything(|s.x|)) && k < |h.marks|
    requires Valid(s) && Shaped(s, h.points[0]) && Exact(s, h.points[0]) && AllActive(s, h.points[0])
    requires forall j :: 0 <= j < k ==> h.marks[j].note.gap == 0.0
    ensures 0 <= h.marks[k].i < |s.x|
    ensures Norm(s, h.marks[k].i) > 0.0 ==>
              (h.marks[k].note.gap == 0.0 <==> NoGap(s, h.points[0].alpha, h.marks[k].i))
    ensures !(Norm(s, h.marks[k].i) > 0.0) ==> h.marks[k].note.gap == 0.0
  {
    hide Visited, NoGap, Norm, Weight;
    var m := h.marks[k];
    assert Visits(s)(h.points[k], h.points[k + 1], m);
    VisitedShape(s, h.points[k], h.points[k + 1], m);
    NotBefore(h, Everything(|s.x|), k);
    StandsStill(s, h, k);
    ActUntouched(s, h, m.i, k);
    if Norm(s, m.i) > 0.0 {
      FoundIff(s, h.points[k], h.points[k + 1], m);
    } else {
      ZeroRowIdle(s, h.points[k], h.points[k + 1], m);
    }
  }

  lemma ZeroRowIdle(s: Setup, p: Snapshot, q: Snapshot, m: Mark<Finding>)
    requires Visited(s, p, q, m) && !(Norm(s, m.i) > 0.0)
    ensures q == p && m.note.gap == 0.0
  {
    hide RowVisited, Norm;
  }

  lemma NotBefore(h: History<Snapshot, Finding>, all: set<int>, k: nat)
    requires VisitsOnce(h, all) && k < |h.marks|
    ensures forall j :: 0 <= j < k ==> h.marks[j].i != h.marks[k].i
  {
    var names := Names(h.marks);
    assert forall j :: 0 <= j < k ==> names[j] != names[k];
  }

  lemma {:induction false} NoGapsFound(s: Setup, h: History<Snapshot, Finding>, k: nat)
    requires Runs(Visits(s), h) && VisitsOnce(h, Everything(|s.x|)) && k <= |h.marks|
    requires Valid(s) && Shaped(s, h.points[0]) && Exact(s, h.points[0]) && AllActive(s, h.points[0])
    requires forall i :: 0 <= i < |s.x| ==> NoGap(s, h.points[0].alpha, i)
    ensures forall j :: 0 <= j < k ==> h.marks[j].note.gap == 0.0
  {
    hide Runs, NoGap, VisitsOnce, Exact, AllActive, Norm, Valid, Shaped, Visits;
    if k > 0 {
      NoGapsFound(s, h, k - 1);
      FoundInPass(s, h, k - 1);
    }
  }

  /**
   From an exact w, a pass over everything finds no gap and every all-zero row is
   settled if and only if the pass starts at a minimiser of the whole dual problem.
   */
  lemma ZeroPassIff(s: Setup, h: History<Snapshot, Finding>)
    requires Runs(Visits(s), h) && VisitsOnce(h, Everything(|s.x|))
    requires Sound(s, h.points[0]) && AllActive(s, h.points[0]) && Exact(s, h.points[0])
    ensures var A := h.points[0].alpha;
            NoGapFound(h) && (forall i :: 0 <= i < |s.x| && Norm(s, i) == 0.0 ==> Settled(s, A, i)) <==> Minimal(s, A)
  {
    hide Visits, NoGap, RowOk, Dual, Norm, FeasibleRow, Settled, VisitsOnce, AllActive, Weight;
    var A := h.points[0].alpha;
    SoundFeasible(s, h.points[0]);
    OptimalIff(s, A);
    if NoGapFound(h) && forall i :: 0 <= i < |s.x| && Norm(s, i) == 0.0 ==> Settled(s, A, i) {
      forall i | 0 <= i < |s.x| ensures NoGap(s, A, i) {
        NormNonNeg(s, i);
        if Norm(s, i) == 0.0 {
          ZeroRowIff(s, A, i);
        } else {
          var k := VisitOf(h, Everything(|s.x|), i);
          FoundInPass(s, h, k);
        }
      }
    } else if Minimal(s, A) {
      forall i | 0 <= i < |s.x| && Norm(s, i) == 0.0 ensures Settled(s, A, i) { ZeroRowIff(s, A, i); }
      NoGapsFound(s, h, |h.marks|);
    }
  }

  /**
   In a run: a pass that starts from everything with an exact w finds no gap and
   there is no all-zero row, or one class only, if and only if the pass starts at a
   minimiser of the dual problem.
   */
  lemma ExitOptimalIff(s: Setup, passes: seq<History<Snapshot, Finding>>, eps: real, p: nat)
    requires IsCsRun(s, passes, eps) && p < |passes| && FromAll(passes, eps, p)
    requires |passes[p].points| > 0 && Exact(s, passes[p].points[0])
    ensures NoGapFound(passes[p]) && (|s.C| == 1 || forall i :: 0 <= i < |s.x| ==> Norm(s, i) > 0.0) <==>
            Minimal(s, passes[p].points[0].alpha)
  {
    hide Runs, Visits, Resets, Norm, Minimal, NoGapFound, RowOk, Sound, Weight, Settled, Bounded;
    var h := passes[p];
    assert IsPass(s, passes, eps, p);
    var M := SomeBound(s);
    RunSound(s, passes, eps, M, p, 0);
    StartsActive(s, passes, eps, p);
    var A := h.points[0].alpha;
    ZeroPassIff(s, h);
    forall i | 0 <= i < |s.x|
      ensures Norm(s, i) > 0.0 || (Norm(s, i) == 0.0 && (Settled(s, A, i) <==> |s.C| == 1))
    {
      NormNonNeg(s, i);
      if Norm(s, i) == 0.0 {
        ZeroRowRun(s, passes, eps, i, p, 0);
        ZeroSettled(s, A, i);
      }
    }
  }
}
