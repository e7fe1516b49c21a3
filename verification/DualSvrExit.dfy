/**
 What the stopping measure of solve_l2r_l1l2_svr is worth: the violations of a pass
 over all variables sum to zero if and only if the pass starts at a global
 minimiser, and then it also ends at one; in general their sum and their maximum
 bound how much better any feasible point can be.
 */
module DualSvrExit {
  import opened LinAlg
  import opened Sparse
  import opened ExtReal
  import opened RunHistory
  import opened PassDrift
  import opened KinkedParabola
  import opened DualSvrObjective
  import opened DualSvr
  import opened DualSvrOptimal

  lemma ViolationNonNeg(s: Setup, b: Vec, i: nat)
    requires Valid(s) && |b| == |s.prob.x| && i < |b|
    ensures Violation(s, b, i) >= 0.0
  {
    hide Partial;
  }

  /** With positive curvature a variable at its minimiser does not move. */
  lemma CurvedStays(s: Setup, b: Vec, c: Vec, m: Mark<()>)
    requires Visited(s, b, c, m) && InBox(b[m.i], s.upper) && Violation(s, b, m.i) == 0.0 && Curvature(s, m.i) > 0.0
    ensures c == b
  {
    hide Objective, Curvature, Violation, InBox, Idle;
    var i := m.i;
    ZeroViolationIff(s, b, i);
    if c != b {
      assert CoordinateMinimiser(s, b, i, c[i]) && CoordinateMinimiser(s, b, i, b[i]);
      assert b[i := b[i]] == b && b[i := c[i]] == c;
      var y := Square(c[i] - b[i]);
      assert (b[i] - c[i]) * (b[i] - c[i]) == y;
      var p := Product(Curvature(s, i), y);
    }
  }

  /** Without curvature the variable has no part in any slope. */
  lemma FlatRow(s: Setup, b: Vec, i: nat, x: real, j: nat)
    requires Valid(s) && |b| == |s.prob.x| && i < |b| && j < |b| && Curvature(s, i) == 0.0
    ensures Partial(s, b[i := x], j) == Partial(s, b, j)
  {
    hide LinAlg.Dot, Sparse.Dense, Primal;
    var v, w := X(s.prob)[i], Primal(s, b);
    SquareNonNeg(v);
    assert v == Zeros(s.prob.n) && s.lambda == 0.0;
    PrimalMoves(s, b, i, x);
    ZeroAxpy(w, x - b[i], v);
  }

  lemma ZeroAxpy(w: Vec, d: real, v: Vec)
    requires |w| == |v| && v == Zeros(|v|)
    ensures Axpy(w, d, v) == w
  {
    assert forall k :: 0 <= k < |w| ==> Axpy(w, d, v)[k] == w[k];
  }

  /** A visit that finds no violation leaves every violation as it was. */
  lemma ViolationsStay(s: Setup, b: Vec, c: Vec, m: Mark<()>, j: nat)
    requires Visited(s, b, c, m) && Feasible(s, b) && Violation(s, b, m.i) == 0.0 && j < |b|
    ensures Feasible(s, c) && Violation(s, c, j) == Violation(s, b, j)
  {
    VisitKeeps(s, b, c, m);
    if Curvature(s, m.i) > 0.0 {
      CurvedStays(s, b, c, m);
    } else {
      FlatVisit(s, b, c, m, j);
    }
  }

  lemma VisitKeeps(s: Setup, b: Vec, c: Vec, m: Mark<()>)
    requires Visited(s, b, c, m) && Feasible(s, b)
    ensures Valid(s) && |c| == |b| == |s.prob.x| && 0 <= m.i < |b| && Curvature(s, m.i) >= 0.0
    ensures Feasible(s, c) && c == b[m.i := c[m.i]] && InBox(b[m.i], s.upper)
  {
    hide Objective, Curvature, Violation, InBox, Idle, CoordinateMinimiser, Valid;
  }

  lemma FlatVisit(s: Setup, b: Vec, c: Vec, m: Mark<()>, j: nat)
    requires Visited(s, b, c, m) && Feasible(s, b) && Feasible(s, c) && j < |b| && 0 <= m.i < |b| == |c|
    requires c == b[m.i := c[m.i]]
    requires Violation(s, b, m.i) == 0.0 && Curvature(s, m.i) == 0.0
    ensures Violation(s, c, j) == Violation(s, b, j)
  {
    hide Visited, Violation, Curvature, CoordinateMinimiser, InBox, Valid;
    var i := m.i;
    if j != i {
      FlatRow(s, b, i, c[i], j);
      SameViolation(s, b, c, j);
    } else if c != b {
      MovedToMinimiser(s, b, c, m);
      FlatMinimiser(s, b, c, i);
      ZeroViolationIff(s, c, i);
    }
  }

  lemma SameViolation(s: Setup, b: Vec, c: Vec, j: nat)
    requires Valid(s) && |b| == |c| == |s.prob.x| && j < |b| && c[j] == b[j] && Partial(s, c, j) == Partial(s, b, j)
    ensures Violation(s, c, j) == Violation(s, b, j)
  {
    hide Partial, Valid;
  }

  lemma MovedToMinimiser(s: Setup, b: Vec, c: Vec, m: Mark<()>)
    requires Visited(s, b, c, m) && c != b
    ensures CoordinateMinimiser(s, b, m.i, c[m.i])
  {
    hide Objective, Curvature, Violation, Idle, CoordinateMinimiser;
  }

  lemma FlatMinimiser(s: Setup, b: Vec, c: Vec, i: nat)
    requires Valid(s) && |b| == |c| == |s.prob.x| && i < |b| && c == b[i := c[i]]
    requires CoordinateMinimiser(s, b, i, c[i])
    ensures CoordinateMinimiser(s, c, i, c[i])
  {
    hide Objective, Curvature, InBox;
    forall z | InBox(z, s.upper) ensures c[i := z] == b[i := z] { }
    assert c[i := c[i]] == c;
  }

  ghost predicate Zero(s: Setup, b: Vec) {
    Feasible(s, b) && forall i :: 0 <= i < |b| ==> Violation(s, b, i) == 0.0
  }

  /** While only zeros are found, the violations at every point are those at the start. */
  lemma {:induction false} StaysSame(s: Setup, h: History<Vec, ()>, k: nat, j: nat)
    requires Runs(Visits(s), h) && k < |h.points| && Feasible(s, h.points[0]) && j < |s.prob.x|
    requires forall n :: 0 <= n < k ==> ViolationAt(s)(h.points[n], h.marks[n].i) == 0.0
    ensures Feasible(s, h.points[k]) && Violation(s, h.points[k], j) == Violation(s, h.points[0], j)
  {
    hide Visited, Violation, Valid, InBox;
    if k > 0 {
      StaysSame(s, h, k - 1, j);
      var b, c, m := h.points[k - 1], h.points[k], h.marks[k - 1];
      assert Visits(s)(b, c, m);
      VisitKeeps(s, b, c, m);
      assert ViolationAt(s)(b, m.i) == 0.0;
      ViolationsStay(s, b, c, m, j);
    }
  }

  ghost predicate Minimal(s: Setup, b: Vec) {
    Feasible(s, b) && forall c :: Feasible(s, c) ==> Objective(s, c) >= Objective(s, b)
  }

  lemma MinimalIff(s: Setup, b: Vec)
    requires Feasible(s, b)
    ensures Minimal(s, b) <==> Zero(s, b)
  {
    hide Objective, Violation, Valid, InBox;
    OptimalIff(s, b);
  }

  lemma ZeroSumIff(s: Setup, h: History<Vec, ()>)
    requires Runs(Visits(s), h) && Valid(s) && VisitsOnce(h, Everything(|s.prob.x|)) && Feasible(s, h.points[0])
    ensures |h.points| == |h.marks| + 1
    ensures SumOver(ViolationAt(s), h) == 0.0 <==> Minimal(s, h.points[0])
    ensures SumOver(ViolationAt(s), h) == 0.0 ==> Minimal(s, h.points[|h.marks|])
  {
    hide Visited, Minimal, Violation, SumOver, Valid, InBox;
    var b, f := h.points[0], ViolationAt(s);
    MinimalIff(s, b);
    forall k | 0 <= k < |h.marks| ensures f(h.points[k], h.marks[k].i) >= 0.0 {
      if |h.points[k]| == |s.prob.x| && 0 <= h.marks[k].i < |s.prob.x| {
        ViolationNonNeg(s, h.points[k], h.marks[k].i);
      }
    }
    SumZeroIff(f, h);
    if forall k :: 0 <= k < |h.marks| ==> f(h.points[k], h.marks[k].i) == 0.0 {
      forall j | 0 <= j < |b| ensures Violation(s, b, j) == 0.0 {
        var k := VisitOf(h, Everything(|s.prob.x|), j);
        StaysSame(s, h, k, j);
        assert f(h.points[k], h.marks[k].i) == 0.0;
      }
      forall j | 0 <= j < |b| ensures Feasible(s, h.points[|h.marks|]) && Violation(s, h.points[|h.marks|], j) == 0.0 {
        StaysSame(s, h, |h.marks|, j);
      }
      EndFeasible(s, h, |h.marks|);
      MinimalIff(s, h.points[|h.marks|]);
    } else if Zero(s, b) {
      AllZero(s, h, |h.marks|);
    }
  }

  lemma {:induction false} EndFeasible(s: Setup, h: History<Vec, ()>, k: nat)
    requires Runs(Visits(s), h) && k < |h.points| && Feasible(s, h.points[0])
    ensures Feasible(s, h.points[k])
  {
    hide Visited, Valid, InBox;
    if k > 0 {
      EndFeasible(s, h, k - 1);
      assert Visits(s)(h.points[k - 1], h.points[k], h.marks[k - 1]);
      VisitKeeps(s, h.points[k - 1], h.points[k], h.marks[k - 1]);
    }
  }

  lemma {:induction false} AllZero(s: Setup, h: History<Vec, ()>, n: nat)
    requires Runs(Visits(s), h) && Zero(s, h.points[0]) && n <= |h.marks|
    ensures forall k :: 0 <= k < n ==> ViolationAt(s)(h.points[k], h.marks[k].i) == 0.0
  {
    hide Visited, Violation, Valid, InBox;
    if n > 0 {
      AllZero(s, h, n - 1);
      EndFeasible(s, h, n - 1);
      assert Visits(s)(h.points[n - 1], h.points[n], h.marks[n - 1]);
      VisitKeeps(s, h.points[n - 1], h.points[n], h.marks[n - 1]);
      StaysSame(s, h, n - 1, h.marks[n - 1].i);
    }
  }

  // ------------------------------------------------------- how much is left to gain

  lemma ViolationIs(s: Setup, b: Vec, i: nat)
    requires Valid(s) && |b| == |s.prob.x| && i < |b|
    ensures Violation(s, b, i) == Viol(Partial(s, b, i), s.p, b[i], s.upper)
  {
    hide Partial;
  }

  /** A visit moves a variable by at most its violation over the curvature. */
  lemma MoveBound(s: Setup, b: Vec, c: Vec, m: Mark<()>)
    requires Visited(s, b, c, m) && Feasible(s, b)
    ensures Curvature(s, m.i) * Abs(c[m.i] - b[m.i]) <= Violation(s, b, m.i)
  {
    hide *;
    VisitKeeps(s, b, c, m);
    var i := m.i;
    ViolationIs(s, b, i);
    if c != b {
      MovedToMinimiser(s, b, c, m);
      MinimiserPays(s, b, c, i);
      BoxAt(s, b, i);
      BoxAt(s, c, i);
      MoveSize(Partial(s, b, i), Curvature(s, i), s.p, b[i], s.upper, c[i], Violation(s, b, i));
    } else {
      ViolationNonNeg(s, b, i);
      NoMove(Curvature(s, i), b[i]);
    }
  }

  lemma NoMove(H: real, x: real)
    ensures H * Abs(x - x) == 0.0
  {
  }

  lemma BoxAt(s: Setup, b: Vec, i: nat)
    requires Feasible(s, b) && i < |b|
    ensures InBox(b[i], s.upper) && s.p >= 0.0 && (s.upper.PosInf? || (s.upper.Fin? && s.upper.r > 0.0))
  {
    hide InBox;
  }

  lemma MinimiserPays(s: Setup, b: Vec, c: Vec, i: nat)
    requires Feasible(s, b) && |b| == |c| && i < |b| && c == b[i := c[i]] && CoordinateMinimiser(s, b, i, c[i])
    ensures Tilt(Partial(s, b, i), s.p, b[i], c[i]) + Curvature(s, i) * ((c[i] - b[i]) * (c[i] - b[i])) <= 0.0
  {
    hide Objective, Partial, Curvature, KinkedParabola.Tilt, InBox;
    assert InBox(b[i], s.upper);
    assert b[i := b[i]] == b;
    TiltAlong(s, b, i, c[i]);
    assert (b[i] - c[i]) * (b[i] - c[i]) == (c[i] - b[i]) * (c[i] - b[i]);
  }

  /** |x_i.x_j| <= K (QD_j + lambda) for all i and j */
  ghost predicate Coupled(s: Setup, K: real)
    requires Valid(s)
  {
    K >= 0.0 && forall i, j :: 0 <= i < |s.prob.x| && 0 <= j < |s.prob.x| ==>
      Abs(Dot(X(s.prob)[i], X(s.prob)[j])) <= K * Curvature(s, j)
  }

  /** Every valid setup has such a K. */
  lemma SomeCoupling(s: Setup) returns (K: real)
    requires Valid(s)
    ensures Coupled(s, K)
  {
    hide LinAlg.Dot, LinAlg.Abs, Sparse.X, Curvature, RowsCoupled;
    var D := seq(|s.prob.x|, _ => s.lambda);
    K := CouplingOf(X(s.prob), s.prob.n, D);
    forall i, j | 0 <= i < |s.prob.x| && 0 <= j < |s.prob.x|
      ensures Abs(Dot(X(s.prob)[i], X(s.prob)[j])) <= K * Curvature(s, j)
    {
      CurvatureIs(s, j);
      CoupledPair(X(s.prob), s.prob.n, D, K, i, j, Curvature(s, j));
    }
  }

  lemma CurvatureIs(s: Setup, j: nat)
    requires Valid(s) && j < |s.prob.x|
    ensures Curvature(s, j) == s.lambda + Dot(X(s.prob)[j], X(s.prob)[j])
  {
    hide LinAlg.Dot, Sparse.X;
  }

  /** Moving one variable moves the slope of another by the product of their rows. */
  lemma PartialMoves(s: Setup, b: Vec, j: nat, x: real, i: nat)
    requires Valid(s) && |b| == |s.prob.x| && i < |b| && j < |b| && i != j
    ensures |X(s.prob)[i]| == |X(s.prob)[j]|
    ensures Partial(s, b[j := x], i) - Partial(s, b, i) == (x - b[j]) * Dot(X(s.prob)[i], X(s.prob)[j])
  {
    hide LinAlg.Dot, Primal, Sparse.X;
    PrimalMoves(s, b, j, x);
    DotAxpyR(X(s.prob)[i], Primal(s, b), x - b[j], X(s.prob)[j]);
  }

  /** The visit of one variable moves the slope of another by at most K times the violation found. */
  lemma ShiftBound(s: Setup, b: Vec, c: Vec, m: Mark<()>, i: nat, K: real)
    requires Visited(s, b, c, m) && Feasible(s, b) && i < |b| && i != m.i && Coupled(s, K)
    ensures Valid(s) && |c| == |b| == |s.prob.x| && 0 <= m.i < |b| && c[i] == b[i] && K >= 0.0
    ensures Abs(Partial(s, c, i) - Partial(s, b, i)) <= K * Violation(s, b, m.i)
  {
    hide *;
    VisitKeeps(s, b, c, m);
    MoveBound(s, b, c, m);
    PartialMoves(s, b, m.i, c[m.i], i);
    var q := CouplingAt(s, K, i, m.i);
    var d := c[m.i] - b[m.i];
    AbsTimes(d, q, q, Partial(s, c, i) - Partial(s, b, i));
    Chain(Abs(d), Abs(q), K, Curvature(s, m.i), Violation(s, b, m.i));
  }

  lemma CouplingAt(s: Setup, K: real, i: nat, j: nat) returns (q: real)
    requires Valid(s) && Coupled(s, K) && i < |s.prob.x| && j < |s.prob.x|
    ensures |X(s.prob)[i]| == |X(s.prob)[j]| && q == Dot(X(s.prob)[i], X(s.prob)[j])
    ensures Abs(q) <= K * Curvature(s, j) && K >= 0.0
  {
    hide LinAlg.Dot, Curvature, LinAlg.Abs;
    q := Dot(X(s.prob)[i], X(s.prob)[j]);
  }

  ghost function SlopeAt(s: Setup): (Vec, int) -> real {
    (b, i) => if Valid(s) && |b| == |s.prob.x| && 0 <= i < |b| then Partial(s, b, i) else 0.0
  }

  lemma ValuesAt(s: Setup, b: Vec, i: nat)
    requires Valid(s) && |b| == |s.prob.x| && i < |b|
    ensures SlopeAt(s)(b, i) == Partial(s, b, i) && ViolationAt(s)(b, i) == Violation(s, b, i) >= 0.0
  {
    hide Partial, Valid, Violation;
    ViolationNonNeg(s, b, i);
  }

  lemma VisitShifts(s: Setup, h: History<Vec, ()>, i: nat, K: real, k: nat)
    requires Runs(Visits(s), h) && Feasible(s, h.points[0]) && Coupled(s, K) && i < |s.prob.x|
    requires k < |h.marks| && h.marks[k].i != i
    ensures |h.points| == |h.marks| + 1 && Shifts(SlopeAt(s), ViolationAt(s), h, i, K, k)
    ensures |h.points[k]| == |h.points[k + 1]| == |s.prob.x| && h.points[k + 1][i] == h.points[k][i]
  {
    hide Visited, Partial, Violation, Coupled, LinAlg.Abs, Valid, InBox, ViolationAt, SlopeAt;
    EndFeasible(s, h, k);
    var b, c, m := h.points[k], h.points[k + 1], h.marks[k];
    assert Visits(s)(b, c, m);
    ShiftBound(s, b, c, m, i, K);
    ValuesAt(s, b, m.i);
    ValuesAt(s, b, i);
    ValuesAt(s, c, i);
  }

  lemma {:induction false} NotMoved(s: Setup, h: History<Vec, ()>, i: nat, K: real, n: nat)
    requires Runs(Visits(s), h) && Feasible(s, h.points[0]) && Coupled(s, K) && i < |s.prob.x| && n < |h.points|
    requires forall k :: 0 <= k < n ==> h.marks[k].i != i
    ensures |h.points[n]| == |h.points[0]| == |s.prob.x| && h.points[n][i] == h.points[0][i]
  {
    hide Visits, Coupled, Valid, InBox, Shifts;
    if n > 0 {
      NotMoved(s, h, i, K, n - 1);
      VisitShifts(s, h, i, K, n - 1);
    }
  }

  /** Until its visit, the slope of a variable moves by at most K times the violations found. */
  lemma SlopeDrift(s: Setup, h: History<Vec, ()>, i: nat, K: real, n: nat)
    requires Runs(Visits(s), h) && Feasible(s, h.points[0]) && Coupled(s, K) && i < |s.prob.x| && n < |h.points|
    requires forall k :: 0 <= k < n ==> h.marks[k].i != i
    ensures Valid(s) && |h.points| == |h.marks| + 1
    ensures |h.points[n]| == |h.points[0]| == |s.prob.x| && h.points[n][i] == h.points[0][i]
    ensures Abs(Partial(s, h.points[0], i) - Partial(s, h.points[n], i)) <= K * Total(ViolationAt(s), h, n)
  {
    hide *;
    NotMoved(s, h, i, K, n);
    RunsShape(s, h);
    forall k | 0 <= k < n ensures Shifts(SlopeAt(s), ViolationAt(s), h, i, K, k) { VisitShifts(s, h, i, K, k); }
    DriftFromStart(SlopeAt(s), ViolationAt(s), h, i, K, n);
    ValuesAt(s, h.points[0], i);
    ValuesAt(s, h.points[n], i);
  }

  lemma RunsShape(s: Setup, h: History<Vec, ()>)
    requires Runs(Visits(s), h) && Feasible(s, h.points[0])
    ensures Valid(s) && |h.points| == |h.marks| + 1 && Total(ViolationAt(s), h, 0) == 0.0
  {
  }

  /** What can be gained in coordinate i from the start of a pass over everything. */
  lemma StartTilt(s: Setup, h: History<Vec, ()>, K: real, i: nat, z: real, total: real, largest: real)
    requires Runs(Visits(s), h) && VisitsOnce(h, Everything(|s.prob.x|)) && Feasible(s, h.points[0]) && Coupled(s, K)
    requires Measured(ViolationAt(s), h, total, largest) && i < |s.prob.x| && InBox(z, s.upper)
    ensures Valid(s) && |h.points[0]| == |s.prob.x|
    ensures Tilt(Partial(s, h.points[0], i), s.p, h.points[0][i], z)
         >= -(Slack(K, total, largest) * Abs(z - h.points[0][i]))
  {
    hide *;
    RunsShape(s, h);
    var k := VisitOf(h, Everything(|s.prob.x|), i);
    SlopeDrift(s, h, i, K, k);
    EndFeasible(s, h, k);
    var a, b := h.points[0], h.points[k];
    BoxAt(s, b, i);
    ViolationIs(s, b, i);
    ValuesAt(s, b, i);
    FoundNonNeg(s, h);
    MeasuredAt(ViolationAt(s), h, k, total, largest);
    CoupledNonNeg(s, K);
    TiltFromStart(Partial(s, a, i), Partial(s, b, i), s.p, b[i], s.upper, z, Violation(s, b, i), K,
                  Total(ViolationAt(s), h, k), total, largest);
  }

  lemma CoupledNonNeg(s: Setup, K: real)
    requires Valid(s) && Coupled(s, K)
    ensures K >= 0.0
  {
  }

  lemma FoundNonNeg(s: Setup, h: History<Vec, ()>)
    requires Runs(Visits(s), h) && Feasible(s, h.points[0])
    ensures |h.points| == |h.marks| + 1
    ensures forall k :: 0 <= k < |h.marks| ==> ViolationAt(s)(h.points[k], h.marks[k].i) >= 0.0
  {
    hide Visited, Violation, Valid, InBox, ViolationAt;
    forall k | 0 <= k < |h.marks| ensures ViolationAt(s)(h.points[k], h.marks[k].i) >= 0.0 {
      EndFeasible(s, h, k);
      assert Visits(s)(h.points[k], h.points[k + 1], h.marks[k]);
      VisitKeeps(s, h.points[k], h.points[k + 1], h.marks[k]);
      ValuesAt(s, h.points[k], h.marks[k].i);
    }
  }

  lemma {:induction false} TiltAbove(s: Setup, h: History<Vec, ()>, K: real, a: Vec, z: Vec, total: real, largest: real,
                                     k: nat)
    requires Runs(Visits(s), h) && VisitsOnce(h, Everything(|s.prob.x|)) && a == h.points[0] && Feasible(s, a)
    requires Coupled(s, K) && Measured(ViolationAt(s), h, total, largest) && Feasible(s, z) && k <= |a|
    ensures TiltTo(s, a, z, k) >= -(Slack(K, total, largest) * Distance(a, z, k))
  {
    hide Partial, Slack, Valid, InBox, LinAlg.Abs, Coupled, VisitsOnce, Runs, Visits, Measured, KinkedParabola.Tilt;
    if k > 0 {
      TiltAbove(s, h, K, a, z, total, largest, k - 1);
      StartTilt(s, h, K, k - 1, z[k - 1], total, largest);
      Spread(Slack(K, total, largest), Distance(a, z, k - 1), Abs(z[k - 1] - a[k - 1]));
    }
  }

  /**
   After any pass over everything, no feasible point is better than the end of the pass
   by more than (the largest violation found + K times their sum) times its distance
   from the start of the pass.
   */
  lemma PassGap(s: Setup, h: History<Vec, ()>, K: real, z: Vec, total: real, largest: real)
    requires Runs(Visits(s), h) && VisitsOnce(h, Everything(|s.prob.x|)) && Feasible(s, h.points[0]) && Coupled(s, K)
    requires Measured(ViolationAt(s), h, total, largest) && Feasible(s, z)
    ensures |h.points| == |h.marks| + 1 && Feasible(s, h.points[|h.marks|])
    ensures Objective(s, z) >= Objective(s, h.points[|h.marks|])
                             - (largest + K * total) * Distance(h.points[0], z, |s.prob.x|)
  {
    hide Objective, Valid, InBox, Coupled, VisitsOnce, Runs, Visits, Measured, TiltTo;
    RunsShape(s, h);
    EndFeasible(s, h, |h.marks|);
    var a, n := h.points[0], |h.marks|;
    TiltAbove(s, h, K, a, z, total, largest, |a|);
    AboveTangent(s, a, z);
    PassFalls(s, h);
  }

  lemma PassFalls(s: Setup, h: History<Vec, ()>)
    requires Runs(Visits(s), h) && Feasible(s, h.points[0])
    ensures |h.points| == |h.marks| + 1 && Feasible(s, h.points[|h.marks|])
    ensures Objective(s, h.points[|h.marks|]) <= Objective(s, h.points[0])
  {
    hide Objective, Visits, InBox;
    EndFeasible(s, h, |h.marks|);
    VisitsDescend(s);
    PassDescends(Visits(s), Value(s), h, 0, |h.marks|);
  }

  lemma {:induction false} PassesFeasible(s: Setup, passes: seq<History<Vec, ()>>, start: Vec, end: Vec, p: nat)
    requires Linked(Visits(s), passes, start, end) && Feasible(s, start) && p < |passes|
    ensures |passes[p].points| > 0 && Feasible(s, passes[p].points[0])
  {
    hide Visits, Feasible;
    if p > 0 {
      PassesFeasible(s, passes, start, end, p - 1);
      assert Follows(passes, p);
      EndFeasible(s, passes[p - 1], |passes[p - 1].points| - 1);
    }
  }

  /**
   What the early exit is worth: no feasible point is better than the result by more
   than (1 + K) eps Gnorm1_init times its distance from the start of the last pass.
   */
  lemma ExitGap(s: Setup, passes: seq<History<Vec, ()>>, eps: real, end: Vec, K: real, z: Vec)
    requires Valid(s) && Coupled(s, K) && Feasible(s, z) && |passes| > 0
    requires IsRun(Visits(s), Closing(ViolationAt(s), passes, eps), Rule(s), passes, |s.prob.x|, Zeros(|s.prob.x|), end)
    requires Exits(Closing(ViolationAt(s), passes, eps), passes[|passes| - 1], |s.prob.x|)
    ensures Feasible(s, end) && |First(passes).marks| <= |First(passes).points|
    ensures |passes[|passes| - 1].points| > 0 && |passes[|passes| - 1].points[0]| == |s.prob.x|
    ensures Objective(s, z) >= Objective(s, end)
        - (1.0 + K) * (eps * SumOver(ViolationAt(s), First(passes)))
                    * Distance(passes[|passes| - 1].points[0], z, |s.prob.x|)
  {
    hide *;
    var h, total, largest := ClosingExit(Visits(s), ViolationAt(s), Rule(s), passes, |s.prob.x|, eps,
                                         Zeros(|s.prob.x|), end);
    ZerosFeasible(s);
    PassesFeasible(s, passes, Zeros(|s.prob.x|), end, |passes| - 1);
    FoundNonNeg(s, h);
    LargestInSum(ViolationAt(s), h, total, largest);
    PassGap(s, h, K, z, total, largest);
    CoupledNonNeg(s, K);
    FeasibleShape(s, h.points[0]);
    FeasibleShape(s, z);
    FeasibleShape(s, end);
    WithinFirst(K, total, largest, eps * SumOver(ViolationAt(s), First(passes)), h.points[0], z, Objective(s, z),
                Objective(s, end));
  }

  lemma FeasibleShape(s: Setup, b: Vec)
    requires Feasible(s, b)
    ensures |b| == |s.prob.x|
  {
  }

  lemma ZerosFeasible(s: Setup)
    requires Valid(s)
    ensures Feasible(s, Zeros(|s.prob.x|))
  {
  }
}
