/**
 What the early exit of solve_l2r_l1l2_svc is worth.  Its test only says that all
 projected gradients of the last pass are close to each other; when they are also
 close to zero the result is close to optimal, and when they are not it need not
 be.
 */
module DualSvcExit {
  import opened LinAlg
  import opened Sparse
  import opened ExtReal
  import opened ActiveSet
  import opened RunHistory
  import opened PassDrift
  import opened DualSvcObjective
  import opened DualSvc
  import opened DualSvcOptimal

  const TINY: real := 0.000000000001

  // ---------------------------------------------------------- small gradients

  /** Every PG the pass found is within eps of zero. */
  ghost predicate Small(s: Setup, h: History<Vec, ()>, eps: real) {
    |h.marks| <= |h.points| && forall k :: 0 <= k < |h.marks| && !h.marks[k].shrunk ==> Abs(Found(s, h, k)) <= eps
  }

  /** That can be read off the two numbers the code keeps. */
  lemma SmallIff(s: Setup, h: History<Vec, ()>, lo: Ext, hi: Ext, eps: real)
    requires Bounds(s, h, lo, hi)
    ensures Small(s, h, eps) <==> AtMost(Fin(-eps), lo) && AtMost(hi, Fin(eps))
  {
    hide Found;
    if Small(s, h, eps) {
      if lo != PosInf { var k :| 0 <= k < |h.marks| && !h.marks[k].shrunk && lo == Fin(Found(s, h, k)); }
      if hi != NegInf { var k :| 0 <= k < |h.marks| && !h.marks[k].shrunk && hi == Fin(Found(s, h, k)); }
    }
  }

  // --------------------------------------------------------------- one visit

  /** A visit moves a variable by at most |PG| / QD. */
  lemma MoveBound(s: Setup, a: Vec, b: Vec, m: Mark<()>)
    requires Visited(s, a, b, m) && InBox(a[m.i], s.upper[m.i])
    ensures Curvature(s, m.i) * Abs(b[m.i] - a[m.i]) <= Abs(Projected(s, a, m.i))
  {
    hide Objective, Curvature, Partial;
    var i := m.i;
    var d, G, QD := b[i] - a[i], Partial(s, a, i), Curvature(s, i);
    ZeroCurvature(s, a, i);
    if b != a {
      assert CoordinateMinimiser(s, a, i, b[i]);
      AlongCoordinate(s, a, i, b[i]);
      assert a[i := a[i]] == a && a[i := b[i]] == b;
      assert (a[i] - b[i]) * (a[i] - b[i]) == d * d;
      assert G * d + QD * (d * d) <= 0.0;
      NewtonBound(G, QD, d);
      if QD > 0.0 && d != 0.0 { assert Abs(G) == Abs(Projected(s, a, i)); }
    }
  }

  lemma NewtonBound(G: real, QD: real, d: real)
    requires QD >= 0.0 && G * d + QD * (d * d) <= 0.0
    ensures QD * Abs(d) <= Abs(G)
    ensures QD > 0.0 && d > 0.0 ==> G < 0.0
    ensures QD > 0.0 && d < 0.0 ==> G > 0.0
  {
    assert QD * (d * d) == (QD * d) * d;
    assert (G + QD * d) * d == G * d + (QD * d) * d;
    if d > 0.0 {
      assert -(G + QD * d) * d >= 0.0;
      Factor(-(G + QD * d), d);
      var p := Product(QD, d);
    } else if d < 0.0 {
      assert (G + QD * d) * -d >= 0.0;
      Factor(G + QD * d, -d);
      var p := Product(QD, -d);
      assert QD * -d == -(QD * d);
    }
  }

  /** Moving one variable moves the slope of another by their entry of Q. */
  lemma PartialMoves(s: Setup, a: Vec, j: nat, x: real, i: nat)
    requires Valid(s) && |a| == |s.y| && i < |a| && j < |a| && i != j
    ensures |X(s.p)[i]| == |X(s.p)[j]|
    ensures Partial(s, a[j := x], i) == Partial(s, a, i) + (x - a[j]) * (s.y[j] * s.y[i] * Dot(X(s.p)[i], X(s.p)[j]))
  {
    hide LinAlg.Dot, Primal, Sparse.X;
    var v, u, w, d := X(s.p)[i], X(s.p)[j], Primal(s, a), (x - a[j]) * s.y[j];
    PrimalMoves(s, a, j, x);
    DotAxpyR(v, w, d, u);
    SlopeShift(Dot(v, w), Dot(v, u), x - a[j], s.y[j], s.y[i], d);
  }

  lemma SlopeShift(g: real, q: real, e: real, yj: real, yi: real, d: real)
    requires d == e * yj
    ensures (g + d * q) * yi == g * yi + e * (yj * yi * q)
  {
  }

  /** |x_i.x_j| <= K QD_j for all i and j */
  ghost predicate Coupled(s: Setup, K: real)
    requires Valid(s)
  {
    K >= 0.0 && forall i, j :: 0 <= i < |s.y| && 0 <= j < |s.y| ==>
      Abs(Dot(X(s.p)[i], X(s.p)[j])) <= K * Curvature(s, j)
  }

  /** Every valid setup has such a K, since QD_j = 0 only when x_j is zero. */
  lemma SomeCoupling(s: Setup) returns (K: real)
    requires Valid(s)
    ensures Coupled(s, K)
  {
    hide LinAlg.Dot, LinAlg.Abs, Sparse.X, Curvature, RowsCoupled;
    K := CouplingOf(X(s.p), s.p.n, s.diag);
    forall i, j | 0 <= i < |s.y| && 0 <= j < |s.y| ensures Abs(Dot(X(s.p)[i], X(s.p)[j])) <= K * Curvature(s, j) {
      CurvatureIs(s, j);
      CoupledPair(X(s.p), s.p.n, s.diag, K, i, j, Curvature(s, j));
    }
  }

  lemma CurvatureIs(s: Setup, j: nat)
    requires Valid(s) && j < |s.y|
    ensures Curvature(s, j) == s.diag[j] + Dot(X(s.p)[j], X(s.p)[j])
  {
    hide LinAlg.Dot, Sparse.X;
  }

  /** The visit of one variable moves the slope of another by at most K |PG|. */
  lemma ShiftBound(s: Setup, a: Vec, b: Vec, m: Mark<()>, i: nat, K: real)
    requires Visited(s, a, b, m) && InBox(a[m.i], s.upper[m.i]) && i < |a| && i != m.i && Coupled(s, K)
    ensures Abs(Partial(s, b, i) - Partial(s, a, i)) <= K * Abs(Projected(s, a, m.i))
    ensures b[i] == a[i]
  {
    hide *;
    MovesOne(s, a, b, m);
    MoveBound(s, a, b, m);
    var q := CouplingAt(s, K, i, m.i);
    var d := b[m.i] - a[m.i];
    ShiftIs(s, a, b, m.i, i, q, d);
    Chain(Abs(d), Abs(q), K, Curvature(s, m.i), Abs(Projected(s, a, m.i)));
  }

  lemma CouplingAt(s: Setup, K: real, i: nat, j: nat) returns (q: real)
    requires Valid(s) && Coupled(s, K) && i < |s.y| && j < |s.y|
    ensures |X(s.p)[i]| == |X(s.p)[j]| && q == Dot(X(s.p)[i], X(s.p)[j]) && Abs(q) <= K * Curvature(s, j) && K >= 0.0
    ensures (s.y[i] == 1.0 || s.y[i] == -1.0) && (s.y[j] == 1.0 || s.y[j] == -1.0)
  {
    hide LinAlg.Dot, Curvature, LinAlg.Abs;
    q := Dot(X(s.p)[i], X(s.p)[j]);
  }

  lemma ShiftIs(s: Setup, a: Vec, b: Vec, j: nat, i: nat, q: real, d: real)
    requires Valid(s) && |a| == |b| == |s.y| && i < |a| && j < |a| && i != j && b == a[j := b[j]]
    requires |X(s.p)[i]| == |X(s.p)[j]| && q == Dot(X(s.p)[i], X(s.p)[j]) && d == b[j] - a[j]
    requires (s.y[i] == 1.0 || s.y[i] == -1.0) && (s.y[j] == 1.0 || s.y[j] == -1.0)
    ensures Abs(Partial(s, b, i) - Partial(s, a, i)) == Abs(d) * Abs(q)
  {
    hide *;
    PartialMoves(s, a, j, b[j], i);
    SignedTimes(d, s.y[j], s.y[i], q, Partial(s, b, i), Partial(s, a, i));
  }

  lemma SignedTimes(d: real, yj: real, yi: real, q: real, g': real, g: real)
    requires (yj == 1.0 || yj == -1.0) && (yi == 1.0 || yi == -1.0) && g' == g + d * (yj * yi * q)
    ensures Abs(g' - g) == Abs(d) * Abs(q)
  {
    AbsTimes(d, yj * yi * q, q, g' - g);
  }

  lemma MovesOne(s: Setup, a: Vec, b: Vec, m: Mark<()>)
    requires Visited(s, a, b, m)
    ensures Valid(s) && |a| == |b| == |s.y| && 0 <= m.i < |a| && b == a[m.i := b[m.i]]
  {
    hide Objective, Curvature, Projected, CoordinateMinimiser, InBox;
  }

  /** Right after its visit a variable cannot gain more than 1e-12 per unit by moving alone. */
  lemma AfterVisit(s: Setup, a: Vec, b: Vec, m: Mark<()>, z: real)
    requires Visited(s, a, b, m) && !m.shrunk && InBox(a[m.i], s.upper[m.i]) && InBox(z, s.upper[m.i])
    ensures Partial(s, b, m.i) * (z - b[m.i]) >= -(TINY * Abs(z - b[m.i]))
  {
    hide Objective, Curvature, Partial;
    var i := m.i;
    if Abs(Projected(s, a, i)) > TINY {
      assert CoordinateMinimiser(s, b, i, b[i]) by {
        forall v | InBox(v, s.upper[i]) ensures b[i := v] == a[i := v] { }
        assert a[i := b[i]] == b && b[i := b[i]] == b;
      }
      MinimiserHere(s, b, i);
    } else {
      IdleSlope(a[i], Partial(s, a, i), s.upper[i], z, Projected(s, a, i));
    }
  }

  lemma IdleSlope(a: real, G: real, u: Ext, z: real, pg: real)
    requires InBox(a, u) && InBox(z, u) && Abs(pg) <= TINY
    requires pg == if a == 0.0 then Min(G, 0.0) else if Fin(a) == u then Max(G, 0.0) else G
    ensures G * (z - a) >= -(TINY * Abs(z - a))
  {
    var e := z - a;
    var p := Product(TINY - Abs(pg), Abs(e));
    assert (TINY - Abs(pg)) * Abs(e) == TINY * Abs(e) - Abs(pg) * Abs(e);
    if G == pg {
      AbsTimes(G, e, e, G * e);
    } else if a == 0.0 {
      var q := Product(G, e);
    } else {
      var q := Product(-G, -e);
      assert -G * -e == G * e;
    }
  }

  // -------------------------------------------------------------- the rest of the pass

  ghost function AbsGradient(s: Setup): (Vec, int) -> real {
    (a, i) => Abs(GradientAt(s)(a, i))
  }

  /** Every point of a run that starts in the box stays in it. */
  lemma {:induction false} StaysFeasible(s: Setup, h: History<Vec, ()>, k: nat)
    requires Runs(Visits(s), h) && Feasible(s, h.points[0]) && k < |h.points|
    ensures Feasible(s, h.points[k])
  {
    hide Objective, Curvature, CoordinateMinimiser, Projected, InBox, Valid;
    if k > 0 {
      StaysFeasible(s, h, k - 1);
      assert Visits(s)(h.points[k - 1], h.points[k], h.marks[k - 1]);
    }
  }

  ghost function SlopeAt(s: Setup): (Vec, int) -> real {
    (a, i) => if Valid(s) && |a| == |s.y| && 0 <= i < |a| then Partial(s, a, i) else 0.0
  }

  lemma SlopeIs(s: Setup, a: Vec, i: nat)
    requires Valid(s) && |a| == |s.y| && i < |a|
    ensures SlopeAt(s)(a, i) == Partial(s, a, i)
  {
    hide Partial, Valid;
  }

  lemma VisitShifts(s: Setup, h: History<Vec, ()>, i: nat, K: real, k: nat)
    requires Runs(Visits(s), h) && Feasible(s, h.points[0]) && Coupled(s, K) && i < |s.y|
    requires k < |h.marks| && h.marks[k].i != i
    ensures |h.points| == |h.marks| + 1 && Shifts(SlopeAt(s), AbsGradient(s), h, i, K, k)
    ensures |h.points[k]| == |h.points[k + 1]| == |s.y| && h.points[k + 1][i] == h.points[k][i]
  {
    hide Visited, Partial, Projected, Coupled, LinAlg.Abs, Valid, InBox, AbsGradient, SlopeAt;
    StaysFeasible(s, h, k);
    var a, b, m := h.points[k], h.points[k + 1], h.marks[k];
    assert Visits(s)(a, b, m);
    MovesOne(s, a, b, m);
    ShiftBound(s, a, b, m, i, K);
    AbsGradientIs(s, a, m.i);
    SlopeIs(s, a, i);
    SlopeIs(s, b, i);
  }

  lemma {:induction false} NotMoved(s: Setup, h: History<Vec, ()>, i: nat, K: real, j: nat, n: nat)
    requires Runs(Visits(s), h) && Feasible(s, h.points[0]) && Coupled(s, K) && i < |s.y| && j <= n < |h.points|
    requires forall k :: j <= k < n ==> h.marks[k].i != i
    ensures |h.points[n]| == |h.points[j]| == |s.y| && h.points[n][i] == h.points[j][i]
    decreases n
  {
    hide Visits, Coupled, Valid, InBox, Shifts;
    StaysFeasible(s, h, j);
    if j < n {
      NotMoved(s, h, i, K, j, n - 1);
      VisitShifts(s, h, i, K, n - 1);
    }
  }

  /** From visit j on, the slope of a variable not visited again moves by at most K times the PGs found. */
  lemma SlopeDrift(s: Setup, h: History<Vec, ()>, i: nat, K: real, j: nat, n: nat)
    requires Runs(Visits(s), h) && Feasible(s, h.points[0]) && Coupled(s, K) && i < |s.y| && j <= n < |h.points|
    requires forall k :: j <= k < n ==> h.marks[k].i != i
    ensures |h.points[n]| == |h.points[j]| == |s.y| && h.points[n][i] == h.points[j][i]
    ensures Abs(Partial(s, h.points[n], i) - Partial(s, h.points[j], i))
         <= K * (Total(AbsGradient(s), h, n) - Total(AbsGradient(s), h, j))
  {
    hide *;
    NotMoved(s, h, i, K, j, n);
    RunsShape(s, h);
    forall k | j <= k < n ensures Shifts(SlopeAt(s), AbsGradient(s), h, i, K, k) { VisitShifts(s, h, i, K, k); }
    Drift(SlopeAt(s), AbsGradient(s), h, i, K, j, n);
    FeasibleShape(s, h.points[0]);
    SlopeIs(s, h.points[j], i);
    SlopeIs(s, h.points[n], i);
  }

  lemma FeasibleShape(s: Setup, a: Vec)
    requires Feasible(s, a)
    ensures Valid(s) && |a| == |s.y|
  {
  }

  /** What is left to gain in coordinate i at the end of a full pass. */
  ghost function Slack(s: Setup, h: History<Vec, ()>, K: real): real
    requires |h.marks| <= |h.points|
  {
    TINY + K * SumOver(AbsGradient(s), h)
  }

  lemma EndSlope(s: Setup, h: History<Vec, ()>, K: real, i: nat, z: real)
    requires Runs(Visits(s), h) && Full(h, |s.y|) && Feasible(s, h.points[0]) && Coupled(s, K) && i < |s.y|
    requires InBox(z, s.upper[i])
    ensures var a := h.points[|h.marks|];
            Feasible(s, a) && Partial(s, a, i) * (z - a[i]) >= -(Slack(s, h, K) * Abs(z - a[i]))
  {
    hide Visited, Partial, Projected, LinAlg.Abs, Valid, InBox, Curvature, Coupled, AbsGradient, Total;
    var n := |h.marks|;
    var k := VisitOf(h, Everything(|s.y|), i);
    var a, b, e, m := h.points[k], h.points[k + 1], h.points[n], h.marks[k];
    StaysFeasible(s, h, k);
    StaysFeasible(s, h, n);
    assert Visits(s)(a, b, m);
    AfterVisit(s, a, b, m, z);
    CoupledNonNeg(s, K);
    TotalStart(s, h);
    SlopeDrift(s, h, i, K, k + 1, n);
    AbsGradientNonNeg(s, h);
    TotalMonotone(AbsGradient(s), h, 0, k + 1);
    EndTerm(Partial(s, b, i), Partial(s, e, i), z - e[i], K, Total(AbsGradient(s), h, n),
            Total(AbsGradient(s), h, k + 1));
  }

  lemma CoupledNonNeg(s: Setup, K: real)
    requires Valid(s) && Coupled(s, K)
    ensures K >= 0.0
  {
  }

  lemma TotalStart(s: Setup, h: History<Vec, ()>)
    requires |h.marks| <= |h.points|
    ensures Total(AbsGradient(s), h, 0) == 0.0
  {
  }

  lemma AbsGradientNonNeg(s: Setup, h: History<Vec, ()>)
    requires |h.marks| <= |h.points|
    ensures forall k :: 0 <= k < |h.marks| ==> AbsGradient(s)(h.points[k], h.marks[k].i) >= 0.0
  {
    hide GradientAt;
    forall k | 0 <= k < |h.marks| ensures AbsGradient(s)(h.points[k], h.marks[k].i) >= 0.0 {
      var g := GradientAt(s)(h.points[k], h.marks[k].i);
      assert AbsGradient(s)(h.points[k], h.marks[k].i) == Abs(g);
    }
  }

  lemma AbsGradientIs(s: Setup, a: Vec, i: nat)
    requires Valid(s) && |a| == |s.y| && i < |a|
    ensures AbsGradient(s)(a, i) == Abs(Projected(s, a, i))
  {
    hide Projected, Valid;
    var g := GradientAt(s)(a, i);
    assert AbsGradient(s)(a, i) == Abs(g) && g == Projected(s, a, i);
  }

  lemma EndTerm(g: real, g': real, e: real, K: real, t: real, t0: real)
    requires g * e >= -(TINY * Abs(e)) && Abs(g' - g) <= K * (t - t0) && K >= 0.0 && t0 >= 0.0
    ensures g' * e >= -((TINY + K * t) * Abs(e))
  {
    Turning(g, g', e);
    Grown(Abs(g' - g), K, t, t0, Abs(e));
    Spreads(TINY, K * t, Abs(e));
  }

  lemma Turning(g: real, g': real, e: real)
    ensures g' * e >= g * e - Abs(g' - g) * Abs(e)
  {
    AbsTimes(g' - g, e, e, (g' - g) * e);
    assert g' * e == g * e + (g' - g) * e;
  }

  lemma Grown(d: real, K: real, t: real, t0: real, r: real)
    requires d <= K * (t - t0) && K >= 0.0 && t0 >= 0.0 && r >= 0.0
    ensures d * r <= (K * t) * r
  {
    var q := Product(K, t0);
    assert K * (t - t0) == K * t - K * t0;
    var p := Product(K * t - d, r);
    assert (K * t - d) * r == (K * t) * r - d * r;
  }

  lemma Spreads(a: real, b: real, r: real)
    ensures (a + b) * r == a * r + b * r
  {
  }

  // ------------------------------------------------------------- the objective

  lemma {:induction false} TiltAbove(s: Setup, h: History<Vec, ()>, K: real, a: Vec, b: Vec, k: nat)
    requires Runs(Visits(s), h) && Full(h, |s.y|) && Feasible(s, h.points[0]) && Coupled(s, K)
    requires a == h.points[|h.marks|] && Feasible(s, a) && Feasible(s, b) && k <= |a|
    ensures TiltTo(s, a, b, k) >= -(Slack(s, h, K) * Distance(a, b, k))
  {
    hide Partial, Slack, Valid, InBox, LinAlg.Abs, Coupled, Full, Runs;
    if k > 0 {
      TiltAbove(s, h, K, a, b, k - 1);
      RunsShape(s, h);
      EndSlope(s, h, K, k - 1, b[k - 1]);
      Spread(Slack(s, h, K), Distance(a, b, k - 1), Abs(b[k - 1] - a[k - 1]));
    }
  }

  lemma RunsShape(s: Setup, h: History<Vec, ()>)
    requires Runs(Visits(s), h)
    ensures |h.points| == |h.marks| + 1
  {
  }

  /**
   After any full pass, no feasible point is better than the end of the pass by more
   than (1e-12 + K times the sum of the |PG| found) times its distance.
   */
  lemma PassGap(s: Setup, h: History<Vec, ()>, K: real, b: Vec)
    requires Runs(Visits(s), h) && Full(h, |s.y|) && Feasible(s, h.points[0]) && Coupled(s, K) && Feasible(s, b)
    ensures |h.points| == |h.marks| + 1 && Feasible(s, h.points[|h.marks|])
    ensures var a := h.points[|h.marks|];
            Objective(s, b) >= Objective(s, a) - Slack(s, h, K) * Distance(a, b, |a|)
  {
    hide Objective, Slack, Full, Valid, InBox, Coupled;
    RunsShape(s, h);
    StaysFeasible(s, h, |h.marks|);
    var a := h.points[|h.marks|];
    TiltAbove(s, h, K, a, b, |a|);
    AboveTangent(s, a, b);
  }

  /** With all PGs within eps of zero the sum is at most l eps. */
  lemma {:induction false} SmallSum(s: Setup, h: History<Vec, ()>, eps: real, k: nat)
    requires Small(s, h, eps) && NoneShrunk(h) && k <= |h.marks|
    ensures Total(AbsGradient(s), h, k) <= k as real * eps
  {
    hide GradientAt, LinAlg.Abs;
    if k > 0 {
      SmallSum(s, h, eps, k - 1);
      var g := Found(s, h, k - 1);
      assert Abs(g) <= eps;
      assert AbsGradient(s)(h.points[k - 1], h.marks[k - 1].i) == Abs(g);
      assert Total(AbsGradient(s), h, k) == Total(AbsGradient(s), h, k - 1) + Abs(g);
      OneMore(k, eps);
    }
  }

  /** A good exit: all PGs within eps of zero leave at most (1e-12 + K l eps) per unit of distance to be gained. */
  lemma GoodExit(s: Setup, h: History<Vec, ()>, K: real, eps: real, b: Vec)
    requires Runs(Visits(s), h) && Full(h, |s.y|) && Feasible(s, h.points[0]) && Coupled(s, K) && Feasible(s, b)
    requires Small(s, h, eps)
    ensures |h.points| == |h.marks| + 1 && Feasible(s, h.points[|h.marks|])
    ensures var a := h.points[|h.marks|];
            Objective(s, b) >= Objective(s, a) - (TINY + K * (|h.marks| as real * eps)) * Distance(a, b, |a|)
  {
    hide *;
    PassGap(s, h, K, b);
    FullKeeps(s, h);
    SmallSum(s, h, eps, |h.marks|);
    var a := h.points[|h.marks|];
    FeasibleShape(s, a);
    FeasibleShape(s, b);
    DistanceNonNeg(a, b, |a|);
    CoupledNonNeg(s, K);
    SlackIs(s, h, K);
    MoreSlack(K, Total(AbsGradient(s), h, |h.marks|), |h.marks| as real * eps, Distance(a, b, |a|), Slack(s, h, K),
              Objective(s, b), Objective(s, a));
  }

  lemma FullKeeps(s: Setup, h: History<Vec, ()>)
    requires Full(h, |s.y|)
    ensures NoneShrunk(h)
  {
  }

  lemma SlackIs(s: Setup, h: History<Vec, ()>, K: real)
    requires |h.marks| <= |h.points|
    ensures Slack(s, h, K) == TINY + K * Total(AbsGradient(s), h, |h.marks|)
  {
  }

  lemma MoreSlack(K: real, t: real, u: real, d: real, c: real, fb: real, fa: real)
    requires K >= 0.0 && t <= u && d >= 0.0 && c == TINY + K * t && fb >= fa - c * d
    ensures fb >= fa - (TINY + K * u) * d
  {
    var p := Product(K, u - t);
    assert K * (u - t) == K * u - K * t;
    var q := Product(K * u - K * t, d);
    assert (K * u - K * t) * d == (TINY + K * u) * d - c * d;
  }

  // ------------------------------------------------------- gradients that vanish

  lemma IdleVisit(s: Setup, a: Vec, b: Vec, m: Mark<()>)
    requires Visited(s, a, b, m) && Projected(s, a, m.i) == 0.0
    ensures b == a
  {
    hide Objective, Curvature, Projected, CoordinateMinimiser;
  }

  /** As long as the PGs found are zero, a pass stands still. */
  lemma {:induction false} StandsStill(s: Setup, h: History<Vec, ()>, k: nat)
    requires Runs(Visits(s), h) && Valid(s) && k < |h.points| && forall j :: 0 <= j < k ==> Found(s, h, j) == 0.0
    ensures h.points[k] == h.points[0]
  {
    hide Visited, Projected;
    if k > 0 {
      StandsStill(s, h, k - 1);
      var a, b, m := h.points[k - 1], h.points[k], h.marks[k - 1];
      assert Visits(s)(a, b, m) && Found(s, h, k - 1) == 0.0;
      MovesOne(s, a, b, m);
      IdleVisit(s, a, b, m);
    }
  }

  ghost predicate Minimal(s: Setup, a: Vec) {
    Feasible(s, a) && forall b :: Feasible(s, b) ==> Objective(s, b) >= Objective(s, a)
  }

  /** A pass over all variables finds nothing but zeros if and only if it starts at a global minimiser. */
  lemma ZeroPassIff(s: Setup, h: History<Vec, ()>)
    requires Runs(Visits(s), h) && VisitsOnce(h, Everything(|s.y|)) && Feasible(s, h.points[0])
    ensures (forall k :: 0 <= k < |h.marks| ==> Found(s, h, k) == 0.0) <==> Minimal(s, h.points[0])
  {
    hide Visited, Objective, Projected;
    var a := h.points[0];
    OptimalIff(s, a);
    RunsShape(s, h);
    if forall k :: 0 <= k < |h.marks| ==> Found(s, h, k) == 0.0 {
      forall i | 0 <= i < |a| ensures Projected(s, a, i) == 0.0 {
        var k := VisitOf(h, Everything(|s.y|), i);
        StandsStill(s, h, k);
        assert Found(s, h, k) == 0.0;
      }
    } else if Minimal(s, a) {
      var k := FirstNonZero(s, h);
      StandsStill(s, h, k);
      assert Visits(s)(h.points[k], h.points[k + 1], h.marks[k]);
      MovesOne(s, h.points[k], h.points[k + 1], h.marks[k]);
    }
  }

  lemma FirstNonZero(s: Setup, h: History<Vec, ()>) returns (k: nat)
    requires |h.marks| <= |h.points| && !(forall k :: 0 <= k < |h.marks| ==> Found(s, h, k) == 0.0)
    ensures k < |h.marks| && Found(s, h, k) != 0.0 && forall j :: 0 <= j < k ==> Found(s, h, j) == 0.0
  {
    hide Found;
    k := 0;
    while Found(s, h, k) == 0.0
      invariant k < |h.marks| && forall j :: 0 <= j < k ==> Found(s, h, j) == 0.0
      decreases |h.marks| - k
    {
      k := k + 1;
    }
  }

  // ------------------------------------------------------------- a bad exit

  /** Three instances on which the first pass finds the same PG three times. */
  const ROWS: seq<Row> := [[Node(1, 1.0)], [Node(2, 1.0)], [Node(1, -0.5), Node(2, 0.5)]]

  /** L1 loss with C = 10. */
  ghost function Level(): (s: Setup)
    ensures Valid(s) && |s.y| == 3
  {
    LevelValid();
    SetupOf(Problem(2, ROWS, [1.0, 1.0, -1.0]), 10.0, 10.0, true)
  }

  lemma LevelValid()
    ensures ValidProblem(Problem(2, ROWS, [1.0, 1.0, -1.0]))
  {
    assert ValidRow(ROWS[0], 2) && ValidRow(ROWS[1], 2) && ValidRow(ROWS[2], 2);
  }

  lemma LevelIs()
    ensures var s := Level();
            && s.y == [1.0, 1.0, -1.0] && s.diag == [0.0, 0.0, 0.0] && s.upper == [Fin(10.0), Fin(10.0), Fin(10.0)]
            && s.p.n == 2 && X(s.p) == [[1.0, 0.0], [0.0, 1.0], [-0.5, 0.5]]
  {
    var s := Level();
    DenseAt(ROWS[0], 2, 0);
    DenseAbsent(ROWS[0], 2, 1);
    DenseAt(ROWS[1], 2, 0);
    DenseAbsent(ROWS[1], 2, 0);
    DenseAt(ROWS[2], 2, 0);
    DenseAt(ROWS[2], 2, 1);
    assert Dense(ROWS[0], 2) == [1.0, 0.0] && Dense(ROWS[1], 2) == [0.0, 1.0] && Dense(ROWS[2], 2) == [-0.5, 0.5];
  }

  lemma LevelPrimal(a: real, b: real, c: real)
    ensures Primal(Level(), [a, b, c]) == [a + 0.5 * c, b - 0.5 * c]
  {
    LevelIs();
    hide Level, Sparse.X;
    var s, v := Level(), [a, b, c];
    var k, V := Signed(s, v), X(s.p);
    assert k == [a, b, -c];
    assert Comb(k, V, 2, 0) == [0.0, 0.0];
    TwoEntries([0.0, 0.0], a, V[0], [a, 0.0]);
    assert Comb(k, V, 2, 1) == [a, 0.0];
    TwoEntries([a, 0.0], b, V[1], [a, b]);
    assert Comb(k, V, 2, 2) == [a, b];
    TwoEntries([a, b], -c, V[2], [a + 0.5 * c, b - 0.5 * c]);
    assert Comb(k, V, 2, 3) == [a + 0.5 * c, b - 0.5 * c];
  }

  lemma TwoEntries(u: Vec, c: real, v: Vec, r: Vec)
    requires |u| == |v| == |r| == 2 && r[0] == u[0] + c * v[0] && r[1] == u[1] + c * v[1]
    ensures Axpy(u, c, v) == r
  {
    var t := Axpy(u, c, v);
    assert t[0] == r[0] && t[1] == r[1];
  }

  lemma DotTwo(u: Vec, v: Vec)
    requires |u| == |v| == 2
    ensures Dot(u, v) == u[0] * v[0] + u[1] * v[1]
  {
    assert DotTo(u, v, 1) == u[0] * v[0];
  }

  lemma LevelObjective(a: real, b: real, c: real)
    ensures var w0, w1 := a + 0.5 * c, b - 0.5 * c;
            Objective(Level(), [a, b, c]) == 0.5 * (w0 * w0 + w1 * w1) - a - b - c
  {
    LevelIs();
    LevelPrimal(a, b, c);
    hide Level, Primal;
    var s, v := Level(), [a, b, c];
    DotTwo(Primal(s, v), Primal(s, v));
    assert SeparableTo(s, v, 0) == 0.0;
    assert SeparableTo(s, v, 1) == -a;
    assert SeparableTo(s, v, 2) == -a - b;
    assert SeparableTo(s, v, 3) == -a - b - c;
  }

  lemma LevelPartial(a: real, b: real, c: real)
    ensures var s, v := Level(), [a, b, c];
            && Partial(s, v, 0) == a + 0.5 * c - 1.0 && Partial(s, v, 1) == b - 0.5 * c - 1.0
            && Partial(s, v, 2) == 0.5 * a - 0.5 * b + 0.5 * c - 1.0
            && Curvature(s, 0) == 1.0 && Curvature(s, 1) == 1.0 && Curvature(s, 2) == 0.5
  {
    LevelIs();
    LevelPrimal(a, b, c);
    hide Level, Primal, Sparse.X;
    var s, v := Level(), [a, b, c];
    var w, V := Primal(s, v), X(s.p);
    DotTwo(V[0], w);
    DotTwo(V[1], w);
    DotTwo(V[2], w);
    DotTwo(V[0], V[0]);
    DotTwo(V[1], V[1]);
    DotTwo(V[2], V[2]);
  }

  /** Visiting variable i at zero with slope -1 takes it to 1 / QD. */
  lemma LevelVisit(a: Vec, b: Vec, i: nat, QD: real)
    requires |a| == |b| == 3 && i < 3 && a[i] == 0.0 && Partial(Level(), a, i) == -1.0
    requires Curvature(Level(), i) == QD && 0.1 <= QD <= 1.0 && b == a[i := 1.0 / QD]
    ensures Visited(Level(), a, b, Mark(i, false, ())) && Projected(Level(), a, i) == -1.0
  {
    LevelIs();
    hide Level, Partial, Curvature, Objective, CoordinateMinimiser;
    var s := Level();
    ClippedMinimises(s, a, i);
    var x := Clipped(a[i], Partial(s, a, i), Curvature(s, i), s.upper[i]);
    ClippedIs(QD, x);
    MinimiserVisited(s, a, i, x);
  }

  lemma ClippedIs(QD: real, x: real)
    requires 0.1 <= QD <= 1.0 && x == Clipped(0.0, -1.0, QD, Fin(10.0))
    ensures x == 1.0 / QD
  {
    var t := 1.0 / QD;
    assert t * QD == 1.0;
    assert 0.0 - -1.0 / QD == t;
    assert (t - 10.0) * QD == t * QD - 10.0 * QD && -t * QD == -(t * QD);
    if t > 10.0 { var q := Product(t - 10.0, QD); }
    if t < 0.0 { var q := Product(-t, QD); }
  }

  ghost function BadPass(): History<Vec, ()> {
    History([[0.0, 0.0, 0.0], [1.0, 0.0, 0.0], [1.0, 1.0, 0.0], [1.0, 1.0, 2.0]],
            [Mark(0, false, ()), Mark(1, false, ()), Mark(2, false, ())])
  }

  lemma BadPassRuns()
    ensures var s, h := Level(), BadPass();
            && Runs(Visits(s), h)
            && Found(s, h, 0) == -1.0 && Found(s, h, 1) == -1.0 && Found(s, h, 2) == -1.0
  {
    hide Level, Partial, Curvature, Visited, Projected;
    LevelPartial(0.0, 0.0, 0.0);
    LevelPartial(1.0, 0.0, 0.0);
    LevelPartial(1.0, 1.0, 0.0);
    var h := BadPass();
    LevelVisit(h.points[0], h.points[1], 0, 1.0);
    LevelVisit(h.points[1], h.points[2], 1, 1.0);
    LevelVisit(h.points[2], h.points[3], 2, 0.5);
  }

  /**
   The exit is no guarantee: from zero, one pass over these instances finds PG = -1
   three times, so the code stops for every eps >= 0, at an objective of -2; another
   feasible point has -5.
   */
  lemma ExitNeedNotBeOptimal(eps: real)
    requires eps >= 0.0
    ensures var s, h := Level(), BadPass();
            && IsRun(Visits(s), Narrow(s, eps), Rule(s), [h], 3, Zeros(3), [1.0, 1.0, 2.0])
            && Exits(Narrow(s, eps), h, 3)
            && Objective(s, [1.0, 1.0, 2.0]) == -2.0
            && Feasible(s, [0.0, 4.0, 6.0]) && Objective(s, [0.0, 4.0, 6.0]) == -5.0
  {
    LevelIs();
    BadPassRuns();
    LevelObjective(1.0, 1.0, 2.0);
    LevelObjective(0.0, 4.0, 6.0);
    hide Level, Found, Objective, Visits, Primal, Rule;
    var s, h := Level(), BadPass();
    BadPassFull();
    FreshKeepsAll(s, h);
    assert [h][..0] == [];
    assert Zeros(3) == h.points[0];
    assert Linked(Visits(s), [h], Zeros(3), [1.0, 1.0, 2.0]);
    assert Narrows(s, h, eps);
  }

  lemma BadPassFull()
    ensures Full(BadPass(), 3)
  {
    var h := BadPass();
    var names := Names(h.marks);
    assert names == [0, 1, 2];
    assert names[0] == 0 && names[1] == 1 && names[2] == 2;
    forall v ensures v in names <==> v in Everything(3) { }
  }
}
