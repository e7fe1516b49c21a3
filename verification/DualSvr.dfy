/**
 solve_l2r_l1l2_svr of linear.cpp: dual coordinate descent for L1-loss and
 L2-loss epsilon-support-vector regression.
 */
module DualSvr {
  import opened LinAlg
  import opened Sparse
  import opened ExtReal
  import opened KinkedParabola
  import opened Permutation
  import opened ActiveSet
  import opened RunHistory
  import opened DualSvrObjective

  function SetupOf(prob: Problem, C: real, p: real, l1: bool): (s: Setup)
    requires ValidProblem(prob) && C > 0.0 && p >= 0.0
    ensures Valid(s) && s.prob == prob && s.p == p
    ensures l1 ==> s.lambda == 0.0 && s.upper == Fin(C)
    ensures !l1 ==> s.lambda == 0.5 / C && s.upper == PosInf
  {
    Setup(prob, if l1 then 0.0 else 0.5 / C, if l1 then Fin(C) else PosInf, p)
  }

  /** w = sum_i b_i x_i and |b_i| <= U. */
  ghost predicate State(s: Setup, b: Vec, w: Vec) {
    && Valid(s) && |b| == |s.prob.x|
    && w == Primal(s, b)
    && forall i :: 0 <= i < |b| ==> InBox(b[i], s.upper)
  }

  /** By how much coordinate i violates optimality: the distance of zero from its subdifferential over the box. */
  ghost function Violation(s: Setup, b: Vec, i: nat): real
    requires Valid(s) && |b| == |s.prob.x| && i < |b|
  {
    var Gp, Gn := Partial(s, b, i) + s.p, Partial(s, b, i) - s.p;
    if b[i] == 0.0 then Max(Max(-Gp, Gn), 0.0)
    else if AtMost(s.upper, Fin(b[i])) then Max(Gp, 0.0)
    else if AtMost(s.upper, Fin(-b[i])) then Max(-Gn, 0.0)
    else if b[i] > 0.0 then Abs(Gp)
    else Abs(Gn)
  }

  /**
   The shrinking test: on a kink or a bound, with the subdifferential beyond the largest violation
   of the last pass.
   */
  ghost predicate Shrinkable(s: Setup, b: Vec, i: nat, bound: Ext)
    requires Valid(s) && |b| == |s.prob.x| && i < |b|
  {
    var Gp, Gn := Partial(s, b, i) + s.p, Partial(s, b, i) - s.p;
    if b[i] == 0.0 then Gn <= 0.0 <= Gp && Below(bound, Fin(Gp)) && Below(Fin(Gn), Neg(bound))
    else if AtMost(s.upper, Fin(b[i])) then Gp <= 0.0 && Below(Fin(Gp), Neg(bound))
    else AtMost(Fin(b[i]), Neg(s.upper)) && Gn >= 0.0 && Below(bound, Fin(Gn))
  }

  /**
   With largest violation g: at zero and further than g inside the tube, or on a bound with a
   slope that points out of the box by more than g.
   */
  lemma ShrinkableIff(s: Setup, b: Vec, i: nat, g: real)
    requires Valid(s) && |b| == |s.prob.x| && i < |b| && g >= 0.0 && InBox(b[i], s.upper)
    ensures var G, out := Partial(s, b, i), if b[i] > 0.0 then -Partial(s, b, i) else Partial(s, b, i);
            Shrinkable(s, b, i, Fin(g)) <==>
              if b[i] == 0.0 then s.p - Abs(G) > g else Fin(Abs(b[i])) == s.upper && out - s.p > g
  {
    hide Partial;
  }

  /** The Newton direction is shorter than 1e-12. */
  ghost predicate Idle(s: Setup, b: Vec, i: nat)
    requires Valid(s) && |b| == |s.prob.x| && i < |b| && Curvature(s, i) >= 0.0
  {
    var t := Target(b[i], Partial(s, b, i), Curvature(s, i), s.p);
    t.Fin? && Abs(t.r - b[i]) < 0.000000000001
  }

  /**
   What a visit does: a shrunk variable stays where it is and violates nothing;
   any other goes to its minimiser over the box, unless its direction is idle.
   */
  ghost predicate Visited(s: Setup, b: Vec, b': Vec, m: Mark<()>) {
    && Valid(s) && |b| == |s.prob.x| && 0 <= m.i < |b| && Curvature(s, m.i) >= 0.0 && Step(s, b, b', m.i)
    && (m.shrunk ==> b' == b && Violation(s, b, m.i) == 0.0)
    && (!m.shrunk && !Idle(s, b, m.i) ==> CoordinateMinimiser(s, b, m.i, b'[m.i]))
    && (!m.shrunk && Idle(s, b, m.i) ==> b' == b)
  }

  ghost function Visits(s: Setup): (Vec, Vec, Mark<()>) -> bool {
    (b, b', m) => Visited(s, b, b', m)
  }

  /** A visit lowers the objective by at least half the curvature times the squared change. */
  lemma VisitFacts(s: Setup, a: Vec, b: Vec, m: Mark<()>)
    requires Visited(s, a, b, m)
    ensures Valid(s) && |a| == |b| == |s.prob.x| && 0 <= m.i < |a|
    ensures Objective(s, b) <= Objective(s, a) - 0.5 * (Curvature(s, m.i) * ((b[m.i] - a[m.i]) * (b[m.i] - a[m.i])))
    ensures Objective(s, b) <= Objective(s, a)
  {
    hide Objective, Curvature, CoordinateMinimiser, Violation, Idle;
    var y := Square(b[m.i] - a[m.i]);
    var p := Product(Curvature(s, m.i), y);
  }

  /** The objective of the points of a run; zero elsewhere. */
  ghost function Value(s: Setup): Vec -> real {
    b => if Valid(s) && |b| == |s.prob.x| then Objective(s, b) else 0.0
  }

  lemma VisitsDescend(s: Setup)
    ensures forall a, b, m :: Visits(s)(a, b, m) ==> Value(s)(b) <= Value(s)(a)
  {
    hide Visited, Objective;
    forall a, b, m | Visits(s)(a, b, m) ensures Value(s)(b) <= Value(s)(a) {
      VisitFacts(s, a, b, m);
    }
  }

  /** Over a whole run, from any point to any later one, the objective never rises. */
  lemma RunDescends(s: Setup, passes: seq<History<Vec, ()>>, start: Vec, end: Vec, p: nat, j: nat, q: nat, k: nat)
    requires Linked(Visits(s), passes, start, end) && q < |passes| && (p < q || (p == q && j <= k))
    requires j < |passes[p].points| && k < |passes[q].points| && Valid(s)
    requires |passes[p].points[j]| == |s.prob.x| == |passes[q].points[k]|
    ensures Objective(s, passes[q].points[k]) <= Objective(s, passes[p].points[j])
  {
    hide Visits, Objective, Linked;
    VisitsDescend(s);
    NeverRises(Visits(s), Value(s), passes, start, end, p, j, q, k);
  }

  // --------------------------------------------------------------- one visit

  lemma StateStep(s: Setup, b: Vec, w: Vec, i: nat, x: real)
    requires State(s, b, w) && i < |b| && InBox(x, s.upper)
    ensures |X(s.prob)[i]| == |w| && State(s, b[i := x], Axpy(w, x - b[i], X(s.prob)[i]))
  {
    hide Primal, InBox;
    PrimalMoves(s, b, i, x);
  }

  lemma StateFacts(s: Setup, b: Vec, w: Vec)
    requires State(s, b, w)
    ensures Valid(s) && |b| == |s.prob.x| == |s.prob.y| && |w| == s.prob.n && ValidProblem(s.prob)
    ensures ValidRows(s.prob.x, s.prob.n)
    ensures |X(s.prob)| == |b|
    ensures forall i :: 0 <= i < |b| ==>
        && X(s.prob)[i] == Dense(s.prob.x[i], s.prob.n) && InBox(b[i], s.upper)
        && ValidRow(s.prob.x[i], s.prob.n)
    ensures forall i :: 0 <= i < |b| ==> Partial(s, b, i) == -s.prob.y[i] + s.lambda * b[i] + Dot(X(s.prob)[i], w)
    ensures forall i :: 0 <= i < |b| ==> Curvature(s, i) >= 0.0
  {
    hide LinAlg.Dot;
    forall i | 0 <= i < |b| ensures Curvature(s, i) >= 0.0 {
      CurvatureSign(s, i);
    }
  }

  /** The violation, or the decision to shrink. */
  function Inspect(b: real, Gp: real, Gn: real, u: Ext, GmaxOld: Ext): (r: (bool, real)) {
    if b == 0.0 then
      if Gp < 0.0 then (false, -Gp)
      else if Gn > 0.0 then (false, Gn)
      else (Below(GmaxOld, Fin(Gp)) && Below(Fin(Gn), Neg(GmaxOld)), 0.0)
    else if AtMost(u, Fin(b)) then
      if Gp > 0.0 then (false, Gp) else (Below(Fin(Gp), Neg(GmaxOld)), 0.0)
    else if AtMost(Fin(b), Neg(u)) then
      if Gn < 0.0 then (false, -Gn) else (Below(GmaxOld, Fin(Gn)), 0.0)
    else if b > 0.0 then (false, Abs(Gp))
    else (false, Abs(Gn))
  }

  lemma ShowVisit(s: Setup, b: Vec, i: nat, G: real, GmaxOld: Ext)
    requires Valid(s) && |b| == |s.prob.x| && i < |b| && G == Partial(s, b, i) && InBox(b[i], s.upper)
    requires Curvature(s, i) >= 0.0
    ensures var r := Inspect(b[i], G + s.p, G - s.p, s.upper, GmaxOld);
            && r.1 == Violation(s, b, i)
            && (r.0 <==> Shrinkable(s, b, i, GmaxOld))
            && (r.0 ==> Visited(s, b, b, Mark(i, true, ())))
  {
    hide Partial, Curvature, Objective, CoordinateMinimiser;
  }

  lemma IdleVisited(s: Setup, b: Vec, i: nat)
    requires Valid(s) && |b| == |s.prob.x| && i < |b| && InBox(b[i], s.upper) && Curvature(s, i) >= 0.0 && Idle(s, b, i)
    ensures Visited(s, b, b, Mark(i, false, ()))
  {
    hide Objective, Curvature, Idle, CoordinateMinimiser;
  }

  lemma IdleIs(s: Setup, b: Vec, i: nat, t: Ext)
    requires Valid(s) && |b| == |s.prob.x| && i < |b| && Curvature(s, i) >= 0.0
    requires t == Target(b[i], Partial(s, b, i), Curvature(s, i), s.p)
    ensures Idle(s, b, i) <==> t.Fin? && Abs(t.r - b[i]) < 0.000000000001
  {
    hide Target, Partial, Curvature;
  }

  lemma MinimiserVisited(s: Setup, b: Vec, i: nat, x: real)
    requires CoordinateMinimiser(s, b, i, x) && Valid(s) && |b| == |s.prob.x| && i < |b| && InBox(b[i], s.upper)
    requires Curvature(s, i) >= 0.0 && !Idle(s, b, i)
    ensures Visited(s, b, b[i := x], Mark(i, false, ()))
  {
    MinimiserIsStep(s, b, i, x);
    hide Objective, Curvature, Idle, Step, CoordinateMinimiser;
  }

  method VisitVariable(s: Setup, QD: array<real>, beta: array<real>, w: array<real>, i: nat, GmaxOld: Ext)
    returns (shrunk: bool, violation: real)
    requires State(s, beta[..], w[..]) && i < beta.Length == QD.Length && beta != w && QD != beta && QD != w
    requires Valid(s) && i < |s.prob.x| && QD[i] + s.lambda == Curvature(s, i)
    modifies beta, w
    ensures State(s, beta[..], w[..])
    ensures |s.prob.x| == beta.Length && (shrunk <==> Shrinkable(s, old(beta[..]), i, GmaxOld))
    ensures Visited(s, old(beta[..]), beta[..], Mark(i, shrunk, ()))
    ensures violation == Violation(s, old(beta[..]), i)
  {
    hide *;
    ghost var b, wv := beta[..], w[..];
    StateFacts(s, b, wv);
    var G := -s.prob.y[i] + s.lambda * beta[i];
    var H := QD[i] + s.lambda;
    var dot := RowDot(s.prob.x[i], w);
    G := G + dot;
    ShowVisit(s, b, i, G, GmaxOld);
    var r := Inspect(beta[i], G + s.p, G - s.p, s.upper, GmaxOld);
    shrunk, violation := r.0, r.1;
    if shrunk {
      return;
    }
    var t := Target(beta[i], G, H, s.p);
    IdleIs(s, b, i, t);
    if t.Fin? && Abs(t.r - beta[i]) < 0.000000000001 {
      IdleVisited(s, b, i);
      return;
    }
    var betaOld := beta[i];
    CurvatureSign(s, i);
    ClippedMinimises(s, b, i);
    beta[i] := ClipTo(t, s.upper).r;
    MinimiserVisited(s, b, i, beta[i]);
    var d := beta[i] - betaOld;
    StateStep(s, b, wv, i, beta[i]);
    assert beta[..] == b[i := beta[i]];
    if d != 0.0 {
      AddRow(w, d, s.prob.x[i]);
    } else {
      AxpyNothing(wv, d, Dense(s.prob.x[i], s.prob.n));
    }
  }

  // ---------------------------------------------------- what the violation measures

  /** Staying at b is optimal exactly when no move inside the box goes downhill. */
  lemma MinimiserHere(s: Setup, b: Vec, i: nat)
    requires Valid(s) && |b| == |s.prob.x| && i < |b| && InBox(b[i], s.upper)
    ensures CoordinateMinimiser(s, b, i, b[i]) <==> forall z :: InBox(z, s.upper) ==>
        Tilt(Partial(s, b, i), s.p, b[i], z) >= 0.0
  {
    hide Objective, Partial, Curvature, KinkedParabola.InBox, KinkedParabola.Kinked, KinkedParabola.Tilt;
    assert b[i := b[i]] == b;
    if CoordinateMinimiser(s, b, i, b[i]) {
      forall z | InBox(z, s.upper) ensures Tilt(Partial(s, b, i), s.p, b[i], z) >= 0.0 { TiltAlong(s, b, i, z); }
    }
    if forall z :: InBox(z, s.upper) ==> Tilt(Partial(s, b, i), s.p, b[i], z) >= 0.0 {
      forall z | InBox(z, s.upper)
        ensures Objective(s, b[i := z]) >= Objective(s, b) + 0.5 * (Curvature(s, i) * ((z - b[i]) * (z - b[i])))
      {
        assert Tilt(Partial(s, b, i), s.p, b[i], z) >= 0.0;
        TiltAlong(s, b, i, z);
      }
    }
  }

  lemma TiltAlong(s: Setup, b: Vec, i: nat, z: real)
    requires Valid(s) && |b| == |s.prob.x| && i < |b|
    ensures Objective(s, b[i := z]) == Objective(s, b) + Tilt(Partial(s, b, i), s.p, b[i], z)
        + 0.5 * (Curvature(s, i) * ((z - b[i]) * (z - b[i])))
  {
    hide Objective, Partial, Curvature, KinkedParabola.Kinked, KinkedParabola.Tilt, LinAlg.Abs;
    AlongCoordinate(s, b, i, z);
    TiltIs(Partial(s, b, i), Curvature(s, i), s.p, b[i], z);
  }

  lemma TiltIs(G: real, H: real, p: real, b: real, z: real)
    ensures Kinked(G, H, p, b, z) - p * Abs(b) == Tilt(G, p, b, z) + 0.5 * (H * ((z - b) * (z - b)))
  {
    hide LinAlg.Abs;
    assert p * (Abs(z) - Abs(b)) == p * Abs(z) - p * Abs(b);
  }

  /** A violation of zero says exactly that the coordinate is at its minimiser over the box. */
  lemma ZeroViolationIff(s: Setup, b: Vec, i: nat)
    requires Valid(s) && |b| == |s.prob.x| && i < |b| && InBox(b[i], s.upper)
    ensures Violation(s, b, i) == 0.0 <==> CoordinateMinimiser(s, b, i, b[i])
  {
    hide Partial, CoordinateMinimiser, KinkedParabola.InBox, KinkedParabola.Tilt;
    MinimiserHere(s, b, i);
    var G := Partial(s, b, i);
    if Flat(G, s.p, b[i], s.upper) {
      forall z | InBox(z, s.upper) ensures Tilt(G, s.p, b[i], z) >= 0.0 { FlatTilts(G, s.p, b[i], s.upper, z); }
    } else if forall z :: InBox(z, s.upper) ==> Tilt(G, s.p, b[i], z) >= 0.0 {
      TiltsFlat(G, s.p, b[i], s.upper);
    }
  }

  // ---------------------------------------------------------------- one pass

  /** The violation of variable i at point b; zero where there is none. */
  ghost function ViolationAt(s: Setup): (Vec, int) -> real {
    (b, i) => if Valid(s) && |b| == |s.prob.x| && 0 <= i < |b| then Violation(s, b, i) else 0.0
  }

  /** Which variables a pass shrinks is decided by the largest violation of the pass before. */
  ghost function Shrinks(s: Setup, bound: Ext): (Vec, int) -> bool {
    (b, i) => Valid(s) && |b| == |s.prob.x| && 0 <= i < |b| && Shrinkable(s, b, i, bound)
  }

  lemma ShowVisits(s: Setup, b: Vec, c: Vec, m: Mark<()>, v: real, bound: Ext)
    requires Visited(s, b, c, m) && Valid(s) && |b| == |s.prob.x| && 0 <= m.i < |b| && v == Violation(s, b, m.i)
    ensures Visits(s)(b, c, m) && v == ViolationAt(s)(b, m.i)
    ensures Shrinks(s, bound)(b, m.i) <==> Shrinkable(s, b, m.i, bound)
  {
    hide Visited, Violation, Valid, Shrinkable;
  }

  /** A shrunk variable adds nothing to the measures: its violation is zero. */
  lemma ShrunkIsZero(s: Setup, b: Vec, c: Vec, m: Mark<()>)
    requires Visited(s, b, c, m) && m.shrunk
    ensures Valid(s) && |b| == |s.prob.x| && 0 <= m.i < |b| && Violation(s, b, m.i) == 0.0
  {
    hide Violation, Step, Idle, CoordinateMinimiser;
  }

  /** Gmax_old: INF at first and after a reset, else the largest violation of the pass before. */
  ghost predicate Threshold(s: Setup, prior: Prior<Vec, ()>, bound: Ext) {
    match prior
    case Fresh => bound == PosInf
    case After(g) => exists total, largest :: Measured(ViolationAt(s), g, total, largest) && bound == Fin(largest)
  }

  /** A pass shrinks by the threshold that the pass before left. */
  ghost function Rule(s: Setup): (Prior<Vec, ()>, History<Vec, ()>) -> bool {
    (prior, h) => exists bound :: Threshold(s, prior, bound) && ShrinksBy(Shrinks(s, bound), h)
  }

  lemma ShowRule(s: Setup, prior: Prior<Vec, ()>, bound: Ext, h: History<Vec, ()>)
    requires Threshold(s, prior, bound) && ShrinksBy(Shrinks(s, bound), h)
    ensures Rule(s)(prior, h)
  {
    hide Threshold, ShrinksBy;
  }

  lemma FreshThreshold(s: Setup)
    ensures Threshold(s, Fresh, PosInf)
  {
  }

  lemma NextThreshold(s: Setup, h: History<Vec, ()>, total: real, largest: real)
    requires Measured(ViolationAt(s), h, total, largest)
    ensures Threshold(s, After(h), Fin(largest))
  {
    hide Measured;
  }

  lemma FreshIs(s: Setup, bound: Ext)
    requires Threshold(s, Fresh, bound)
    ensures bound == PosInf
  {
  }

  /** At first and after a reset no variable is shrunk. */
  lemma FreshKeepsAll(s: Setup, h: History<Vec, ()>)
    requires |h.marks| <= |h.points|
    ensures Rule(s)(Fresh, h) <==> NoneShrunk(h)
  {
    hide Threshold, ShrinksBy, NoneShrunk;
    FreshThreshold(s);
    NeverShrinks(Shrinks(s, PosInf), h);
    if NoneShrunk(h) { ShowRule(s, Fresh, PosInf, h); }
    if Rule(s)(Fresh, h) {
      var bound :| Threshold(s, Fresh, bound) && ShrinksBy(Shrinks(s, bound), h);
      FreshIs(s, bound);
      assert Shrinks(s, bound) == Shrinks(s, PosInf);
    }
  }

  /** How far the slope of a variable at zero or at a bound is from where it would pay to move it. */
  ghost function SpareAt(s: Setup): (Vec, int) -> real {
    (b, i) => if Valid(s) && |b| == |s.prob.x| && 0 <= i < |b| then Spare(s, b, i) else 0.0
  }

  ghost function Spare(s: Setup, b: Vec, i: nat): real
    requires Valid(s) && |b| == |s.prob.x| && i < |b|
  {
    var G := Partial(s, b, i);
    if b[i] == 0.0 then s.p - Abs(G)
    else if Fin(Abs(b[i])) == s.upper then (if b[i] > 0.0 then -G else G) - s.p
    else 0.0
  }

  ghost predicate InReach(s: Setup, b: Vec, i: int)
    requires Valid(s)
  {
    |b| == |s.prob.x| && 0 <= i < |b| && InBox(b[i], s.upper)
  }

  /** A pass shrinks exactly the variables whose distance is larger than every violation of the pass before. */
  lemma RuleMeans(s: Setup, g: History<Vec, ()>, h: History<Vec, ()>)
    requires Valid(s) && |g.points| == |g.marks| + 1 && |h.marks| <= |h.points|
    requires forall k :: 0 <= k < |h.marks| ==> InReach(s, h.points[k], h.marks[k].i)
    ensures Rule(s)(After(g), h) <==>
            forall k :: 0 <= k < |h.marks| ==>
              (h.marks[k].shrunk <==> Exceeds(ViolationAt(s), g, SpareAt(s)(h.points[k], h.marks[k].i)))
  {
    hide ViolationAt, SpareAt, Shrinks, InReach, Measured, Exceeds;
    var total, largest := SomeMeasure(ViolationAt(s), g);
    NextThreshold(s, g, total, largest);
    ShrinksByIff(s, g, h, total, largest);
    if ShrinksBy(Shrinks(s, Fin(largest)), h) { ShowRule(s, After(g), Fin(largest), h); }
    if Rule(s)(After(g), h) {
      var bound :| Threshold(s, After(g), bound) && ShrinksBy(Shrinks(s, bound), h);
      OneThreshold(s, g, bound, total, largest);
    }
  }

  lemma OneThreshold(s: Setup, g: History<Vec, ()>, bound: Ext, total: real, largest: real)
    requires Threshold(s, After(g), bound) && Measured(ViolationAt(s), g, total, largest)
    ensures bound == Fin(largest)
  {
    hide ViolationAt;
    var t, m :| Measured(ViolationAt(s), g, t, m) && bound == Fin(m);
    MeasuredOnce(ViolationAt(s), g, total, largest, t, m);
  }

  lemma ShrinksByIff(s: Setup, g: History<Vec, ()>, h: History<Vec, ()>, total: real, largest: real)
    requires Valid(s) && Measured(ViolationAt(s), g, total, largest) && |h.marks| <= |h.points|
    requires forall k :: 0 <= k < |h.marks| ==> InReach(s, h.points[k], h.marks[k].i)
    ensures ShrinksBy(Shrinks(s, Fin(largest)), h) <==>
            forall k :: 0 <= k < |h.marks| ==>
              (h.marks[k].shrunk <==> Exceeds(ViolationAt(s), g, SpareAt(s)(h.points[k], h.marks[k].i)))
  {
    hide ViolationAt, SpareAt, Shrinks, InReach, Measured, Exceeds;
    forall k | 0 <= k < |h.marks|
      ensures Shrinks(s, Fin(largest))(h.points[k], h.marks[k].i)
           == Exceeds(ViolationAt(s), g, SpareAt(s)(h.points[k], h.marks[k].i))
    {
      ExceedsIff(ViolationAt(s), g, total, largest, SpareAt(s)(h.points[k], h.marks[k].i));
      MeasuredFacts(ViolationAt(s), g, total, largest);
      ShrinksIff(s, h.points[k], h.marks[k].i, largest);
    }
    assert forall k :: 0 <= k < |h.marks| ==>
      (ShrinksAt(Shrinks(s, Fin(largest)), h, k) <==>
        (h.marks[k].shrunk <==> Exceeds(ViolationAt(s), g, SpareAt(s)(h.points[k], h.marks[k].i))));
  }

  lemma ShrinksIff(s: Setup, b: Vec, i: int, largest: real)
    requires Valid(s) && InReach(s, b, i) && largest >= 0.0
    ensures Shrinks(s, Fin(largest))(b, i) <==> SpareAt(s)(b, i) > largest
  {
    hide Partial;
    ShrinkableIff(s, b, i, largest);
  }

  method RunPass(s: Setup, QD: array<real>, beta: array<real>, w: array<real>, index: array<int>, activeIn: nat,
                 GmaxOld: Ext)
    returns (active: nat, Gmax: real, Gnorm1: real, ghost h: History<Vec, ()>)
    requires State(s, beta[..], w[..])
    requires beta.Length == QD.Length == index.Length && beta != w && QD != beta && QD != w
    requires Valid(s) && |s.prob.x| == QD.Length
    requires forall i :: 0 <= i < QD.Length ==> QD[i] + s.lambda == Curvature(s, i)
    requires IsPerm(index[..], index.Length) && activeIn <= index.Length
    modifies beta, w, index
    ensures State(s, beta[..], w[..]) && IsPerm(index[..], index.Length)
    ensures Runs(Visits(s), h) && StartsAt(h, old(beta[..])) && EndsAt(h, beta[..])
    ensures PassOver(h, old(index[..]), activeIn, index[..], active)
    ensures Measured(ViolationAt(s), h, Gnorm1, Gmax) && ShrinksBy(Shrinks(s, GmaxOld), h)
  {
    hide State, Runs, Visits, Visited, Shrinkable, Measured, ShrinksBy, ActiveSet.Pass, Permutation.Values, Valid;
    hide VisitedAll, Permutation.IsPerm, Curvature, Names, Kept, StartsAt, EndsAt, Extended, Violation;
    hide Shrinks, ViolationAt;
    ghost var before, b0 := index[..], beta[..];
    active, Gmax, Gnorm1, h := activeIn, 0.0, 0.0, Begun(beta[..]);
    ghost var all := Values(index[..], activeIn);
    StartPass(index[..], index.Length, activeIn);
    RunsBegun(Visits(s), b0);
    MeasuredBegun<Vec, ()>(ViolationAt(s), b0);
    ShrinksBegun<Vec, ()>(Shrinks(s, GmaxOld), before, b0);
    var k := 0;
    while k < active
      invariant k <= active <= activeIn
      invariant Pass(index[..], index.Length, activeIn, k, active, Names(h.marks), all)
      invariant State(s, beta[..], w[..])
      invariant Runs(Visits(s), h) && StartsAt(h, b0) && EndsAt(h, beta[..]) && |h.points| == |h.marks| + 1
      invariant Measured(ViolationAt(s), h, Gnorm1, Gmax) && ShrinksBy(Shrinks(s, GmaxOld), h)
      invariant Values(index[..], k) == Kept(h.marks) && (active == activeIn <==> NoneShrunk(h))
      decreases active - k
    {
      PassEntry(index[..], index.Length, activeIn, k, active, Names(h.marks), all);
      var i := index[k];
      ghost var b, g := beta[..], h;
      StateFacts(s, b, w[..]);
      var shrunk, violation := VisitVariable(s, QD, beta, w, i, GmaxOld);
      ghost var m := Mark(i, shrunk, ());
      ShowVisits(s, b, beta[..], m, violation, GmaxOld);
      RunsExtended(Visits(s), g, b, beta[..], m, b0);
      ShrinksMore(Shrinks(s, GmaxOld), g, b, beta[..], m);
      MeasuredMore(ViolationAt(s), g, Gnorm1, Gmax, b, beta[..], m, violation);
      ExtendedShape(g, beta[..], m);
      h := Extended(g, beta[..], m);
      if shrunk {
        ShrunkIsZero(s, b, beta[..], m);
        MeasuredFacts(ViolationAt(s), g, Gnorm1, Gmax);
        Drop(index[..], index.Length, activeIn, k, active, Names(g.marks), all);
        active := active - 1;
        Swap(index, k, active);
      } else {
        Gmax := Max(Gmax, violation);
        Gnorm1 := Gnorm1 + violation;
        Keep(index[..], index.Length, activeIn, k, active, Names(g.marks), all);
        k := k + 1;
      }
    }
    PassEnds(index[..], index.Length, activeIn, k, active, Names(h.marks), all);
  }

  // ------------------------------------------------------------------ the run

  method Init(s: Setup, QD: array<real>, beta: array<real>, w: array<real>, index: array<int>)
    requires Valid(s) && beta.Length == QD.Length == index.Length == |s.prob.x| && w.Length == s.prob.n
    requires beta != w && QD != beta && QD != w
    modifies QD, beta, w, index
    ensures State(s, beta[..], w[..]) && beta[..] == Zeros(|s.prob.x|)
    ensures forall i :: 0 <= i < QD.Length ==> QD[i] + s.lambda == Curvature(s, i)
    ensures IsPerm(index[..], index.Length)
  {
    hide LinAlg.Dot, Sparse.Dense, LinAlg.Comb;
    for i := 0 to beta.Length
      invariant forall k :: 0 <= k < i ==> beta[k] == 0.0
    {
      beta[i] := 0.0;
    }
    for i := 0 to w.Length
      invariant forall k :: 0 <= k < i ==> w[k] == 0.0
      invariant beta[..] == Zeros(|s.prob.x|)
    {
      w[i] := 0.0;
    }
    for i := 0 to beta.Length
      invariant forall k :: 0 <= k < i ==> QD[k] + s.lambda == Curvature(s, k) && index[k] == k
      invariant beta[..] == Zeros(|s.prob.x|) && w[..] == Zeros(s.prob.n)
    {
      var q := RowSquare(s.prob.x[i], s.prob.n);
      QD[i] := q;
      AxpyNothing(w[..], beta[i], Dense(s.prob.x[i], s.prob.n));
      AddRow(w, beta[i], s.prob.x[i]);
      index[i] := i;
    }
    ZeroState(s);
  }

  lemma ZeroState(s: Setup)
    requires Valid(s)
    ensures State(s, Zeros(|s.prob.x|), Zeros(s.prob.n))
  {
    hide LinAlg.Comb;
    CombZero(Zeros(|s.prob.x|), X(s.prob), s.prob.n, |s.prob.x|);
  }

  /** The value printed at the end is the dual objective. */
  method ObjectiveValue(s: Setup, beta: array<real>, w: array<real>) returns (v: real)
    requires State(s, beta[..], w[..])
    ensures v == Objective(s, beta[..])
  {
    hide LinAlg.Comb, Sparse.Dense, Sparse.X, Primal, DualSvrObjective.Separable;
    v := 0.0;
    for i := 0 to w.Length
      invariant v == DotTo(w[..], w[..], i)
    {
      v := v + w[i] * w[i];
    }
    v := 0.5 * v;
    ghost var half := v;
    for i := 0 to beta.Length
      invariant v == half + SeparableTo(s, beta[..], i)
    {
      SeparableIs(s, s.prob.y[i], beta[i]);
      v := v + (s.p * Abs(beta[i]) - s.prob.y[i] * beta[i] + 0.5 * s.lambda * beta[i] * beta[i]);
    }
  }

  lemma SeparableIs(s: Setup, y: real, b: real)
    ensures s.p * Abs(b) - y * b + 0.5 * s.lambda * b * b == DualSvrObjective.Separable(s, y, b)
  {
    assert 0.5 * s.lambda * b * b == 0.5 * (s.lambda * (b * b));
  }

  const MAX_ITER := 1000

  /** solve_l2r_l1l2_svr.  `passes` is the whole run, pass by pass; `value` is what is printed. */
  method Solve(prob: Problem, w: array<real>, eps: real, C: real, p: real, l1: bool)
    returns (beta: array<real>, value: real, iter: nat, converged: bool, ghost s: Setup,
             ghost passes: seq<History<Vec, ()>>)
    requires ValidProblem(prob) && C > 0.0 && p >= 0.0 && w.Length == prob.n
    modifies w
    ensures s == SetupOf(prob, C, p, l1) && State(s, beta[..], w[..])
    ensures IsRun(Visits(s), Closing(ViolationAt(s), passes, eps), Rule(s), passes, |prob.x|, Zeros(|prob.x|), beta[..])
    ensures iter == |passes| <= 1000 && (!converged ==> iter == 1000)
    ensures iter > 0 ==> NoneExits(Closing(ViolationAt(s), passes, eps), passes, iter - 1, |prob.x|)
    ensures converged <==> iter > 0 && Exits(Closing(ViolationAt(s), passes, eps), passes[iter - 1], |prob.x|)
    ensures value == Objective(s, beta[..])
  {
    hide State, Runs, Visits, Measured, ShrinksBy, Permutation.Values, Permutation.IsPerm, Shrinks;
    hide ViolationAt, Objective, Threshold, Rule;
    hide IsRun, NoneExits, Exits, StartsAt, EndsAt, PassOver, Due, First, Closing, PriorTo, Valid, Curvature;
    var l := |prob.x|;
    var setup := SetupOf(prob, C, p, l1);
    s, passes := setup, [];
    var QD := new real[l];
    var index := new int[l];
    beta := new real[l];
    Init(setup, QD, beta, w, index);
    StartRun(Visits(s), Closing(ViolationAt(s), [], eps), Rule(s), Zeros(l), index[..], l);
    var active: nat := l;
    var GmaxOld, GnormInit := PosInf, 0.0;
    ghost var largest := 0.0;
    FreshThreshold(s);
    iter, converged := 0, false;
    while iter < MAX_ITER
      invariant iter == |passes| <= MAX_ITER
      invariant State(s, beta[..], w[..])
      invariant IsRun(Visits(s), Closing(ViolationAt(s), passes, eps), Rule(s), passes, l, Zeros(l), beta[..])
      invariant Threshold(s, PriorTo(passes, Closing(ViolationAt(s), passes, eps)), GmaxOld)
      invariant NoneExits(Closing(ViolationAt(s), passes, eps), passes, iter, l)
      invariant active <= l && IsPerm(index[..], l)
      invariant Values(index[..], active) == Due(passes, l, Closing(ViolationAt(s), passes, eps))
      invariant forall i :: 0 <= i < l ==> QD[i] + s.lambda == Curvature(s, i)
      invariant iter > 0 ==> Measured(ViolationAt(s), First(passes), GnormInit, largest)
    {
      Shuffle(index, active);
      ghost var before, b, activeIn := index[..], beta[..], active;
      var Gmax, Gnorm1;
      ghost var h;
      active, Gmax, Gnorm1, h := RunPass(setup, QD, beta, w, index, active, GmaxOld);
      if iter == 0 {
        GnormInit, largest := Gnorm1, Gmax;
      }
      ShowRule(s, PriorTo(passes, Closing(ViolationAt(s), passes, eps)), GmaxOld, h);
      NextThreshold(s, h, Gnorm1, Gmax);
      AddMeasured(Visits(s), ViolationAt(s), Rule(s), passes, h, l, eps, Zeros(l), b, beta[..], before, activeIn,
                  index[..], active, Gnorm1, Gmax, GnormInit, largest);
      passes := passes + [h];
      iter := iter + 1;
      if Gnorm1 <= eps * GnormInit {
        if active == l {
          converged := true;
          break;
        } else {
          active := l;
          GmaxOld := PosInf;
          continue;
        }
      }
      GmaxOld := Fin(Gmax);
    }
    if !converged { NotEvenTheLast(Closing(ViolationAt(s), passes, eps), passes, l); }
    value := ObjectiveValue(setup, beta, w);
  }
}
