/**
 solve_l2r_l1l2_svc of linear.cpp: dual coordinate descent for L1-loss and
 L2-loss support vector classification, with a shrinking active set.
 */
module DualSvc {
  import opened LinAlg
  import opened Sparse
  import opened ExtReal
  import opened Permutation
  import opened ActiveSet
  import opened RunHistory
  import opened DualSvcObjective

  /** Signs, diagonal and bounds as lines 799-820 of linear.cpp set them up. */
  function SetupOf(p: Problem, Cp: real, Cn: real, l1: bool): (s: Setup)
    requires ValidProblem(p) && Cp > 0.0 && Cn > 0.0
    ensures Valid(s) && s.p == p
    ensures forall i :: 0 <= i < |p.x| ==> s.y[i] == (if p.y[i] > 0.0 then 1.0 else -1.0)
    ensures l1 ==> forall i :: 0 <= i < |p.x| ==>
                     s.diag[i] == 0.0 && s.upper[i] == (if p.y[i] > 0.0 then Fin(Cp) else Fin(Cn))
    ensures !l1 ==> forall i :: 0 <= i < |p.x| ==>
                      s.upper[i] == PosInf && s.diag[i] == (if p.y[i] > 0.0 then 0.5 / Cp else 0.5 / Cn)
  {
    var l := |p.x|;
    var y := seq(l, i requires 0 <= i < l => if p.y[i] > 0.0 then 1.0 else -1.0);
    var c := seq(l, i requires 0 <= i < l => if p.y[i] > 0.0 then Cp else Cn);
    Setup(p, y,
          seq(l, i requires 0 <= i < l => if l1 then 0.0 else 0.5 / c[i]),
          seq(l, i requires 0 <= i < l => if l1 then Fin(c[i]) else PosInf))
  }

  /** w = sum_i y_i a_i x_i and 0 <= a_i <= U_i. */
  ghost predicate State(s: Setup, a: Vec, w: Vec) {
    && Valid(s) && |a| == |s.y|
    && w == Primal(s, a)
    && forall i :: 0 <= i < |a| ==> InBox(a[i], s.upper[i])
  }

  /** PG: the gradient, unless it points out of the box. */
  ghost function Projected(s: Setup, a: Vec, i: nat): real
    requires Valid(s) && |a| == |s.y| && i < |a|
  {
    var G := Partial(s, a, i);
    if a[i] == 0.0 then Min(G, 0.0)
    else if Fin(a[i]) == s.upper[i] then Max(G, 0.0)
    else G
  }

  /** The shrinking test: on a bound, with a gradient that points outwards beyond the extremes of the last pass. */
  ghost predicate Shrinkable(s: Setup, a: Vec, i: nat, hi: Ext, lo: Ext)
    requires Valid(s) && |a| == |s.y| && i < |a|
  {
    if a[i] == 0.0 then Below(hi, Fin(Partial(s, a, i)))
    else Fin(a[i]) == s.upper[i] && Below(Fin(Partial(s, a, i)), lo)
  }

  /** On a bound, with a slope that would take it out of the box by more than any PG found in the last pass. */
  lemma ShrinkableIff(s: Setup, a: Vec, i: nat, hi: real, lo: real)
    requires Valid(s) && |a| == |s.y| && i < |a|
    ensures Shrinkable(s, a, i, Fin(hi), Fin(lo)) <==>
            || (a[i] == 0.0 && Partial(s, a, i) > hi)
            || (a[i] != 0.0 && s.upper[i] == Fin(a[i]) && Partial(s, a, i) < lo)
  {
    hide Partial;
  }

  /**
   What a visit does: a shrunk variable stays where it is and violates nothing;
   any other goes to its minimiser over the box, unless its PG is within 1e-12.
   */
  ghost predicate Visited(s: Setup, a: Vec, b: Vec, m: Mark<()>) {
    && Valid(s) && |a| == |s.y| && 0 <= m.i < |a| && Step(s, a, b, m.i)
    && (m.shrunk ==> b == a && Projected(s, a, m.i) == 0.0)
    && (!m.shrunk && Abs(Projected(s, a, m.i)) > 0.000000000001 ==> CoordinateMinimiser(s, a, m.i, b[m.i]))
    && (!m.shrunk && Abs(Projected(s, a, m.i)) <= 0.000000000001 ==> b == a)
  }

  ghost function Visits(s: Setup): (Vec, Vec, Mark<()>) -> bool {
    (a, b, m) => Visited(s, a, b, m)
  }

  /** A visit lowers the objective by at least half the curvature times the squared change. */
  lemma VisitFacts(s: Setup, a: Vec, b: Vec, m: Mark<()>)
    requires Visited(s, a, b, m)
    ensures |a| == |b| == |s.y| && 0 <= m.i < |a|
    ensures Objective(s, b) <= Objective(s, a) - 0.5 * (Curvature(s, m.i) * ((b[m.i] - a[m.i]) * (b[m.i] - a[m.i])))
    ensures Objective(s, b) <= Objective(s, a)
  {
    hide Objective, Curvature, CoordinateMinimiser, Projected;
    ZeroCurvature(s, a, m.i);
    var y := Square(b[m.i] - a[m.i]);
    var p := Product(Curvature(s, m.i), y);
  }

  /** The objective of the points of a run; zero elsewhere. */
  ghost function Value(s: Setup): Vec -> real {
    a => if Valid(s) && |a| == |s.y| then Objective(s, a) else 0.0
  }

  lemma VisitsDescend(s: Setup)
    ensures forall a, b, m :: Visits(s)(a, b, m) ==> Value(s)(b) <= Value(s)(a)
  {
    hide Visited, Objective;
    forall a, b, m | Visits(s)(a, b, m) ensures Value(s)(b) <= Value(s)(a) {
      VisitFacts(s, a, b, m);
      assert Valid(s) by { VisitValid(s, a, b, m); }
    }
  }

  lemma VisitValid(s: Setup, a: Vec, b: Vec, m: Mark<()>)
    requires Visited(s, a, b, m)
    ensures Valid(s)
  {
    hide Objective, Curvature, CoordinateMinimiser, Projected, Step;
  }

  /** Over a whole run, from any point to any later one, the objective never rises. */
  lemma RunDescends(s: Setup, passes: seq<History<Vec, ()>>, start: Vec, end: Vec, p: nat, j: nat, q: nat, k: nat)
    requires Linked(Visits(s), passes, start, end) && q < |passes| && (p < q || (p == q && j <= k))
    requires j < |passes[p].points| && k < |passes[q].points| && Valid(s)
    requires |passes[p].points[j]| == |s.y| == |passes[q].points[k]|
    ensures Objective(s, passes[q].points[k]) <= Objective(s, passes[p].points[j])
  {
    hide Visits, Objective, Linked;
    VisitsDescend(s);
    NeverRises(Visits(s), Value(s), passes, start, end, p, j, q, k);
  }

  // --------------------------------------------------------------- one visit

  lemma StateStep(s: Setup, a: Vec, w: Vec, i: nat, x: real)
    requires State(s, a, w) && i < |a| && InBox(x, s.upper[i])
    ensures |X(s.p)[i]| == |w| && State(s, a[i := x], Axpy(w, (x - a[i]) * s.y[i], X(s.p)[i]))
  {
    hide Primal, InBox;
    PrimalMoves(s, a, i, x);
  }

  lemma StateFacts(s: Setup, a: Vec, w: Vec)
    requires State(s, a, w)
    ensures Valid(s) && |a| == |s.y| == |s.p.x| == |s.diag| == |s.upper| == |s.p.y| && |w| == s.p.n && ValidProblem(s.p)
    ensures ValidRows(s.p.x, s.p.n)
    ensures |X(s.p)| == |a|
    ensures forall i :: 0 <= i < |a| ==>
        && X(s.p)[i] == Dense(s.p.x[i], s.p.n) && InBox(a[i], s.upper[i])
        && ValidRow(s.p.x[i], s.p.n)
    ensures forall i :: 0 <= i < |a| ==> Partial(s, a, i) == Dot(X(s.p)[i], w) * s.y[i] - 1.0 + a[i] * s.diag[i]
  {
  }

  /** The old extremes never hide a violation: PGmax_old is above zero and PGmin_old below. */
  predicate Straddles(hi: Ext, lo: Ext) {
    Below(Fin(0.0), hi) && Below(lo, Fin(0.0))
  }

  method VisitVariable(s: Setup, QD: array<real>, alpha: array<real>, w: array<real>, i: nat, PGmaxOld: Ext,
                       PGminOld: Ext)
    returns (shrunk: bool, pg: real)
    requires State(s, alpha[..], w[..]) && i < alpha.Length == QD.Length && alpha != w && QD != alpha && QD != w
    requires QD[i] == Curvature(s, i) && Straddles(PGmaxOld, PGminOld)
    modifies alpha, w
    ensures State(s, alpha[..], w[..])
    ensures Valid(s) && |s.y| == alpha.Length && (shrunk <==> Shrinkable(s, old(alpha[..]), i, PGmaxOld, PGminOld))
    ensures Visited(s, old(alpha[..]), alpha[..], Mark(i, shrunk, ()))
    ensures !shrunk ==> pg == Projected(s, old(alpha[..]), i)
  {
    hide *;
    ghost var a, wv := alpha[..], w[..];
    StateFacts(s, a, wv);
    var G := RowDot(s.p.x[i], w);
    G := G * s.y[i] - 1.0;
    var C := s.upper[i];
    G := G + alpha[i] * s.diag[i];
    pg := 0.0;
    shrunk := false;
    ShrinkTest(s, a, i, G, PGmaxOld, PGminOld);
    if alpha[i] == 0.0 {
      if Below(PGmaxOld, Fin(G)) {
        shrunk := true;
        return;
      } else if G < 0.0 {
        pg := G;
      }
    } else if Fin(alpha[i]) == C {
      if Below(Fin(G), PGminOld) {
        shrunk := true;
        return;
      } else if G > 0.0 {
        pg := G;
      }
    } else {
      pg := G;
    }
    ProjectedIs(s, a, i, G, pg);
    if Abs(pg) > 0.000000000001 {
      var alphaOld := alpha[i];
      ZeroCurvature(s, a, i);
      ClippedMinimises(s, a, i);
      alpha[i] := Clipped(alpha[i], G, QD[i], C);
      MinimiserVisited(s, a, i, alpha[i]);
      var d := (alpha[i] - alphaOld) * s.y[i];
      StateStep(s, a, wv, i, alpha[i]);
      assert alpha[..] == a[i := alpha[i]];
      AddRow(w, d, s.p.x[i]);
    } else {
      IdleVisited(s, a, i);
    }
  }

  /** The two tests of the code are the shrinking test, and a shrunk variable violates nothing. */
  lemma ShrinkTest(s: Setup, a: Vec, i: nat, G: real, hi: Ext, lo: Ext)
    requires Valid(s) && |a| == |s.y| && i < |a| && G == Partial(s, a, i) && Straddles(hi, lo)
    requires InBox(a[i], s.upper[i])
    ensures Shrinkable(s, a, i, hi, lo) <==>
      (if a[i] == 0.0 then Below(hi, Fin(G)) else Fin(a[i]) == s.upper[i] && Below(Fin(G), lo))
    ensures Shrinkable(s, a, i, hi, lo) ==> Visited(s, a, a, Mark(i, true, ()))
  {
    hide Partial, Objective, Curvature, CoordinateMinimiser;
  }

  lemma IdleVisited(s: Setup, a: Vec, i: nat)
    requires Valid(s) && |a| == |s.y| && i < |a| && InBox(a[i], s.upper[i]) && Abs(Projected(s, a, i)) <= 0.000000000001
    ensures Visited(s, a, a, Mark(i, false, ()))
  {
    hide Objective, Curvature, Projected, CoordinateMinimiser;
  }

  lemma MinimiserVisited(s: Setup, a: Vec, i: nat, x: real)
    requires CoordinateMinimiser(s, a, i, x) && Valid(s) && |a| == |s.y| && i < |a| && InBox(a[i], s.upper[i])
    requires Abs(Projected(s, a, i)) > 0.000000000001
    ensures InBox(x, s.upper[i]) && Visited(s, a, a[i := x], Mark(i, false, ()))
  {
    MinimiserIsStep(s, a, i, x);
    hide Objective, Curvature, Projected, Step;
  }

  lemma ProjectedIs(s: Setup, a: Vec, i: nat, G: real, pg: real)
    requires Valid(s) && |a| == |s.y| && i < |a| && G == Partial(s, a, i)
    requires if a[i] == 0.0 then (if G < 0.0 then pg == G else pg == 0.0)
             else if Fin(a[i]) == s.upper[i] then (if G > 0.0 then pg == G else pg == 0.0)
             else pg == G
    ensures Projected(s, a, i) == pg
  {
    hide Partial;
  }

  // ------------------------------------------- what the projected gradient measures

  /** Staying at a is optimal exactly when no move inside the box goes downhill. */
  lemma MinimiserHere(s: Setup, a: Vec, i: nat)
    requires Valid(s) && |a| == |s.y| && i < |a| && InBox(a[i], s.upper[i])
    ensures CoordinateMinimiser(s, a, i, a[i]) <==> forall z :: InBox(z, s.upper[i]) ==>
        Partial(s, a, i) * (z - a[i]) >= 0.0
  {
    hide Objective, Partial, Curvature, InBox;
    assert a[i := a[i]] == a;
    forall z | InBox(z, s.upper[i])
      ensures Partial(s, a, i) * (z - a[i]) == Objective(s, a[i := z]) - Objective(s,
          a) - 0.5 * (Curvature(s, i) * ((z - a[i]) * (z - a[i])))
    {
      AlongCoordinate(s, a, i, z);
    }
  }

  lemma NoDescentIff(a: real, G: real, u: Ext)
    requires InBox(a, u) && !u.NegInf? && (u.Fin? ==> u.r > 0.0)
    ensures (forall z :: InBox(z, u) ==> G * (z - a) >= 0.0) <==>
      (if a == 0.0 then G >= 0.0 else if Fin(a) == u then G <= 0.0 else G == 0.0)
  {
    var up := if u.Fin? then u.r else a + 1.0;
    if forall z :: InBox(z, u) ==> G * (z - a) >= 0.0 {
      assert InBox(0.0, u) && InBox(up, u);
      assert G * (0.0 - a) >= 0.0 && G * (up - a) >= 0.0;
      assert G * (0.0 - a) == -G * a;
      if a > 0.0 { Factor(-G, a); }
      if up > a { Factor(G, up - a); }
    } else {
      var z :| InBox(z, u) && G * (z - a) < 0.0;
      if a == 0.0 && G >= 0.0 { var p := Product(G, z - a); }
      assert -G * (a - z) == G * (z - a);
      if a != 0.0 && Fin(a) == u && G <= 0.0 { var p := Product(-G, a - z); }
    }
  }

  /** The projected gradient is zero exactly at the coordinate's minimiser over its box. */
  lemma ZeroProjectedIff(s: Setup, a: Vec, i: nat)
    requires Valid(s) && |a| == |s.y| && i < |a| && InBox(a[i], s.upper[i])
    ensures Projected(s, a, i) == 0.0 <==> CoordinateMinimiser(s, a, i, a[i])
  {
    hide Partial, CoordinateMinimiser, InBox;
    MinimiserHere(s, a, i);
    NoDescentIff(a[i], Partial(s, a, i), s.upper[i]);
  }

  /** PG is the slope, except where it points out of the box: there it is zero. */
  lemma ProjectedMeans(s: Setup, a: Vec, i: nat)
    requires Valid(s) && |a| == |s.y| && i < |a| && InBox(a[i], s.upper[i])
    ensures var G, up, down := Partial(s, a, i), Fin(a[i]) != s.upper[i], a[i] > 0.0;
            && (G > 0.0 && !down ==> Projected(s, a, i) == 0.0)
            && (G < 0.0 && !up ==> Projected(s, a, i) == 0.0)
            && (G > 0.0 && down ==> Projected(s, a, i) == G)
            && (G < 0.0 && up ==> Projected(s, a, i) == G)
            && (G == 0.0 ==> Projected(s, a, i) == 0.0)
  {
    hide Partial;
  }

  // ---------------------------------------------------------------- one pass

  /** PG of variable i at point a; zero where there is none. */
  ghost function GradientAt(s: Setup): (Vec, int) -> real {
    (a, i) => if Valid(s) && |a| == |s.y| && 0 <= i < |a| then Projected(s, a, i) else 0.0
  }

  /** PG as visit k found it. */
  ghost function Found(s: Setup, h: History<Vec, ()>, k: nat): real
    requires k < |h.marks| <= |h.points|
  {
    GradientAt(s)(h.points[k], h.marks[k].i)
  }

  ghost predicate Attained(s: Setup, h: History<Vec, ()>, x: Ext)
    requires |h.marks| <= |h.points|
  {
    exists k :: 0 <= k < |h.marks| && !h.marks[k].shrunk && x == Fin(Found(s, h, k))
  }

  /** lo and hi are the extremes of the PGs found, shrunk variables aside. */
  ghost predicate Bounds(s: Setup, h: History<Vec, ()>, lo: Ext, hi: Ext) {
    && |h.marks| <= |h.points|
    && (forall k :: 0 <= k < |h.marks| && !h.marks[k].shrunk ==>
          AtMost(lo, Fin(Found(s, h, k))) && AtMost(Fin(Found(s, h, k)), hi))
    && (lo == PosInf || Attained(s, h, lo))
    && (hi == NegInf || Attained(s, h, hi))
    && (lo == PosInf <==> hi == NegInf)
  }

  lemma BoundsBegun(s: Setup, a: Vec)
    ensures Bounds(s, Begun(a), PosInf, NegInf)
  {
  }

  lemma BoundsShrunk(s: Setup, h: History<Vec, ()>, lo: Ext, hi: Ext, b: Vec, m: Mark<()>)
    requires Bounds(s, h, lo, hi) && m.shrunk && |h.points| == |h.marks| + 1
    ensures Bounds(s, Extended(h, b, m), lo, hi)
  {
    hide GradientAt;
    AttainedMore(s, h, lo, b, m);
    AttainedMore(s, h, hi, b, m);
    var h' := Extended(h, b, m);
    assert forall k :: 0 <= k < |h.marks| ==> h'.marks[k] == h.marks[k] && Found(s, h', k) == Found(s, h, k);
  }

  lemma BoundsMore(s: Setup, h: History<Vec, ()>, lo: Ext, hi: Ext, a: Vec, b: Vec, m: Mark<()>, pg: real)
    requires Bounds(s, h, lo, hi) && !m.shrunk && |h.points| == |h.marks| + 1 && EndsAt(h, a)
    requires pg == GradientAt(s)(a, m.i)
    ensures Bounds(s, Extended(h, b, m), MinE(lo, Fin(pg)), MaxE(hi, Fin(pg)))
  {
    hide GradientAt;
    AttainedMore(s, h, lo, b, m);
    AttainedMore(s, h, hi, b, m);
    var h' := Extended(h, b, m);
    assert forall k :: 0 <= k < |h.marks| ==> h'.marks[k] == h.marks[k] && Found(s, h', k) == Found(s, h, k);
    assert Found(s, h', |h.marks|) == pg && !h'.marks[|h.marks|].shrunk;
  }

  lemma AttainedMore(s: Setup, h: History<Vec, ()>, x: Ext, b: Vec, m: Mark<()>)
    requires |h.points| == |h.marks| + 1
    ensures Attained(s, h, x) ==> Attained(s, Extended(h, b, m), x)
  {
    hide GradientAt;
    if Attained(s, h, x) {
      var k :| 0 <= k < |h.marks| && !h.marks[k].shrunk && x == Fin(Found(s, h, k));
      assert Found(s, Extended(h, b, m), k) == Found(s, h, k) && Extended(h, b, m).marks[k] == h.marks[k];
    }
  }

  /** Which variables a pass shrinks is decided by the extremes of the pass before. */
  ghost function Shrinks(s: Setup, hi: Ext, lo: Ext): (Vec, int) -> bool {
    (a, i) => Valid(s) && |a| == |s.y| && 0 <= i < |a| && Shrinkable(s, a, i, hi, lo)
  }

  /** PGmax_old and PGmin_old: INF at first and after a reset, or when the extreme has the wrong sign. */
  ghost predicate Thresholds(s: Setup, prior: Prior<Vec, ()>, hi: Ext, lo: Ext) {
    match prior
    case Fresh => hi == PosInf && lo == NegInf
    case After(g) => exists PGmin, PGmax :: Bounds(s, g, PGmin, PGmax) && hi == Upper(PGmax) && lo == Lower(PGmin)
  }

  function Upper(PGmax: Ext): Ext {
    if AtMost(PGmax, Fin(0.0)) then PosInf else PGmax
  }

  function Lower(PGmin: Ext): Ext {
    if AtMost(Fin(0.0), PGmin) then NegInf else PGmin
  }

  /** A pass shrinks by the thresholds that the pass before left. */
  ghost function Rule(s: Setup): (Prior<Vec, ()>, History<Vec, ()>) -> bool {
    (prior, h) => exists hi, lo :: Thresholds(s, prior, hi, lo) && ShrinksBy(Shrinks(s, hi, lo), h)
  }

  lemma ShowRule(s: Setup, prior: Prior<Vec, ()>, hi: Ext, lo: Ext, h: History<Vec, ()>)
    requires Thresholds(s, prior, hi, lo) && ShrinksBy(Shrinks(s, hi, lo), h)
    ensures Rule(s)(prior, h)
  {
    hide Thresholds, ShrinksBy;
  }

  lemma FreshThresholds(s: Setup)
    ensures Thresholds(s, Fresh, PosInf, NegInf)
  {
  }

  lemma NextThresholds(s: Setup, h: History<Vec, ()>, PGmin: Ext, PGmax: Ext)
    requires Bounds(s, h, PGmin, PGmax)
    ensures Thresholds(s, After(h), Upper(PGmax), Lower(PGmin))
  {
    hide Bounds;
  }

  lemma FreshIs(s: Setup, hi: Ext, lo: Ext)
    requires Thresholds(s, Fresh, hi, lo)
    ensures hi == PosInf && lo == NegInf
  {
  }

  /** At first and after a reset no variable is shrunk. */
  lemma FreshKeepsAll(s: Setup, h: History<Vec, ()>)
    requires |h.marks| <= |h.points|
    ensures Rule(s)(Fresh, h) <==> NoneShrunk(h)
  {
    hide Thresholds, ShrinksBy, NoneShrunk;
    FreshThresholds(s);
    NeverShrinks(Shrinks(s, PosInf, NegInf), h);
    if NoneShrunk(h) { ShowRule(s, Fresh, PosInf, NegInf, h); }
    if Rule(s)(Fresh, h) {
      var hi, lo :| Thresholds(s, Fresh, hi, lo) && ShrinksBy(Shrinks(s, hi, lo), h);
      FreshIs(s, hi, lo);
      assert Shrinks(s, hi, lo) == Shrinks(s, PosInf, NegInf);
    }
  }

  /**
   A variable at zero whose gradient is larger than all projected gradients kept of a pass,
   some of them positive; or one at its upper bound, with the signs turned round.
   */
  ghost predicate Outlies(s: Setup, g: History<Vec, ()>, a: Vec, i: int) {
    && Valid(s) && |a| == |s.y| && 0 <= i < |a| && |g.marks| <= |g.points|
    && if a[i] == 0.0 then
         && (exists k :: 0 <= k < |g.marks| && !g.marks[k].shrunk && Found(s, g, k) > 0.0)
         && (forall k :: 0 <= k < |g.marks| && !g.marks[k].shrunk ==> Found(s, g, k) < Partial(s, a, i))
       else
         && Fin(a[i]) == s.upper[i]
         && (exists k :: 0 <= k < |g.marks| && !g.marks[k].shrunk && Found(s, g, k) < 0.0)
         && (forall k :: 0 <= k < |g.marks| && !g.marks[k].shrunk ==> Partial(s, a, i) < Found(s, g, k))
  }

  /** Every pass has its two extremes. */
  lemma SomeBounds(s: Setup, g: History<Vec, ()>) returns (lo: Ext, hi: Ext)
    requires |g.marks| <= |g.points|
    ensures Bounds(s, g, lo, hi)
  {
    hide Found;
    lo, hi := PosInf, NegInf;
    var k := 0;
    while k < |g.marks|
      invariant k <= |g.marks| && (lo == PosInf <==> hi == NegInf)
      invariant forall j :: 0 <= j < k && !g.marks[j].shrunk ==>
                  AtMost(lo, Fin(Found(s, g, j))) && AtMost(Fin(Found(s, g, j)), hi)
      invariant lo == PosInf || Attained(s, g, lo)
      invariant hi == NegInf || Attained(s, g, hi)
    {
      if !g.marks[k].shrunk {
        lo, hi := MinE(lo, Fin(Found(s, g, k))), MaxE(hi, Fin(Found(s, g, k)));
      }
      k := k + 1;
    }
  }

  lemma OutliesIff(s: Setup, g: History<Vec, ()>, lo: Ext, hi: Ext, a: Vec, i: int)
    requires Bounds(s, g, lo, hi)
    ensures Shrinks(s, Upper(hi), Lower(lo))(a, i) <==> Outlies(s, g, a, i)
  {
    hide Found, Partial, Valid;
    if Attained(s, g, hi) {
      var k :| 0 <= k < |g.marks| && !g.marks[k].shrunk && hi == Fin(Found(s, g, k));
    }
    if Attained(s, g, lo) {
      var k :| 0 <= k < |g.marks| && !g.marks[k].shrunk && lo == Fin(Found(s, g, k));
    }
  }

  lemma OneBounds(s: Setup, g: History<Vec, ()>, lo: Ext, hi: Ext, lo': Ext, hi': Ext)
    requires Bounds(s, g, lo, hi) && Bounds(s, g, lo', hi')
    ensures lo == lo' && hi == hi'
  {
    hide Found;
  }

  /** A pass shrinks exactly the variables that lie outside the pass before. */
  lemma RuleMeans(s: Setup, g: History<Vec, ()>, h: History<Vec, ()>)
    requires |g.marks| <= |g.points| && |h.marks| <= |h.points|
    ensures Rule(s)(After(g), h) <==>
            forall k :: 0 <= k < |h.marks| ==> (h.marks[k].shrunk <==> Outlies(s, g, h.points[k], h.marks[k].i))
  {
    hide Bounds, Outlies, Shrinks, Upper, Lower;
    var lo, hi := SomeBounds(s, g);
    var test := Shrinks(s, Upper(hi), Lower(lo));
    NextThresholds(s, g, lo, hi);
    forall k | 0 <= k < |h.marks|
      ensures ShrinksAt(test, h, k) <==> (h.marks[k].shrunk <==> Outlies(s, g, h.points[k], h.marks[k].i))
    {
      OutliesIff(s, g, lo, hi, h.points[k], h.marks[k].i);
    }
    if ShrinksBy(test, h) { ShowRule(s, After(g), Upper(hi), Lower(lo), h); }
    if Rule(s)(After(g), h) {
      var up, low :| Thresholds(s, After(g), up, low) && ShrinksBy(Shrinks(s, up, low), h);
      var lo', hi' :| Bounds(s, g, lo', hi') && up == Upper(hi') && low == Lower(lo');
      OneBounds(s, g, lo, hi, lo', hi');
    }
  }

  method RunPass(s: Setup, QD: array<real>, alpha: array<real>, w: array<real>, index: array<int>, activeIn: nat,
                 PGmaxOld: Ext, PGminOld: Ext)
    returns (active: nat, PGmax: Ext, PGmin: Ext, ghost h: History<Vec, ()>)
    requires State(s, alpha[..], w[..])
    requires alpha.Length == QD.Length == index.Length && alpha != w && QD != alpha && QD != w
    requires forall i :: 0 <= i < QD.Length ==> |s.y| == QD.Length && Valid(s) && QD[i] == Curvature(s, i)
    requires IsPerm(index[..], index.Length) && activeIn <= index.Length && Straddles(PGmaxOld, PGminOld)
    modifies alpha, w, index
    ensures State(s, alpha[..], w[..]) && IsPerm(index[..], index.Length)
    ensures Runs(Visits(s), h) && StartsAt(h, old(alpha[..])) && EndsAt(h, alpha[..])
    ensures PassOver(h, old(index[..]), activeIn, index[..], active)
    ensures Bounds(s, h, PGmin, PGmax) && ShrinksBy(Shrinks(s, PGmaxOld, PGminOld), h)
  {
    hide State, Runs, Visits, Visited, Straddles, Shrinkable, Shrinks, Bounds, ShrinksBy, ActiveSet.Pass;
    hide Permutation.Values;
    hide VisitedAll, Permutation.IsPerm, Curvature, Names, Kept, StartsAt, EndsAt, Extended, Projected;
    ghost var before, a0 := index[..], alpha[..];
    active, PGmax, PGmin, h := activeIn, NegInf, PosInf, Begun(alpha[..]);
    ghost var all := Values(index[..], activeIn);
    StartPass(index[..], index.Length, activeIn);
    RunsBegun(Visits(s), a0);
    BoundsBegun(s, a0);
    ShrinksBegun<Vec, ()>(Shrinks(s, PGmaxOld, PGminOld), before, a0);
    var k := 0;
    while k < active
      invariant k <= active <= activeIn
      invariant Pass(index[..], index.Length, activeIn, k, active, Names(h.marks), all)
      invariant State(s, alpha[..], w[..])
      invariant Runs(Visits(s), h) && StartsAt(h, a0) && EndsAt(h, alpha[..]) && |h.points| == |h.marks| + 1
      invariant Bounds(s, h, PGmin, PGmax) && ShrinksBy(Shrinks(s, PGmaxOld, PGminOld), h)
      invariant Values(index[..], k) == Kept(h.marks) && (active == activeIn <==> NoneShrunk(h))
      decreases active - k
    {
      PassEntry(index[..], index.Length, activeIn, k, active, Names(h.marks), all);
      var i := index[k];
      ghost var a, g := alpha[..], h;
      StateFacts(s, a, w[..]);
      var shrunk, pg := VisitVariable(s, QD, alpha, w, i, PGmaxOld, PGminOld);
      ghost var m := Mark(i, shrunk, ());
      ShowVisits(s, a, alpha[..], m, PGmaxOld, PGminOld);
      RunsExtended(Visits(s), g, a, alpha[..], m, a0);
      ShrinksMore(Shrinks(s, PGmaxOld, PGminOld), g, a, alpha[..], m);
      ExtendedShape(g, alpha[..], m);
      h := Extended(g, alpha[..], m);
      if shrunk {
        BoundsShrunk(s, g, PGmin, PGmax, alpha[..], m);
        Drop(index[..], index.Length, activeIn, k, active, Names(g.marks), all);
        active := active - 1;
        Swap(index, k, active);
      } else {
        GradientIs(s, a, i, pg);
        BoundsMore(s, g, PGmin, PGmax, a, alpha[..], m, pg);
        PGmax := MaxE(PGmax, Fin(pg));
        PGmin := MinE(PGmin, Fin(pg));
        Keep(index[..], index.Length, activeIn, k, active, Names(g.marks), all);
        k := k + 1;
      }
    }
    PassEnds(index[..], index.Length, activeIn, k, active, Names(h.marks), all);
  }

  lemma ShowVisits(s: Setup, a: Vec, b: Vec, m: Mark<()>, hi: Ext, lo: Ext)
    requires Visited(s, a, b, m) && Valid(s) && |a| == |s.y| && 0 <= m.i < |a|
    ensures Visits(s)(a, b, m) && (Shrinks(s, hi, lo)(a, m.i) <==> Shrinkable(s, a, m.i, hi, lo))
  {
    hide Visited, Shrinkable, Valid;
  }

  lemma GradientIs(s: Setup, a: Vec, i: nat, pg: real)
    requires Valid(s) && |a| == |s.y| && i < |a| && pg == Projected(s, a, i)
    ensures pg == GradientAt(s)(a, i)
  {
    hide Projected, Valid;
  }

  // ------------------------------------------------------------------ the run

  /** PGmax_new - PGmin_new <= eps; with no PG recorded the difference is -INF. */
  predicate GapWithin(hi: Ext, lo: Ext, eps: real) {
    hi.Fin? && lo.Fin? ==> hi.r - lo.r <= eps
  }

  /** All PGs a pass found, shrunk variables aside, lie in one interval of width eps. */
  ghost predicate Narrows(s: Setup, h: History<Vec, ()>, eps: real) {
    && |h.marks| <= |h.points|
    && forall j, k :: 0 <= j < |h.marks| && 0 <= k < |h.marks| && !h.marks[j].shrunk && !h.marks[k].shrunk ==>
         Found(s, h, j) - Found(s, h, k) <= eps
  }

  ghost function Narrow(s: Setup, eps: real): History<Vec, ()> -> bool {
    h => Narrows(s, h, eps)
  }

  /** The stopping test of a pass, in terms of the PGs themselves. */
  lemma NarrowMeans(s: Setup, h: History<Vec, ()>, eps: real)
    requires |h.marks| <= |h.points|
    ensures Narrow(s, eps)(h) <==>
            forall j, k :: 0 <= j < |h.marks| && 0 <= k < |h.marks| && !h.marks[j].shrunk && !h.marks[k].shrunk ==>
              GradientAt(s)(h.points[j], h.marks[j].i) - GradientAt(s)(h.points[k], h.marks[k].i) <= eps
  {
    hide GradientAt;
    assert forall k :: 0 <= k < |h.marks| ==> Found(s, h, k) == GradientAt(s)(h.points[k], h.marks[k].i);
  }

  lemma NarrowIff(s: Setup, h: History<Vec, ()>, lo: Ext, hi: Ext, eps: real)
    requires Bounds(s, h, lo, hi)
    ensures GapWithin(hi, lo, eps) <==> Narrow(s, eps)(h)
  {
    hide Found;
    if GapWithin(hi, lo, eps) {
      forall j, k | 0 <= j < |h.marks| && 0 <= k < |h.marks| && !h.marks[j].shrunk && !h.marks[k].shrunk
        ensures Found(s, h, j) - Found(s, h, k) <= eps
      {
        assert AtMost(lo, Fin(Found(s, h, k))) && AtMost(Fin(Found(s, h, j)), hi);
      }
    } else {
      var j :| 0 <= j < |h.marks| && !h.marks[j].shrunk && hi == Fin(Found(s, h, j));
      var k :| 0 <= k < |h.marks| && !h.marks[k].shrunk && lo == Fin(Found(s, h, k));
    }
  }

  /** alpha = 0, w = 0, QD and index. */
  method Init(s: Setup, QD: array<real>, alpha: array<real>, w: array<real>, index: array<int>)
    requires Valid(s) && alpha.Length == QD.Length == index.Length == |s.y| && w.Length == s.p.n
    requires alpha != w && QD != alpha && QD != w
    modifies QD, alpha, w, index
    ensures State(s, alpha[..], w[..]) && alpha[..] == Zeros(|s.y|)
    ensures forall i :: 0 <= i < QD.Length ==> QD[i] == Curvature(s, i)
    ensures IsPerm(index[..], index.Length)
  {
    hide LinAlg.Dot, Sparse.Dense, LinAlg.Comb;
    for i := 0 to alpha.Length
      invariant forall k :: 0 <= k < i ==> alpha[k] == 0.0
    {
      alpha[i] := 0.0;
    }
    for i := 0 to w.Length
      invariant forall k :: 0 <= k < i ==> w[k] == 0.0
      invariant alpha[..] == Zeros(|s.y|)
    {
      w[i] := 0.0;
    }
    for i := 0 to alpha.Length
      invariant forall k :: 0 <= k < i ==> QD[k] == Curvature(s, k) && index[k] == k
      invariant alpha[..] == Zeros(|s.y|) && w[..] == Zeros(s.p.n)
    {
      var q := RowSquare(s.p.x[i], s.p.n);
      QD[i] := s.diag[i] + q;
      var d := s.y[i] * alpha[i];
      AxpyNothing(w[..], d, Dense(s.p.x[i], s.p.n));
      AddRow(w, d, s.p.x[i]);
      index[i] := i;
    }
    ZeroState(s);
  }

  lemma ZeroState(s: Setup)
    requires Valid(s)
    ensures State(s, Zeros(|s.y|), Zeros(s.p.n))
  {
    hide LinAlg.Comb;
    CombZero(Signed(s, Zeros(|s.y|)), X(s.p), s.p.n, |s.y|);
  }

  /** v/2 as the last lines of the function compute it. */
  method ObjectiveValue(s: Setup, alpha: array<real>, w: array<real>) returns (value: real)
    requires State(s, alpha[..], w[..])
    ensures value == DualByMatrix(s, alpha[..])
  {
    hide LinAlg.Comb, Sparse.Dense, Sparse.X, DualByMatrix, Primal;
    var v := 0.0;
    for i := 0 to w.Length
      invariant v == DotTo(w[..], w[..], i)
    {
      v := v + w[i] * w[i];
    }
    ghost var ww := v;
    for i := 0 to alpha.Length
      invariant v == ww + 2.0 * SeparableTo(s, alpha[..], i)
    {
      assert alpha[i] * (alpha[i] * s.diag[i] - 2.0) == 2.0 * Separable(s.diag[i], alpha[i]) by {
        assert s.diag[i] * (alpha[i] * alpha[i]) == alpha[i] * (alpha[i] * s.diag[i]);
      }
      v := v + alpha[i] * (alpha[i] * s.diag[i] - 2.0);
    }
    value := v / 2.0;
    MatrixForm(s, alpha[..]);
  }

  const MAX_ITER := 1000

  /**
   solve_l2r_l1l2_svc.  `passes` is the whole run, pass by pass; `value` is the
   objective value that is printed.
   */
  method Solve(p: Problem, w: array<real>, eps: real, Cp: real, Cn: real, l1: bool)
    returns (alpha: array<real>, value: real, iter: nat, converged: bool, ghost s: Setup,
             ghost passes: seq<History<Vec, ()>>)
    requires ValidProblem(p) && Cp > 0.0 && Cn > 0.0 && w.Length == p.n
    modifies w
    ensures s == SetupOf(p, Cp, Cn, l1) && State(s, alpha[..], w[..])
    ensures IsRun(Visits(s), Narrow(s, eps), Rule(s), passes, |p.x|, Zeros(|p.x|), alpha[..])
    ensures iter == |passes| <= 1000 && (!converged ==> iter == 1000)
    ensures iter > 0 ==> NoneExits(Narrow(s, eps), passes, iter - 1, |p.x|)
    ensures converged <==> iter > 0 && Exits(Narrow(s, eps), passes[iter - 1], |p.x|)
    ensures value == DualByMatrix(s, alpha[..])
  {
    hide State, Runs, Visits, Shrinks, Bounds, ShrinksBy, Permutation.Values, Permutation.IsPerm, Curvature, SetupOf;
    hide DualByMatrix, IsRun, NoneExits, Exits, StartsAt, EndsAt, PassOver, Due, Narrow, Thresholds, Rule, PriorTo;
    var l := |p.x|;
    var setup := SetupOf(p, Cp, Cn, l1);
    s, passes := setup, [];
    SetupFacts(setup);
    var QD := new real[l];
    var index := new int[l];
    alpha := new real[l];
    Init(setup, QD, alpha, w, index);
    StartRun(Visits(s), Narrow(s, eps), Rule(s), Zeros(l), index[..], l);
    var active: nat := l;
    var PGmaxOld, PGminOld := PosInf, NegInf;
    FreshThresholds(s);
    iter, converged := 0, false;
    while iter < MAX_ITER
      invariant iter == |passes| <= MAX_ITER && Straddles(PGmaxOld, PGminOld)
      invariant State(s, alpha[..], w[..])
      invariant IsRun(Visits(s), Narrow(s, eps), Rule(s), passes, l, Zeros(l), alpha[..])
      invariant Thresholds(s, PriorTo(passes, Narrow(s, eps)), PGmaxOld, PGminOld)
      invariant NoneExits(Narrow(s, eps), passes, iter, l)
      invariant active <= l && IsPerm(index[..], l) && Values(index[..], active) == Due(passes, l, Narrow(s, eps))
      invariant forall i :: 0 <= i < l ==> QD[i] == Curvature(s, i)
    {
      Shuffle(index, active);
      ghost var before, a, activeIn := index[..], alpha[..], active;
      var PGmax, PGmin;
      ghost var h;
      active, PGmax, PGmin, h := RunPass(setup, QD, alpha, w, index, active, PGmaxOld, PGminOld);
      NarrowIff(s, h, PGmin, PGmax, eps);
      ShowRule(s, PriorTo(passes, Narrow(s, eps)), PGmaxOld, PGminOld, h);
      NextThresholds(s, h, PGmin, PGmax);
      AddPass(Visits(s), Narrow(s, eps), Rule(s), passes, h, l, Zeros(l), a, alpha[..], before, activeIn, index[..],
              active);
      passes := passes + [h];
      iter := iter + 1;
      if GapWithin(PGmax, PGmin, eps) {
        if active == l {
          converged := true;
          break;
        } else {
          active := l;
          PGmaxOld, PGminOld := PosInf, NegInf;
          continue;
        }
      }
      PGmaxOld, PGminOld := PGmax, PGmin;
      if AtMost(PGmaxOld, Fin(0.0)) {
        PGmaxOld := PosInf;
      }
      if AtMost(Fin(0.0), PGminOld) {
        PGminOld := NegInf;
      }
    }
    if !converged { NotEvenTheLast(Narrow(s, eps), passes, l); }
    value := ObjectiveValue(setup, alpha, w);
  }

  lemma SetupFacts(s: Setup)
    requires Valid(s)
    ensures |s.y| == |s.p.x|
  {
  }
}
