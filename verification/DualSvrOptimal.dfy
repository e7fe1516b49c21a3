/**
 What solve_l2r_l1l2_svr is after: a point without violations is a global
 minimiser of the dual problem over the box, and the other way round.
 */
module DualSvrOptimal {
  import opened LinAlg
  import opened Sparse
  import opened ExtReal
  import opened CombSquare
  import opened KinkedParabola
  import opened DualSvrObjective
  import opened DualSvr

  ghost predicate Feasible(s: Setup, b: Vec) {
    Valid(s) && |b| == |s.prob.x| && forall i :: 0 <= i < |b| ==> InBox(b[i], s.upper)
  }

  /** The first-order change of the objective from b to c, over the first k coordinates. */
  ghost function TiltTo(s: Setup, b: Vec, c: Vec, k: nat): real
    requires Valid(s) && |b| == |c| == |s.prob.x| && k <= |b|
  {
    if k == 0 then 0.0 else TiltTo(s, b, c, k - 1) + Tilt(Partial(s, b, k - 1), s.p, b[k - 1], c[k - 1])
  }

  lemma {:induction false} TiltBelow(s: Setup, b: Vec, c: Vec, d: Vec, V: seq<Vec>, w: Vec, k: nat)
    requires Valid(s) && |b| == |c| == |s.prob.x| && k <= |b| && V == X(s.prob) && w == Primal(s, b)
    requires d == Difference(b, c)
    ensures RowSum(d, V, s.prob.n, w, k) + SeparableTo(s, c, k) - SeparableTo(s, b, k) >= TiltTo(s, b, c, k)
  {
    hide LinAlg.Dot, DualSvrObjective.Primal, DualSvrObjective.Separable, DualSvrObjective.Partial, Sparse.X;
    hide KinkedParabola.Tilt;
    if k > 0 {
      TiltBelow(s, b, c, d, V, w, k - 1);
      var i := k - 1;
      PartialIs(s, b, i, Dot(V[i], w));
      TiltTerm(s, Dot(V[i], w), s.prob.y[i], b[i], c[i], d[i], Partial(s, b, i));
    }
  }

  lemma PartialIs(s: Setup, b: Vec, i: nat, g: real)
    requires Valid(s) && |b| == |s.prob.x| && i < |b| && g == Dot(X(s.prob)[i], Primal(s, b))
    ensures Partial(s, b, i) == -s.prob.y[i] + s.lambda * b[i] + g
  {
    hide LinAlg.Dot, DualSvrObjective.Primal, Sparse.X;
  }

  lemma TiltTerm(s: Setup, g: real, y: real, b: real, c: real, d: real, G: real)
    requires s.lambda >= 0.0 && d == c - b && G == -y + s.lambda * b + g
    ensures d * g + Separable(s, y, c) - Separable(s, y, b) >= Tilt(G, s.p, b, c)
  {
    hide LinAlg.Abs, DualSvrObjective.Rest;
    SmoothTerm(s.lambda, g, y, b, c, d, G);
    assert s.p * (Abs(c) - Abs(b)) == s.p * Abs(c) - s.p * Abs(b);
  }

  lemma SmoothTerm(l: real, g: real, y: real, b: real, c: real, d: real, G: real)
    requires l >= 0.0 && d == c - b && G == -y + l * b + g
    ensures d * g + Rest(l, y, c) - Rest(l, y, b) >= G * (c - b)
  {
    var q := Square(d);
    var p := Product(l, q);
    SmoothIdentity(l, g, y, b, d, c);
  }

  lemma SmoothIdentity(l: real, g: real, y: real, b: real, d: real, c: real)
    requires c == b + d
    ensures d * g + Rest(l, y, c) - Rest(l, y, b) == (-y + l * b + g) * d + 0.5 * (l * (d * d))
  {
    assert c * c == b * b + 2.0 * (b * d) + d * d;
    assert l * (c * c) == l * (b * b) + 2.0 * (l * (b * d)) + l * (d * d);
    assert y * c == y * b + y * d;
    assert (-y + l * b + g) * d == -(y * d) + l * (b * d) + d * g;
  }

  /** The dual objective lies above its tangent, kinks included. */
  lemma AboveTangent(s: Setup, b: Vec, c: Vec)
    requires Valid(s) && |b| == |c| == |s.prob.x|
    ensures Objective(s, c) >= Objective(s, b) + TiltTo(s, b, c, |b|)
  {
    hide LinAlg.Dot, LinAlg.Comb, TiltTo, DualSvrObjective.SeparableTo;
    SquareAbove(b, c, X(s.prob), s.prob.n);
    TiltBelow(s, b, c, Difference(b, c), X(s.prob), Primal(s, b), |b|);
  }

  lemma TermNonNeg(s: Setup, b: Vec, i: nat, z: real)
    requires Feasible(s, b) && i < |b| && InBox(z, s.upper) && Violation(s, b, i) == 0.0
    ensures Tilt(Partial(s, b, i), s.p, b[i], z) >= 0.0
  {
    hide DualSvr.Violation, DualSvrObjective.Partial, DualSvrObjective.CoordinateMinimiser;
    hide KinkedParabola.InBox, KinkedParabola.Tilt;
    ZeroViolationIff(s, b, i);
    MinimiserHere(s, b, i);
  }

  lemma {:induction false} TiltNonNeg(s: Setup, b: Vec, c: Vec, k: nat)
    requires Feasible(s, b) && Feasible(s, c) && k <= |b|
    requires forall i :: 0 <= i < |b| ==> Violation(s, b, i) == 0.0
    ensures TiltTo(s, b, c, k) >= 0.0
  {
    hide DualSvr.Violation, DualSvrObjective.Partial, KinkedParabola.InBox, DualSvrObjective.Valid, KinkedParabola.Tilt;
    if k > 0 {
      TiltNonNeg(s, b, c, k - 1);
      TermNonNeg(s, b, k - 1, c[k - 1]);
    }
  }

  /** At a global minimiser every coordinate is at its own minimiser. */
  lemma GlobalIsCoordinate(s: Setup, b: Vec, i: nat)
    requires Feasible(s, b) && i < |b|
    requires forall c :: Feasible(s, c) ==> Objective(s, c) >= Objective(s, b)
    ensures CoordinateMinimiser(s, b, i, b[i])
  {
    hide DualSvrObjective.Objective, DualSvrObjective.Curvature, DualSvrObjective.Partial;
    hide KinkedParabola.InBox, KinkedParabola.ClipTo, KinkedParabola.Target;
    CurvatureSign(s, i);
    ClippedMinimises(s, b, i);
    var x := ClipTo(Target(b[i], Partial(s, b, i), Curvature(s, i), s.p), s.upper).r;
    assert Feasible(s, b[i := x]);
    assert b[i := b[i]] == b;
    assert InBox(b[i], s.upper);
    var y := Square(b[i] - x);
    if Curvature(s, i) > 0.0 {
      var p := Product(Curvature(s, i), y);
      assert x == b[i];
    } else {
      forall z | InBox(z, s.upper)
        ensures Objective(s, b[i := z]) >= Objective(s, b) + 0.5 * (Curvature(s, i) * ((z - b[i]) * (z - b[i])))
      {
        assert Feasible(s, b[i := z]);
      }
    }
  }

  /** No violation anywhere if and only if the point is a global minimiser over the box. */
  lemma OptimalIff(s: Setup, b: Vec)
    requires Feasible(s, b)
    ensures (forall i :: 0 <= i < |b| ==> Violation(s, b, i) == 0.0) <==>
            (forall c :: Feasible(s, c) ==> Objective(s, c) >= Objective(s, b))
  {
    hide DualSvrObjective.Objective, DualSvr.Violation, DualSvrObjective.CoordinateMinimiser, DualSvrObjective.Partial;
    if forall i :: 0 <= i < |b| ==> Violation(s, b, i) == 0.0 {
      forall c | Feasible(s, c) ensures Objective(s, c) >= Objective(s, b) {
        AboveTangent(s, b, c);
        TiltNonNeg(s, b, c, |b|);
      }
    } else if forall c :: Feasible(s, c) ==> Objective(s, c) >= Objective(s, b) {
      forall i | 0 <= i < |b| ensures Violation(s, b, i) == 0.0 {
        GlobalIsCoordinate(s, b, i);
        ZeroViolationIff(s, b, i);
      }
    }
  }
}
