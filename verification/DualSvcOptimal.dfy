/**
 What solve_l2r_l1l2_svc is after: a point whose projected gradients all vanish
 is a global minimiser of the dual problem over the box, and the other way round.
 */
module DualSvcOptimal {
  import opened LinAlg
  import opened Sparse
  import opened ExtReal
  import opened CombSquare
  import opened DualSvcObjective
  import opened DualSvc

  ghost predicate Feasible(s: Setup, a: Vec) {
    Valid(s) && |a| == |s.y| && forall i :: 0 <= i < |a| ==> InBox(a[i], s.upper[i])
  }

  /** sum_{i<k} Partial_i (b_i - a_i) */
  ghost function TiltTo(s: Setup, a: Vec, b: Vec, k: nat): real
    requires Valid(s) && |a| == |b| == |s.y| && k <= |a|
  {
    if k == 0 then 0.0 else TiltTo(s, a, b, k - 1) + Partial(s, a, k - 1) * (b[k - 1] - a[k - 1])
  }

  lemma {:induction false} TiltBelow(s: Setup, a: Vec, b: Vec, d: Vec, V: seq<Vec>, w: Vec, k: nat)
    requires Valid(s) && |a| == |b| == |s.y| && k <= |a| && V == X(s.p) && w == Primal(s, a)
    requires d == Difference(Signed(s, a), Signed(s, b))
    ensures RowSum(d, V, s.p.n, w, k) + SeparableTo(s, b, k) - SeparableTo(s, a, k) >= TiltTo(s, a, b, k)
  {
    hide LinAlg.Dot, DualSvcObjective.Primal, DualSvcObjective.Separable, DualSvcObjective.Partial, Sparse.X;
    hide DualSvcObjective.Signed, CombSquare.Difference;
    if k > 0 {
      TiltBelow(s, a, b, d, V, w, k - 1);
      var i := k - 1;
      var g := Dot(V[i], w);
      PartialIs(s, a, i, g);
      assert d[i] == s.y[i] * b[i] - s.y[i] * a[i];
      TiltTerm(g, s.y[i], s.diag[i], a[i], b[i], d[i], Partial(s, a, i));
    }
  }

  lemma PartialIs(s: Setup, a: Vec, i: nat, g: real)
    requires Valid(s) && |a| == |s.y| && i < |a| && g == Dot(X(s.p)[i], Primal(s, a))
    ensures Partial(s, a, i) == g * s.y[i] - 1.0 + a[i] * s.diag[i]
  {
    hide LinAlg.Dot, DualSvcObjective.Primal, Sparse.X;
  }

  lemma TiltTerm(g: real, y: real, d: real, a: real, b: real, e: real, G: real)
    requires d >= 0.0 && e == y * b - y * a && G == g * y - 1.0 + a * d
    ensures e * g + Separable(d, b) - Separable(d, a) >= G * (b - a)
  {
    var q := Square(b - a);
    var p := Product(d, q);
    assert (b - a) * (b - a) == b * b - 2.0 * (a * b) + a * a;
    assert d * ((b - a) * (b - a)) == d * (b * b) - 2.0 * (d * (a * b)) + d * (a * a);
    assert (y * b - y * a) * g == g * y * (b - a);
    assert (g * y - 1.0 + a * d) * (b - a) == g * y * (b - a) - (b - a) + a * d * (b - a);
    assert a * d * (b - a) == d * (a * b) - d * (a * a);
  }

  /** The dual objective is convex: it lies above its tangent. */
  lemma AboveTangent(s: Setup, a: Vec, b: Vec)
    requires Valid(s) && |a| == |b| == |s.y|
    ensures Objective(s, b) >= Objective(s, a) + TiltTo(s, a, b, |a|)
  {
    hide LinAlg.Dot, LinAlg.Comb, TiltTo, SeparableTo;
    SquareAbove(Signed(s, a), Signed(s, b), X(s.p), s.p.n);
    TiltBelow(s, a, b, Difference(Signed(s, a), Signed(s, b)), X(s.p), Primal(s, a), |a|);
  }

  lemma TermNonNeg(s: Setup, a: Vec, i: nat, z: real)
    requires Feasible(s, a) && i < |a| && InBox(z, s.upper[i]) && Projected(s, a, i) == 0.0
    ensures Partial(s, a, i) * (z - a[i]) >= 0.0
  {
    hide DualSvc.Projected, DualSvcObjective.Partial, DualSvcObjective.CoordinateMinimiser, DualSvcObjective.InBox;
    ZeroProjectedIff(s, a, i);
    MinimiserHere(s, a, i);
  }

  lemma {:induction false} TiltNonNeg(s: Setup, a: Vec, b: Vec, k: nat)
    requires Feasible(s, a) && Feasible(s, b) && k <= |a|
    requires forall i :: 0 <= i < |a| ==> Projected(s, a, i) == 0.0
    ensures TiltTo(s, a, b, k) >= 0.0
  {
    hide DualSvc.Projected, DualSvcObjective.Partial, DualSvcObjective.InBox, DualSvcObjective.Valid;
    if k > 0 {
      TiltNonNeg(s, a, b, k - 1);
      TermNonNeg(s, a, k - 1, b[k - 1]);
    }
  }

  /** At a global minimiser every coordinate is at its own minimiser. */
  lemma GlobalIsCoordinate(s: Setup, a: Vec, i: nat)
    requires Feasible(s, a) && i < |a|
    requires forall b :: Feasible(s, b) ==> Objective(s, b) >= Objective(s, a)
    ensures CoordinateMinimiser(s, a, i, a[i])
  {
    hide Objective, Curvature, Partial, InBox, Clipped;
    ZeroCurvature(s, a, i);
    ClippedMinimises(s, a, i);
    var x := Clipped(a[i], Partial(s, a, i), Curvature(s, i), s.upper[i]);
    assert Feasible(s, a[i := x]);
    assert a[i := a[i]] == a;
    assert InBox(a[i], s.upper[i]);
    var y := Square(a[i] - x);
    if Curvature(s, i) > 0.0 {
      var p := Product(Curvature(s, i), y);
      assert x == a[i];
    } else {
      forall z | InBox(z, s.upper[i])
        ensures Objective(s, a[i := z]) >= Objective(s, a) + 0.5 * (Curvature(s, i) * ((z - a[i]) * (z - a[i])))
      {
        assert Feasible(s, a[i := z]);
      }
    }
  }

  /** All projected gradients vanish if and only if the point is a global minimiser over the box. */
  lemma OptimalIff(s: Setup, a: Vec)
    requires Feasible(s, a)
    ensures (forall i :: 0 <= i < |a| ==> Projected(s, a, i) == 0.0) <==>
            (forall b :: Feasible(s, b) ==> Objective(s, b) >= Objective(s, a))
  {
    hide Objective, Projected, CoordinateMinimiser, Partial;
    if forall i :: 0 <= i < |a| ==> Projected(s, a, i) == 0.0 {
      forall b | Feasible(s, b) ensures Objective(s, b) >= Objective(s, a) {
        AboveTangent(s, a, b);
        TiltNonNeg(s, a, b, |a|);
      }
    } else if forall b :: Feasible(s, b) ==> Objective(s, b) >= Objective(s, a) {
      forall i | 0 <= i < |a| ensures Projected(s, a, i) == 0.0 {
        GlobalIsCoordinate(s, a, i);
        ZeroProjectedIff(s, a, i);
      }
    }
  }
}
