/**
 The dual problem that solve_l2r_l1l2_svr works on,
   min  0.5 |sum_i b_i x_i|^2 + sum_i 0.5 lambda b_i^2 - y_i b_i + p |b_i| ,  -U <= b_i <= U ,
 and its one-variable sub-problem, a parabola with a kink at zero.
 */
module DualSvrObjective {
  import opened LinAlg
  import opened Sparse
  import opened ExtReal
  import opened KinkedParabola

  datatype Setup = Setup(prob: Problem, lambda: real, upper: Ext, p: real)

  ghost predicate Valid(s: Setup) {
    && ValidProblem(s.prob)
    && s.lambda >= 0.0 && s.p >= 0.0
    && (s.upper.PosInf? || (s.upper.Fin? && s.upper.r > 0.0))
    && (s.lambda > 0.0 || s.upper.Fin?)
  }

  ghost function Primal(s: Setup, b: Vec): (w: Vec)
    requires Valid(s) && |b| == |s.prob.x|
    ensures |w| == s.prob.n
  {
    Comb(b, X(s.prob), s.prob.n, |b|)
  }

  ghost function Rest(lambda: real, y: real, x: real): real {
    -(y * x) + 0.5 * (lambda * (x * x))
  }

  ghost function Separable(s: Setup, y: real, x: real): real {
    s.p * Abs(x) + Rest(s.lambda, y, x)
  }

  ghost function SeparableTo(s: Setup, b: Vec, k: nat): real
    requires |b| == |s.prob.y| && k <= |b|
  {
    if k == 0 then 0.0 else SeparableTo(s, b, k - 1) + Separable(s, s.prob.y[k - 1], b[k - 1])
  }

  ghost function Objective(s: Setup, b: Vec): real
    requires Valid(s) && |b| == |s.prob.x|
  {
    0.5 * Dot(Primal(s, b), Primal(s, b)) + SeparableTo(s, b, |b|)
  }

  /** The derivative of the smooth part in coordinate i. */
  ghost function Partial(s: Setup, b: Vec, i: nat): real
    requires Valid(s) && |b| == |s.prob.x| && i < |b|
  {
    -s.prob.y[i] + s.lambda * b[i] + Dot(X(s.prob)[i], Primal(s, b))
  }

  /** H = QD[i] + lambda */
  ghost function Curvature(s: Setup, i: nat): real
    requires Valid(s) && i < |s.prob.x|
  {
    Dot(X(s.prob)[i], X(s.prob)[i]) + s.lambda
  }

  lemma PrimalMoves(s: Setup, b: Vec, i: nat, x: real)
    requires Valid(s) && |b| == |s.prob.x| && i < |b|
    ensures Primal(s, b[i := x]) == Axpy(Primal(s, b), x - b[i], X(s.prob)[i])
  {
    hide LinAlg.Comb, Sparse.X;
    CombUpdate(b, X(s.prob), s.prob.n, |b|, i, x - b[i]);
    assert b[i := x] == b[i := b[i] + (x - b[i])];
  }

  lemma {:induction false} SeparableMoves(s: Setup, b: Vec, i: nat, x: real, k: nat)
    requires |b| == |s.prob.y| && i < |b| && k <= |b|
    ensures SeparableTo(s, b[i := x], k) ==
            SeparableTo(s, b, k) + (if i < k then Separable(s, s.prob.y[i], x) - Separable(s, s.prob.y[i], b[i])
              else 0.0)
  {
    hide Separable;
    if k > 0 { SeparableMoves(s, b, i, x, k - 1); }
  }

  lemma AlongCoordinate(s: Setup, b: Vec, i: nat, x: real)
    requires Valid(s) && |b| == |s.prob.x| && i < |b|
    ensures Objective(s, b[i := x]) == Objective(s, b) - s.p * Abs(b[i])
        + Kinked(Partial(s, b, i), Curvature(s, i), s.p, b[i], x)
  {
    hide LinAlg.Dot, Sparse.X, LinAlg.Comb, SeparableTo, Separable, Kinked, LinAlg.Abs, Primal;
    var w, v, d := Primal(s, b), X(s.prob)[i], x - b[i];
    PrimalMoves(s, b, i, x);
    SquareAxpy(w, d, v);
    SeparableMoves(s, b, i, x, |b|);
    DotSym(v, w);
    Parabola(s, Dot(w, w), Dot(v, w), Dot(v, v), s.prob.y[i], b[i], x);
  }

  lemma Parabola(s: Setup, ww: real, vw: real, vv: real, y: real, b: real, x: real)
    ensures var d := x - b;
            0.5 * (ww + 2.0 * d * vw + d * d * vv) + Separable(s, y, x)
            == 0.5 * ww + Separable(s, y, b) - s.p * Abs(b) + Kinked(-y + s.lambda * b + vw, vv + s.lambda, s.p, b, x)
  {
    hide LinAlg.Abs, Rest, Slanted;
    Smooth(s.lambda, ww, vw, vv, y, b, x);
  }

  lemma Smooth(lambda: real, ww: real, vw: real, vv: real, y: real, b: real, x: real)
    ensures var d := x - b;
            0.5 * (ww + 2.0 * d * vw + d * d * vv) + Rest(lambda, y, x)
            == 0.5 * ww + Rest(lambda, y, b) + Slanted(-y + lambda * b + vw, vv + lambda, b, x)
  {
    var d := x - b;
    assert lambda * (x * x) == lambda * (b * b) + 2.0 * (lambda * b * d) + lambda * (d * d);
    assert (-y + lambda * b + vw) * d == -(y * d) + lambda * b * d + vw * d;
    assert (vv + lambda) * (d * d) == vv * (d * d) + lambda * (d * d);
    assert y * x == y * b + y * d;
  }

  /** x minimises the objective along coordinate i over its box, with the growth of a parabola around it. */
  ghost predicate CoordinateMinimiser(s: Setup, b: Vec, i: nat, x: real) {
    && Valid(s) && |b| == |s.prob.x| && i < |b| && InBox(x, s.upper)
    && forall z :: InBox(z, s.upper) ==>
         Objective(s, b[i := z]) >= Objective(s, b[i := x]) + 0.5 * (Curvature(s, i) * ((z - x) * (z - x)))
  }

  /** The Newton direction followed by clipping goes to the minimiser. */
  lemma ClippedMinimises(s: Setup, b: Vec, i: nat)
    requires Valid(s) && |b| == |s.prob.x| && i < |b| && Curvature(s, i) >= 0.0
    requires Curvature(s, i) > 0.0 || s.upper.Fin?
    ensures var x := ClipTo(Target(b[i], Partial(s, b, i), Curvature(s, i), s.p), s.upper);
            x.Fin? && InBox(x.r, s.upper) && CoordinateMinimiser(s, b, i, x.r)
  {
    hide Objective, Partial, Curvature, Target, ClipTo, Kinked, InBox;
    var G, H := Partial(s, b, i), Curvature(s, i);
    ClippedTarget(G, H, s.p, b[i], s.upper);
    var x := ClipTo(Target(b[i], G, H, s.p), s.upper).r;
    AlongCoordinate(s, b, i, x);
    forall z | InBox(z, s.upper)
      ensures Objective(s, b[i := z]) >= Objective(s, b[i := x]) + 0.5 * (H * ((z - x) * (z - x)))
    {
      AlongCoordinate(s, b, i, z);
    }
  }

  /** A step: coordinate i moves inside its box and the objective falls by 0.5*H*(change)^2 at least. */
  ghost predicate Step(s: Setup, b: Vec, b': Vec, i: nat) {
    && Valid(s) && |b| == |b'| == |s.prob.x| && i < |b|
    && b' == b[i := b'[i]] && InBox(b'[i], s.upper)
    && Objective(s, b') <= Objective(s, b) - 0.5 * (Curvature(s, i) * ((b'[i] - b[i]) * (b'[i] - b[i])))
  }

  lemma MinimiserIsStep(s: Setup, b: Vec, i: nat, x: real)
    requires CoordinateMinimiser(s, b, i, x) && InBox(b[i], s.upper)
    ensures Step(s, b, b[i := x], i)
  {
    hide Objective, Curvature, InBox;
    assert b[i := b[i]] == b;
    assert (b[i] - x) * (b[i] - x) == (x - b[i]) * (x - b[i]);
  }

  lemma CurvatureSign(s: Setup, i: nat)
    requires Valid(s) && i < |s.prob.x|
    ensures Curvature(s, i) >= 0.0 && (Curvature(s, i) > 0.0 || s.upper.Fin?)
  {
    hide LinAlg.DotTo;
    SquareNonNeg(X(s.prob)[i]);
  }
}
