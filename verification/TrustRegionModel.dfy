/**
 What one conjugate-gradient step does to the step s and to the quadratic
 model  g.s + 0.5 s'Hs  that TRON compares with the objective.
 */
module TrustRegionModel {
  import opened LinAlg
  import opened Hessian
  import opened ConjugateGradient

  ghost function Model(q: Quad, g: Vec, s: Vec): real
    requires Valid(q) && |g| == |s| == q.n
  {
    Dot(g, s) + 0.5 * Dot(s, HessVec(q, s))
  }

  /** -g - H s */
  ghost function Residual(q: Quad, g: Vec, s: Vec): (r: Vec)
    requires Valid(q) && |g| == |s| == q.n
    ensures |r| == q.n
  {
    Axpy(Scale(-1.0, g), -1.0, HessVec(q, s))
  }

  lemma ResidualDot(q: Quad, g: Vec, s: Vec, v: Vec)
    requires Valid(q) && |g| == |s| == |v| == q.n
    ensures Dot(Residual(q, g, s), v) == -Dot(g, v) - Dot(HessVec(q, s), v)
  {
    DotAxpy(Scale(-1.0, g), -1.0, HessVec(q, s), v);
    DotScale(-1.0, g, v);
  }

  /** Moving s by a*d moves the residual by -a*Hd. */
  lemma ResidualMoves(q: Quad, g: Vec, s: Vec, a: real, d: Vec)
    requires Valid(q) && |g| == |s| == |d| == q.n
    ensures Residual(q, g, Axpy(s, a, d)) == Axpy(Residual(q, g, s), -a, HessVec(q, d))
  {
    HessLinear(q, s, a, d);
    var l, r := Residual(q, g, Axpy(s, a, d)), Axpy(Residual(q, g, s), -a, HessVec(q, d));
    assert forall i :: 0 <= i < q.n ==> l[i] == r[i];
  }

  /** `prered` as tron.cpp computes it is the exact fall of the model. */
  lemma PredictedReduction(q: Quad, g: Vec, s: Vec)
    requires Valid(q) && |g| == |s| == q.n
    ensures -0.5 * (Dot(g, s) - Dot(s, Residual(q, g, s))) == -Model(q, g, s)
  {
    ResidualDot(q, g, s, s);
    DotSym(s, Residual(q, g, s));
    DotSym(s, HessVec(q, s));
  }

  /** The model along d, for any vectors that behave like images under H. */
  lemma DotsAlong(g: Vec, s: Vec, d: Vec, hs: Vec, hd: Vec, r: Vec, a: real)
    requires |g| == |s| == |d| == |hs| == |hd| == |r|
    requires Dot(hs, d) == Dot(s, hd) && Dot(r, d) == -Dot(g, d) - Dot(hs, d)
    ensures var s', hs' := Axpy(s, a, d), Axpy(hs, a, hd);
            Dot(g, s') + 0.5 * Dot(s', hs') == Dot(g, s) + 0.5 * Dot(s, hs) - a * Dot(r, d) + 0.5 * a * a * Dot(d, hd)
  {
    hide LinAlg.DotTo;
    var s', hs' := Axpy(s, a, d), Axpy(hs, a, hd);
    DotAxpyR(g, s, a, d);
    DotAxpyR(s', hs, a, hd);
    DotAxpy(s, a, d, hs);
    DotAxpy(s, a, d, hd);
    DotSym(hs, d);
    Quadratic(Dot(g, s), Dot(g, d), Dot(s, hs), Dot(s, hd), Dot(d, hd), Dot(r, d), a,
              Dot(g, s'), Dot(s', hs), Dot(s', hd), Dot(s', hs'));
  }

  lemma ModelAlong(q: Quad, g: Vec, s: Vec, a: real, d: Vec)
    requires Valid(q) && |g| == |s| == |d| == q.n
    ensures Model(q, g, Axpy(s, a, d))
         == Model(q, g, s) - a * Dot(Residual(q, g, s), d) + 0.5 * a * a * Dot(d, HessVec(q, d))
  {
    hide LinAlg.DotTo;
    HessLinear(q, s, a, d);
    HessSymmetric(q, s, d);
    ResidualDot(q, g, s, d);
    DotsAlong(g, s, d, HessVec(q, s), HessVec(q, d), Residual(q, g, s), a);
  }

  lemma Quadratic(gs: real, gd: real, ss: real, sd: real, dd: real, rd: real, a: real,
                  gs': real, s's: real, s'd: real, s's': real)
    requires rd == -gd - sd && gs' == gs + a * gd
    requires s's == ss + a * sd && s'd == sd + a * dd && s's' == s's + a * s'd
    ensures gs' + 0.5 * s's' == gs + 0.5 * ss - a * rd + 0.5 * a * a * dd
  {
    assert a * rd == -a * gd - a * sd;
    assert a * s'd == a * sd + a * a * dd;
  }

  /** Any step of length 0 <= t <= rr/d'Hd lowers the model by at least 0.5*t*rr. */
  lemma StepFall(q: Quad, g: Vec, s: Vec, t: real, d: Vec)
    requires Valid(q) && |g| == |s| == |d| == q.n
    requires var r := Residual(q, g, s); Dot(r, d) == Dot(r, r) > 0.0
    requires 0.0 <= t && t * Dot(d, HessVec(q, d)) <= Dot(Residual(q, g, s), d)
    ensures Model(q, g, Axpy(s, t, d)) <= Model(q, g, s) - 0.5 * (t * Dot(Residual(q, g, s), d))
  {
    hide LinAlg.DotTo;
    ModelAlong(q, g, s, t, d);
    var rd, dd := Dot(Residual(q, g, s), d), Dot(d, HessVec(q, d));
    var p := Product(t, rd - t * dd);
    assert t * (rd - t * dd) == t * rd - t * t * dd;
    assert 0.5 * t * t * dd == 0.5 * (t * t * dd);
  }

  /** The first full step reaches the Cauchy reduction 0.5*|g|^2/Bound. */
  lemma CauchyStep(gg: real, dd: real, bound: real, a: real)
    requires gg > 0.0 && 0.0 < dd <= bound * gg && bound > 0.0 && a == gg / dd
    ensures a * gg >= gg / bound
  {
    assert a * dd == gg;
    if a * bound < 1.0 {
      var p := Product(a, bound * gg - dd);
      assert a * (bound * gg - dd) == (a * bound) * gg - a * dd;
      var p' := Product(1.0 - a * bound, gg);
    }
    var c := gg / bound;
    assert c * bound == gg;
    var p'' := Product(a * bound - 1.0, c);
    assert (a * bound - 1.0) * c == a * (c * bound) - c;
  }

  /** The residual and the direction of the current step. */
  ghost predicate Aligned(q: Quad, g: Vec, t: Trace, s: Vec) {
    && Conjugate(q, t)
    && |g| == |s| == q.n
    && t.rs[0] == Scale(-1.0, g)
    && Last(t.rs) == Residual(q, g, s)
    && Dot(s, Last(t.rs)) == 0.0
    && Dot(g, Last(t.ds)) == -Dot(Last(t.rs), Last(t.rs))
  }

  /** s has a non-negative component along the next direction: it never turns back. */
  ghost predicate Forward(q: Quad, t: Trace, s: Vec)
    requires Shape(q, t) && |s| == q.n
  {
    && Dot(s, Last(t.ds)) >= 0.0
    && (|t.al| == 0 ==> s == Zeros(q.n))
    && (|t.al| > 0 && Dot(Last(t.rs), Last(t.rs)) > 0.0 ==> Dot(s, Last(t.ds)) > 0.0)
  }

  ghost predicate Fallen(q: Quad, g: Vec, t: Trace, s: Vec)
    requires Shape(q, t) && |g| == |s| == q.n
  {
    && Model(q, g, s) <= 0.0
    && (|t.al| > 0 ==> Model(q, g, s) <= -0.5 * (Dot(g, g) / Bound(q)))
  }

  /** What the loop of trcg keeps. */
  ghost predicate Iterate(q: Quad, g: Vec, t: Trace, s: Vec) {
    Aligned(q, g, t, s) && Forward(q, t, s) && Fallen(q, g, t, s)
  }

  lemma StartIterate(q: Quad, g: Vec)
    requires Valid(q) && |g| == q.n
    ensures Iterate(q, g, Start(Scale(-1.0, g)), Zeros(q.n))
  {
    hide LinAlg.DotTo;
    var r, z := Scale(-1.0, g), Zeros(q.n);
    HessZero(q);
    assert Residual(q, g, z) == r;
    DotZero(r);
    DotZero(g);
    DotZero(HessVec(q, z));
    DotScale(-1.0, g, r);
    DotScale(-1.0, g, g);
    HessBounds(q, z);
  }

  ghost function NextStep(q: Quad, t: Trace, s: Vec): (s': Vec)
    requires Shape(q, t) && |s| == q.n && Dot(Last(t.ds), HessVec(q, Last(t.ds))) > 0.0
    ensures |s'| == q.n
  {
    Axpy(s, Alpha(q, Last(t.rs), Last(t.ds)), Last(t.ds))
  }

  /** The residual is not zero, so there is another iteration. */
  ghost predicate Continues(q: Quad, t: Trace) {
    && Shape(q, t)
    && Dot(Last(t.rs), Last(t.rs)) > 0.0
    && Dot(Last(t.ds), HessVec(q, Last(t.ds))) > 0.0
  }

  /** s'.r' = 0: the new step is orthogonal to the new residual. */
  lemma NewStepVsResidual(q: Quad, g: Vec, t: Trace, s: Vec)
    requires Aligned(q, g, t, s) && Continues(q, t)
    ensures Dot(NextStep(q, t, s), Last(Extend(q, t).rs)) == 0.0
  {
    hide LinAlg.DotTo;
    var r, d := Last(t.rs), Last(t.ds);
    var a := Alpha(q, r, d);
    var r' := Last(Extend(q, t).rs);
    DotAxpy(s, a, d, r');
    NewResidualVsDirection(q, t, r', |t.ds| - 1);
    DotSym(r', d);
    DotAxpyR(s, r, -a, HessVec(q, d));
    HessSymmetric(q, s, d);
    ResidualDot(q, g, s, d);
    assert Dot(s, HessVec(q, d)) == 0.0;
  }

  lemma AlignedStep(q: Quad, g: Vec, t: Trace, s: Vec)
    requires Aligned(q, g, t, s) && Continues(q, t)
    ensures Aligned(q, g, Extend(q, t), NextStep(q, t, s))
  {
    hide LinAlg.DotTo;
    var r, d, t' := Last(t.rs), Last(t.ds), Extend(q, t);
    var r', b := Last(t'.rs), Last(t'.be);
    ExtendConjugate(q, t);
    ResidualMoves(q, g, s, Alpha(q, r, d), d);
    NewStepVsResidual(q, g, t, s);
    assert PairOk(q, t', 0, |t.rs|);
    GradientVsDirection(g, t.rs[0], r, r', d, b);
  }

  lemma GradientVsDirection(g: Vec, r0: Vec, r: Vec, r': Vec, d: Vec, b: real)
    requires |g| == |r| == |r'| == |d| && r0 == Scale(-1.0, g) && Dot(r', r0) == 0.0
    requires Dot(r, r) > 0.0 && b == Dot(r', r') / Dot(r, r) && Dot(g, d) == -Dot(r, r)
    ensures Dot(g, Axpy(r', b, d)) == -Dot(r', r')
  {
    hide LinAlg.DotTo;
    DotScale(-1.0, g, r');
    DotSym(g, r');
    DotAxpyR(g, r', b, d);
    assert b * Dot(r, r) == Dot(r', r');
  }

  lemma ForwardStep(q: Quad, g: Vec, t: Trace, s: Vec)
    requires Aligned(q, g, t, s) && Forward(q, t, s) && Continues(q, t)
    ensures Forward(q, Extend(q, t), NextStep(q, t, s))
  {
    hide LinAlg.DotTo;
    var r, d, t' := Last(t.rs), Last(t.ds), Extend(q, t);
    var a, r', b := Alpha(q, r, d), Last(t'.rs), Last(t'.be);
    NewStepVsResidual(q, g, t, s);
    DotAxpyR(Axpy(s, a, d), r', b, d);
    DotAxpy(s, a, d, d);
    PositiveCurvature(q, r, d);
    SquareNonNeg(r');
    ForwardSign(Dot(r, r), Dot(r', r'), Dot(d, d), Dot(s, d), a, b);
  }

  lemma ForwardSign(rr: real, nn: real, dd: real, sd: real, a: real, b: real)
    requires rr > 0.0 && nn >= 0.0 && dd > 0.0 && sd >= 0.0 && a > 0.0 && b == nn / rr
    ensures b * (sd + a * dd) >= 0.0
    ensures nn > 0.0 ==> b * (sd + a * dd) > 0.0
  {
    assert b * rr == nn;
    var p := Product(a, dd);
    var p' := Product(b, sd + a * dd);
  }

  lemma FirstFall(q: Quad, g: Vec, t: Trace, s: Vec)
    requires Aligned(q, g, t, s) && Continues(q, t) && |t.al| == 0
    ensures Alpha(q, Last(t.rs), Last(t.ds)) * Dot(Last(t.rs), Last(t.rs)) >= Dot(g, g) / Bound(q)
  {
    hide LinAlg.DotTo;
    var d := Last(t.ds);
    DotScale(-1.0, g, g);
    DotScale(-1.0, g, d);
    HessBounds(q, d);
    CauchyStep(Dot(d, d), Dot(d, HessVec(q, d)), Bound(q), Alpha(q, d, d));
  }

  lemma FallenStep(q: Quad, g: Vec, t: Trace, s: Vec)
    requires Iterate(q, g, t, s) && Continues(q, t)
    ensures Fallen(q, g, Extend(q, t), NextStep(q, t, s))
  {
    hide LinAlg.DotTo;
    var r, d := Last(t.rs), Last(t.ds);
    var a := Alpha(q, r, d);
    assert a * Dot(d, HessVec(q, d)) == Dot(r, r);
    StepFall(q, g, s, a, d);
    var p := Product(a, Dot(r, r));
    if |t.al| == 0 { FirstFall(q, g, t, s); }
  }

  /** One full iteration keeps the invariant. */
  lemma IterateStep(q: Quad, g: Vec, t: Trace, s: Vec)
    requires Iterate(q, g, t, s) && Continues(q, t)
    ensures Iterate(q, g, Extend(q, t), NextStep(q, t, s))
  {
    hide LinAlg.DotTo;
    AlignedStep(q, g, t, s);
    ForwardStep(q, g, t, s);
    FallenStep(q, g, t, s);
  }
}
