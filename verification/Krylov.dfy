/**
 What the loop of TRON::trcg computes, said without its recurrences.  After k
 iterations s minimises the quadratic model over the space of -g, H(-g), ...,
 H^(k-1)(-g); the loop stops at the first k whose residual is at most a tenth of the
 gradient, or where the line to the next minimiser leaves the trust region.
 */
module Krylov {
  import opened LinAlg
  import opened Hessian
  import opened ConjugateGradient
  import opened TrustRegionModel

  /** H^i (-g) */
  ghost function Power(q: Quad, g: Vec, i: nat): (v: Vec)
    requires Valid(q) && |g| == q.n
    ensures |v| == q.n
  {
    if i == 0 then Scale(-1.0, g) else HessVec(q, Power(q, g, i - 1))
  }

  /** u is orthogonal to the first k powers. */
  ghost predicate OrthTo(q: Quad, g: Vec, k: nat, u: Vec) {
    && Valid(q) && |g| == |u| == q.n
    && forall i: nat :: i < k ==> Dot(u, Power(q, g, i)) == 0.0
  }

  /** v lies in the space of the first k powers: nothing orthogonal to them sees it. */
  ghost predicate InSpace(q: Quad, g: Vec, k: nat, v: Vec) {
    && Valid(q) && |g| == |v| == q.n
    && forall u: Vec :: OrthTo(q, g, k, u) ==> Dot(u, v) == 0.0
  }

  /** s is in that space and its residual is orthogonal to it. */
  ghost predicate Minimiser(q: Quad, g: Vec, k: nat, s: Vec) {
    InSpace(q, g, k, s) && OrthTo(q, g, k, Residual(q, g, s))
  }

  // ------------------------------------------------------------------- the space

  lemma ZeroInSpace(q: Quad, g: Vec, k: nat)
    requires Valid(q) && |g| == q.n
    ensures InSpace(q, g, k, Zeros(q.n))
  {
    hide LinAlg.Dot, Power;
    forall u: Vec | OrthTo(q, g, k, u) ensures Dot(u, Zeros(q.n)) == 0.0 { DotZero(u); }
  }

  lemma PowerInSpace(q: Quad, g: Vec, k: nat, i: nat)
    requires Valid(q) && |g| == q.n && i < k
    ensures InSpace(q, g, k, Power(q, g, i))
  {
    hide LinAlg.Dot, Power;
  }

  lemma AxpyInSpace(q: Quad, g: Vec, k: nat, u: Vec, c: real, v: Vec)
    requires InSpace(q, g, k, u) && InSpace(q, g, k, v)
    ensures InSpace(q, g, k, Axpy(u, c, v))
  {
    hide LinAlg.Dot, LinAlg.Axpy, Power;
    forall x: Vec | OrthTo(q, g, k, x) ensures Dot(x, Axpy(u, c, v)) == 0.0 {
      DotAxpyR(x, u, c, v);
    }
  }

  lemma SpaceGrows(q: Quad, g: Vec, k: nat, v: Vec)
    requires InSpace(q, g, k, v)
    ensures InSpace(q, g, k + 1, v)
  {
    hide LinAlg.Dot, Power;
    forall u: Vec | OrthTo(q, g, k + 1, u) ensures Dot(u, v) == 0.0 { assert OrthTo(q, g, k, u); }
  }

  /** Every combination of the first k powers is in it. */
  lemma {:induction false} CombinationInSpace(q: Quad, g: Vec, c: Vec, V: seq<Vec>, k: nat)
    requires Valid(q) && |g| == q.n && k <= |c| && k <= |V|
    requires forall i :: 0 <= i < |V| ==> V[i] == Power(q, g, i) && |V[i]| == q.n
    ensures InSpace(q, g, k, Comb(c, V, q.n, k))
  {
    hide LinAlg.Dot, LinAlg.Axpy, Power, InSpace;
    if k == 0 {
      ZeroInSpace(q, g, 0);
    } else {
      CombinationInSpace(q, g, c, V, k - 1);
      SpaceGrows(q, g, k - 1, Comb(c, V, q.n, k - 1));
      PowerInSpace(q, g, k, k - 1);
      AxpyInSpace(q, g, k, Comb(c, V, q.n, k - 1), c[k - 1], V[k - 1]);
    }
  }

  /** H takes each space into the next. */
  lemma HessInSpace(q: Quad, g: Vec, k: nat, v: Vec)
    requires InSpace(q, g, k, v)
    ensures InSpace(q, g, k + 1, HessVec(q, v))
  {
    hide LinAlg.Dot, Hessian.HessVec, Power;
    forall u: Vec | OrthTo(q, g, k + 1, u) ensures Dot(u, HessVec(q, v)) == 0.0 {
      HessSymmetric(q, u, v);
      HessOrth(q, g, k, u);
    }
  }

  lemma HessOrth(q: Quad, g: Vec, k: nat, u: Vec)
    requires OrthTo(q, g, k + 1, u)
    ensures OrthTo(q, g, k, HessVec(q, u))
  {
    hide LinAlg.Dot, Hessian.HessVec;
    forall i: nat | i < k ensures Dot(HessVec(q, u), Power(q, g, i)) == 0.0 {
      HessSymmetric(q, u, Power(q, g, i));
      assert Power(q, g, i + 1) == HessVec(q, Power(q, g, i));
    }
  }

  // ---------------------------------------------------------- the loop stays in it

  /** What trcg has reached: s and the next direction. */
  ghost predicate InStep(q: Quad, g: Vec, t: Trace, s: Vec) {
    Shape(q, t) && InSpace(q, g, |t.al|, s) && InSpace(q, g, |t.al| + 1, Last(t.ds))
  }

  lemma StartIn(q: Quad, g: Vec)
    requires Valid(q) && |g| == q.n
    ensures InStep(q, g, Start(Scale(-1.0, g)), Zeros(q.n))
  {
    hide InSpace;
    ZeroInSpace(q, g, 0);
    PowerInSpace(q, g, 1, 0);
  }

  lemma ResidualIn(q: Quad, g: Vec, k: nat, s: Vec)
    requires InSpace(q, g, k, s)
    ensures InSpace(q, g, k + 1, Residual(q, g, s))
  {
    hide OrthTo, LinAlg.Axpy, Hessian.HessVec;
    HessInSpace(q, g, k, s);
    PowerInSpace(q, g, k + 1, 0);
    AxpyInSpace(q, g, k + 1, Scale(-1.0, g), -1.0, HessVec(q, s));
  }

  lemma StepIn(q: Quad, g: Vec, t: Trace, s: Vec)
    requires Iterate(q, g, t, s) && Continues(q, t) && InStep(q, g, t, s)
    ensures InStep(q, g, Extend(q, t), NextStep(q, t, s))
  {
    hide InSpace, LinAlg.Dot, LinAlg.Axpy, Hessian.HessVec, Forward, Fallen, Residual, Conjugate;
    var k, d, t' := |t.al|, Last(t.ds), Extend(q, t);
    LongStep(q, g, t, s);
    SpaceGrows(q, g, k, s);
    AxpyInSpace(q, g, k + 1, s, Alpha(q, Last(t.rs), d), d);
    IterateStep(q, g, t, s);
    ResidualIn(q, g, k + 1, NextStep(q, t, s));
    SpaceGrows(q, g, k + 1, d);
    AxpyInSpace(q, g, k + 2, Last(t'.rs), Last(t'.be), d);
  }

  lemma LongStep(q: Quad, g: Vec, t: Trace, s: Vec)
    requires InStep(q, g, t, s)
    ensures Valid(q) && |g| == |s| == q.n && Shape(q, t)
  {
  }

  // ---------------------------------------------------- the residual is orthogonal

  /** What is orthogonal to the directions d_0 .. d_i is orthogonal to H^i (-g). */
  lemma {:induction false} DirectionsReach(q: Quad, g: Vec, t: Trace, u: Vec, i: nat)
    requires Conjugate(q, t) && |g| == |u| == q.n && t.rs[0] == Scale(-1.0, g) && i <= |t.al|
    requires forall j :: 0 <= j <= i ==> Dot(u, t.ds[j]) == 0.0
    ensures Dot(u, Power(q, g, i)) == 0.0
    decreases i
  {
    hide LinAlg.Dot, LinAlg.Axpy, Hessian.HessVec;
    if i > 0 {
      var hu := HessVec(q, u);
      forall j | 0 <= j <= i - 1 ensures Dot(hu, t.ds[j]) == 0.0 { ImageOrth(q, t, u, i, j); }
      DirectionsReach(q, g, t, hu, i - 1);
      HessSymmetric(q, u, Power(q, g, i - 1));
    }
  }

  lemma ResidualOrth(q: Quad, t: Trace, u: Vec, i: nat, j: nat)
    requires Conjugate(q, t) && |u| == q.n && j <= i <= |t.al|
    requires forall m :: 0 <= m <= i ==> Dot(u, t.ds[m]) == 0.0
    ensures Dot(u, t.rs[j]) == 0.0
  {
    hide LinAlg.Dot, LinAlg.Axpy, Hessian.HessVec, PairOk;
    if j > 0 {
      assert StepOk(q, t, j - 1);
      DotAxpyR(u, t.rs[j], t.be[j - 1], t.ds[j - 1]);
    }
  }

  lemma ImageOrth(q: Quad, t: Trace, u: Vec, i: nat, j: nat)
    requires Conjugate(q, t) && |u| == q.n && j < i <= |t.al|
    requires forall m :: 0 <= m <= i ==> Dot(u, t.ds[m]) == 0.0
    ensures Dot(HessVec(q, u), t.ds[j]) == 0.0
  {
    hide LinAlg.Dot, LinAlg.Axpy, Hessian.HessVec, PairOk;
    ResidualOrth(q, t, u, i, j);
    ResidualOrth(q, t, u, i, j + 1);
    assert StepOk(q, t, j);
    NewResidualVsOldImage(u, t.rs[j], t.rs[j + 1], t.al[j], HessVec(q, t.ds[j]));
    HessSymmetric(q, u, t.ds[j]);
  }

  /** So after k iterations s is the minimiser of dimension k. */
  lemma IterateIsMinimiser(q: Quad, g: Vec, t: Trace, s: Vec)
    requires Iterate(q, g, t, s) && InStep(q, g, t, s)
    ensures Minimiser(q, g, |t.al|, s)
  {
    hide LinAlg.Dot, LinAlg.Axpy, Hessian.HessVec, Power, InSpace, Forward, Fallen, Residual;
    var r, k := Last(t.rs), |t.al|;
    forall i: nat | i < k ensures Dot(r, Power(q, g, i)) == 0.0 {
      forall j | 0 <= j <= i ensures Dot(r, t.ds[j]) == 0.0 { assert PairOk(q, t, j, k); }
      DirectionsReach(q, g, t, r, i);
    }
  }

  // ------------------------------------------------------------ what a minimiser is

  /** It beats every point of the space by half the squared distance. */
  lemma MinimiserWins(q: Quad, g: Vec, k: nat, s: Vec, v: Vec)
    requires Minimiser(q, g, k, s) && InSpace(q, g, k, v)
    ensures var e := Axpy(v, -1.0, s); Model(q, g, v) >= Model(q, g, s) + 0.5 * Dot(e, e)
  {
    hide LinAlg.Dot, LinAlg.Axpy, Hessian.HessVec, OrthTo, Model, Residual;
    var e := Axpy(v, -1.0, s);
    AxpyInSpace(q, g, k, v, -1.0, s);
    assert Dot(Residual(q, g, s), e) == 0.0;
    BackTo(s, v);
    ModelAlong(q, g, s, 1.0, e);
    HessBounds(q, e);
  }

  lemma BackTo(s: Vec, v: Vec)
    requires |s| == |v|
    ensures Axpy(s, 1.0, Axpy(v, -1.0, s)) == v
  {
    assert forall i :: 0 <= i < |s| ==> Axpy(s, 1.0, Axpy(v, -1.0, s))[i] == v[i];
  }

  lemma MinimiserUnique(q: Quad, g: Vec, k: nat, s: Vec, v: Vec)
    requires Minimiser(q, g, k, s) && Minimiser(q, g, k, v)
    ensures s == v
  {
    hide LinAlg.Dot, Model, InSpace, OrthTo;
    MinimiserLong(q, g, k, s);
    MinimiserLong(q, g, k, v);
    MinimiserWins(q, g, k, s, v);
    MinimiserWins(q, g, k, v, s);
    var e, e' := Axpy(v, -1.0, s), Axpy(s, -1.0, v);
    SquareNonNeg(e);
    SquareNonNeg(e');
    assert forall i :: 0 <= i < |s| ==> e[i] == v[i] - s[i];
    assert e == Zeros(|s|);
    assert forall i :: 0 <= i < |s| ==> s[i] == v[i];
  }

  lemma MinimiserLong(q: Quad, g: Vec, k: nat, s: Vec)
    requires Minimiser(q, g, k, s)
    ensures Valid(q) && |g| == |s| == q.n
  {
  }

  // ----------------------------------------------------------------- where it stops

  /** The minimisers of dimension 0, 1, ..., inside the region; only the last may be good enough. */
  ghost predicate IsPath(q: Quad, g: Vec, path: seq<Vec>, delta: real) {
    && |path| > 0 && Valid(q) && |g| == q.n
    && (forall j :: 0 <= j < |path| ==> Minimiser(q, g, j, path[j]) && Dot(path[j], path[j]) <= delta * delta)
    && (forall j :: 0 <= j < |path| - 1 ==> !Small(q, g, path[j]))
  }

  /** |r| <= 0.1 |g| */
  ghost predicate Small(q: Quad, g: Vec, s: Vec) {
    && Valid(q) && |g| == |s| == q.n
    && Dot(Residual(q, g, s), Residual(q, g, s)) <= 0.01 * Dot(g, g)
  }

  /** s is where the line from a to the minimiser b leaves the region; |a + x (b - a)| grows with x. */
  ghost predicate Leaves(a: Vec, b: Vec, s: Vec, delta: real) {
    && |a| == |b|
    && var e := Axpy(b, -1.0, a);
    && Dot(b, b) > delta * delta && Dot(s, s) == delta * delta && Dot(a, e) >= 0.0 && Dot(e, e) > 0.0
    && exists x :: OnLine(a, e, x, s)
  }

  ghost predicate OnLine(a: Vec, e: Vec, x: real, s: Vec) {
    |a| == |e| && 0.0 <= x <= 1.0 && s == Axpy(a, x, e)
  }

  ghost predicate Ends(q: Quad, g: Vec, path: seq<Vec>, s: Vec, delta: real) {
    |path| > 0 &&
    var a := path[|path| - 1];
    if Small(q, g, a) then s == a
    else exists b :: Minimiser(q, g, |path|, b) && Leaves(a, b, s, delta)
  }

  /** The step of trcg. */
  ghost predicate Truncated(q: Quad, g: Vec, s: Vec, delta: real) {
    exists path :: IsPath(q, g, path, delta) && Ends(q, g, path, s, delta)
  }

  lemma {:induction false} PathsAgree(q: Quad, g: Vec, p: seq<Vec>, p': seq<Vec>, delta: real)
    requires IsPath(q, g, p, delta) && IsPath(q, g, p', delta) && |p| <= |p'|
    ensures p == p'[..|p|]
  {
    hide Minimiser, Small, LinAlg.Dot;
    forall j | 0 <= j < |p| ensures p[j] == p'[j] { MinimiserUnique(q, g, j, p[j], p'[j]); }
  }

  lemma SameLength(q: Quad, g: Vec, p: seq<Vec>, p': seq<Vec>, s: Vec, delta: real)
    requires IsPath(q, g, p, delta) && IsPath(q, g, p', delta) && Ends(q, g, p, s, delta)
    ensures |p'| <= |p|
  {
    hide Minimiser, Small, LinAlg.Dot, LinAlg.Axpy;
    if |p| < |p'| {
      PathsAgree(q, g, p, p', delta);
      var b :| Minimiser(q, g, |p|, b) && Leaves(p[|p| - 1], b, s, delta);
      MinimiserUnique(q, g, |p|, b, p'[|p|]);
    }
  }

  lemma OnePoint(a: Vec, e: Vec, x: real, x': real, s: Vec, s': Vec, dd: real)
    requires OnLine(a, e, x, s) && OnLine(a, e, x', s') && Dot(s, s) == dd == Dot(s', s')
    requires Dot(a, e) >= 0.0 && Dot(e, e) > 0.0
    ensures s == s'
  {
    hide LinAlg.Dot;
    SquareAxpy(a, x, e);
    SquareAxpy(a, x', e);
    SameRoot(Dot(a, a), Dot(a, e), Dot(e, e), x, x', dd);
  }

  lemma SameRoot(aa: real, ae: real, ee: real, x: real, y: real, dd: real)
    requires 0.0 <= x && 0.0 <= y && ae >= 0.0 && ee > 0.0
    requires aa + 2.0 * x * ae + x * x * ee == dd == aa + 2.0 * y * ae + y * y * ee
    ensures x == y
  {
    var p := Product(x + y, ee);
    var s := x - y;
    assert s * (2.0 * ae + p) == 2.0 * x * ae - 2.0 * y * ae + (x * x - y * y) * ee by {
      assert s * ((x + y) * ee) == (s * (x + y)) * ee && s * (x + y) == x * x - y * y;
    }
    if x != y { NoProduct(s, 2.0 * ae + p, x + y, ee, p); }
  }

  lemma NoProduct(s: real, f: real, sum: real, ee: real, p: real)
    requires s != 0.0 && f >= p == sum * ee && ee > 0.0 && sum > 0.0
    ensures s * f != 0.0
  {
    var q := Product(sum, ee);
    if s > 0.0 { var r := Product(s, f); } else { var r := Product(-s, f); assert -s * f == -(s * f); }
  }

  /** The step depends on the model and the region alone. */
  lemma TruncatedUnique(q: Quad, g: Vec, s: Vec, s': Vec, delta: real)
    requires Truncated(q, g, s, delta) && Truncated(q, g, s', delta)
    ensures s == s'
  {
    hide Minimiser, Small, LinAlg.Dot, LinAlg.Axpy, IsPath;
    var p :| IsPath(q, g, p, delta) && Ends(q, g, p, s, delta);
    var p' :| IsPath(q, g, p', delta) && Ends(q, g, p', s', delta);
    SameLength(q, g, p, p', s, delta);
    SameLength(q, g, p', p, s', delta);
    PathsAgree(q, g, p, p', delta);
    assert p == p';
    var a := p[|p| - 1];
    if !Small(q, g, a) {
      var b :| Minimiser(q, g, |p|, b) && Leaves(a, b, s, delta);
      var b' :| Minimiser(q, g, |p|, b') && Leaves(a, b', s', delta);
      MinimiserUnique(q, g, |p|, b, b');
      var e := Axpy(b, -1.0, a);
      var x :| OnLine(a, e, x, s);
      var x' :| OnLine(a, e, x', s');
      OnePoint(a, e, x, x', s, s', delta * delta);
    }
  }

  // -------------------------------------------------------------- the loop follows it

  /** The path and what trcg holds at the top of its loop. */
  ghost predicate Follows(q: Quad, g: Vec, t: Trace, path: seq<Vec>, s: Vec, delta: real) {
    IsPath(q, g, path, delta) && |path| == |t.al| + 1 && path[|t.al|] == s && InStep(q, g, t, s)
  }

  lemma PathStarts(q: Quad, g: Vec, delta: real)
    requires Valid(q) && |g| == q.n
    ensures Follows(q, g, Start(Scale(-1.0, g)), [Zeros(q.n)], Zeros(q.n), delta)
  {
    hide LinAlg.Dot, Iterate, InStep, Minimiser;
    StartIn(q, g);
    StartIterate(q, g);
    IterateIsMinimiser(q, g, Start(Scale(-1.0, g)), Zeros(q.n));
    DotZero(Zeros(q.n));
    var d := Square(delta);
  }

  lemma PathGrows(q: Quad, g: Vec, t: Trace, path: seq<Vec>, s: Vec, delta: real)
    requires Iterate(q, g, t, s) && Continues(q, t) && Follows(q, g, t, path, s, delta) && !Small(q, g, s)
    requires var s' := NextStep(q, t, s); Dot(s', s') <= delta * delta
    ensures Follows(q, g, Extend(q, t), path + [NextStep(q, t, s)], NextStep(q, t, s), delta)
  {
    StepIn(q, g, t, s);
    IterateStep(q, g, t, s);
    IterateIsMinimiser(q, g, Extend(q, t), NextStep(q, t, s));
    AddPoint(q, g, t, Extend(q, t), path, s, NextStep(q, t, s), delta);
  }

  lemma AddPoint(q: Quad, g: Vec, t: Trace, t': Trace, path: seq<Vec>, s: Vec, s': Vec, delta: real)
    requires Follows(q, g, t, path, s, delta) && !Small(q, g, s) && |t'.al| == |t.al| + 1
    requires InStep(q, g, t', s') && Minimiser(q, g, |t'.al|, s') && Dot(s', s') <= delta * delta
    ensures Follows(q, g, t', path + [s'], s', delta)
  {
    hide LinAlg.Dot, InStep, Minimiser, Small;
  }

  lemma PathStops(q: Quad, g: Vec, t: Trace, path: seq<Vec>, s: Vec, delta: real)
    requires Follows(q, g, t, path, s, delta) && Small(q, g, s)
    ensures Truncated(q, g, s, delta)
  {
    hide IsPath, InStep, Small;
    assert Ends(q, g, path, s, delta);
  }

  lemma PathLeaves(q: Quad, g: Vec, t: Trace, path: seq<Vec>, s: Vec, alpha: real, delta: real)
    requires Iterate(q, g, t, s) && Continues(q, t) && Follows(q, g, t, path, s, delta) && !Small(q, g, s)
    requires 0.0 <= alpha <= Alpha(q, Last(t.rs), Last(t.ds))
    requires var b := NextStep(q, t, s); Dot(b, b) > delta * delta
    requires var s' := Axpy(s, alpha, Last(t.ds)); Dot(s', s') == delta * delta
    ensures Truncated(q, g, Axpy(s, alpha, Last(t.ds)), delta)
  {
    var b, s' := NextStep(q, t, s), Axpy(s, alpha, Last(t.ds));
    StepIn(q, g, t, s);
    IterateStep(q, g, t, s);
    IterateIsMinimiser(q, g, Extend(q, t), b);
    LineLeaves(q, g, t, s, alpha, delta);
    hide *;
    assert Ends(q, g, path, s', delta);
    assert Truncated(q, g, s', delta);
  }

  lemma LineLeaves(q: Quad, g: Vec, t: Trace, s: Vec, alpha: real, delta: real)
    requires Iterate(q, g, t, s) && Continues(q, t)
    requires 0.0 <= alpha <= Alpha(q, Last(t.rs), Last(t.ds))
    requires var b := NextStep(q, t, s); Dot(b, b) > delta * delta
    requires var s' := Axpy(s, alpha, Last(t.ds)); Dot(s', s') == delta * delta
    ensures Leaves(s, NextStep(q, t, s), Axpy(s, alpha, Last(t.ds)), delta)
  {
    hide LinAlg.Dot, Hessian.HessVec, Residual, Model, PairOk, StepOk;
    var d, full, b := Last(t.ds), Alpha(q, Last(t.rs), Last(t.ds)), NextStep(q, t, s);
    var e, x := Axpy(b, -1.0, s), alpha / full;
    PositiveCurvature(q, Last(t.rs), d);
    assert full > 0.0;
    StepPart(s, d, full, alpha, x, b, e);
    DotScale(full, d, s);
    DotScale(full, d, e);
    DotScale(full, d, d);
    var p := Product(full, Dot(s, d));
    var p' := Product(full, Dot(d, d));
    var p'' := Product(full, full * Dot(d, d));
    assert OnLine(s, e, x, Axpy(s, alpha, d));
  }

  lemma StepPart(s: Vec, d: Vec, full: real, alpha: real, x: real, b: Vec, e: Vec)
    requires |s| == |d| && full > 0.0 && 0.0 <= alpha <= full && x == alpha / full && b == Axpy(s, full, d)
    requires e == Axpy(b, -1.0, s)
    ensures e == Scale(full, d) && 0.0 <= x <= 1.0 && Axpy(s, alpha, d) == Axpy(s, x, e)
  {
    assert x * full == alpha;
    assert forall i :: 0 <= i < |s| ==> e[i] == full * d[i];
    forall i | 0 <= i < |s| ensures Axpy(s, alpha, d)[i] == Axpy(s, x, e)[i] {
      assert x * (full * d[i]) == (x * full) * d[i];
    }
  }
}
