/**
 TRON of tron.cpp over l2r_l2_svc_fun: the truncated conjugate-gradient solver
 `trcg` and the trust-region outer loop `tron`.  Both loops are proved to
 terminate without any bound of the model's own: `trcg` because at most n
 non-zero residuals can be orthogonal, `tron` because a small enough trust
 region always yields an accepted step.
 */
module Tron {
  import opened LinAlg
  import opened Hessian
  import opened ConjugateGradient
  import opened TrustRegionModel
  import opened Krylov
  import opened Sparse
  import opened L2SvcObjective
  import opened L2SvcFun

  // ------------------------------------------------------------ square roots

  /** sqrt of math.h: the non-negative root. */
  ghost predicate IsSqrt(sqrt: real -> real) {
    forall x :: x >= 0.0 ==> sqrt(x) >= 0.0 && sqrt(x) * sqrt(x) == x
  }

  lemma SquareLe(a: real, b: real)
    requires a >= 0.0 && b >= 0.0
    ensures a <= b <==> a * a <= b * b
  {
    if a <= b {
      var p := Product(b - a, b + a);
      assert (b - a) * (b + a) == b * b - a * a;
    } else {
      var p := Product(a - b, b + a);
      assert (a - b) * (b + a) == a * a - b * b;
    }
  }

  /** Comparing a norm with a bound is comparing the squared norm with its square. */
  lemma NormLe(sqrt: real -> real, v: Vec, b: real)
    requires IsSqrt(sqrt) && b >= 0.0
    ensures sqrt(Dot(v, v)) >= 0.0 && sqrt(Dot(v, v)) * sqrt(Dot(v, v)) == Dot(v, v)
    ensures sqrt(Dot(v, v)) <= b <==> Dot(v, v) <= b * b
  {
    SquareNonNeg(v);
    SquareLe(sqrt(Dot(v, v)), b);
  }

  lemma SquareEq(a: real, b: real)
    requires a >= 0.0 && b >= 0.0 && a * a == b * b
    ensures a == b
  {
    SquareLe(a, b);
    SquareLe(b, a);
  }

  // -------------------------------------------------------------- BLAS calls

  method DDot(x: array<real>, y: array<real>) returns (r: real)
    requires x.Length == y.Length
    ensures r == Dot(x[..], y[..])
  {
    r := 0.0;
    for i := 0 to x.Length
      invariant r == DotTo(x[..], y[..], i)
    {
      r := r + x[i] * y[i];
    }
  }

  /** y += a * x */
  method DAxpy(a: real, x: array<real>, y: array<real>)
    requires x.Length == y.Length && x != y
    modifies y
    ensures y[..] == Axpy(old(y[..]), a, x[..])
  {
    ghost var y0, r := y[..], Axpy(y[..], a, x[..]);
    for i := 0 to x.Length
      invariant forall j :: 0 <= j < i ==> y[j] == r[j]
      invariant forall j :: i <= j < x.Length ==> y[j] == y0[j]
    {
      assert r[i] == y0[i] + a * x[..][i];
      y[i] := y[i] + a * x[i];
    }
  }

  method DScal(a: real, y: array<real>)
    modifies y
    ensures y[..] == Scale(a, old(y[..]))
  {
    ghost var y0, r := y[..], Scale(a, y[..]);
    for i := 0 to y.Length
      invariant forall j :: 0 <= j < i ==> y[j] == r[j]
      invariant forall j :: i <= j < y.Length ==> y[j] == y0[j]
    {
      y[i] := a * y[i];
    }
  }

  // ------------------------------------------------------- the boundary step

  /**
   The step length to the trust-region boundary: the non-negative root of
   |s + t d|^2 = delta^2, by whichever of two formulas avoids cancellation.
   */
  function BoundaryStep(std: real, sts: real, dtd: real, dsq: real, rad: real): (t: real)
    requires dtd > 0.0 && sts <= dsq && (std != 0.0 || sts < dsq)
    requires rad >= 0.0 && rad * rad == std * std + dtd * (dsq - sts)
    ensures t >= 0.0
    ensures sts + 2.0 * t * std + t * t * dtd == dsq
  {
    if std >= 0.0 then
      RootSum(std, sts, dtd, dsq, rad);
      (dsq - sts) / (std + rad)
    else
      RootDifference(std, sts, dtd, dsq, rad);
      (rad - std) / dtd
  }

  lemma RootSum(std: real, sts: real, dtd: real, dsq: real, rad: real)
    requires dtd > 0.0 && sts <= dsq && std >= 0.0 && (std != 0.0 || sts < dsq)
    requires rad >= 0.0 && rad * rad == std * std + dtd * (dsq - sts)
    ensures std + rad > 0.0
    ensures var t := (dsq - sts) / (std + rad); t >= 0.0 && sts + 2.0 * t * std + t * t * dtd == dsq
  {
    if std == 0.0 {
      var p := Product(dtd, dsq - sts);
      if rad == 0.0 { assert rad * rad == 0.0; }
    }
    var e, u := dsq - sts, std + rad;
    var t := e / u;
    assert t * u == e;
    // dtd * e = rad^2 - std^2 = (rad - std) * u, so t * dtd * u = (rad - std) * u
    assert dtd * e == (rad - std) * u by { assert (rad - std) * (std + rad) == rad * rad - std * std; }
    CancelFactor(t * dtd, rad - std, u, dtd, t, e);
    assert t * t * dtd == t * (rad - std) by { assert t * (t * dtd) == t * t * dtd; }
    assert t * (rad - std) + 2.0 * t * std == t * u;
  }

  lemma CancelFactor(a: real, b: real, u: real, dtd: real, t: real, e: real)
    requires u > 0.0 && a == t * dtd && t * u == e && dtd * e == b * u
    ensures a == b
  {
    assert a * u == dtd * (t * u);
    assert (a - b) * u == 0.0;
  }

  lemma RootDifference(std: real, sts: real, dtd: real, dsq: real, rad: real)
    requires dtd > 0.0 && sts <= dsq && std < 0.0
    requires rad >= 0.0 && rad * rad == std * std + dtd * (dsq - sts)
    ensures var t := (rad - std) / dtd; t >= 0.0 && sts + 2.0 * t * std + t * t * dtd == dsq
  {
    var e := dsq - sts;
    var t := (rad - std) / dtd;
    assert t * dtd == rad - std;
    assert t * t * dtd == t * (rad - std) by { assert t * (t * dtd) == t * t * dtd; }
    assert t * (rad - std) + 2.0 * t * std == t * (rad + std);
    assert (rad - std) * (rad + std) == dtd * e by { assert (rad - std) * (rad + std) == rad * rad - std * std; }
    CancelFactor(t * (rad + std), e, dtd, rad + std, t, rad - std);
  }

  /** The boundary is crossed before the full step: |s + x d| grows with x >= 0. */
  lemma BoundaryBeforeFull(std: real, sts: real, dtd: real, dsq: real, t: real, a: real)
    requires dtd > 0.0 && std >= 0.0 && t >= 0.0 && a >= 0.0
    requires sts + 2.0 * t * std + t * t * dtd == dsq < sts + 2.0 * a * std + a * a * dtd
    ensures t <= a
  {
    if t > a {
      var p := Product(t - a, std);
      assert (t - a) * std == t * std - a * std;
      var p' := Product(t - a, t + a);
      assert (t - a) * (t + a) == t * t - a * a;
      var p'' := Product(t * t - a * a, dtd);
    }
  }

  // ------------------------------------------------------------------- trcg

  /** The reduction a trust-region step must reach: half the smaller of |g|^2/Bound and delta*|g|. */
  ghost predicate SufficientFall(q: Quad, g: Vec, s: Vec, delta: real, gnorm: real)
    requires Hessian.Valid(q) && |g| == |s| == q.n
  {
    && Model(q, g, s) <= 0.0
    && (Dot(g, g) > 0.0 ==>
          || Model(q, g, s) <= -0.5 * (Dot(g, g) / Bound(q))
          || Model(q, g, s) <= -0.5 * (delta * gnorm))
  }

  lemma BoundaryFall(q: Quad, g: Vec, t: Trace, s: Vec, tau: real, delta: real, gnorm: real)
    requires Iterate(q, g, t, s) && Continues(q, t)
    requires 0.0 <= tau <= Alpha(q, Last(t.rs), Last(t.ds)) && delta > 0.0 && gnorm >= 0.0
    requires gnorm * gnorm == Dot(g, g)
    requires Dot(Axpy(s, tau, Last(t.ds)), Axpy(s, tau, Last(t.ds))) == delta * delta
    ensures SufficientFall(q, g, Axpy(s, tau, Last(t.ds)), delta, gnorm)
  {
    hide LinAlg.DotTo, LinAlg.Axpy, Hessian.HessVec, Model, Residual, PairOk, StepOk;
    var r, d := Last(t.rs), Last(t.ds);
    TauBelowAlpha(Dot(r, r), Dot(d, HessVec(q, d)), tau);
    StepFall(q, g, s, tau, d);
    var p := Product(tau, Dot(r, r));
    if |t.al| == 0 {
      assert s == Zeros(q.n) && d == r == Scale(-1.0, g);
      FirstLeaves(g, tau, delta, gnorm);
    }
  }

  /** From zero along -g to the boundary. */
  lemma FirstLeaves(g: Vec, tau: real, delta: real, gnorm: real)
    requires tau >= 0.0 && gnorm >= 0.0 && delta > 0.0 && gnorm * gnorm == Dot(g, g)
    requires var s := Axpy(Zeros(|g|), tau, Scale(-1.0, g)); Dot(s, s) == delta * delta
    ensures var r := Scale(-1.0, g); Dot(r, r) == Dot(g, g) && tau * Dot(r, r) == delta * gnorm
  {
    hide LinAlg.DotTo, LinAlg.Axpy;
    var d := Scale(-1.0, g);
    DotScale(-1.0, g, g);
    DotScale(-1.0, g, d);
    SquareAxpy(Zeros(|g|), tau, d);
    DotZero(Zeros(|g|));
    DotZero(d);
    ScaledNorm(tau, gnorm, delta, Dot(g, g));
  }

  lemma TauBelowAlpha(rr: real, dh: real, tau: real)
    requires dh > 0.0 && tau <= rr / dh
    ensures tau * dh <= rr
  {
    var p := Product(rr / dh - tau, dh);
    assert (rr / dh - tau) * dh == rr - tau * dh;
  }

  lemma ScaledNorm(tau: real, gnorm: real, delta: real, gg: real)
    requires tau >= 0.0 && gnorm >= 0.0 && delta > 0.0 && gnorm * gnorm == gg
    requires tau * tau * gg == delta * delta
    ensures tau * gg == delta * gnorm
  {
    var p := Product(tau, gnorm);
    assert (tau * gnorm) * (tau * gnorm) == tau * tau * gg by { assert (tau * gnorm) * (tau * gnorm)
        == tau * tau * (gnorm * gnorm); }
    SquareEq(tau * gnorm, delta);
    assert tau * gg == (tau * gnorm) * gnorm;
  }

  /** Undoing a step: (s + a d) - a d = s. */
  lemma StepBack(s: Vec, a: real, d: Vec)
    requires |s| == |d|
    ensures Axpy(Axpy(s, a, d), -a, d) == s
  {
    assert forall i :: 0 <= i < |s| ==> Axpy(Axpy(s, a, d), -a, d)[i] == s[i];
  }

  /** beta*d + 1*r, as dscal and daxpy build it, is the next direction. */
  lemma NextDirection(r: Vec, b: real, d: Vec)
    requires |r| == |d|
    ensures Axpy(Scale(b, d), 1.0, r) == Axpy(r, b, d)
  {
    assert forall i :: 0 <= i < |r| ==> Axpy(Scale(b, d), 1.0, r)[i] == Axpy(r, b, d)[i];
  }

  class TronSolver {
    const fun: L2SvcFunction
    const eps: real
    const maxIter: int

    constructor (fun: L2SvcFunction, eps: real, maxIter: int)
      ensures this.fun == fun && this.eps == eps && this.maxIter == maxIter
    {
      this.fun := fun;
      this.eps := eps;
      this.maxIter := maxIter;
    }

    /** The boundary branch of trcg: s has been put back, step to the boundary. */
    method ToBoundary(sqrt: real -> real, delta: real, d: array<real>, Hd: array<real>, s: array<real>, r: array<real>,
                      ghost q: Quad, ghost g: Vec, ghost t: Trace, ghost path: seq<Vec>)
      requires IsSqrt(sqrt) && delta > 0.0
      requires d.Length == Hd.Length == s.Length == r.Length == q.n
      requires d != s && d != r && Hd != s && Hd != r && s != r
      requires Iterate(q, g, t, s[..]) && Continues(q, t)
      requires r[..] == Last(t.rs) && d[..] == Last(t.ds) && Hd[..] == HessVec(q, Last(t.ds))
      requires Dot(s[..], s[..]) <= delta * delta < Dot(NextStep(q, t, s[..]), NextStep(q, t, s[..]))
      requires Follows(q, g, t, path, s[..], delta) && !Small(q, g, s[..])
      modifies s, r
      ensures r[..] == Residual(q, g, s[..])
      ensures Truncated(q, g, s[..], delta)
      ensures Dot(s[..], s[..]) == delta * delta
      ensures SufficientFall(q, g, s[..], delta, sqrt(Dot(g, g)))
    {
      hide *;
      ghost var s0 := s[..];
      BoundaryReady(q, g, t, s0, delta);
      var std := DDot(s, d);
      var sts := DDot(s, s);
      var dtd := DDot(d, d);
      var dsq := delta * delta;
      var radicand := std * std + dtd * (dsq - sts);
      SqrtOf(sqrt, radicand);
      var rad := sqrt(radicand);
      var alpha := BoundaryStep(std, sts, dtd, dsq, rad);
      DAxpy(alpha, d, s);
      DAxpy(-alpha, Hd, r);
      BoundaryExit(sqrt, q, g, t, path, s0, delta, alpha);
    }

    /** s = 0, r = d = -g */
    method InitCg(g: array<real>, s: array<real>, r: array<real>, d: array<real>)
      requires g.Length == s.Length == r.Length == d.Length
      requires g != s && g != r && g != d && s != r && s != d && r != d
      modifies s, r, d
      ensures s[..] == Zeros(g.Length) && r[..] == d[..] == Scale(-1.0, g[..])
    {
      ghost var gv, m := g[..], Scale(-1.0, g[..]);
      for i := 0 to g.Length
        invariant forall j :: 0 <= j < i ==> s[j] == 0.0 && r[j] == m[j] && d[j] == m[j]
        invariant g[..] == gv
      {
        s[i] := 0.0;
        r[i] := -g[i];
        d[i] := r[i];
        assert m[i] == -1.0 * gv[i];
      }
    }

    /** The second half of an iteration: the next residual and the next direction. */
    method Turn(alpha: real, rTr: real, Hd: array<real>, r: array<real>, d: array<real>) returns (rnewTrnew: real)
      requires Hd.Length == r.Length == d.Length && Hd != r && Hd != d && r != d && rTr != 0.0
      modifies r, d
      ensures r[..] == Axpy(old(r[..]), -alpha, Hd[..])
      ensures rnewTrnew == Dot(r[..], r[..])
      ensures d[..] == Axpy(Scale(rnewTrnew / rTr, old(d[..])), 1.0, r[..])
    {
      hide *;
      DAxpy(-alpha, Hd, r);
      rnewTrnew := DDot(r, r);
      var beta := rnewTrnew / rTr;
      DScal(beta, d);
      DAxpy(1.0, r, d);
    }

    /** One pass through the loop of trcg after its stopping test. */
    method Iteration(sqrt: real -> real, delta: real, rTr: real, s: array<real>, r: array<real>, d: array<real>,
                     Hd: array<real>,
                     ghost g: Vec, ghost t: Trace, ghost path: seq<Vec>)
      returns (stop: bool, rTr': real, ghost t': Trace, ghost path': seq<Vec>)
      requires fun.Valid() && fun.Indexed()
      requires IsSqrt(sqrt) && delta > 0.0
      requires |g| == s.Length == r.Length == d.Length == Hd.Length == fun.p.n
      requires s != r && s != d && s != Hd && r != d && r != Hd && d != Hd && fun.z !in {s, r, d, Hd}
      requires CgState(fun.Hess(), g, t, s[..], r[..], d[..], rTr, delta)
      requires Follows(fun.Hess(), g, t, path, s[..], delta)
      requires Dot(r[..], r[..]) > 0.01 * Dot(g, g)
      modifies s, r, d, Hd
      ensures |t.al| < fun.p.n
      ensures stop ==> CgDone(sqrt, fun.Hess(), g, s[..], r[..], delta)
      ensures !stop ==> CgState(fun.Hess(), g, t', s[..], r[..], d[..], rTr', delta) && |t'.al| == |t.al| + 1
      ensures !stop ==> Follows(fun.Hess(), g, t', path', s[..], delta)
    {
      hide *;
      ghost var q, s0 := fun.Hess(), s[..];
      CgContinue(q, g, t, s0, r[..], d[..], rTr, delta);
      fun.Hv(d, Hd);
      var dHd := DDot(d, Hd);
      var alpha := rTr / dHd;
      DAxpy(alpha, d, s);
      NormLe(sqrt, s[..], delta);
      var ss := DDot(s, s);
      if sqrt(ss) > delta {
        stop, rTr', t', path' := true, rTr, t, path;
        DAxpy(-alpha, d, s);
        StepBack(s0, alpha, d[..]);
        ToBoundary(sqrt, delta, d, Hd, s, r, q, g, t, path);
        BoundaryDone(sqrt, q, g, s[..], r[..], delta);
      } else {
        ghost var r0, d0 := r[..], d[..];
        stop, t', path' := false, Extend(q, t), path + [s[..]];
        rTr' := Turn(alpha, rTr, Hd, r, d);
        CgAdvance(q, g, t, s0, r0, d0, rTr, delta, s[..], r[..], d[..], rTr');
        PathGrows(q, g, t, path, s0, delta);
      }
    }

    method Trcg(sqrt: real -> real, delta: real, g: array<real>, s: array<real>, r: array<real>) returns (cgIter: nat)
      requires fun.Valid() && fun.Indexed()
      requires IsSqrt(sqrt) && delta > 0.0
      requires g.Length == s.Length == r.Length == fun.p.n
      requires g != s && g != r && s != r && fun.z != s && fun.z != r
      modifies s, r
      ensures cgIter <= fun.p.n
      ensures CgDone(sqrt, fun.Hess(), g[..], s[..], r[..], delta)
      ensures Dot(s[..], s[..]) == delta * delta || sqrt(Dot(r[..], r[..])) <= 0.1 * sqrt(Dot(g[..], g[..]))
    {
      hide *;
      ghost var q, gv := fun.Hess(), g[..];
      var n := fun.p.n;
      var d := new real[n];
      var Hd := new real[n];
      InitCg(g, s, r, d);
      var gg := DDot(g, g);
      var cgtol := 0.1 * sqrt(gg);
      cgIter := 0;
      var rTr := DDot(r, r);
      ghost var t := Start(Scale(-1.0, gv));
      ghost var path := [Zeros(n)];
      CgStart(q, gv, delta);
      PathStarts(q, gv, delta);
      while true
        invariant CgState(q, gv, t, s[..], r[..], d[..], rTr, delta)
        invariant Follows(q, gv, t, path, s[..], delta)
        invariant cgIter == |t.al| <= n
        decreases n - |t.al|
      {
        StopTest(sqrt, r[..], gv);
        var rr := DDot(r, r);
        if sqrt(rr) <= cgtol {
          CgStop(sqrt, q, gv, t, path, s[..], r[..], d[..], rTr, delta);
          break;
        }
        cgIter := cgIter + 1;
        var stop;
        stop, rTr, t, path := Iteration(sqrt, delta, rTr, s, r, d, Hd, gv, t, path);
        if stop {
          break;
        }
      }
      StoppedWhere(sqrt, q, gv, s[..], r[..], delta);
    }

    /** One iteration of tron's loop: a trial step, the new region, and acceptance or not. */
    method Trial(sqrt: real -> real, iter: int, delta: real, f: real, w: array<real>, g: array<real>,
                 s: array<real>, r: array<real>, wnew: array<real>)
      returns (accepted: bool, fnew: real, delta': real, actred: real, prered: real)
      requires fun.Valid() && fun.Indexed() && IsSqrt(sqrt) && delta > 0.0
      requires w.Length == g.Length == s.Length == r.Length == wnew.Length == fun.p.n
      requires w != g && {w, g} !! {s, r, wnew} && s != r && s != wnew && r != wnew && fun.z !in {w, g, s, r, wnew}
      requires AtPoint(fun.p, fun.C, w[..], f, g[..]) && fun.ActiveSetOf(w[..]) && Dot(g[..], g[..]) > 0.0
      modifies s, r, wnew, fun.z
      ensures prered > 0.0 && actred == f - fnew && accepted == (actred > 0.0001 * prered)
      ensures delta' > 0.0
      ensures fnew == Objective(fun.p, fun.C, wnew[..]) && fun.MarginsOf(wnew[..])
      ensures prered == -Model(fun.Hess(), g[..], s[..])
      ensures wnew[..] == Axpy(w[..], 1.0, s[..]) && CgDone(sqrt, fun.Hess(), g[..], s[..], r[..], delta)
      ensures var snorm, gs := sqrt(Dot(s[..], s[..])), Dot(g[..], s[..]);
              && snorm > 0.0
              && delta' == NewDelta(if iter == 1 then Min(delta, snorm)
                  else delta, StepAlpha(f, fnew, gs), snorm, actred, prered)
      ensures !accepted ==> delta' <= 0.5 * delta && sqrt(Dot(g[..], g[..])) < 2.0 * (Lip(fun.p, fun.C) * delta)
    {
      hide *;
      ghost var wv, gv := w[..], g[..];
      var cgIter := Trcg(sqrt, delta, g, s, r);
      Copy(w, wnew);
      DAxpy(1.0, s, wnew);
      var gs := DDot(g, s);
      var sr := DDot(s, r);
      prered := -0.5 * (gs - sr);
      TrialFacts(sqrt, fun, wv, gv, s[..], r[..], f, delta);
      fnew := fun.Fun(wnew);
      actred := f - fnew;
      var ss := DDot(s, s);
      var snorm := sqrt(ss);
      delta' := if iter == 1 then Min(delta, snorm) else delta;
      MinBounds(delta, snorm);
      var alpha := StepAlpha(f, fnew, gs);
      delta' := NewDelta(delta', alpha, snorm, actred, prered);
      accepted := actred > 0.0001 * prered;
    }

    /** A trial step and, if it is accepted, the move to it. */
    method Step(sqrt: real -> real, iter: int, delta: real, f: real, gnorm: real, gnorm1: real, w: array<real>,
                g: array<real>,
                s: array<real>, r: array<real>, wnew: array<real>, ghost ws: seq<Vec>, ghost ts: seq<Attempt>)
      returns (accepted: bool, f': real, delta': real, gnorm': real, actred: real, prered: real, ghost t: Attempt,
          ghost ws': seq<Vec>, ghost ts': seq<Attempt>)
      requires fun.Valid() && fun.Indexed() && IsSqrt(sqrt) && eps > 0.0 && delta > 0.0 && gnorm > 0.0
      requires w.Length == g.Length == s.Length == r.Length == wnew.Length == fun.p.n
      requires w != g && {w, g} !! {s, r, wnew} && s != r && s != wnew && r != wnew && fun.z !in {w, g, s, r, wnew}
      requires fun.ActiveSetOf(w[..]) && RunState(sqrt, fun.p, fun.C, w[..], f, g[..], gnorm, gnorm1, ws, ts)
      modifies w, g, s, r, wnew, fun`sizeI, fun.z, fun.I
      ensures fun.Valid() && fun.Indexed() && fun.ActiveSetOf(w[..])
      ensures RunState(sqrt, fun.p, fun.C, w[..], f', g[..], gnorm', gnorm1, ws', ts')
      ensures delta' > 0.0 && prered > 0.0
      ensures accepted == (actred > 0.0001 * prered)
      ensures t.delta == delta && Tried(sqrt, fun.p, fun.C, old(w[..]), t, actred, prered) && |t.s| == fun.p.n
      ensures RoundLeaves(sqrt, fun.p, fun.C, Round(old(w[..]), t, accepted), iter == 1, w[..], delta')
      ensures accepted ==>
          && f' == f - actred < f && w[..] == Axpy(old(w[..]), 1.0, t.s) && ws' == ws + [w[..]]
          && ts' == ts + [t]
      ensures accepted && gnorm' > eps * gnorm1 ==> gnorm' > 0.0
      ensures accepted && gnorm' <= eps * gnorm1 ==> NearMinimum(sqrt, fun.p, fun.C, w[..], eps)
      ensures !accepted ==> f' == f && gnorm' == gnorm && ws' == ws && ts' == ts && w[..] == old(w[..])
      ensures !accepted ==> Excess(Lip(fun.p, fun.C), delta', gnorm) >= 0.0
      ensures !accepted ==> Excess(Lip(fun.p, fun.C), delta', gnorm) <= Excess(Lip(fun.p, fun.C), delta, gnorm) - 1.0
    {
      hide *;
      ValidFacts();
      RunFacts(sqrt, fun.p, fun.C, w[..], f, g[..], gnorm, gnorm1, ws, ts);
      f', gnorm', ws', ts' := f, gnorm, ws, ts;
      ghost var w0, g0 := w[..], g[..];
      var fnew;
      accepted, fnew, delta', actred, prered := Trial(sqrt, iter, delta, f, w, g, s, r, wnew);
      t := Attempt(s[..], r[..], delta);
      ShowTried(sqrt, fun, w0, g0, t, f, fnew, actred, prered);
      if accepted {
        Copy(wnew, w);
        fun.Grad(w, g);
        var gg := DDot(g, g);
        gnorm' := sqrt(gg);
        RunAccept(sqrt, fun.p, fun.C, w0, f, g0, gnorm1, ws, ts, t, actred, prered, w[..], fnew, g[..], eps);
        ws' := ws + [w[..]];
        ts' := ts + [t];
        f' := fnew;
      } else {
        RegionShrinks(Lip(fun.p, fun.C), delta, delta', gnorm);
      }
      PointFacts(fun.p, fun.C, w0, f, g0);
      ShowRound(sqrt, fun.p, fun.C, w0, t, accepted, iter == 1, w[..], delta', f, Dot(g0, t.s), sqrt(Dot(t.s, t.s)),
                 actred, prered);
    }

    /** Before the loop: w = 0, its value, its gradient and the norm of that. */
    method Begin(sqrt: real -> real, w: array<real>, g: array<real>) returns (f: real, gnorm1: real)
      requires fun.Valid() && w.Length == g.Length == fun.p.n && w != g && fun.z !in {w, g} && IsSqrt(sqrt) && eps > 0.0
      modifies w, g, fun`sizeI, fun.z, fun.I
      ensures fun.Valid() && fun.Indexed() && fun.ActiveSetOf(w[..])
      ensures RunState(sqrt, fun.p, fun.C, w[..], f, g[..], gnorm1, gnorm1, [w[..]], [])
      ensures History(sqrt, fun.p, fun.C, eps, [w[..]], [], [], 0, w[..], gnorm1)
      ensures NormTest(sqrt, fun.p, fun.C, w[..], eps) <==> gnorm1 <= eps * gnorm1
      ensures if gnorm1 <= eps * gnorm1 then NearMinimum(sqrt, fun.p, fun.C, w[..], eps) else gnorm1 > 0.0
    {
      hide *;
      ValidFacts();
      Clear(w);
      f := fun.Fun(w);
      fun.Grad(w, g);
      var gg := DDot(g, g);
      gnorm1 := sqrt(gg);
      RunStart(sqrt, fun.p, fun.C, eps);
      NormTestIs(sqrt, fun.p, fun.C, w[..], f, g[..], gnorm1, gnorm1, [w[..]], [], eps);
      NothingYet(sqrt, fun.p, fun.C, eps, [w[..]], w[..], gnorm1);
    }

    /**
     tron.  `ws` are the accepted points and `ts` the steps between them; `log` holds
     all rounds of the loop, and `delta` is the region they leave.
     */
    method Run(sqrt: real -> real, w: array<real>)
      returns (exit: Exit, iter: int, ghost ws: seq<Vec>, ghost ts: seq<Attempt>, ghost log: seq<Round>,
               ghost delta: real)
      requires fun.Valid() && w.Length == fun.p.n && w != fun.z
      requires IsSqrt(sqrt) && eps > 0.0
      modifies w, fun`sizeI, fun.z, fun.I
      ensures fun.Valid() && fun.Indexed() && fun.ActiveSetOf(w[..])
      ensures Descends(sqrt, fun.p, fun.C, ws, ts) && ws[0] == Zeros(fun.p.n) && ws[|ws| - 1] == w[..]
      ensures Logged(sqrt, fun.p, fun.C, log, w[..], delta) && ts == Taken(log)
      ensures iter == |ws| && iter <= Limit(maxIter) + 1
      ensures NoneFlat(sqrt, fun.p, fun.C, ws, |ws| - 1, eps)
      ensures |log| > 0 ==> NoneStalled(sqrt, fun.p, fun.C, log, |log| - 1, w[..])
      ensures exit.Converged? <==> NormTest(sqrt, fun.p, fun.C, w[..], eps)
      ensures exit.Converged? ==> NearMinimum(sqrt, fun.p, fun.C, w[..], eps)
      ensures exit.TooSmall? ==> |log| > 0 && StalledIn(sqrt, fun.p, fun.C, log, |log| - 1, w[..])
      ensures exit.IterationLimit? ==> iter > maxIter && NoneStalled(sqrt, fun.p, fun.C, log, |log|, w[..])
      ensures !exit.Unbounded? && !exit.NoReduction?
    {
      hide *;
      ValidFacts();
      MinLimit(maxIter);
      exit := IterationLimit;
      var n := fun.p.n;
      var s := new real[n];
      var r := new real[n];
      var wnew := new real[n];
      var g := new real[n];
      var f, gnorm1 := Begin(sqrt, w, g);
      ws, ts, log := [w[..]], [], [];
      var region, gnorm := gnorm1, gnorm1;
      delta := region;
      var search := gnorm > eps * gnorm1;
      if !search {
        exit := Converged;
      }
      iter := 1;
      ghost var lip := Lip(fun.p, fun.C);
      while iter <= maxIter && search
        invariant fun.Valid() && fun.Indexed() && fun.ActiveSetOf(w[..])
        invariant RunState(sqrt, fun.p, fun.C, w[..], f, g[..], gnorm, gnorm1, ws, ts)
        invariant History(sqrt, fun.p, fun.C, eps, ws, ts, log, |log|, w[..], delta) && delta == region
        invariant iter == |ws| == |ts| + 1 && iter <= Limit(maxIter) + 1
        invariant search <==> !NormTest(sqrt, fun.p, fun.C, w[..], eps)
        invariant if search then exit.IterationLimit? && delta > 0.0 && gnorm > 0.0
                  else exit.Converged? && NearMinimum(sqrt, fun.p, fun.C, w[..], eps)
        decreases maxIter + 1 - iter, if search then Excess(lip, delta, gnorm) else 0.0
      {
        var accepted, actred, prered;
        ghost var base, t := w[..], Attempt([], [], 0.0);
        ghost var ws0, ts0, log0 := ws, ts, log;
        accepted, f, region, gnorm, actred, prered, t, ws, ts := Step(sqrt, iter, region, f, gnorm, gnorm1, w, g, s, r,
                                                                      wnew, ws, ts);
        log, delta := log + [Round(base, t, accepted)], region;
        AfterRound(sqrt, fun.p, fun.C, eps, w[..], f, g[..], gnorm, gnorm1, ws, ts, ws0, ts0, log0,
                   Round(base, t, accepted), delta, actred, prered);
        if accepted {
          iter := iter + 1;
          if gnorm <= eps * gnorm1 {
            exit := Converged;
            break;
          }
        }
        if f < -100000000000000000000000000000000.0 {
          exit := Unbounded;
          break;
        }
        if Abs(actred) <= 0.0 && prered <= 0.0 {
          exit := NoReduction;
          break;
        }
        if Abs(actred) <= 0.000000000001 * Abs(f) && Abs(prered) <= 0.000000000001 * Abs(f) {
          exit := TooSmall;
          break;
        }
      }
      HistoryFacts(sqrt, fun.p, fun.C, eps, ws, ts, log, w[..], delta);
      RunFacts(sqrt, fun.p, fun.C, w[..], f, g[..], gnorm, gnorm1, ws, ts);
    }

    lemma ValidFacts()
      requires fun.Valid()
      ensures ValidSvc(fun.p, fun.C)
    {
    }
  }

  /** What holds at the top of the loop of trcg. */
  ghost predicate CgState(q: Quad, g: Vec, t: Trace, s: Vec, r: Vec, d: Vec, rTr: real, delta: real) {
    && Iterate(q, g, t, s)
    && r == Last(t.rs) && d == Last(t.ds) && rTr == Dot(r, r)
    && Dot(s, s) <= delta * delta
  }

  /** What trcg returns: the residual of s, inside or on the boundary, and the model has fallen enough. */
  ghost predicate CgDone(sqrt: real -> real, q: Quad, g: Vec, s: Vec, r: Vec, delta: real) {
    && Hessian.Valid(q) && |g| == |s| == |r| == q.n
    && r == Residual(q, g, s)
    && Dot(s, s) <= delta * delta
    && (Dot(s, s) == delta * delta || Dot(r, r) <= 0.01 * Dot(g, g))
    && SufficientFall(q, g, s, delta, sqrt(Dot(g, g)))
    && Truncated(q, g, s, delta)
  }

  lemma CgStart(q: Quad, g: Vec, delta: real)
    requires Hessian.Valid(q) && |g| == q.n
    ensures var t, r := Start(Scale(-1.0, g)), Scale(-1.0, g);
            CgState(q, g, t, Zeros(q.n), r, r, Dot(r, r), delta) && |t.al| == 0
  {
    hide LinAlg.DotTo;
    StartIterate(q, g);
    DotZero(Zeros(q.n));
    var d := Square(delta);
  }

  /** The stopping test compares norms; on squares it is a factor of 0.01. */
  lemma StopTest(sqrt: real -> real, r: Vec, g: Vec)
    requires IsSqrt(sqrt)
    ensures Dot(r, r) >= 0.0 && Dot(g, g) >= 0.0
    ensures sqrt(Dot(r, r)) <= 0.1 * sqrt(Dot(g, g)) <==> Dot(r, r) <= 0.01 * Dot(g, g)
  {
    hide LinAlg.DotTo;
    SquareNonNeg(r);
    SquareNonNeg(g);
    var b := sqrt(Dot(g, g));
    assert (0.1 * b) * (0.1 * b) == 0.01 * (b * b);
    SquareLe(sqrt(Dot(r, r)), 0.1 * b);
  }

  lemma StoppedWhere(sqrt: real -> real, q: Quad, g: Vec, s: Vec, r: Vec, delta: real)
    requires IsSqrt(sqrt) && CgDone(sqrt, q, g, s, r, delta)
    ensures Dot(s, s) == delta * delta || sqrt(Dot(r, r)) <= 0.1 * sqrt(Dot(g, g))
  {
    hide LinAlg.Dot, Truncated, SufficientFall, Residual;
    StopTest(sqrt, r, g);
  }

  lemma CgStop(sqrt: real -> real, q: Quad, g: Vec, t: Trace, path: seq<Vec>, s: Vec, r: Vec, d: Vec, rTr: real,
               delta: real)
    requires IsSqrt(sqrt) && CgState(q, g, t, s, r, d, rTr, delta) && Dot(r, r) <= 0.01 * Dot(g, g)
    requires Follows(q, g, t, path, s, delta)
    ensures CgDone(sqrt, q, g, s, r, delta)
  {
    hide LinAlg.DotTo, Hessian.HessVec, Follows, Truncated;
    PathStops(q, g, t, path, s, delta);
    if |t.al| == 0 {
      DotScale(-1.0, g, g);
      DotScale(-1.0, g, r);
    }
  }

  lemma BoundaryDone(sqrt: real -> real, q: Quad, g: Vec, s: Vec, r: Vec, delta: real)
    requires Hessian.Valid(q) && |g| == |s| == |r| == q.n
    requires r == Residual(q, g, s) && Dot(s, s) == delta * delta && SufficientFall(q, g, s, delta, sqrt(Dot(g, g)))
    requires Truncated(q, g, s, delta)
    ensures CgDone(sqrt, q, g, s, r, delta)
  {
  }

  lemma CgContinue(q: Quad, g: Vec, t: Trace, s: Vec, r: Vec, d: Vec, rTr: real, delta: real)
    requires CgState(q, g, t, s, r, d, rTr, delta) && Dot(r, r) > 0.01 * Dot(g, g)
    ensures Iterate(q, g, t, s) && Continues(q, t) && Shape(q, t) && |t.al| < q.n && |t.ds| > 0 && |t.rs| > 0
    ensures !Small(q, g, s)
    ensures r == Last(t.rs) && d == Last(t.ds) && rTr == Dot(r, r) && Dot(s, s) <= delta * delta
    ensures Dot(r, r) > 0.0 && Dot(d, HessVec(q, d)) > 0.0
    ensures NextStep(q, t, s) == Axpy(s, rTr / Dot(d, HessVec(q, d)), d)
  {
    hide LinAlg.DotTo, Hessian.HessVec;
    SquareNonNeg(g);
    PositiveCurvature(q, r, d);
    FewIterations(q, t);
  }

  lemma CgAdvance(q: Quad, g: Vec, t: Trace, s: Vec, r: Vec, d: Vec, rTr: real, delta: real, s': Vec, r': Vec, d': Vec,
                  rTr': real)
    requires CgState(q, g, t, s, r, d, rTr, delta) && Continues(q, t) && Dot(d, HessVec(q, d)) > 0.0 && Dot(r, r) > 0.0
    requires s' == Axpy(s, rTr / Dot(d, HessVec(q, d)), d) && Dot(s', s') <= delta * delta
    requires r' == Axpy(r, -(rTr / Dot(d, HessVec(q, d))), HessVec(q, d)) && rTr' == Dot(r', r')
    requires d' == Axpy(Scale(rTr' / rTr, d), 1.0, r')
    ensures CgState(q, g, Extend(q, t), s', r', d', rTr', delta)
    ensures |Extend(q, t).al| == |t.al| + 1
  {
    hide LinAlg.DotTo, Hessian.HessVec, Conjugate, Fallen, Forward;
    IterateStep(q, g, t, s);
    NextDirection(r', Dot(r', r') / Dot(r, r), d);
  }

  lemma StartsInside(q: Quad, g: Vec, t: Trace, s: Vec, delta: real)
    requires Iterate(q, g, t, s) && Continues(q, t) && delta > 0.0
    ensures Dot(s, Last(t.ds)) != 0.0 || Dot(s, s) < delta * delta
  {
    hide LinAlg.DotTo;
    if |t.al| == 0 {
      DotZero(s);
      var p := Product(delta, delta);
    }
  }

  lemma RadicandNonNeg(std: real, sts: real, dtd: real, dsq: real)
    requires dtd >= 0.0 && sts <= dsq
    ensures std * std + dtd * (dsq - sts) >= 0.0
  {
    var a := Square(std);
    var b := Product(dtd, dsq - sts);
  }

  lemma SqrtOf(sqrt: real -> real, x: real)
    requires IsSqrt(sqrt) && x >= 0.0
    ensures sqrt(x) >= 0.0 && sqrt(x) * sqrt(x) == x
  {
  }

  /** The branch is entered with everything its two formulas need. */
  lemma BoundaryReady(q: Quad, g: Vec, t: Trace, s: Vec, delta: real)
    requires Iterate(q, g, t, s) && Continues(q, t) && delta > 0.0 && Dot(s, s) <= delta * delta
    ensures var d := Last(t.ds);
            && Dot(d, d) > 0.0
            && Dot(s, d) >= 0.0
            && (Dot(s, d) != 0.0 || Dot(s, s) < delta * delta)
            && Dot(s, d) * Dot(s, d) + Dot(d, d) * (delta * delta - Dot(s, s)) >= 0.0
  {
    hide LinAlg.DotTo, Hessian.HessVec;
    var d := Last(t.ds);
    PositiveCurvature(q, Last(t.rs), d);
    StartsInside(q, g, t, s, delta);
    RadicandNonNeg(Dot(s, d), Dot(s, s), Dot(d, d), delta * delta);
  }

  lemma BoundaryExit(sqrt: real -> real, q: Quad, g: Vec, t: Trace, path: seq<Vec>, s: Vec, delta: real, alpha: real)
    requires IsSqrt(sqrt) && delta > 0.0 && alpha >= 0.0 && Follows(q, g, t, path, s, delta) && !Small(q, g, s)
    requires Iterate(q, g, t, s) && Continues(q, t)
    requires delta * delta < Dot(NextStep(q, t, s), NextStep(q, t, s))
    requires var d := Last(t.ds); Dot(s, s) + 2.0 * alpha * Dot(s, d) + alpha * alpha * Dot(d, d) == delta * delta
    ensures var d := Last(t.ds);
            var s' := Axpy(s, alpha, d);
            && Dot(s', s') == delta * delta
            && SufficientFall(q, g, s', delta, sqrt(Dot(g, g)))
            && Residual(q, g, s') == Axpy(Last(t.rs), -alpha, HessVec(q, d))
            && Truncated(q, g, s', delta)
  {
    hide LinAlg.DotTo, Hessian.HessVec, SufficientFall, Follows, Truncated, Small;
    var r, d := Last(t.rs), Last(t.ds);
    PositiveCurvature(q, r, d);
    var full := Alpha(q, r, d);
    SquareAxpy(s, alpha, d);
    SquareAxpy(s, full, d);
    BoundaryBeforeFull(Dot(s, d), Dot(s, s), Dot(d, d), delta * delta, alpha, full);
    NormLe(sqrt, g, 0.0);
    BoundaryFall(q, g, t, s, alpha, delta, sqrt(Dot(g, g)));
    ResidualMoves(q, g, s, alpha, d);
    PathLeaves(q, g, t, path, s, alpha, delta);
  }

  // ------------------------------------------------------------------- tron

  /** The parabola along the step with value f and slope gs at its start and value fnew at its end. */
  ghost function Interpolant(f: real, fnew: real, gs: real, t: real): real {
    f + gs * t + (fnew - f - gs) * (t * t)
  }

  /**
   The prediction alpha of the step (tron.cpp:108-111): where the parabola through
   the known values is lowest, but not below a quarter of the step; four steps when it
   has no lowest point.
   */
  function StepAlpha(f: real, fnew: real, gs: real): (alpha: real)
    ensures alpha >= 0.25
    ensures fnew - f - gs <= 0.0 ==> alpha == 4.0
    ensures fnew - f - gs > 0.0 ==>
              forall t :: t >= 0.25 ==> Interpolant(f, fnew, gs, t) >= Interpolant(f, fnew, gs, alpha)
                                                                     + (fnew - f - gs) * ((t - alpha) * (t - alpha))
  {
    var c := fnew - f - gs;
    if c <= 0.0 then 4.0 else
      var alpha := Max(0.25, -0.5 * (gs / c));
      LowestAt(f, fnew, gs, c, alpha);
      alpha
  }

  lemma LowestAt(f: real, fnew: real, gs: real, c: real, alpha: real)
    requires c == fnew - f - gs > 0.0 && alpha == Max(0.25, -0.5 * (gs / c))
    ensures forall t :: t >= 0.25 ==>
              Interpolant(f, fnew, gs, t) >= Interpolant(f, fnew, gs, alpha) + c * ((t - alpha) * (t - alpha))
  {
    hide Interpolant;
    var q := gs / c;
    assert q * c == gs;
    forall t | t >= 0.25
      ensures Interpolant(f, fnew, gs, t) >= Interpolant(f, fnew, gs, alpha) + c * ((t - alpha) * (t - alpha))
    {
      LowestAgainst(f, fnew, gs, c, q, alpha, t);
    }
  }

  lemma LowestAgainst(f: real, fnew: real, gs: real, c: real, q: real, alpha: real, t: real)
    requires c == fnew - f - gs > 0.0 && q * c == gs && alpha == Max(0.25, -0.5 * q) && t >= 0.25
    ensures Interpolant(f, fnew, gs, t) >= Interpolant(f, fnew, gs, alpha) + c * ((t - alpha) * (t - alpha))
  {
    var e, slope := t - alpha, gs + 2.0 * (c * alpha);
    assert slope == c * (q + 2.0 * alpha);
    var p := Product(c, q + 2.0 * alpha);
    assert slope * e >= 0.0 by {
      if alpha > 0.25 { assert slope == 0.0; } else { var r := Product(slope, e); }
    }
    assert c * (t * t) == c * (alpha * alpha) + 2.0 * (c * alpha) * e + c * (e * e);
    assert gs * t == gs * alpha + gs * e;
    assert slope * e == gs * e + 2.0 * (c * alpha) * e;
  }

  /** r is the point of [lo, hi] nearest to x. */
  ghost predicate Nearest(x: real, lo: real, hi: real, r: real) {
    && (x <= lo ==> r == lo)
    && (x >= hi ==> r == hi)
    && (lo <= x <= hi ==> r == x)
  }

  /**
   The new trust-region bound (tron.cpp:114-121).  The predicted step length decides
   inside an interval around the old bound that depends on how well the model did; a
   step that fails takes the smaller of half the bound and the predicted length.
   */
  function NewDelta(delta: real, alpha: real, snorm: real, actred: real, prered: real): (r: real)
    requires delta > 0.0 && alpha > 0.0 && snorm > 0.0 && prered > 0.0
    ensures actred < 0.0001 * prered && alpha >= 0.25 ==>
              r <= 0.5 * delta && r <= alpha * snorm && (r == 0.5 * delta || r == alpha * snorm)
    ensures actred < 0.0001 * prered && alpha < 0.25 ==>
              r <= 0.5 * delta && r <= 0.25 * snorm && (r == 0.5 * delta || r == 0.25 * snorm)
    ensures 0.0001 * prered <= actred < 0.25 * prered ==> Nearest(alpha * snorm, 0.25 * delta, 0.5 * delta, r)
    ensures 0.25 * prered <= actred < 0.75 * prered ==> Nearest(alpha * snorm, 0.25 * delta, 4.0 * delta, r)
    ensures 0.75 * prered <= actred ==> Nearest(alpha * snorm, delta, 4.0 * delta, r)
    ensures r > 0.0
    ensures actred <= 0.0001 * prered ==> r <= 0.5 * delta
    ensures Min(0.25 * delta, 0.25 * snorm) <= r <= 4.0 * delta
  {
    var a := alpha * snorm;
    var b := Max(alpha, 0.25) * snorm;
    QuarterStep(Max(alpha, 0.25), snorm, b);
    if actred < 0.0001 * prered then Min(b, 0.5 * delta)
    else if actred < 0.25 * prered then Max(0.25 * delta, Min(a, 0.5 * delta))
    else if actred < 0.75 * prered then Max(0.25 * delta, Min(a, 4.0 * delta))
    else Max(delta, Min(a, 4.0 * delta))
  }

  lemma QuarterStep(a: real, snorm: real, b: real)
    requires a >= 0.25 && snorm > 0.0 && b == a * snorm
    ensures b >= 0.25 * snorm
  {
    var p := Product(a - 0.25, snorm);
    assert (a - 0.25) * snorm == a * snorm - 0.25 * snorm;
  }

  /** The state between iterations: f, g and the active set all belong to w. */
  ghost predicate AtPoint(p: Problem, C: Vec, w: Vec, f: real, g: Vec) {
    && ValidSvc(p, C) && |w| == p.n
    && f == Objective(p, C, w)
    && g == Gradient(p, C, w)
  }

  lemma PointFacts(p: Problem, C: Vec, w: Vec, f: real, g: Vec)
    requires AtPoint(p, C, w, f, g)
    ensures ValidSvc(p, C) && |w| == p.n && f == Objective(p, C, w) && g == Gradient(p, C, w)
  {
  }

  /** actred >= prered - 0.5*Lip*|s|^2: what the model cannot see is second order. */
  lemma ActualReduction(p: Problem, C: Vec, w: Vec, s: Vec)
    requires ValidSvc(p, C) && |w| == |s| == p.n
    ensures var q := ActiveQuad(p, C, Active(p, w));
            Objective(p, C, w) - Objective(p, C, Axpy(w, 1.0, s))
              >= -Model(q, Gradient(p, C, w), s) - 0.5 * (Lip(p, C) * Dot(s, s))
  {
    hide LinAlg.Dot, Hessian.HessVec, ActiveQuad, Objective, Gradient, Lip;
    var q := ActiveQuad(p, C, Active(p, w));
    TwoParabolas(p, C, w, s);
    HessBounds(q, s);
    SquareNonNeg(s);
  }

  /** A trust region below |g|/(2 Lip) gives a step whose actual reduction is at least half the predicted one. */
  lemma SmallRegionAccepts(lip: real, bound: real, gg: real, gnorm: real, delta: real, ss: real, model: real,
                           actred: real)
    requires 1.0 <= bound <= lip && gnorm > 0.0 && gnorm * gnorm == gg && delta > 0.0
    requires 2.0 * (lip * delta) <= gnorm && 0.0 <= ss <= delta * delta
    requires model <= -0.5 * (gg / bound) || model <= -0.5 * (delta * gnorm)
    requires actred >= -model - 0.5 * (lip * ss)
    ensures model < 0.0 && actred >= -0.5 * model && actred > 0.0001 * -model
  {
    var p := Product(delta, gnorm);
    SmallRemainder(lip, gnorm, delta, ss);
    FallAtBoundary(lip, bound, gg, gnorm, delta);
  }

  lemma SmallRemainder(lip: real, gnorm: real, delta: real, ss: real)
    requires lip >= 0.0 && delta >= 0.0 && 2.0 * (lip * delta) <= gnorm && ss <= delta * delta
    ensures lip * ss <= 0.5 * (delta * gnorm)
  {
    var p1 := Product(lip, delta * delta - ss);
    assert lip * (delta * delta - ss) == lip * (delta * delta) - lip * ss;
    var p2 := Product(delta, gnorm - 2.0 * (lip * delta));
    assert delta * (gnorm - 2.0 * (lip * delta)) == delta * gnorm - 2.0 * (lip * (delta * delta));
  }

  lemma FallAtBoundary(lip: real, bound: real, gg: real, gnorm: real, delta: real)
    requires 0.0 < bound <= lip && gnorm > 0.0 && gnorm * gnorm == gg && delta > 0.0
    requires 2.0 * (lip * delta) <= gnorm
    ensures gg / bound >= delta * gnorm
  {
    var p3 := Product(lip - bound, delta);
    assert (lip - bound) * delta == lip * delta - bound * delta;
    var p4 := Product(lip, delta);
    var p5 := Product(gnorm, gnorm - bound * delta);
    assert gnorm * (gnorm - bound * delta) == gg - bound * (delta * gnorm);
    QuotientGe(gg, bound, delta * gnorm);
  }

  lemma QuotientGe(a: real, b: real, c: real)
    requires b > 0.0 && a >= b * c
    ensures a / b >= c
  {
    var q := a / b;
    assert q * b == a;
    if q < c { var p := Product(c - q, b); }
  }

  /** Strong convexity: no point is better than w by more than half the squared gradient. */
  lemma Gap(p: Problem, C: Vec, w: Vec, v: Vec)
    requires ValidSvc(p, C) && |w| == |v| == p.n
    ensures Objective(p, C, v) >= Objective(p, C, w) - 0.5 * Dot(Gradient(p, C, w), Gradient(p, C, w))
  {
    hide LinAlg.Dot, Objective, Gradient;
    var g, s := Gradient(p, C, w), Axpy(v, -1.0, w);
    assert Axpy(w, 1.0, s) == v;
    TwoParabolas(p, C, w, s);
    SquareAxpy(g, 1.0, s);
    SquareNonNeg(Axpy(g, 1.0, s));
  }

  method Copy(src: array<real>, dst: array<real>)
    requires src.Length == dst.Length && src != dst
    modifies dst
    ensures dst[..] == src[..]
  {
    for i := 0 to src.Length
      invariant forall j :: 0 <= j < i ==> dst[j] == src[j]
    {
      dst[i] := src[i];
    }
  }

  lemma MinBounds(delta: real, snorm: real)
    requires delta > 0.0 && snorm > 0.0
    ensures 0.0 < Min(delta, snorm) <= delta
  {
  }

  /** What the step returned by trcg means for the trial point. */
  lemma TrialFacts(sqrt: real -> real, fun: L2SvcFunction, w: Vec, g: Vec, s: Vec, r: Vec, f: real, delta: real)
    requires fun.Valid() && fun.Indexed() && IsSqrt(sqrt) && delta > 0.0
    requires AtPoint(fun.p, fun.C, w, f, g) && fun.ActiveSetOf(w) && Dot(g, g) > 0.0
    requires CgDone(sqrt, fun.Hess(), g, s, r, delta)
    ensures |s| == fun.p.n && Hessian.Valid(fun.Hess()) && |g| == |s| == |r| == fun.Hess().n
    ensures -0.5 * (Dot(g, s) - Dot(s, r)) == -Model(fun.Hess(), g, s) > 0.0
    ensures Dot(s, s) > 0.0 && sqrt(Dot(s, s)) > 0.0
    ensures var lip, fnew := Lip(fun.p, fun.C), Objective(fun.p, fun.C, Axpy(w, 1.0, s));
            f - fnew <= 0.0001 * -Model(fun.Hess(), g, s) ==> sqrt(Dot(g, g)) < 2.0 * (lip * delta)
  {
    hide LinAlg.Dot, Hessian.HessVec, Objective, Gradient, Lip, Sparse.X, Bound;
    var q := fun.Hess();
    PredictedReduction(q, g, s);
    NormLe(sqrt, g, 0.0);
    NormLe(sqrt, s, 0.0);
    SquareNonNeg(s);
    FallIsStrict(Dot(g, g), Bound(q), delta, sqrt(Dot(g, g)), Model(q, g, s));
    NonZeroStep(q, g, s);
    ActiveBound(fun.p, fun.C, w);
    ActualReduction(fun.p, fun.C, w, s);
    var lip, actred := Lip(fun.p, fun.C), f - Objective(fun.p, fun.C, Axpy(w, 1.0, s));
    if 2.0 * (lip * delta) <= sqrt(Dot(g, g)) {
      SmallRegionAccepts(lip, Bound(q), Dot(g, g), sqrt(Dot(g, g)), delta, Dot(s, s), Model(q, g, s), actred);
    }
  }

  lemma FallIsStrict(gg: real, bound: real, delta: real, gnorm: real, model: real)
    requires gg > 0.0 && bound >= 1.0 && delta > 0.0 && gnorm >= 0.0 && gnorm * gnorm == gg
    requires model <= -0.5 * (gg / bound) || model <= -0.5 * (delta * gnorm)
    ensures gnorm > 0.0 && model < 0.0
  {
    assert gg / bound > 0.0;
    var p := Product(delta, gnorm);
  }

  lemma NonZeroStep(q: Quad, g: Vec, s: Vec)
    requires Hessian.Valid(q) && |g| == |s| == q.n && Model(q, g, s) < 0.0
    ensures Dot(s, s) > 0.0
  {
    hide LinAlg.DotTo;
    SquareNonNeg(s);
    if Dot(s, s) == 0.0 {
      HessZero(q);
      DotZero(g);
      DotZero(s);
    }
  }

  /** Why the loop of tron ended. */
  datatype Exit = Converged | IterationLimit | Unbounded | NoReduction | TooSmall

  /** A step tried: what trcg returned, for which region. */
  datatype Attempt = Attempt(s: Vec, r: Vec, delta: real)

  /**
   t is what trcg makes of the model at v; actred and prered are the exact reductions of the
   objective and of that model.
   */
  ghost predicate Tried(sqrt: real -> real, p: Problem, C: Vec, v: Vec, t: Attempt, actred: real, prered: real) {
    && ValidSvc(p, C) && |v| == p.n == |t.s| && t.delta > 0.0
    && CgDone(sqrt, ActiveQuad(p, C, Active(p, v)), Gradient(p, C, v), t.s, t.r, t.delta)
    && actred == Objective(p, C, v) - Objective(p, C, Axpy(v, 1.0, t.s))
    && prered == -Model(ActiveQuad(p, C, Active(p, v)), Gradient(p, C, v), t.s) > 0.0
  }

  lemma ShowTried(sqrt: real -> real, fun: L2SvcFunction, w: Vec, g: Vec, t: Attempt, f: real, fnew: real, actred: real,
                  prered: real)
    requires fun.Valid() && fun.Indexed() && AtPoint(fun.p, fun.C, w, f, g) && fun.ActiveSetOf(w) && t.delta > 0.0
    requires CgDone(sqrt, fun.Hess(), g, t.s, t.r, t.delta) && |t.s| == fun.p.n
    requires fnew == Objective(fun.p, fun.C, Axpy(w, 1.0, t.s)) && actred == f - fnew
    requires prered == -Model(fun.Hess(), g, t.s) > 0.0
    ensures Tried(sqrt, fun.p, fun.C, w, t, actred, prered)
  {
    hide Objective, Gradient, Model, CgDone, ActiveQuad;
  }

  /** One round of the loop: the point it was at, the step tried there, and whether it was taken. */
  datatype Round = Round(v: Vec, t: Attempt, taken: bool)

  /**
   What a round leaves: the step is taken exactly when it reduced the objective by more
   than eta0 times the prediction; the region follows from the two reductions and the
   predicted length, and before the first step taken it is cut to the step's length.
   */
  ghost predicate RoundLeaves(sqrt: real -> real, p: Problem, C: Vec, round: Round, first: bool, w: Vec, delta: real) {
    var v, t := round.v, round.t;
    && ValidSvc(p, C) && |v| == |w| == p.n == |t.s| && t.delta > 0.0 && sqrt(Dot(t.s, t.s)) > 0.0
    && exists actred, prered :: Tried(sqrt, p, C, v, t, actred, prered)
         && round.taken == (actred > 0.0001 * prered)
         && w == (if round.taken then Axpy(v, 1.0, t.s) else v)
         && delta == RegionAfter(sqrt, p, C, v, t, first, actred, prered)
  }

  ghost function RegionAfter(sqrt: real -> real, p: Problem, C: Vec, v: Vec, t: Attempt, first: bool, actred: real,
                             prered: real): (r: real)
    requires ValidSvc(p, C) && |v| == p.n == |t.s| && t.delta > 0.0 && sqrt(Dot(t.s, t.s)) > 0.0 && prered > 0.0
    ensures var snorm := sqrt(Dot(t.s, t.s));
            var a := StepAlpha(Objective(p, C, v), Objective(p, C, v) - actred, Dot(Gradient(p, C, v), t.s));
            && (!first || snorm >= t.delta ==> r == NewDelta(t.delta, a, snorm, actred, prered))
            && (first && snorm <= t.delta ==> r == NewDelta(snorm, a, snorm, actred, prered))
  {
    var snorm, f, gs := sqrt(Dot(t.s, t.s)), Objective(p, C, v), Dot(Gradient(p, C, v), t.s);
    var before := if first && snorm < t.delta then snorm else t.delta;
    NewDelta(before, StepAlpha(f, f - actred, gs), snorm, actred, prered)
  }

  /** Until a step is taken the length of the step takes the place of the region. */
  lemma FirstRegion(sqrt: real -> real, p: Problem, C: Vec, round: Round, w: Vec, delta: real)
    requires IsSqrt(sqrt) && RoundLeaves(sqrt, p, C, round, true, w, delta)
    ensures var snorm := sqrt(Dot(round.t.s, round.t.s));
            && snorm <= round.t.delta
            && (if round.taken then 0.25 * snorm <= delta <= 4.0 * snorm else delta <= 0.5 * snorm)
  {
    hide *;
    var t, snorm := round.t, sqrt(Dot(round.t.s, round.t.s));
    var actred, prered, alpha := RoundIs(sqrt, p, C, round, true, w, delta);
    RegionBounds(snorm, alpha, snorm, actred, prered, delta);
  }

  /** The region a round leaves, in terms of its step. */
  lemma RoundIs(sqrt: real -> real, p: Problem, C: Vec, round: Round, first: bool, w: Vec, delta: real)
    returns (actred: real, prered: real, alpha: real)
    requires IsSqrt(sqrt) && RoundLeaves(sqrt, p, C, round, first, w, delta)
    ensures var t, snorm := round.t, sqrt(Dot(round.t.s, round.t.s));
            && t.delta > 0.0 && 0.0 < snorm <= t.delta && prered > 0.0 && alpha > 0.0
            && delta == NewDelta(if first then snorm else t.delta, alpha, snorm, actred, prered)
            && round.taken == (actred > 0.0001 * prered)
  {
    hide LinAlg.Dot, Objective, Gradient, NewDelta, ActiveQuad, LinAlg.Axpy, Model, CgDone;
    var v, t := round.v, round.t;
    actred, prered :| Tried(sqrt, p, C, v, t, actred, prered) && round.taken == (actred > 0.0001 * prered)
      && delta == RegionAfter(sqrt, p, C, v, t, first, actred, prered);
    alpha := StepAlpha(Objective(p, C, v), Objective(p, C, v) - actred, Dot(Gradient(p, C, v), t.s));
    StepInside(sqrt, ActiveQuad(p, C, Active(p, v)), Gradient(p, C, v), t.s, t.r, t.delta);
  }

  lemma StepInside(sqrt: real -> real, q: Quad, g: Vec, s: Vec, r: Vec, delta: real)
    requires IsSqrt(sqrt) && CgDone(sqrt, q, g, s, r, delta) && delta > 0.0
    ensures sqrt(Dot(s, s)) <= delta
  {
    hide LinAlg.Dot, Truncated, SufficientFall, Residual;
    SquareNonNeg(s);
    SquareLe(sqrt(Dot(s, s)), delta);
  }

  lemma RegionBounds(before: real, alpha: real, snorm: real, actred: real, prered: real, r: real)
    requires before > 0.0 && alpha > 0.0 && snorm > 0.0 && prered > 0.0
    requires r == NewDelta(before, alpha, snorm, actred, prered)
    ensures if actred > 0.0001 * prered then 0.25 * before <= r <= 4.0 * before else r <= 0.5 * before
  {
    hide Nearest;
  }

  /** From then on it is the region that is scaled. */
  lemma LaterRegion(sqrt: real -> real, p: Problem, C: Vec, round: Round, w: Vec, delta: real)
    requires IsSqrt(sqrt) && RoundLeaves(sqrt, p, C, round, false, w, delta)
    ensures var before := round.t.delta;
            if round.taken then 0.25 * before <= delta <= 4.0 * before else delta <= 0.5 * before
  {
    hide *;
    var actred, prered, alpha := RoundIs(sqrt, p, C, round, false, w, delta);
    RegionBounds(round.t.delta, alpha, sqrt(Dot(round.t.s, round.t.s)), actred, prered, delta);
  }

  /** The steps taken, in order. */
  ghost function Taken(log: seq<Round>): seq<Attempt> {
    if log == [] then [] else
      var last := log[|log| - 1];
      Taken(log[..|log| - 1]) + (if last.taken then [last.t] else [])
  }

  /**
   All rounds of a run up to the point w and the region delta: it starts at zero with the
   norm of the gradient as region, and every round starts where the one before left off.
   */
  ghost predicate Logged(sqrt: real -> real, p: Problem, C: Vec, log: seq<Round>, w: Vec, delta: real) {
    ValidSvc(p, C) &&
    if log == [] then
      var g := Gradient(p, C, Zeros(p.n));
      w == Zeros(p.n) && delta == sqrt(Dot(g, g))
    else
      var before, last := log[..|log| - 1], log[|log| - 1];
      && Logged(sqrt, p, C, before, last.v, last.t.delta)
      && RoundLeaves(sqrt, p, C, last, Taken(before) == [], w, delta)
  }

  lemma LogMore(sqrt: real -> real, p: Problem, C: Vec, log: seq<Round>, round: Round, w: Vec, delta: real)
    requires Logged(sqrt, p, C, log, round.v, round.t.delta)
    requires RoundLeaves(sqrt, p, C, round, Taken(log) == [], w, delta)
    ensures Logged(sqrt, p, C, log + [round], w, delta)
    ensures Taken(log + [round]) == if round.taken then Taken(log) + [round.t] else Taken(log)
  {
    hide RoundLeaves;
    assert (log + [round])[..|log|] == log;
  }

  lemma LogStart(sqrt: real -> real, p: Problem, C: Vec)
    requires ValidSvc(p, C)
    ensures var g := Gradient(p, C, Zeros(p.n)); Logged(sqrt, p, C, [], Zeros(p.n), sqrt(Dot(g, g)))
    ensures Taken([]) == []
  {
    hide Gradient, LinAlg.Dot;
  }

  lemma ShowRound(sqrt: real -> real, p: Problem, C: Vec, v: Vec, t: Attempt, taken: bool, first: bool, w: Vec,
                   delta: real, f: real, gs: real, snorm: real, actred: real, prered: real)
    requires Tried(sqrt, p, C, v, t, actred, prered) && ValidSvc(p, C) && |v| == |w| == p.n == |t.s|
    requires t.delta > 0.0 && snorm == sqrt(Dot(t.s, t.s)) > 0.0 && prered > 0.0
    requires f == Objective(p, C, v) && gs == Dot(Gradient(p, C, v), t.s)
    requires taken == (actred > 0.0001 * prered) && w == (if taken then Axpy(v, 1.0, t.s) else v)
    requires delta == NewDelta(if first then Min(t.delta, snorm) else t.delta, StepAlpha(f, f - actred, gs), snorm,
                               actred, prered)
    ensures RoundLeaves(sqrt, p, C, Round(v, t, taken), first, w, delta)
  {
    hide Tried, Objective, Gradient, LinAlg.Dot, NewDelta, StepAlpha;
    assert delta == RegionAfter(sqrt, p, C, v, t, first, actred, prered);
  }

  /** t was tried at v, reduced the objective by more than eta0 times the prediction, and led to w. */
  ghost predicate AcceptedStep(sqrt: real -> real, p: Problem, C: Vec, v: Vec, t: Attempt, w: Vec) {
    && ValidSvc(p, C) && |v| == |w| == p.n == |t.s| && w == Axpy(v, 1.0, t.s)
    && exists actred, prered :: Tried(sqrt, p, C, v, t, actred, prered) && actred > 0.0001 * prered
  }

  /** The points accepted by a run, each reached from the one before by a sufficient step. */
  ghost predicate Descends(sqrt: real -> real, p: Problem, C: Vec, ws: seq<Vec>, ts: seq<Attempt>) {
    && ValidSvc(p, C) && |ws| == |ts| + 1
    && (forall k :: 0 <= k < |ws| ==> |ws[k]| == p.n)
    && (forall k :: 0 <= k < |ts| ==> AcceptedStep(sqrt, p, C, ws[k], ts[k], ws[k + 1]))
  }

  /** The objective falls strictly from each accepted point to every later one. */
  lemma {:induction false} RunDescends(sqrt: real -> real, p: Problem, C: Vec, ws: seq<Vec>, ts: seq<Attempt>, j: nat,
                                       k: nat)
    requires Descends(sqrt, p, C, ws, ts) && j < k < |ws|
    ensures Objective(p, C, ws[k]) < Objective(p, C, ws[j])
    decreases k
  {
    hide Objective, Gradient, Model, CgDone, ActiveQuad;
    assert AcceptedStep(sqrt, p, C, ws[k - 1], ts[k - 1], ws[k]);
    if j < k - 1 { RunDescends(sqrt, p, C, ws, ts, j, k - 1); }
  }

  /**
   The test for tiny reductions: the last step was tried at v and both its reductions are within
   1e-12 of the objective.
   */
  ghost predicate Stalled(sqrt: real -> real, p: Problem, C: Vec, v: Vec, t: Attempt, w: Vec) {
    && ValidSvc(p, C) && |v| == |w| == p.n == |t.s| && (w == v || w == Axpy(v, 1.0, t.s))
    && exists actred, prered :: Tried(sqrt, p, C, v, t, actred, prered)
         && Abs(actred) <= 0.000000000001 * Objective(p, C, w) && prered <= 0.000000000001 * Objective(p, C, w)
  }

  lemma ShowStalled(sqrt: real -> real, p: Problem, C: Vec, v: Vec, t: Attempt, actred: real, prered: real,
                    w: Vec, f: real, g: Vec, gnorm: real, gnorm1: real, ws: seq<Vec>, ts: seq<Attempt>)
    requires RunState(sqrt, p, C, w, f, g, gnorm, gnorm1, ws, ts) && f >= 0.0
    requires Tried(sqrt, p, C, v, t, actred, prered) && |v| == |t.s| && (w == v || w == Axpy(v, 1.0, t.s))
    requires Abs(actred) <= 0.000000000001 * Abs(f) && Abs(prered) <= 0.000000000001 * Abs(f)
    ensures Stalled(sqrt, p, C, v, t, w)
  {
    hide Tried, Descends, Objective, Gradient;
    assert |v| == p.n by { TriedShape(sqrt, p, C, v, t, actred, prered); }
  }

  lemma TriedShape(sqrt: real -> real, p: Problem, C: Vec, v: Vec, t: Attempt, actred: real, prered: real)
    requires Tried(sqrt, p, C, v, t, actred, prered)
    ensures ValidSvc(p, C) && |v| == p.n == |t.s|
  {
    hide Objective, Gradient, Model, CgDone, ActiveQuad;
  }

  /** The stopping test met, and with it a bound on the distance from the global minimum. */
  ghost predicate NearMinimum(sqrt: real -> real, p: Problem, C: Vec, w: Vec, eps: real) {
    && ValidSvc(p, C) && |w| == p.n
    && var g, g0 := Gradient(p, C, w), Gradient(p, C, Zeros(p.n));
    && sqrt(Dot(g, g)) <= eps * sqrt(Dot(g0, g0))
    && forall v: Vec :: |v| == p.n ==> Objective(p, C, v) >= Objective(p, C, w) - 0.5 * (eps * eps * Dot(g0, g0))
  }

  /** The norm test: the gradient is at most eps times the first one. */
  ghost predicate NormTest(sqrt: real -> real, p: Problem, C: Vec, w: Vec, eps: real) {
    && ValidSvc(p, C) && |w| == p.n
    && var g, g0 := Gradient(p, C, w), Gradient(p, C, Zeros(p.n));
    && sqrt(Dot(g, g)) <= eps * sqrt(Dot(g0, g0))
  }

  lemma NormTestIs(sqrt: real -> real, p: Problem, C: Vec, w: Vec, f: real, g: Vec, gnorm: real, gnorm1: real,
                   ws: seq<Vec>, ts: seq<Attempt>, eps: real)
    requires RunState(sqrt, p, C, w, f, g, gnorm, gnorm1, ws, ts)
    ensures NormTest(sqrt, p, C, w, eps) <==> gnorm <= eps * gnorm1
    ensures |ws| > 0 && ws[|ws| - 1] == w
  {
    hide Gradient, Objective, LinAlg.Dot, Descends;
  }

  /** None of the first n points passes the norm test. */
  ghost predicate NoneFlat(sqrt: real -> real, p: Problem, C: Vec, ws: seq<Vec>, n: nat, eps: real) {
    n <= |ws| && forall k :: 0 <= k < n ==> !NormTest(sqrt, p, C, ws[k], eps)
  }

  /** None of the first n rounds met the test for tiny reductions. */
  ghost predicate NoneStalled(sqrt: real -> real, p: Problem, C: Vec, log: seq<Round>, n: nat, w: Vec) {
    n <= |log| && forall k :: 0 <= k < n ==> !StalledIn(sqrt, p, C, log, k, w)
  }

  ghost predicate StalledIn(sqrt: real -> real, p: Problem, C: Vec, log: seq<Round>, k: nat, w: Vec) {
    k < |log| && Stalled(sqrt, p, C, log[k].v, log[k].t, if k + 1 < |log| then log[k + 1].v else w)
  }

  /** The whole run so far; no point before the last passes the norm test, and none of the first n rounds stalled. */
  ghost predicate History(sqrt: real -> real, p: Problem, C: Vec, eps: real, ws: seq<Vec>, ts: seq<Attempt>,
                          log: seq<Round>, n: nat, w: Vec, delta: real) {
    && Logged(sqrt, p, C, log, w, delta) && ts == Taken(log) && |ws| == |ts| + 1 && ws[|ws| - 1] == w
    && NoneFlat(sqrt, p, C, ws, |ws| - 1, eps) && NoneStalled(sqrt, p, C, log, n, w)
  }

  lemma NothingYet(sqrt: real -> real, p: Problem, C: Vec, eps: real, ws: seq<Vec>, w: Vec, delta: real)
    requires ValidSvc(p, C) && w == Zeros(p.n) && ws == [w]
    requires var g := Gradient(p, C, Zeros(p.n)); delta == sqrt(Dot(g, g))
    ensures History(sqrt, p, C, eps, ws, [], [], 0, w, delta)
  {
    hide Gradient, LinAlg.Dot;
    LogStart(sqrt, p, C);
  }

  lemma AddRound(sqrt: real -> real, p: Problem, C: Vec, eps: real, ws: seq<Vec>, ts: seq<Attempt>, log: seq<Round>,
                 round: Round, w: Vec, delta: real, ws': seq<Vec>, ts': seq<Attempt>)
    requires History(sqrt, p, C, eps, ws, ts, log, |log|, round.v, round.t.delta)
    requires !NormTest(sqrt, p, C, round.v, eps) && RoundLeaves(sqrt, p, C, round, |ts| == 0, w, delta)
    requires if round.taken then ws' == ws + [w] && ts' == ts + [round.t] else ws' == ws && ts' == ts && w == round.v
    ensures History(sqrt, p, C, eps, ws', ts', log + [round], |log|, w, delta)
    ensures StalledIn(sqrt, p, C, log + [round], |log|, w) <==> Stalled(sqrt, p, C, round.v, round.t, w)
    ensures !Stalled(sqrt, p, C, round.v, round.t, w) ==>
              History(sqrt, p, C, eps, ws', ts', log + [round], |log| + 1, w, delta)
  {
    hide Logged, RoundLeaves, NoneFlat, NoneStalled, StalledIn, Stalled, NormTest;
    LogMore(sqrt, p, C, log, round, w, delta);
    MoreRounds(sqrt, p, C, log, round, w);
    if round.taken { MorePoints(sqrt, p, C, ws, w, eps); }
  }

  lemma HistoryFacts(sqrt: real -> real, p: Problem, C: Vec, eps: real, ws: seq<Vec>, ts: seq<Attempt>,
                     log: seq<Round>, w: Vec, delta: real)
    requires History(sqrt, p, C, eps, ws, ts, log, |log|, w, delta)
          || (|log| > 0 && History(sqrt, p, C, eps, ws, ts, log, |log| - 1, w, delta))
    ensures Logged(sqrt, p, C, log, w, delta) && ts == Taken(log)
    ensures |ws| > 0 && NoneFlat(sqrt, p, C, ws, |ws| - 1, eps)
    ensures |log| > 0 ==> NoneStalled(sqrt, p, C, log, |log| - 1, w)
    ensures History(sqrt, p, C, eps, ws, ts, log, |log|, w, delta) ==> NoneStalled(sqrt, p, C, log, |log|, w)
  {
    hide Logged, Stalled, NormTest;
  }

  /** What the tests after a round decide. */
  lemma AfterRound(sqrt: real -> real, p: Problem, C: Vec, eps: real, w: Vec, f: real, g: Vec, gnorm: real,
                   gnorm1: real, ws: seq<Vec>, ts: seq<Attempt>, ws0: seq<Vec>, ts0: seq<Attempt>, log: seq<Round>,
                   round: Round, delta: real, actred: real, prered: real)
    requires RunState(sqrt, p, C, w, f, g, gnorm, gnorm1, ws, ts)
    requires History(sqrt, p, C, eps, ws0, ts0, log, |log|, round.v, round.t.delta)
    requires !NormTest(sqrt, p, C, round.v, eps) && RoundLeaves(sqrt, p, C, round, |ts0| == 0, w, delta)
    requires Tried(sqrt, p, C, round.v, round.t, actred, prered)
    requires if round.taken then ws == ws0 + [w] && ts == ts0 + [round.t] else ws == ws0 && ts == ts0 && w == round.v
    ensures f >= 0.0 && History(sqrt, p, C, eps, ws, ts, log + [round], |log|, w, delta)
    ensures NormTest(sqrt, p, C, w, eps) <==> gnorm <= eps * gnorm1
    ensures if Abs(actred) <= 0.000000000001 * Abs(f) && Abs(prered) <= 0.000000000001 * Abs(f)
            then StalledIn(sqrt, p, C, log + [round], |log|, w)
            else History(sqrt, p, C, eps, ws, ts, log + [round], |log| + 1, w, delta)
  {
    hide *;
    RoundShape(sqrt, p, C, round, |ts0| == 0, w, delta);
    ObjectiveBelow(sqrt, p, C, w, f, g, gnorm, gnorm1, ws, ts);
    AddRound(sqrt, p, C, eps, ws0, ts0, log, round, w, delta, ws, ts);
    NormTestIs(sqrt, p, C, w, f, g, gnorm, gnorm1, ws, ts, eps);
    if Abs(actred) <= 0.000000000001 * Abs(f) && Abs(prered) <= 0.000000000001 * Abs(f) {
      ShowStalled(sqrt, p, C, round.v, round.t, actred, prered, w, f, g, gnorm, gnorm1, ws, ts);
    } else {
      StatePoint(sqrt, p, C, w, f, g, gnorm, gnorm1, ws, ts);
      NotStalled(sqrt, p, C, round.v, round.t, actred, prered, w, f);
    }
  }

  lemma RoundShape(sqrt: real -> real, p: Problem, C: Vec, round: Round, first: bool, w: Vec, delta: real)
    requires RoundLeaves(sqrt, p, C, round, first, w, delta)
    ensures ValidSvc(p, C) && |round.v| == |w| == p.n == |round.t.s|
    ensures w == round.v || w == Axpy(round.v, 1.0, round.t.s)
  {
    hide Tried, RegionAfter, LinAlg.Dot;
  }

  lemma StatePoint(sqrt: real -> real, p: Problem, C: Vec, w: Vec, f: real, g: Vec, gnorm: real, gnorm1: real,
                   ws: seq<Vec>, ts: seq<Attempt>)
    requires RunState(sqrt, p, C, w, f, g, gnorm, gnorm1, ws, ts)
    ensures ValidSvc(p, C) && |w| == p.n && f == Objective(p, C, w)
  {
    hide Descends, Objective, Gradient, LinAlg.Dot;
  }

  /** A round more: what was said of the rounds before stays. */
  lemma MoreRounds(sqrt: real -> real, p: Problem, C: Vec, log: seq<Round>, round: Round, w: Vec)
    requires NoneStalled(sqrt, p, C, log, |log|, round.v)
    ensures NoneStalled(sqrt, p, C, log + [round], |log|, w)
    ensures StalledIn(sqrt, p, C, log + [round], |log|, w) <==> Stalled(sqrt, p, C, round.v, round.t, w)
    ensures !Stalled(sqrt, p, C, round.v, round.t, w) ==> NoneStalled(sqrt, p, C, log + [round], |log| + 1, w)
  {
    hide Stalled;
    var all := log + [round];
    forall k | 0 <= k < |log| ensures !StalledIn(sqrt, p, C, all, k, w) {
      assert !StalledIn(sqrt, p, C, log, k, round.v);
      assert all[k] == log[k];
    }
  }

  lemma MorePoints(sqrt: real -> real, p: Problem, C: Vec, ws: seq<Vec>, w: Vec, eps: real)
    requires |ws| > 0 && NoneFlat(sqrt, p, C, ws, |ws| - 1, eps) && !NormTest(sqrt, p, C, ws[|ws| - 1], eps)
    ensures NoneFlat(sqrt, p, C, ws + [w], |ws|, eps)
  {
    hide NormTest;
    forall k | 0 <= k < |ws| ensures !NormTest(sqrt, p, C, (ws + [w])[k], eps) {
      if k < |ws| - 1 { assert !NormTest(sqrt, p, C, ws[k], eps); }
    }
  }

  /** The reductions of a round are what its step gives, so the test decides whether it stalled. */
  lemma NotStalled(sqrt: real -> real, p: Problem, C: Vec, v: Vec, t: Attempt, actred: real, prered: real, w: Vec,
                   f: real)
    requires Tried(sqrt, p, C, v, t, actred, prered) && |w| == p.n && f == Objective(p, C, w) && f >= 0.0
    requires !(Abs(actred) <= 0.000000000001 * Abs(f) && Abs(prered) <= 0.000000000001 * Abs(f))
    ensures !Stalled(sqrt, p, C, v, t, w)
  {
    hide Objective, Gradient, Model, CgDone, ActiveQuad;
  }

  ghost function Limit(maxIter: int): int {
    if maxIter < 0 then 0 else maxIter
  }

  lemma MinLimit(maxIter: int)
    ensures 0 <= Limit(maxIter) && maxIter <= Limit(maxIter)
  {
  }

  /** What the loop of tron keeps, as values. */
  ghost predicate RunState(sqrt: real -> real, p: Problem, C: Vec, w: Vec, f: real, g: Vec, gnorm: real, gnorm1: real,
                           ws: seq<Vec>, ts: seq<Attempt>) {
    && AtPoint(p, C, w, f, g)
    && gnorm == sqrt(Dot(g, g))
    && gnorm1 == sqrt(Dot(Gradient(p, C, Zeros(p.n)), Gradient(p, C, Zeros(p.n))))
    && |ws| > 0 && Descends(sqrt, p, C, ws, ts) && ws[0] == Zeros(p.n) && ws[|ws| - 1] == w
  }

  lemma RunFacts(sqrt: real -> real, p: Problem, C: Vec, w: Vec, f: real, g: Vec, gnorm: real, gnorm1: real,
                 ws: seq<Vec>, ts: seq<Attempt>)
    requires RunState(sqrt, p, C, w, f, g, gnorm, gnorm1, ws, ts) && IsSqrt(sqrt)
    ensures AtPoint(p, C, w, f, g) && gnorm == sqrt(Dot(g, g))
    ensures gnorm > 0.0 ==> Dot(g, g) > 0.0
    ensures Descends(sqrt, p, C, ws, ts) && |ws| > 0 && ws[0] == Zeros(p.n) && ws[|ws| - 1] == w
  {
    hide LinAlg.Dot, Objective, Gradient;
    NormLe(sqrt, g, 0.0);
  }

  /** The objective is never negative, so the test for an unbounded objective never succeeds. */
  lemma ObjectiveBelow(sqrt: real -> real, p: Problem, C: Vec, w: Vec, f: real, g: Vec, gnorm: real, gnorm1: real,
                       ws: seq<Vec>, ts: seq<Attempt>)
    requires RunState(sqrt, p, C, w, f, g, gnorm, gnorm1, ws, ts)
    ensures f >= 0.0
  {
    hide LinAlg.Dot, Gradient, LossTo;
    SquareNonNeg(w);
    LossNonNeg(p, C, w, |p.x|);
  }

  lemma RunStart(sqrt: real -> real, p: Problem, C: Vec, eps: real)
    requires ValidSvc(p, C) && IsSqrt(sqrt) && eps > 0.0
    ensures var w := Zeros(p.n);
            var g := Gradient(p, C, w);
            var gnorm := sqrt(Dot(g, g));
            && RunState(sqrt, p, C, w, Objective(p, C, w), g, gnorm, gnorm, [w], [])
            && (gnorm > eps * gnorm ==> gnorm > 0.0)
            && (gnorm <= eps * gnorm ==> NearMinimum(sqrt, p, C, w, eps))
    ensures Lip(p, C) >= 1.0
  {
    hide LinAlg.Dot, Objective, Gradient, NearMinimum, Lip;
    var w := Zeros(p.n);
    var g := Gradient(p, C, w);
    var gnorm := sqrt(Dot(g, g));
    LipAtLeastOne(p, C);
    assert RunState(sqrt, p, C, w, Objective(p, C, w), g, gnorm, gnorm, [w], []);
    if gnorm <= eps * gnorm {
      IsConverged(sqrt, p, C, w, eps, gnorm, gnorm);
    } else {
      StillMoving(sqrt, g, eps, gnorm, gnorm);
    }
  }

  lemma LipAtLeastOne(p: Problem, C: Vec)
    requires ValidSvc(p, C)
    ensures Lip(p, C) >= 1.0
  {
  }

  /** An accepted step keeps the state and continues the descent. */
  lemma RunAccept(sqrt: real -> real, p: Problem, C: Vec, w: Vec, f: real, g: Vec, gnorm1: real, ws: seq<Vec>,
                  ts: seq<Attempt>,
                  t: Attempt, actred: real, prered: real, w': Vec, f': real, g': Vec, eps: real)
    requires IsSqrt(sqrt) && eps > 0.0 && |w'| == p.n && ValidSvc(p, C)
    requires RunState(sqrt, p, C, w, f, g, sqrt(Dot(g, g)), gnorm1, ws, ts)
    requires Tried(sqrt, p, C, w, t, actred, prered) && actred > 0.0001 * prered && |w| == |t.s|
    requires w' == Axpy(w, 1.0, t.s)
    requires f' == Objective(p, C, w') && g' == Gradient(p, C, w')
    ensures var gnorm := sqrt(Dot(g', g'));
            && RunState(sqrt, p, C, w', f', g', gnorm, gnorm1, ws + [w'], ts + [t])
            && (gnorm > eps * gnorm1 ==> gnorm > 0.0)
            && (gnorm <= eps * gnorm1 ==> NearMinimum(sqrt, p, C, w', eps))
  {
    hide LinAlg.Dot, Objective, Gradient, NearMinimum, Descends, Tried;
    DescendsMore(sqrt, p, C, ws, ts, t, actred, prered, w');
    var g0 := Gradient(p, C, Zeros(p.n));
    var gnorm := sqrt(Dot(g', g'));
    if gnorm <= eps * gnorm1 {
      IsConverged(sqrt, p, C, w', eps, gnorm, gnorm1);
    } else {
      StillMoving(sqrt, g0, eps, gnorm, gnorm1);
    }
  }

  lemma DescendsMore(sqrt: real -> real, p: Problem, C: Vec, ws: seq<Vec>, ts: seq<Attempt>, t: Attempt, actred: real,
                     prered: real, w: Vec)
    requires |ws| > 0 && Descends(sqrt, p, C, ws, ts) && Tried(sqrt, p, C, ws[|ws| - 1], t, actred, prered)
    requires actred > 0.0001 * prered
    requires |ws[|ws| - 1]| == |t.s| && w == Axpy(ws[|ws| - 1], 1.0, t.s)
    ensures Descends(sqrt, p, C, ws + [w], ts + [t])
    ensures |ws + [w]| > 0 && (ws + [w])[0] == ws[0] && (ws + [w])[|ws|] == w
  {
    hide Tried;
    TriedShape(sqrt, p, C, ws[|ws| - 1], t, actred, prered);
    assert AcceptedStep(sqrt, p, C, ws[|ws| - 1], t, w);
    hide AcceptedStep;
    forall k | 0 <= k < |ts + [t]| ensures AcceptedStep(sqrt, p, C, (ws + [w])[k], (ts + [t])[k], (ws + [w])[k + 1]) {
      if k < |ts| { assert AcceptedStep(sqrt, p, C, ws[k], ts[k], ws[k + 1]); }
    }
  }

  lemma StillMoving(sqrt: real -> real, g0: Vec, eps: real, gnorm: real, gnorm1: real)
    requires IsSqrt(sqrt) && eps > 0.0 && gnorm > eps * gnorm1 && gnorm1 == sqrt(Dot(g0, g0))
    ensures gnorm > 0.0
  {
    hide LinAlg.Dot;
    NormLe(sqrt, g0, 0.0);
    var p := Product(eps, gnorm1);
  }

  lemma IsConverged(sqrt: real -> real, p: Problem, C: Vec, w: Vec, eps: real, gnorm: real, gnorm1: real)
    requires IsSqrt(sqrt) && eps > 0.0 && ValidSvc(p, C) && |w| == p.n && gnorm <= eps * gnorm1
    requires gnorm == sqrt(Dot(Gradient(p, C, w), Gradient(p, C, w)))
    requires gnorm1 == sqrt(Dot(Gradient(p, C, Zeros(p.n)), Gradient(p, C, Zeros(p.n))))
    ensures NearMinimum(sqrt, p, C, w, eps)
  {
    hide LinAlg.Dot, Objective, Gradient, Sparse.X;
    var g, g0 := Gradient(p, C, w), Gradient(p, C, Zeros(p.n));
    NormLe(sqrt, g0, 0.0);
    var b := Product(eps, gnorm1);
    NormLe(sqrt, g, b);
    SquareOfBound(eps, gnorm1, b, Dot(g0, g0));
    forall v: Vec | |v| == p.n ensures Objective(p, C, v) >= Objective(p, C, w) - 0.5 * (eps * eps * Dot(g0, g0)) {
      Gap(p, C, w, v);
    }
  }

  lemma SquareOfBound(eps: real, n: real, b: real, gg: real)
    requires b == eps * n && n * n == gg
    ensures b * b == eps * eps * gg
  {
    assert (eps * n) * (eps * n) == eps * eps * (n * n);
  }

  /** How far the trust region is above the size that is always accepted. */
  ghost function Excess(lip: real, delta: real, gnorm: real): real
    requires gnorm > 0.0
  {
    4.0 * (lip * delta) / gnorm
  }

  /** A rejected step at least halves a measure that is above two. */
  lemma RegionShrinks(lip: real, delta: real, delta': real, gnorm: real)
    requires lip >= 1.0 && 0.0 < delta' <= 0.5 * delta && 0.0 < gnorm < 2.0 * (lip * delta)
    ensures 0.0 <= Excess(lip, delta', gnorm) <= Excess(lip, delta, gnorm) - 1.0
  {
    var a, b := 4.0 * (lip * delta), 4.0 * (lip * delta');
    var p := Product(lip, 0.5 * delta - delta');
    assert lip * (0.5 * delta - delta') == 0.5 * (lip * delta) - lip * delta';
    var p' := Product(lip, delta');
    var x, y := a / gnorm, b / gnorm;
    assert x * gnorm == a && y * gnorm == b;
    QuotientGe(a, gnorm, 2.0);
    if y > 0.5 * x {
      var p'' := Product(y - 0.5 * x, gnorm);
    }
  }
}
