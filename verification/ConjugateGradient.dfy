/**
 The theory behind TRON::trcg.  A `Trace` is the history of one run: every
 search direction, every residual and every pair of scalars.  One iteration
 keeps all residuals mutually orthogonal and all directions H-conjugate; from
 that follow that the loop runs at most n times, that s never turns back
 (s.d >= 0), and how much the quadratic model falls.
 */
module ConjugateGradient {
  import opened LinAlg
  import opened Hessian

  datatype Trace = Trace(ds: seq<Vec>, rs: seq<Vec>, al: Vec, be: Vec)

  ghost predicate Shape(q: Quad, t: Trace) {
    && Valid(q)
    && |t.ds| == |t.rs| == |t.al| + 1 == |t.be| + 1
    && (forall i :: 0 <= i < |t.ds| ==> |t.ds[i]| == q.n)
    && (forall i :: 0 <= i < |t.rs| ==> |t.rs[i]| == q.n)
    && t.ds[0] == t.rs[0]
  }

  /** Step i of the history, as the loop body computes it. */
  ghost predicate StepOk(q: Quad, t: Trace, i: nat)
    requires Shape(q, t) && i < |t.al|
  {
    && t.al[i] > 0.0
    && Dot(t.rs[i], t.rs[i]) > 0.0
    && t.rs[i + 1] == Axpy(t.rs[i], -t.al[i], HessVec(q, t.ds[i]))
    && t.ds[i + 1] == Axpy(t.rs[i + 1], t.be[i], t.ds[i])
  }

  ghost predicate PairOk(q: Quad, t: Trace, i: nat, j: nat)
    requires Shape(q, t) && i < |t.rs| && j < |t.rs|
  {
    && Dot(t.rs[j], t.rs[i]) == 0.0
    && Dot(t.rs[j], t.ds[i]) == 0.0
    && Dot(t.ds[j], HessVec(q, t.ds[i])) == 0.0
  }

  ghost predicate Conjugate(q: Quad, t: Trace) {
    && Shape(q, t)
    && (forall i :: 0 <= i < |t.al| ==> StepOk(q, t, i))
    && (forall i, j :: 0 <= i < j < |t.rs| ==> PairOk(q, t, i, j))
    && (forall i :: 0 <= i < |t.rs| ==> Dot(t.rs[i], t.ds[i]) == Dot(t.rs[i], t.rs[i]))
  }

  ghost function Last<T>(s: seq<T>): T
    requires |s| > 0
  {
    s[|s| - 1]
  }

  ghost function Start(r: Vec): Trace {
    Trace([r], [r], [], [])
  }

  /** A direction whose residual is not zero has positive curvature. */
  lemma PositiveCurvature(q: Quad, r: Vec, d: Vec)
    requires Valid(q) && |r| == |d| == q.n
    requires Dot(r, d) == Dot(r, r) > 0.0
    ensures Dot(d, d) > 0.0 && Dot(d, HessVec(q, d)) > 0.0
  {
    hide LinAlg.DotTo;
    SquareNonNeg(d);
    HessBounds(q, d);
    if Dot(d, d) == 0.0 {
      DotZero(r);
    }
  }

  /** The scalars and vectors of one more iteration. */
  ghost function Alpha(q: Quad, r: Vec, d: Vec): real
    requires Valid(q) && |r| == |d| == q.n && Dot(d, HessVec(q, d)) > 0.0
  {
    Dot(r, r) / Dot(d, HessVec(q, d))
  }

  ghost function Extend(q: Quad, t: Trace): (t': Trace)
    requires Shape(q, t)
    requires Dot(Last(t.rs), Last(t.rs)) > 0.0 && Dot(Last(t.ds), HessVec(q, Last(t.ds))) > 0.0
    ensures Shape(q, t')
  {
    var r, d := Last(t.rs), Last(t.ds);
    var a := Alpha(q, r, d);
    var r' := Axpy(r, -a, HessVec(q, d));
    var b := Dot(r', r') / Dot(r, r);
    Trace(t.ds + [Axpy(r', b, d)], t.rs + [r'], t.al + [a], t.be + [b])
  }

  lemma NewResidualVsDirection(q: Quad, t: Trace, r': Vec, i: nat)
    requires Conjugate(q, t) && i < |t.ds|
    requires Dot(Last(t.ds), HessVec(q, Last(t.ds))) > 0.0
    requires r' == Axpy(Last(t.rs), -Alpha(q, Last(t.rs), Last(t.ds)), HessVec(q, Last(t.ds)))
    ensures Dot(r', t.ds[i]) == 0.0
  {
    hide LinAlg.DotTo;
    var r, d := Last(t.rs), Last(t.ds);
    var a := Alpha(q, r, d);
    DotAxpy(r, -a, HessVec(q, d), t.ds[i]);
    HessSymmetric(q, d, t.ds[i]);
    if i < |t.ds| - 1 {
      assert PairOk(q, t, i, |t.ds| - 1);
    } else {
      DotSym(d, HessVec(q, d));
      assert a * Dot(d, HessVec(q, d)) == Dot(r, r);
    }
  }

  lemma NewResidualVsResidual(q: Quad, t: Trace, r': Vec, i: nat)
    requires Conjugate(q, t) && i < |t.ds|
    requires |r'| == q.n && forall j :: 0 <= j < |t.ds| ==> Dot(r', t.ds[j]) == 0.0
    ensures Dot(r', t.rs[i]) == 0.0
  {
    hide LinAlg.DotTo;
    if i > 0 {
      assert StepOk(q, t, i - 1);
      DotAxpyR(r', t.rs[i], t.be[i - 1], t.ds[i - 1]);
    }
  }

  /** r'.Hd for an older direction d: H d is a difference of two old residuals. */
  lemma NewResidualVsOldImage(r': Vec, r0: Vec, r1: Vec, a: real, h: Vec)
    requires |r'| == |r0| == |h| && a > 0.0 && r1 == Axpy(r0, -a, h)
    requires Dot(r', r0) == 0.0 && Dot(r', r1) == 0.0
    ensures Dot(r', h) == 0.0
  {
    hide LinAlg.DotTo;
    DotAxpyR(r', r0, -a, h);
    assert a * Dot(r', h) == 0.0;
  }

  lemma NewDirectionVsDirection(q: Quad, t: Trace, r': Vec, b: real, i: nat)
    requires Conjugate(q, t) && i < |t.ds|
    requires Dot(Last(t.rs), Last(t.rs)) > 0.0 && Dot(Last(t.ds), HessVec(q, Last(t.ds))) > 0.0
    requires r' == Axpy(Last(t.rs), -Alpha(q, Last(t.rs), Last(t.ds)), HessVec(q, Last(t.ds)))
    requires b == Dot(r', r') / Dot(Last(t.rs), Last(t.rs))
    requires forall j :: 0 <= j < |t.ds| ==> Dot(r', t.rs[j]) == 0.0
    ensures Dot(Axpy(r', b, Last(t.ds)), HessVec(q, t.ds[i])) == 0.0
  {
    hide LinAlg.DotTo;
    var d, h := Last(t.ds), HessVec(q, t.ds[i]);
    DotAxpy(r', b, d, h);
    if i < |t.ds| - 1 {
      assert PairOk(q, t, i, |t.ds| - 1);
      assert StepOk(q, t, i);
      NewResidualVsOldImage(r', t.rs[i], t.rs[i + 1], t.al[i], h);
    } else {
      var r := Last(t.rs);
      NewestImage(r, d, h, r', Alpha(q, r, d), b);
    }
  }

  lemma NewestImage(r: Vec, d: Vec, h: Vec, r': Vec, a: real, b: real)
    requires |r| == |d| == |h| == |r'| && Dot(r, r) > 0.0 && Dot(d, h) > 0.0
    requires a == Dot(r, r) / Dot(d, h) && r' == Axpy(r, -a, h) && Dot(r', r) == 0.0
    requires b == Dot(r', r') / Dot(r, r)
    ensures Dot(r', h) + b * Dot(d, h) == 0.0
  {
    hide LinAlg.DotTo;
    DotAxpyR(r', r, -a, h);
    CancelConjugate(a, Dot(r, r), Dot(d, h), Dot(r', r'), Dot(r', h), b);
  }

  lemma CancelConjugate(a: real, rr: real, dh: real, nn: real, nh: real, b: real)
    requires rr > 0.0 && dh > 0.0 && a == rr / dh && b == nn / rr && nn == -a * nh
    ensures nh + b * dh == 0.0
  {
    assert a * dh == rr;
    assert b * rr == nn;
    assert a * (nh + b * dh) == a * nh + b * (a * dh);
    assert a > 0.0;
  }

  /** One iteration of the loop keeps every orthogonality relation. */
  lemma ExtendConjugate(q: Quad, t: Trace)
    requires Conjugate(q, t)
    requires Dot(Last(t.rs), Last(t.rs)) > 0.0 && Dot(Last(t.ds), HessVec(q, Last(t.ds))) > 0.0
    ensures Conjugate(q, Extend(q, t))
  {
    hide LinAlg.DotTo;
    var r, d, t' := Last(t.rs), Last(t.ds), Extend(q, t);
    var k := |t.rs|;
    var a := Alpha(q, r, d);
    var r' := Axpy(r, -a, HessVec(q, d));
    var b := Dot(r', r') / Dot(r, r);
    assert a > 0.0;
    forall i | 0 <= i < k ensures Dot(r', t.ds[i]) == 0.0 { NewResidualVsDirection(q, t, r', i); }
    forall i | 0 <= i < k ensures Dot(r', t.rs[i]) == 0.0 { NewResidualVsResidual(q, t, r', i); }
    forall i, j | 0 <= i < j < |t'.rs| ensures PairOk(q, t', i, j) {
      if j == k {
        NewDirectionVsDirection(q, t, r', b, i);
      } else {
        assert PairOk(q, t, i, j);
      }
    }
    forall i | 0 <= i < |t'.al| ensures StepOk(q, t', i) {
      if i < k - 1 { assert StepOk(q, t, i); }
    }
    DotAxpyR(r', r', b, d);
    assert Dot(r', d) == 0.0;
  }

  // ------------------------------------------------------- termination

  /** Residuals of norm > 0, mutually orthogonal. */
  ghost predicate Orthogonal(vs: seq<Vec>, n: nat) {
    && (forall i :: 0 <= i < |vs| ==> |vs[i]| == n)
    && (forall i :: 0 <= i < |vs| ==> Dot(vs[i], vs[i]) > 0.0)
    && (forall i, j :: 0 <= i < j < |vs| ==> Dot(vs[j], vs[i]) == 0.0)
  }

  /** (v.e)^2 / |v|^2, the part of |e|^2 that lies along v. */
  ghost function Share(v: Vec, e: Vec): real
    requires |v| == |e| && Dot(v, v) > 0.0
  {
    Dot(v, e) * Dot(v, e) / Dot(v, v)
  }

  ghost function ShareTo(vs: seq<Vec>, n: nat, e: Vec, k: nat): real
    requires Orthogonal(vs, n) && |e| == n && k <= |vs|
  {
    if k == 0 then 0.0 else ShareTo(vs, n, e, k - 1) + Share(vs[k - 1], e)
  }

  /** What is left of e once its parts along the first k vectors are removed. */
  ghost function Rest(vs: seq<Vec>, n: nat, e: Vec, k: nat): (r: Vec)
    requires Orthogonal(vs, n) && |e| == n && k <= |vs|
    ensures |r| == n
  {
    if k == 0 then e else
      Axpy(Rest(vs, n, e, k - 1), -Dot(vs[k - 1], e) / Dot(vs[k - 1], vs[k - 1]), vs[k - 1])
  }

  /** Taking off k shares leaves the products with the other vectors, and that much of the square. */
  ghost predicate RestIs(vs: seq<Vec>, n: nat, e: Vec, k: nat) {
    && Orthogonal(vs, n) && |e| == n && k <= |vs|
    && (forall j :: k <= j < |vs| ==> Dot(vs[j], Rest(vs, n, e, k)) == Dot(vs[j], e))
    && Dot(Rest(vs, n, e, k), Rest(vs, n, e, k)) == Dot(e, e) - ShareTo(vs, n, e, k)
  }

  lemma {:induction false} RestDots(vs: seq<Vec>, n: nat, e: Vec, k: nat)
    requires Orthogonal(vs, n) && |e| == n && k <= |vs|
    ensures RestIs(vs, n, e, k)
  {
    if k > 0 {
      hide *;
      RestDots(vs, n, e, k - 1);
      RestStep(vs, n, e, k - 1);
    } else {
      hide LinAlg.Dot;
    }
  }

  lemma RestStep(vs: seq<Vec>, n: nat, e: Vec, k: nat)
    requires RestIs(vs, n, e, k) && k < |vs|
    ensures RestIs(vs, n, e, k + 1)
  {
    hide LinAlg.Dot, LinAlg.Axpy, Share, Rest, ShareTo;
    var v, p := vs[k], Rest(vs, n, e, k);
    var c := -Dot(v, e) / Dot(v, v);
    RestNext(vs, n, e, k, c);
    var r := Rest(vs, n, e, k + 1);
    forall j | k + 1 <= j < |vs| ensures Dot(vs[j], r) == Dot(vs[j], e) {
      DotAxpyR(vs[j], p, c, v);
      NothingAdded(Dot(vs[j], r), Dot(vs[j], p), c, Dot(vs[j], v));
    }
    SquareAxpy(p, c, v);
    DotSym(p, v);
    ShareLeft(Dot(p, p), Dot(p, v), Dot(v, e), Dot(v, v), c, Dot(e, e), ShareTo(vs, n, e, k), Dot(r, r));
  }

  lemma RestNext(vs: seq<Vec>, n: nat, e: Vec, k: nat, c: real)
    requires Orthogonal(vs, n) && |e| == n && k < |vs| && c == -Dot(vs[k], e) / Dot(vs[k], vs[k])
    ensures Rest(vs, n, e, k + 1) == Axpy(Rest(vs, n, e, k), c, vs[k])
    ensures ShareTo(vs, n, e, k + 1) == ShareTo(vs, n, e, k) + Dot(vs[k], e) * Dot(vs[k], e) / Dot(vs[k], vs[k])
  {
    hide LinAlg.Dot, LinAlg.Axpy;
  }

  lemma NothingAdded(y: real, x: real, c: real, d: real)
    requires y == x + c * d && d == 0.0
    ensures y == x
  {
  }

  lemma ShareLeft(pp: real, pv: real, ve: real, vv: real, c: real, ee: real, share: real, rr: real)
    requires vv > 0.0 && c == -ve / vv && pv == ve && pp == ee - share && rr == pp + 2.0 * c * pv + c * c * vv
    ensures rr == ee - (share + ve * ve / vv)
  {
    ShareIdentity(ve, vv, c);
  }

  lemma ShareIdentity(ve: real, vv: real, c: real)
    requires vv > 0.0 && c == -ve / vv
    ensures 2.0 * c * ve + c * c * vv == -(ve * ve / vv)
  {
    assert c * vv == -ve;
    assert ve * ve / vv == -c * ve by { assert -c * ve * vv == ve * ve; }
    assert c * c * vv == c * (c * vv);
  }

  /** Bessel's inequality. */
  lemma Bessel(vs: seq<Vec>, n: nat, e: Vec)
    requires Orthogonal(vs, n) && |e| == n
    ensures ShareTo(vs, n, e, |vs|) <= Dot(e, e)
  {
    RestDots(vs, n, e, |vs|);
    SquareNonNeg(Rest(vs, n, e, |vs|));
  }

  ghost function Unit(n: nat, j: nat): (e: Vec)
    requires j < n
    ensures |e| == n
  {
    Zeros(n)[j := 1.0]
  }

  lemma {:induction false} UnitDotTo(v: Vec, j: nat, k: nat)
    requires j < |v| && k <= |v|
    ensures DotTo(v, Unit(|v|, j), k) == if j < k then v[j] else 0.0
  {
    if k > 0 { UnitDotTo(v, j, k - 1); }
  }

  /** Sum over the first m unit vectors of the shares of the first k vectors. */
  ghost function ShareSum(vs: seq<Vec>, n: nat, m: nat, k: nat): real
    requires Orthogonal(vs, n) && m <= n && k <= |vs|
  {
    if m == 0 then 0.0 else ShareSum(vs, n, m - 1, k) + ShareTo(vs, n, Unit(n, m - 1), k)
  }

  lemma {:induction false} ShareSumBound(vs: seq<Vec>, n: nat, m: nat)
    requires Orthogonal(vs, n) && m <= n
    ensures ShareSum(vs, n, m, |vs|) <= m as real
  {
    if m > 0 {
      ShareSumBound(vs, n, m - 1);
      Bessel(vs, n, Unit(n, m - 1));
      UnitDotTo(Unit(n, m - 1), m - 1, n);
    }
  }

  /** The other order of summation: each vector's shares add up to a part of 1. */
  lemma {:induction false} ShareSumStep(vs: seq<Vec>, n: nat, m: nat, k: nat)
    requires Orthogonal(vs, n) && m <= n && 0 < k <= |vs|
    ensures ShareSum(vs, n, m, k) == ShareSum(vs, n, m, k - 1)
        + DotTo(vs[k - 1], vs[k - 1], m) / Dot(vs[k - 1], vs[k - 1])
  {
    hide LinAlg.DotTo, Share;
    var v := vs[k - 1];
    if m == 0 {
      DotToNothing(v);
    } else {
      ShareSumStep(vs, n, m - 1, k);
      UnitShare(v, m - 1);
      DotToStep(v, m - 1);
      AddFractions(DotTo(v, v, m - 1), v[m - 1] * v[m - 1], Dot(v, v));
    }
  }

  lemma DotToNothing(v: Vec)
    requires Dot(v, v) > 0.0
    ensures DotTo(v, v, 0) / Dot(v, v) == 0.0
  {
  }

  lemma DotToStep(v: Vec, m: nat)
    requires m < |v|
    ensures DotTo(v, v, m + 1) == DotTo(v, v, m) + v[m] * v[m]
  {
  }

  lemma UnitShare(v: Vec, j: nat)
    requires j < |v| && Dot(v, v) > 0.0
    ensures Share(v, Unit(|v|, j)) == v[j] * v[j] / Dot(v, v)
  {
    hide LinAlg.DotTo;
    UnitDotTo(v, j, |v|);
  }

  lemma AddFractions(a: real, b: real, c: real)
    requires c > 0.0
    ensures a / c + b / c == (a + b) / c
  {
  }

  lemma {:induction false} ShareSumIsCount(vs: seq<Vec>, n: nat, k: nat)
    requires Orthogonal(vs, n) && k <= |vs|
    ensures ShareSum(vs, n, n, k) == k as real
  {
    if k == 0 {
      ShareSumEmpty(vs, n, n);
    } else {
      ShareSumIsCount(vs, n, k - 1);
      ShareSumStep(vs, n, n, k);
      assert Dot(vs[k - 1], vs[k - 1]) / Dot(vs[k - 1], vs[k - 1]) == 1.0;
    }
  }

  lemma {:induction false} ShareSumEmpty(vs: seq<Vec>, n: nat, m: nat)
    requires Orthogonal(vs, n) && m <= n
    ensures ShareSum(vs, n, m, 0) == 0.0
  {
    if m > 0 { ShareSumEmpty(vs, n, m - 1); }
  }

  /** No more than n non-zero vectors of length n can be mutually orthogonal. */
  lemma AtMostDimension(vs: seq<Vec>, n: nat)
    requires Orthogonal(vs, n)
    ensures |vs| <= n
  {
    ShareSumIsCount(vs, n, |vs|);
    ShareSumBound(vs, n, n);
  }

  /** So a run whose residual is still not zero has made fewer than n iterations. */
  lemma FewIterations(q: Quad, t: Trace)
    requires Conjugate(q, t) && Dot(Last(t.rs), Last(t.rs)) > 0.0
    ensures |t.al| < q.n
  {
    hide LinAlg.DotTo;
    forall i | 0 <= i < |t.rs| ensures Dot(t.rs[i], t.rs[i]) > 0.0 {
      if i < |t.al| { assert StepOk(q, t, i); }
    }
    forall i, j | 0 <= i < j < |t.rs| ensures Dot(t.rs[j], t.rs[i]) == 0.0 {
      assert PairOk(q, t, i, j);
    }
    AtMostDimension(t.rs, q.n);
  }
}
