/**
 The matrices TRON works with: H = I + 2 sum_i c_i x_i x_i', with c_i >= 0.
 They are never formed; `HessVec` is the product H*s.
 */
module Hessian {
  import opened LinAlg

  datatype Quad = Quad(n: nat, X: seq<Vec>, c: Vec)

  ghost predicate Valid(q: Quad) {
    && |q.X| == |q.c|
    && (forall i :: 0 <= i < |q.X| ==> |q.X[i]| == q.n)
    && (forall i :: 0 <= i < |q.c| ==> q.c[i] >= 0.0)
  }

  ghost function WeightedDots(q: Quad, s: Vec): (r: Vec)
    requires Valid(q) && |s| == q.n
    ensures |r| == |q.X|
    ensures forall i :: 0 <= i < |q.X| ==> r[i] == q.c[i] * Dot(q.X[i], s)
  {
    seq(|q.X|, i requires 0 <= i < |q.X| => q.c[i] * Dot(q.X[i], s))
  }

  ghost function HessVec(q: Quad, s: Vec): (r: Vec)
    requires Valid(q) && |s| == q.n
    ensures |r| == q.n
  {
    Axpy(s, 2.0, Comb(WeightedDots(q, s), q.X, q.n, |q.X|))
  }

  /** sum_{i<k} c_i (x_i.u)(x_i.v) */
  ghost function GramTo(q: Quad, u: Vec, v: Vec, k: nat): real
    requires Valid(q) && |u| == |v| == q.n && k <= |q.X|
  {
    if k == 0 then 0.0 else GramTo(q, u, v, k - 1) + q.c[k - 1] * Dot(q.X[k - 1], u) * Dot(q.X[k - 1], v)
  }

  lemma {:induction false} GramSym(q: Quad, u: Vec, v: Vec, k: nat)
    requires Valid(q) && |u| == |v| == q.n && k <= |q.X|
    ensures GramTo(q, u, v, k) == GramTo(q, v, u, k)
  {
    if k > 0 {
      GramSym(q, u, v, k - 1);
      var c, a, b := q.c[k - 1], Dot(q.X[k - 1], u), Dot(q.X[k - 1], v);
      assert c * a * b == c * b * a;
    }
  }

  lemma {:induction false} GramIsDot(q: Quad, u: Vec, v: Vec, k: nat)
    requires Valid(q) && |u| == |v| == q.n && k <= |q.X|
    ensures Dot(Comb(WeightedDots(q, u), q.X, q.n, k), v) == GramTo(q, u, v, k)
  {
    hide LinAlg.DotTo;
    if k == 0 {
      DotZero(v);
    } else {
      GramIsDot(q, u, v, k - 1);
      DotAxpy(Comb(WeightedDots(q, u), q.X, q.n, k - 1), WeightedDots(q, u)[k - 1], q.X[k - 1], v);
    }
  }

  lemma HessDot(q: Quad, u: Vec, v: Vec)
    requires Valid(q) && |u| == |v| == q.n
    ensures Dot(HessVec(q, u), v) == Dot(u, v) + 2.0 * GramTo(q, u, v, |q.X|)
  {
    hide LinAlg.Dot, LinAlg.Axpy, LinAlg.Comb, GramTo, WeightedDots;
    var r := Comb(WeightedDots(q, u), q.X, q.n, |q.X|);
    GramIsDot(q, u, v, |q.X|);
    DotAxpy(u, 2.0, r, v);
    assert HessVec(q, u) == Axpy(u, 2.0, r);
  }

  /** H is symmetric. */
  lemma HessSymmetric(q: Quad, u: Vec, v: Vec)
    requires Valid(q) && |u| == |v| == q.n
    ensures Dot(HessVec(q, u), v) == Dot(HessVec(q, v), u) == Dot(u, HessVec(q, v))
  {
    hide LinAlg.DotTo;
    HessDot(q, u, v);
    HessDot(q, v, u);
    GramSym(q, u, v, |q.X|);
    DotSym(u, v);
    DotSym(u, HessVec(q, v));
  }

  /** sum_i c_i |x_i|^2: twice this plus one bounds the eigenvalues of H. */
  ghost function TraceTo(q: Quad, k: nat): real
    requires Valid(q) && k <= |q.X|
  {
    if k == 0 then 0.0 else TraceTo(q, k - 1) + q.c[k - 1] * Dot(q.X[k - 1], q.X[k - 1])
  }

  lemma {:induction false} TraceNonNeg(q: Quad, k: nat)
    requires Valid(q) && k <= |q.X|
    ensures TraceTo(q, k) >= 0.0
  {
    if k > 0 {
      TraceNonNeg(q, k - 1);
      SquareNonNeg(q.X[k - 1]);
      var p := Product(q.c[k - 1], Dot(q.X[k - 1], q.X[k - 1]));
    }
  }

  ghost function Bound(q: Quad): (b: real)
    requires Valid(q)
    ensures b >= 1.0
  {
    TraceNonNeg(q, |q.X|);
    1.0 + 2.0 * TraceTo(q, |q.X|)
  }

  lemma GramTerm(c: real, a: real, xx: real, uu: real, tr: real)
    requires c >= 0.0 && a * a <= xx * uu
    ensures 0.0 <= c * a * a <= c * xx * uu
    ensures (tr + c * xx) * uu == tr * uu + c * xx * uu
  {
    var y := Square(a);
    assert c * a * a == c * y;
    var p := Product(c, y);
    var p' := Product(c, xx * uu - y);
    assert c * (xx * uu - y) == c * xx * uu - c * y;
  }

  lemma {:induction false} GramBounds(q: Quad, u: Vec, k: nat)
    requires Valid(q) && |u| == q.n && k <= |q.X|
    ensures 0.0 <= GramTo(q, u, u, k) <= TraceTo(q, k) * Dot(u, u)
  {
    hide LinAlg.DotTo;
    if k > 0 {
      GramBounds(q, u, k - 1);
      var c, x, a := q.c[k - 1], q.X[k - 1], Dot(q.X[k - 1], u);
      CauchySchwarz(x, u);
      GramTerm(c, a, Dot(x, x), Dot(u, u), TraceTo(q, k - 1));
    } else {
      assert TraceTo(q, k) * Dot(u, u) == 0.0;
    }
  }

  /** H is positive definite, |u|^2 <= u'Hu, with u'Hu <= Bound * |u|^2. */
  lemma HessBounds(q: Quad, u: Vec)
    requires Valid(q) && |u| == q.n
    ensures Dot(u, u) <= Dot(u, HessVec(q, u)) <= Bound(q) * Dot(u, u)
  {
    hide LinAlg.DotTo;
    HessDot(q, u, u);
    DotSym(u, HessVec(q, u));
    GramBounds(q, u, |q.X|);
    assert Bound(q) * Dot(u, u) == Dot(u, u) + 2.0 * (TraceTo(q, |q.X|) * Dot(u, u));
  }

  lemma {:induction false} CombLinear(a: Vec, t: real, b: Vec, c: Vec, X: seq<Vec>, n: nat, k: nat)
    requires |a| == |b| == |c| && k <= |c| && k <= |X|
    requires forall i :: 0 <= i < |X| ==> |X[i]| == n
    requires forall i :: 0 <= i < |c| ==> c[i] == a[i] + t * b[i]
    ensures Comb(c, X, n, k) == Axpy(Comb(a, X, n, k), t, Comb(b, X, n, k))
  {
    if k == 0 {
      ZerosAxpy(n, t);
    } else {
      hide LinAlg.Axpy, LinAlg.DotTo;
      CombLinear(a, t, b, c, X, n, k - 1);
      AxpyLinear(Comb(a, X, n, k - 1), Comb(b, X, n, k - 1), X[k - 1], a[k - 1], b[k - 1], t, c[k - 1]);
    }
  }

  lemma ZerosAxpy(n: nat, t: real)
    ensures Axpy(Zeros(n), t, Zeros(n)) == Zeros(n)
  {
    assert forall j :: 0 <= j < n ==> Axpy(Zeros(n), t, Zeros(n))[j] == Zeros(n)[j];
  }

  /** H is linear. */
  lemma HessLinear(q: Quad, u: Vec, t: real, v: Vec)
    requires Valid(q) && |u| == |v| == q.n
    ensures HessVec(q, Axpy(u, t, v)) == Axpy(HessVec(q, u), t, HessVec(q, v))
  {
    hide LinAlg.Dot, LinAlg.Axpy, LinAlg.Comb, WeightedDots;
    var w, m := Axpy(u, t, v), |q.X|;
    forall i | 0 <= i < m ensures WeightedDots(q, w)[i] == WeightedDots(q, u)[i] + t * WeightedDots(q, v)[i] {
      DotAxpyR(q.X[i], u, t, v);
      Scaled(q.c[i], Dot(q.X[i], u), Dot(q.X[i], v), t, Dot(q.X[i], w));
    }
    CombLinear(WeightedDots(q, u), t, WeightedDots(q, v), WeightedDots(q, w), q.X, q.n, m);
    AxpyExchange(u, v, Comb(WeightedDots(q, u), q.X, q.n, m), Comb(WeightedDots(q, v), q.X, q.n, m), 2.0, t);
  }

  lemma Scaled(c: real, a: real, b: real, t: real, d: real)
    requires d == a + t * b
    ensures c * d == c * a + t * (c * b)
  {
  }

  lemma HessZero(q: Quad)
    requires Valid(q)
    ensures HessVec(q, Zeros(q.n)) == Zeros(q.n)
  {
    forall i | 0 <= i < |q.X| ensures WeightedDots(q, Zeros(q.n))[i] == 0.0 {
      DotZero(q.X[i]);
    }
    CombZero(WeightedDots(q, Zeros(q.n)), q.X, q.n, |q.X|);
    assert HessVec(q, Zeros(q.n)) == Zeros(q.n);
  }
}
