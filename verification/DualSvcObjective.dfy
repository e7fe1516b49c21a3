/**
 The dual problem of solve_l2r_l1l2_svc,
   min  0.5 a'(Q + D)a - e'a   subject to  0 <= a_i <= U_i ,
 with Q_ij = y_i y_j x_i.x_j, and what one coordinate step does to it.
 */
module DualSvcObjective {
  import opened LinAlg
  import opened Sparse
  import opened ExtReal

  /** The data of one run: y in {+1,-1}, the diagonal D and the upper bounds U. */
  datatype Setup = Setup(p: Problem, y: Vec, diag: Vec, upper: seq<Ext>)

  ghost predicate Valid(s: Setup) {
    && ValidProblem(s.p)
    && |s.y| == |s.diag| == |s.upper| == |s.p.x|
    && (forall i :: 0 <= i < |s.y| ==> s.y[i] == 1.0 || s.y[i] == -1.0)
    && (forall i :: 0 <= i < |s.y| ==> s.diag[i] >= 0.0)
    && (forall i :: 0 <= i < |s.y| ==> s.upper[i].PosInf? || (s.upper[i].Fin? && s.upper[i].r > 0.0))
    && (forall i :: 0 <= i < |s.y| ==> s.diag[i] > 0.0 || s.upper[i].Fin?)
  }

  /** y_i * a_i */
  ghost function Signed(s: Setup, a: Vec): (c: Vec)
    requires |a| == |s.y|
    ensures |c| == |a|
    ensures forall i :: 0 <= i < |a| ==> c[i] == s.y[i] * a[i]
  {
    seq(|a|, i requires 0 <= i < |a| => s.y[i] * a[i])
  }

  /** The primal vector  w = sum_i y_i a_i x_i . */
  ghost function Primal(s: Setup, a: Vec): (w: Vec)
    requires Valid(s) && |a| == |s.y|
    ensures |w| == s.p.n
  {
    Comb(Signed(s, a), X(s.p), s.p.n, |a|)
  }

  /** sum_{i<k} 0.5 D_i a_i^2 - a_i */
  ghost function SeparableTo(s: Setup, a: Vec, k: nat): real
    requires |a| == |s.diag| && k <= |a|
  {
    if k == 0 then 0.0 else SeparableTo(s, a, k - 1) + Separable(s.diag[k - 1], a[k - 1])
  }

  ghost function Separable(d: real, x: real): real {
    0.5 * (d * (x * x)) - x
  }

  /** The dual objective, written with w. */
  ghost function Objective(s: Setup, a: Vec): real
    requires Valid(s) && |a| == |s.y|
  {
    0.5 * Dot(Primal(s, a), Primal(s, a)) + SeparableTo(s, a, |a|)
  }

  /** The dual objective as the header comment states it: a double sum over Q plus the diagonal. */
  ghost function DualByMatrix(s: Setup, a: Vec): real
    requires Valid(s) && |a| == |s.y|
  {
    0.5 * QuadSumTo(s, a, |a|, |a|) + SeparableTo(s, a, |a|)
  }

  /** Q_ij = y_i y_j x_i.x_j */
  ghost function Q(s: Setup, i: nat, j: nat): real
    requires Valid(s) && i < |s.y| && j < |s.y|
  {
    s.y[i] * s.y[j] * Dot(X(s.p)[i], X(s.p)[j])
  }

  ghost function QuadRowTo(s: Setup, a: Vec, i: nat, k: nat): real
    requires Valid(s) && |a| == |s.y| && i < |a| && k <= |a|
  {
    if k == 0 then 0.0 else QuadRowTo(s, a, i, k - 1) + a[i] * a[k - 1] * Q(s, i, k - 1)
  }

  ghost function QuadSumTo(s: Setup, a: Vec, m: nat, k: nat): real
    requires Valid(s) && |a| == |s.y| && m <= |a| && k <= |a|
  {
    if m == 0 then 0.0 else QuadSumTo(s, a, m - 1, k) + QuadRowTo(s, a, m - 1, k)
  }

  lemma {:induction false} QuadRowIsRowSum(s: Setup, a: Vec, i: nat, k: nat)
    requires Valid(s) && |a| == |s.y| && i < |a| && k <= |a|
    ensures QuadRowTo(s, a, i, k) == Signed(s, a)[i] * RowSum(Signed(s, a), X(s.p), s.p.n, X(s.p)[i], k)
  {
    hide LinAlg.Dot, Sparse.X, Sparse.Dense, Signed;
    if k > 0 {
      QuadRowIsRowSum(s, a, i, k - 1);
      var c, xs := Signed(s, a), X(s.p);
      DotSym(xs[k - 1], xs[i]);
      QuadTerm(a[i], a[k - 1], s.y[i], s.y[k - 1], Dot(xs[i], xs[k - 1]), RowSum(c, xs, s.p.n, xs[i], k - 1));
    }
  }

  lemma QuadTerm(ai: real, aj: real, yi: real, yj: real, d: real, r: real)
    ensures (yi * ai) * r + ai * aj * (yi * yj * d) == (yi * ai) * (r + (yj * aj) * d)
  {
    assert ai * aj * (yi * yj * d) == (yi * ai) * ((yj * aj) * d);
  }

  lemma {:induction false} QuadSumIsDoubleSum(s: Setup, a: Vec, m: nat, k: nat)
    requires Valid(s) && |a| == |s.y| && m <= |a| && k <= |a|
    ensures QuadSumTo(s, a, m, k) == DoubleSum(Signed(s, a), X(s.p), s.p.n, m, k)
  {
    hide LinAlg.Dot, Sparse.X, QuadRowTo, LinAlg.RowSum;
    if m > 0 {
      QuadSumIsDoubleSum(s, a, m - 1, k);
      QuadRowIsRowSum(s, a, m - 1, k);
    }
  }

  /** Both forms of the objective agree. */
  lemma MatrixForm(s: Setup, a: Vec)
    requires Valid(s) && |a| == |s.y|
    ensures DualByMatrix(s, a) == Objective(s, a)
  {
    hide LinAlg.Dot, Sparse.X, QuadSumTo, LinAlg.DoubleSum;
    QuadSumIsDoubleSum(s, a, |a|, |a|);
    DoubleSumIsSquare(Signed(s, a), X(s.p), s.p.n, |a|, |a|);
  }

  // ---------------------------------------------------------- one coordinate

  /** The partial derivative in coordinate i. */
  ghost function Partial(s: Setup, a: Vec, i: nat): real
    requires Valid(s) && |a| == |s.y| && i < |a|
  {
    Dot(X(s.p)[i], Primal(s, a)) * s.y[i] - 1.0 + a[i] * s.diag[i]
  }

  /** QD[i] = |x_i|^2 + D_ii */
  ghost function Curvature(s: Setup, i: nat): real
    requires Valid(s) && i < |s.y|
  {
    s.diag[i] + Dot(X(s.p)[i], X(s.p)[i])
  }

  lemma PrimalMoves(s: Setup, a: Vec, i: nat, x: real)
    requires Valid(s) && |a| == |s.y| && i < |a|
    ensures Primal(s, a[i := x]) == Axpy(Primal(s, a), (x - a[i]) * s.y[i], X(s.p)[i])
  {
    hide LinAlg.Comb, Sparse.X;
    var c, d := Signed(s, a), (x - a[i]) * s.y[i];
    var c' := Signed(s, a[i := x]);
    forall j | 0 <= j < |a| ensures c'[j] == c[i := c[i] + d][j] {
      if j == i { assert s.y[i] * x == s.y[i] * a[i] + (x - a[i]) * s.y[i]; }
    }
    assert c' == c[i := c[i] + d];
    CombUpdate(c, X(s.p), s.p.n, |a|, i, d);
  }

  lemma {:induction false} SeparableMoves(s: Setup, a: Vec, i: nat, x: real, k: nat)
    requires |a| == |s.diag| && i < |a| && k <= |a|
    ensures SeparableTo(s, a[i := x], k) ==
            SeparableTo(s, a, k) + (if i < k then Separable(s.diag[i], x) - Separable(s.diag[i], a[i]) else 0.0)
  {
    hide Separable;
    if k > 0 { SeparableMoves(s, a, i, x, k - 1); }
  }

  /** Along one coordinate the objective is a parabola with slope `Partial` and curvature `Curvature`. */
  lemma AlongCoordinate(s: Setup, a: Vec, i: nat, x: real)
    requires Valid(s) && |a| == |s.y| && i < |a|
    ensures var d := x - a[i];
            Objective(s, a[i := x]) == Objective(s, a) + Partial(s, a, i) * d + 0.5 * (Curvature(s, i) * (d * d))
  {
    hide LinAlg.Dot, Sparse.X, LinAlg.Comb, SeparableTo;
    var w, v, y, d := Primal(s, a), X(s.p)[i], s.y[i], x - a[i];
    PrimalMoves(s, a, i, x);
    SquareAxpy(w, d * y, v);
    SeparableMoves(s, a, i, x, |a|);
    DotSym(v, w);
    Parabola(Dot(w, w), Dot(v, w), Dot(v, v), y, d, s.diag[i], a[i], x);
  }

  lemma Parabola(ww: real, vw: real, vv: real, y: real, d: real, diag: real, a: real, x: real)
    requires (y == 1.0 || y == -1.0) && d == x - a
    ensures 0.5 * (ww + 2.0 * (d * y) * vw + (d * y) * (d * y) * vv) + Separable(diag, x)
         == 0.5 * ww + Separable(diag, a) + (vw * y - 1.0 + a * diag) * d + 0.5 * ((diag + vv) * (d * d))
  {
    assert (d * y) * (d * y) * vv == vv * (d * d);
    assert x == a + d;
    assert diag * (x * x) == diag * (a * a) + 2.0 * (a * diag * d) + diag * (d * d);
    assert (vw * y - 1.0 + a * diag) * d == (d * y) * vw - d + a * diag * d;
    assert (diag + vv) * (d * d) == diag * (d * d) + vv * (d * d);
  }

  /** 0 <= x <= U */
  predicate InBox(x: real, u: Ext) {
    0.0 <= x && AtMost(Fin(x), u)
  }

  /**
   min(max(a - G/QD, 0), U).  When QD is zero, a - G/QD is +INF for a negative
   G and the result is U.
   */
  function Clipped(a: real, G: real, QD: real, u: Ext): (r: real)
    requires QD > 0.0 || (QD == 0.0 && G < 0.0 && u.Fin?)
  {
    if QD > 0.0 then
      var t := Max(a - G / QD, 0.0);
      if Below(u, Fin(t)) then (match u case Fin(b) => b case _ => t) else t
    else u.r
  }

  /** x minimises the objective along coordinate i over its box, with the growth of a parabola around it. */
  ghost predicate CoordinateMinimiser(s: Setup, a: Vec, i: nat, x: real) {
    && Valid(s) && |a| == |s.y| && i < |a| && InBox(x, s.upper[i])
    && forall z :: InBox(z, s.upper[i]) ==>
         Objective(s, a[i := z]) >= Objective(s, a[i := x]) + 0.5 * (Curvature(s, i) * ((z - x) * (z - x)))
  }

  /** The first-order condition at the clipped Newton point. */
  lemma ClippedSlope(a: real, G: real, QD: real, u: Ext, z: real)
    requires QD > 0.0 || (QD == 0.0 && G < 0.0 && u.Fin?)
    requires InBox(z, u) && !u.NegInf? && (u.Fin? ==> u.r >= 0.0)
    ensures var r := Clipped(a, G, QD, u); (G + QD * (r - a)) * (z - r) >= 0.0
  {
    var r := Clipped(a, G, QD, u);
    if QD == 0.0 {
      var p := Product(-G, r - z);
      assert QD * (r - a) == 0.0;
      assert G * (z - r) == -G * (r - z);
    } else {
      var t := a - G / QD;
      assert QD * (a - t) == G;
      assert G + QD * (r - a) == QD * (r - t) by { assert QD * (a - t) + QD * (r - a) == QD * (r - t); }
      if r > t {
        var p := Product(r - t, z - r);
        var q := Product(QD, (r - t) * (z - r));
        assert QD * (r - t) * (z - r) == QD * ((r - t) * (z - r));
      } else if r < t {
        var p := Product(t - r, r - z);
        var q := Product(QD, (t - r) * (r - z));
        assert QD * (r - t) * (z - r) == QD * ((t - r) * (r - z));
      }
    }
  }

  lemma ParabolaGap(G: real, QD: real, a: real, r: real, z: real)
    requires (G + QD * (r - a)) * (z - r) >= 0.0
    ensures G * (z - a) + 0.5 * (QD * ((z - a) * (z - a)))
        >= G * (r - a) + 0.5 * (QD * ((r - a) * (r - a))) + 0.5 * (QD * ((z - r) * (z - r)))
  {
    var d, e := r - a, z - r;
    assert z - a == d + e;
    assert (d + e) * (d + e) == d * d + 2.0 * (d * e) + e * e;
    assert QD * ((d + e) * (d + e)) == QD * (d * d) + 2.0 * (QD * (d * e)) + QD * (e * e);
    assert (G + QD * d) * e == G * e + QD * (d * e);
    assert G * (d + e) == G * d + G * e;
  }

  lemma ClippedInBox(a: real, G: real, QD: real, u: Ext)
    requires QD > 0.0 || (QD == 0.0 && G < 0.0 && u.Fin?)
    requires !u.NegInf? && (u.Fin? ==> u.r >= 0.0)
    ensures InBox(Clipped(a, G, QD, u), u)
  {
  }

  /** The clipped Newton step goes to the minimiser. */
  lemma ClippedMinimises(s: Setup, a: Vec, i: nat)
    requires Valid(s) && |a| == |s.y| && i < |a|
    requires Curvature(s, i) > 0.0 || (Curvature(s, i) == 0.0 && Partial(s, a, i) < 0.0 && s.upper[i].Fin?)
    ensures CoordinateMinimiser(s, a, i, Clipped(a[i], Partial(s, a, i), Curvature(s, i), s.upper[i]))
  {
    hide Objective, Partial, Curvature, Clipped, InBox;
    var G, QD := Partial(s, a, i), Curvature(s, i);
    var r := Clipped(a[i], G, QD, s.upper[i]);
    ClippedInBox(a[i], G, QD, s.upper[i]);
    AlongCoordinate(s, a, i, r);
    forall z | InBox(z, s.upper[i])
      ensures Objective(s, a[i := z]) >= Objective(s, a[i := r]) + 0.5 * (QD * ((z - r) * (z - r)))
    {
      ClippedSlope(a[i], G, QD, s.upper[i], z);
      ParabolaGap(G, QD, a[i], r, z);
      AlongCoordinate(s, a, i, z);
    }
  }

  /**
   A step of the solver: one coordinate moves inside its box and the objective falls by
   0.5*QD*(change)^2 at least.
   */
  ghost predicate Step(s: Setup, a: Vec, b: Vec, i: nat) {
    && Valid(s) && |a| == |b| == |s.y| && i < |a|
    && b == a[i := b[i]] && InBox(b[i], s.upper[i])
    && Objective(s, b) <= Objective(s, a) - 0.5 * (Curvature(s, i) * ((b[i] - a[i]) * (b[i] - a[i])))
  }

  /** Going to the minimiser is such a step. */
  lemma MinimiserIsStep(s: Setup, a: Vec, i: nat, x: real)
    requires CoordinateMinimiser(s, a, i, x) && InBox(a[i], s.upper[i])
    ensures Step(s, a, a[i := x], i)
  {
    hide Objective, Curvature, InBox;
    assert a[i := a[i]] == a;
    assert (a[i] - x) * (a[i] - x) == (x - a[i]) * (x - a[i]);
  }

  /** An all-zero row without diagonal has slope -1: the one case in which QD is zero. */
  lemma ZeroCurvature(s: Setup, a: Vec, i: nat)
    requires Valid(s) && |a| == |s.y| && i < |a|
    ensures Curvature(s, i) >= 0.0
    ensures Curvature(s, i) == 0.0 ==> Partial(s, a, i) == -1.0 && s.upper[i].Fin?
  {
    hide LinAlg.DotTo, Sparse.X, LinAlg.Comb;
    var v := X(s.p)[i];
    SquareNonNeg(v);
    if Curvature(s, i) == 0.0 {
      DotZero(Primal(s, a));
    }
  }
}
