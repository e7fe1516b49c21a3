/**
 What solve_l1r_l2_svc is after: a weight vector without violations is a global
 minimiser of  |w|_1 + sum_i C_i max(0, b_i)^2 , and the other way round.
 */
module L1rOptimal {
  import opened LinAlg
  import opened Sparse
  import opened ExtReal
  import opened CombSquare
  import opened KinkedParabola
  import opened L1rObjective
  import opened L1rL2Svc

  /** C_i max(0, b_i) */
  ghost function Pull(C: Vec, b: Vec): (g: Vec)
    requires |C| == |b|
    ensures |g| == |b| && forall i :: 0 <= i < |b| ==> g[i] == if b[i] > 0.0 then C[i] * b[i] else 0.0
  {
    seq(|b|, i requires 0 <= i < |b| => if b[i] > 0.0 then C[i] * b[i] else 0.0)
  }

  lemma {:induction false} LossAbove(C: Vec, b: Vec, b': Vec, u: Vec, k: nat)
    requires |C| == |b| == |b'| == |u| && k <= |b| && forall i :: 0 <= i < |b| ==> C[i] >= 0.0 && b'[i] == b[i] - u[i]
    ensures LossTo(C, b', k) >= LossTo(C, b, k) - 2.0 * DotTo(u, Pull(C, b), k)
  {
    hide HingeSq;
    if k > 0 {
      LossAbove(C, b, b', u, k - 1);
      HingeLower(C[k - 1], b[k - 1], u[k - 1], b'[k - 1]);
      PullTerm(C[k - 1], b[k - 1], u[k - 1], Pull(C, b)[k - 1]);
    }
  }

  lemma PullTerm(c: real, t: real, u: real, g: real)
    requires g == if t > 0.0 then c * t else 0.0
    ensures u * g == if t > 0.0 then c * t * u else 0.0
  {
  }

  /** The slope along a column is minus its product with the pull. */
  lemma {:induction false} SlopeIsRowDot(C: Vec, b: Vec, x: Row, k: nat)
    requires |C| == |b| && ValidRow(x, |b|) && k <= |x|
    ensures NodeSlope(C, b, x, k) == -RowDotTo(x, Pull(C, b), k)
  {
    if k > 0 {
      SlopeIsRowDot(C, b, x, k - 1);
      var i := x[k - 1].index - 1;
      SlopeTermIs(C[i], b[i], x[k - 1].value, Pull(C, b)[i]);
    }
  }

  lemma SlopeTermIs(c: real, t: real, v: real, g: real)
    requires g == if t > 0.0 then c * t else 0.0
    ensures SlopeTerm(c, t, v) == g * v
  {
    assert c * v * t == c * t * v;
  }

  /** The first-order change of the objective from w to z, over the first k weights. */
  ghost function TiltTo(s: Setup, w: Vec, z: Vec, k: nat): real
    requires Valid(s) && |w| == |z| == |s.cols| && k <= |w|
  {
    if k == 0 then 0.0 else TiltTo(s, w, z, k - 1) + Tilt(Slope(s, w, k - 1), 1.0, w[k - 1], z[k - 1])
  }

  lemma ColumnSlope(s: Setup, w: Vec, j: nat)
    requires Valid(s) && |w| == |s.cols| && j < |w|
    ensures |Residual(s, w)| == |s.C| == s.l && |Columns(s)[j]| == s.l
    ensures Slope(s, w, j) == -2.0 * Dot(Columns(s)[j], Pull(s.C, Residual(s, w)))
  {
    hide LinAlg.Dot, L1rObjective.NodeSlope, L1rObjective.Residual, Pull;
    var b, x := Residual(s, w), s.cols[j];
    SlopeIsRowDot(s.C, b, x, |x|);
    RowDotIsDot(x, Pull(s.C, b), |x|);
  }

  lemma {:induction false} TiltIsSum(s: Setup, w: Vec, z: Vec, V: seq<Vec>, g: Vec, d: Vec, k: nat)
    requires Valid(s) && |w| == |z| == |s.cols| && k <= |w| && V == Columns(s) && d == Difference(w, z)
    requires |s.C| == |Residual(s, w)| && g == Pull(s.C, Residual(s, w)) && |g| == s.l
    ensures TiltTo(s, w, z, k) == L1To(z, k) - L1To(w, k) - 2.0 * RowSum(d, V, s.l, g, k)
  {
    hide LinAlg.Dot, L1rObjective.Residual, Pull, LinAlg.Abs, L1rL2Svc.Slope, KinkedParabola.Tilt;
    hide L1rObjective.Columns, CombSquare.Difference;
    if k > 0 {
      TiltIsSum(s, w, z, V, g, d, k - 1);
      TiltIsStep(s, w, z, V, g, d, k - 1);
    }
  }

  lemma TiltIsStep(s: Setup, w: Vec, z: Vec, V: seq<Vec>, g: Vec, d: Vec, k: nat)
    requires Valid(s) && |w| == |z| == |s.cols| && k < |w| && V == Columns(s) && d == Difference(w, z)
    requires |s.C| == |Residual(s, w)| && g == Pull(s.C, Residual(s, w)) && |g| == s.l
    requires TiltTo(s, w, z, k) == L1To(z, k) - L1To(w, k) - 2.0 * RowSum(d, V, s.l, g, k)
    ensures TiltTo(s, w, z, k + 1) == L1To(z, k + 1) - L1To(w, k + 1) - 2.0 * RowSum(d, V, s.l, g, k + 1)
  {
    hide *;
    TiltTerm(s, w, z, V, g, d, k);
    TiltSteps(s, w, z, V, g, d, k);
    SumStep(TiltTo(s, w, z, k), L1To(z, k), L1To(w, k), RowSum(d, V, s.l, g, k), Abs(z[k]), Abs(w[k]),
            d[k] * Dot(V[k], g));
  }

  lemma TiltSteps(s: Setup, w: Vec, z: Vec, V: seq<Vec>, g: Vec, d: Vec, k: nat)
    requires Valid(s) && |w| == |z| == |d| == |s.cols| && k < |w| && V == Columns(s) && |g| == s.l
    ensures TiltTo(s, w, z, k + 1) == TiltTo(s, w, z, k) + Tilt(Slope(s, w, k), 1.0, w[k], z[k])
    ensures L1To(z, k + 1) == L1To(z, k) + Abs(z[k]) && L1To(w, k + 1) == L1To(w, k) + Abs(w[k])
    ensures RowSum(d, V, s.l, g, k + 1) == RowSum(d, V, s.l, g, k) + d[k] * Dot(V[k], g)
  {
    hide LinAlg.Dot, LinAlg.Abs, L1rL2Svc.Slope, KinkedParabola.Tilt, L1rObjective.Columns;
  }

  lemma SumStep(t: real, a: real, b: real, r: real, x: real, y: real, e: real)
    requires t == a - b - 2.0 * r
    ensures t + (x - y - 2.0 * e) == (a + x) - (b + y) - 2.0 * (r + e)
  {
  }

  lemma TiltTerm(s: Setup, w: Vec, z: Vec, V: seq<Vec>, g: Vec, d: Vec, k: nat)
    requires Valid(s) && |w| == |z| == |s.cols| && k < |w| && V == Columns(s) && d == Difference(w, z)
    requires |s.C| == |Residual(s, w)| && g == Pull(s.C, Residual(s, w)) && |g| == s.l
    ensures Tilt(Slope(s, w, k), 1.0, w[k], z[k]) == Abs(z[k]) - Abs(w[k]) - 2.0 * (d[k] * Dot(V[k], g))
  {
    hide LinAlg.Dot, L1rObjective.Residual, Pull, LinAlg.Abs, L1rL2Svc.Slope, KinkedParabola.Tilt;
    hide L1rObjective.Columns, CombSquare.Difference;
    ColumnSlope(s, w, k);
    assert d[k] == z[k] - w[k];
    TiltIs(Slope(s, w, k), Dot(V[k], g), w[k], z[k], d[k]);
  }

  lemma TiltIs(G: real, q: real, w: real, z: real, d: real)
    requires G == -2.0 * q && d == z - w
    ensures Tilt(G, 1.0, w, z) == Abs(z) - Abs(w) - 2.0 * (d * q)
  {
    hide LinAlg.Abs;
    assert G * (z - w) == -2.0 * (d * q);
  }

  lemma ResidualDifference(s: Setup, w: Vec, z: Vec, u: Vec)
    requires Valid(s) && |w| == |z| == |s.cols| && u == Comb(Difference(w, z), Columns(s), s.l, |w|)
    ensures |u| == s.l && forall i :: 0 <= i < s.l ==> Residual(s, z)[i] == Residual(s, w)[i] - u[i]
  {
    hide LinAlg.Comb;
    CombDifference(w, z, Columns(s), s.l);
  }

  /** The objective lies above its tangent, kinks included. */
  lemma AboveTangent(s: Setup, w: Vec, z: Vec)
    requires Valid(s) && |w| == |z| == |s.cols|
    ensures Objective(s, z) >= Objective(s, w) + TiltTo(s, w, z, |w|)
  {
    hide LinAlg.Comb, LinAlg.DotTo, L1rObjective.Residual, L1rObjective.LossTo, L1rObjective.L1To, TiltTo;
    hide Pull, LinAlg.RowSum, Difference;
    var V, d := Columns(s), Difference(w, z);
    var b, u := Residual(s, w), Comb(d, V, s.l, |w|);
    var g := Pull(s.C, b);
    ResidualDifference(s, w, z, u);
    LossAbove(s.C, b, Residual(s, z), u, s.l);
    RowSumIsDot(d, V, s.l, g, |w|);
    TiltIsSum(s, w, z, V, g, d, |w|);
  }

  lemma ZeroViolationIff(s: Setup, w: Vec, j: nat)
    requires Valid(s) && |w| == |s.cols| && j < |w|
    ensures Violation(s, w, j) == 0.0 <==> Flat(Slope(s, w, j), 1.0, w[j], PosInf)
  {
    hide L1rL2Svc.Slope;
  }

  lemma {:induction false} TiltNonNeg(s: Setup, w: Vec, z: Vec, k: nat)
    requires Valid(s) && |w| == |z| == |s.cols| && k <= |w|
    requires forall j :: 0 <= j < |w| ==> Violation(s, w, j) == 0.0
    ensures TiltTo(s, w, z, k) >= 0.0
  {
    hide L1rL2Svc.Slope, L1rL2Svc.Violation, KinkedParabola.Tilt, KinkedParabola.Flat;
    if k > 0 {
      TiltNonNeg(s, w, z, k - 1);
      ZeroViolationIff(s, w, k - 1);
      FlatTilts(Slope(s, w, k - 1), 1.0, w[k - 1], PosInf, z[k - 1]);
    }
  }

  // --------------------------------------------------------------- the other way

  /** Along one column the objective lies below a parabola with the same tangent. */
  lemma BelowParabola(s: Setup, w: Vec, j: nat, d: real)
    requires Valid(s) && |w| == |s.cols| && j < |w|
    ensures |s.C| == s.l && ValidRow(s.cols[j], |s.C|)
    ensures Objective(s, Moved(w, j, d)) <= Objective(s, w) + Tilt(Slope(s, w, j), 1.0, w[j], w[j] + d)
        + NodeSquare(s.C, s.cols[j], |s.cols[j]|) * (d * d)
  {
    hide LinAlg.Axpy, LinAlg.Abs, L1rObjective.LossTo, L1rObjective.Residual, L1rObjective.NodeLoss;
    hide L1rObjective.NodeSlope, L1rObjective.NodeSquare, L1rObjective.Bend, Sparse.Dense, L1rObjective.L1To;
    var b, x := Residual(s, w), s.cols[j];
    ResidualMoves(s, w, j, d);
    L1Moves(w, j, w[j] + d, |w|);
    ColumnLoss(s.C, b, d, x);
    ApproximateLoss(s.C, b, d, x, |x|);
    BendTilt(NodeSlope(s.C, b, x, |x|), NodeSquare(s.C, x, |x|), d, Slope(s, w, j), w[j]);
  }

  lemma BendTilt(slope: real, q: real, d: real, G: real, w: real)
    requires G == 2.0 * slope
    ensures Abs(w + d) - Abs(w) + Bend(slope, q, d) == Tilt(G, 1.0, w, w + d) + q * (d * d)
  {
    hide LinAlg.Abs;
    assert G * (w + d - w) == G * d;
  }

  /** A shorter step tilts at most in proportion. */
  lemma TiltConvex(G: real, w: real, d: real, t: real)
    requires 0.0 <= t <= 1.0
    ensures Tilt(G, 1.0, w, w + t * d) <= t * Tilt(G, 1.0, w, w + d)
  {
    assert G * (w + t * d - w) == t * (G * d);
    AbsConvex(w, w + d, t);
    assert t * (w + d) + (1.0 - t) * w == w + t * d;
    assert t * (G * d + (Abs(w + d) - Abs(w))) == t * (G * d) + t * Abs(w + d) - t * Abs(w);
    assert (1.0 - t) * Abs(w) == Abs(w) - t * Abs(w);
  }

  lemma AbsConvex(a: real, b: real, t: real)
    requires 0.0 <= t <= 1.0
    ensures Abs(t * b + (1.0 - t) * a) <= t * Abs(b) + (1.0 - t) * Abs(a)
  {
    var p := Product(t, Abs(b) - b);
    var q := Product(t, Abs(b) + b);
    var r := Product(1.0 - t, Abs(a) - a);
    var u := Product(1.0 - t, Abs(a) + a);
    assert t * (Abs(b) - b) == t * Abs(b) - t * b && t * (Abs(b) + b) == t * Abs(b) + t * b;
    assert (1.0 - t) * (Abs(a) - a) == (1.0 - t) * Abs(a) - (1.0 - t) * a;
    assert (1.0 - t) * (Abs(a) + a) == (1.0 - t) * Abs(a) + (1.0 - t) * a;
  }

  /** If m + q t >= 0 for all small t > 0 then m >= 0; the t that shows it. */
  lemma SmallStep(m: real, q: real) returns (t: real)
    requires m < 0.0 && q >= 0.0
    ensures 0.0 < t <= 1.0 && m + q * t < 0.0
  {
    var r := q + 1.0 - m;
    t := -m / r;
    assert t * r == -m;
    assert q * t == t * r - t * (1.0 - m) by { assert t * r == t * q + t * (1.0 - m); }
    var p := Product(t, 1.0 - m);
  }

  /** At a global minimiser no weight can be moved downhill. */
  lemma GlobalIsFlat(s: Setup, w: Vec, j: nat, z: real)
    requires Valid(s) && |w| == |s.cols| && j < |w|
    requires forall v: Vec :: |v| == |w| ==> Objective(s, v) >= Objective(s, w)
    ensures Tilt(Slope(s, w, j), 1.0, w[j], z) >= 0.0
  {
    hide L1rObjective.Objective, L1rL2Svc.Slope, KinkedParabola.Tilt, L1rObjective.NodeSquare, L1rL2Svc.Moved;
    var G, d := Slope(s, w, j), z - w[j];
    BelowParabola(s, w, j, 0.0);
    var q := NodeSquare(s.C, s.cols[j], |s.cols[j]|);
    NodeSquareNonNeg(s.C, s.cols[j], |s.cols[j]|);
    var dd := Square(d);
    var qd := Product(q, dd);
    var m := Tilt(G, 1.0, w[j], z);
    assert w[j] + d == z;
    if m < 0.0 {
      var t := SmallStep(m, qd);
      BelowParabola(s, w, j, t * d);
      TiltConvex(G, w[j], d, t);
      Impossible(m, q, d, t, qd);
    }
  }

  lemma Impossible(m: real, q: real, d: real, t: real, qd: real)
    requires 0.0 < t && qd == q * (d * d) && m + qd * t < 0.0
    ensures t * m + q * ((t * d) * (t * d)) < 0.0
  {
    assert q * ((t * d) * (t * d)) == t * (qd * t);
    var p := Product(t, -(m + qd * t));
    assert t * -(m + qd * t) == -(t * m) - t * (qd * t);
  }

  lemma {:induction false} NodeSquareNonNeg(C: Vec, x: Row, k: nat)
    requires ValidRow(x, |C|) && k <= |x| && forall i :: 0 <= i < |C| ==> C[i] >= 0.0
    ensures NodeSquare(C, x, k) >= 0.0
  {
    if k > 0 {
      NodeSquareNonNeg(C, x, k - 1);
      var c, v := C[x[k - 1].index - 1], x[k - 1].value;
      var y := Square(v);
      var p := Product(c, y);
      assert c * v * v == c * (v * v);
    }
  }

  /** No violation anywhere if and only if w is a global minimiser. */
  lemma OptimalIff(s: Setup, w: Vec)
    requires Valid(s) && |w| == |s.cols|
    ensures (forall j :: 0 <= j < |w| ==> Violation(s, w, j) == 0.0) <==>
            (forall z: Vec :: |z| == |w| ==> Objective(s, z) >= Objective(s, w))
  {
    hide L1rObjective.Objective, L1rL2Svc.Violation, L1rL2Svc.Slope, KinkedParabola.Tilt, KinkedParabola.Flat;
    if forall j :: 0 <= j < |w| ==> Violation(s, w, j) == 0.0 {
      forall z: Vec | |z| == |w| ensures Objective(s, z) >= Objective(s, w) {
        AboveTangent(s, w, z);
        TiltNonNeg(s, w, z, |w|);
      }
    } else if forall z: Vec :: |z| == |w| ==> Objective(s, z) >= Objective(s, w) {
      forall j | 0 <= j < |w| ensures Violation(s, w, j) == 0.0 {
        forall z | InBox(z, PosInf) ensures Tilt(Slope(s, w, j), 1.0, w[j], z) >= 0.0 { GlobalIsFlat(s, w, j, z); }
        TiltsFlat(Slope(s, w, j), 1.0, w[j], PosInf);
        ZeroViolationIff(s, w, j);
      }
    }
  }
}
