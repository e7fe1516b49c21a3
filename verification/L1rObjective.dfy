/**
 The primal problem of solve_l1r_l2_svc,
   min  sum_j |w_j| + sum_i C_i max(0, b_i)^2 ,   b_i = 1 - sum_j w_j y_i x_ij ,
 over columns whose values are already multiplied by y_i, and the sums over the
 nodes of one column that the line search works with.
 */
module L1rObjective {
  import opened LinAlg
  import opened Sparse

  datatype Setup = Setup(l: nat, cols: seq<Row>, C: Vec)

  ghost predicate Valid(s: Setup) {
    && ValidRows(s.cols, s.l) && |s.C| == s.l
    && forall i :: 0 <= i < s.l ==> s.C[i] >= 0.0
  }

  ghost function Columns(s: Setup): (V: seq<Vec>)
    requires Valid(s)
    ensures |V| == |s.cols|
    ensures forall j :: 0 <= j < |V| ==> V[j] == Dense(s.cols[j], s.l) && |V[j]| == s.l
  {
    DenseRows(s.cols, s.l)
  }

  ghost function Ones(l: nat): (v: Vec)
    ensures |v| == l && forall i :: 0 <= i < l ==> v[i] == 1.0
  {
    seq(l, _ => 1.0)
  }

  /** b = 1 - sum_j w_j v_j */
  ghost function Residual(s: Setup, w: Vec): (b: Vec)
    requires Valid(s) && |w| == |s.cols|
    ensures |b| == s.l
  {
    Axpy(Ones(s.l), -1.0, Comb(w, Columns(s), s.l, |w|))
  }

  ghost function HingeSq(c: real, t: real): real {
    if t > 0.0 then c * t * t else 0.0
  }

  ghost function LossTo(C: Vec, b: Vec, k: nat): real
    requires k <= |C| && k <= |b|
  {
    if k == 0 then 0.0 else LossTo(C, b, k - 1) + HingeSq(C[k - 1], b[k - 1])
  }

  ghost function L1To(w: Vec, k: nat): real
    requires k <= |w|
  {
    if k == 0 then 0.0 else L1To(w, k - 1) + Abs(w[k - 1])
  }

  ghost function Objective(s: Setup, w: Vec): real
    requires Valid(s) && |w| == |s.cols|
  {
    L1To(w, |w|) + LossTo(s.C, Residual(s, w), s.l)
  }

  // ------------------------------------------------------- moving one weight

  lemma ResidualMoves(s: Setup, w: Vec, j: nat, d: real)
    requires Valid(s) && |w| == |s.cols| && j < |w|
    ensures Residual(s, w[j := w[j] + d]) == Axpy(Residual(s, w), -d, Columns(s)[j])
  {
    hide LinAlg.Comb, Columns;
    CombUpdate(w, Columns(s), s.l, |w|, j, d);
    var l, r := Residual(s, w[j := w[j] + d]), Axpy(Residual(s, w), -d, Columns(s)[j]);
    assert forall i :: 0 <= i < s.l ==> l[i] == r[i];
  }

  lemma {:induction false} L1Moves(w: Vec, j: nat, x: real, k: nat)
    requires j < |w| && k <= |w|
    ensures L1To(w[j := x], k) == L1To(w, k) + (if j < k then Abs(x) - Abs(w[j]) else 0.0)
  {
    hide LinAlg.Abs;
    if k > 0 { L1Moves(w, j, x, k - 1); }
  }

  lemma {:induction false} LossUpdate(C: Vec, b: Vec, i: nat, x: real, k: nat)
    requires |C| == |b| && i < |b| && k <= |b|
    ensures LossTo(C, b[i := x], k) == LossTo(C, b, k) + (if i < k then HingeSq(C[i], x) - HingeSq(C[i], b[i]) else 0.0)
  {
    hide HingeSq;
    if k > 0 { LossUpdate(C, b, i, x, k - 1); }
  }

  // --------------------------------------------------------- sums over nodes

  /** sum over the first k nodes of the loss at their instances */
  ghost function NodeLoss(C: Vec, b: Vec, x: Row, k: nat): real
    requires |C| == |b| && ValidRow(x, |b|) && k <= |x|
  {
    if k == 0 then 0.0 else NodeLoss(C, b, x, k - 1) + HingeSq(C[x[k - 1].index - 1], b[x[k - 1].index - 1])
  }

  ghost function SlopeTerm(c: real, t: real, v: real): real {
    if t > 0.0 then c * v * t else 0.0
  }

  /** -sum C v b over the nodes with b > 0, half of G_loss */
  ghost function NodeSlope(C: Vec, b: Vec, x: Row, k: nat): real
    requires |C| == |b| && ValidRow(x, |b|) && k <= |x|
  {
    if k == 0 then 0.0 else
      var i := x[k - 1].index - 1;
      NodeSlope(C, b, x, k - 1) - SlopeTerm(C[i], b[i], x[k - 1].value)
  }

  ghost function SquareTerm(c: real, v: real): real {
    c * v * v
  }

  /** sum C v^2, the xj_sq of the column */
  ghost function NodeSquare(C: Vec, x: Row, k: nat): real
    requires ValidRow(x, |C|) && k <= |x|
  {
    if k == 0 then 0.0 else NodeSquare(C, x, k - 1) + SquareTerm(C[x[k - 1].index - 1], x[k - 1].value)
  }

  /** b with the entries of the first k nodes replaced by those of b'. */
  ghost function Mixed(b: Vec, b': Vec, x: Row, k: nat): (r: Vec)
    requires |b| == |b'| && ValidRow(x, |b|) && k <= |x|
    ensures |r| == |b|
  {
    if k == 0 then b else Mixed(b, b', x, k - 1)[x[k - 1].index - 1 := b'[x[k - 1].index - 1]]
  }

  lemma {:induction false} MixedEntries(b: Vec, b': Vec, x: Row, k: nat)
    requires |b| == |b'| && ValidRow(x, |b|) && k <= |x|
    ensures forall j :: 0 <= j < k ==> Mixed(b, b', x, k)[x[j].index - 1] == b'[x[j].index - 1]
    ensures forall i :: 0 <= i < |b| && (forall j :: 0 <= j < k ==> x[j].index != i + 1) ==>
        Mixed(b, b', x, k)[i] == b[i]
  {
    if k > 0 { MixedEntries(b, b', x, k - 1); }
  }

  lemma {:induction false} MixedLoss(C: Vec, b: Vec, b': Vec, x: Row, k: nat)
    requires |C| == |b| == |b'| && ValidRow(x, |b|) && k <= |x|
    ensures LossTo(C, Mixed(b, b', x, k), |b|) == LossTo(C, b, |b|) + NodeLoss(C, b', x, k) - NodeLoss(C, b, x, k)
  {
    hide HingeSq, LossTo;
    if k > 0 {
      MixedLoss(C, b, b', x, k - 1);
      MixedEntries(b, b', x, k - 1);
      var m, i := Mixed(b, b', x, k - 1), x[k - 1].index - 1;
      assert m[i] == b[i];
      LossUpdate(C, m, i, b'[i], |b|);
    }
  }

  /** The line search looks only at the column's own instances; that is the whole change of the loss. */
  lemma ColumnLoss(C: Vec, b: Vec, d: real, x: Row)
    requires |C| == |b| && ValidRow(x, |b|)
    ensures var b' := Axpy(b, -d, Dense(x, |b|));
            LossTo(C, b', |b|) == LossTo(C, b, |b|) + NodeLoss(C, b', x, |x|) - NodeLoss(C, b, x, |x|)
  {
    hide LossTo, NodeLoss, Mixed, Sparse.Dense;
    var b' := Axpy(b, -d, Dense(x, |b|));
    MixedEntries(b, b', x, |x|);
    var m := Mixed(b, b', x, |x|);
    forall i | 0 <= i < |b| ensures m[i] == b'[i] {
      if j :| 0 <= j < |x| && x[j].index == i + 1 {
        assert m[x[j].index - 1] == b'[x[j].index - 1];
      } else {
        DenseAbsent(x, |b|, i);
      }
    }
    assert m == b';
    MixedLoss(C, b, b', x, |x|);
  }

  /** max(0, t - u)^2 <= max(0, t)^2 - 2 max(0,t) u + u^2 */
  lemma HingeUpper(c: real, t: real, u: real, r: real)
    requires c >= 0.0 && r == t - u
    ensures HingeSq(c, r) <= HingeSq(c, t) - 2.0 * (if t > 0.0 then c * t * u else 0.0) + c * (u * u)
  {
    var uu := Square(u);
    var cu := Product(c, uu);
    if t > 0.0 {
      assert c * r * r == c * t * t - 2.0 * (c * t * u) + c * (u * u);
      var rr := Square(r);
      var cr := Product(c, rr);
      assert c * r * r == c * rr;
    } else if r > 0.0 {
      // 0 < t - u <= -u
      var p := Product(-t, r + -u);
      assert (-t) * (r + -u) == uu - r * r;
      var q := Product(c, uu - r * r);
      assert c * (uu - r * r) == c * uu - c * r * r;
    }
  }

  /** 2 s d + q d^2 */
  ghost function Bend(s: real, q: real, d: real): real {
    2.0 * s * d + q * (d * d)
  }

  lemma BendAdds(s: real, g: real, q: real, h: real, d: real)
    ensures Bend(s - g, q + h, d) == Bend(s, q, d) + Bend(-g, h, d)
  {
    assert (q + h) * (d * d) == q * (d * d) + h * (d * d);
  }

  lemma BendZero(d: real)
    ensures Bend(0.0, 0.0, d) == 0.0
  {
  }

  lemma NodeUpper(c: real, t: real, v: real, d: real, t': real)
    requires c >= 0.0 && t' == t - d * v
    ensures HingeSq(c, t') <= HingeSq(c, t) + Bend(-SlopeTerm(c, t, v), SquareTerm(c, v), d)
  {
    hide HingeSq, Bend;
    HingeUpper(c, t, d * v, t');
    BendOf(c, t, v, d);
    if t > 0.0 {
      assert -SlopeTerm(c, t, v) == -(c * v * t);
    } else {
      assert -SlopeTerm(c, t, v) == -0.0;
    }
  }

  lemma BendOf(c: real, t: real, v: real, d: real)
    ensures Bend(-(c * v * t), c * v * v, d) == -2.0 * (c * t * (d * v)) + c * ((d * v) * (d * v))
    ensures Bend(-0.0, c * v * v, d) == c * ((d * v) * (d * v))
  {
    assert c * ((d * v) * (d * v)) == c * v * v * (d * d);
    assert c * t * (d * v) == c * v * t * d;
    assert 2.0 * -(c * v * t) * d == -2.0 * (c * v * t * d);
  }

  lemma MovedEntry(b: Vec, d: real, x: Row, k: nat)
    requires ValidRow(x, |b|) && k < |x|
    ensures var i := x[k].index - 1; Axpy(b, -d, Dense(x, |b|))[i] == b[i] - d * x[k].value
  {
    hide Sparse.Dense;
    var i, v := x[k].index - 1, Dense(x, |b|);
    DenseAt(x, |b|, k);
    assert -d * v[i] == -(d * v[i]);
  }

  /** The cheap upper bound of the line search is one: loss_new <= loss_old + G_loss*d + xj_sq*d^2. */
  lemma {:induction false} ApproximateLoss(C: Vec, b: Vec, d: real, x: Row, k: nat)
    requires |C| == |b| && ValidRow(x, |b|) && k <= |x|
    requires forall i :: 0 <= i < |C| ==> C[i] >= 0.0
    ensures var b' := Axpy(b, -d, Dense(x, |b|));
            NodeLoss(C, b', x, k) <= NodeLoss(C, b, x, k) + Bend(NodeSlope(C, b, x, k), NodeSquare(C, x, k), d)
  {
    hide HingeSq, SlopeTerm, SquareTerm, Sparse.Dense, LinAlg.Axpy, Bend;
    if k == 0 {
      BendZero(d);
    } else {
      ApproximateLoss(C, b, d, x, k - 1);
      var i, v := x[k - 1].index - 1, x[k - 1].value;
      MovedEntry(b, d, x, k - 1);
      NodeUpper(C[i], b[i], v, d, Axpy(b, -d, Dense(x, |b|))[i]);
      BendAdds(NodeSlope(C, b, x, k - 1), SlopeTerm(C[i], b[i], v), NodeSquare(C, x, k - 1), SquareTerm(C[i], v), d);
    }
  }

  /** max(0, t - u)^2 >= max(0, t)^2 - 2 max(0,t) u */
  lemma HingeLower(c: real, t: real, u: real, r: real)
    requires c >= 0.0 && r == t - u
    ensures HingeSq(c, r) >= HingeSq(c, t) - 2.0 * (if t > 0.0 then c * t * u else 0.0)
  {
    var uu := Square(u);
    var cu := Product(c, uu);
    var rr := Square(r);
    var cr := Product(c, rr);
    assert c * r * r == c * rr;
    if t > 0.0 {
      assert c * r * r == c * t * t - 2.0 * (c * t * u) + c * (u * u);
      if r <= 0.0 {
        // t <= u, so t^2 <= t u, and c t (t - 2u) <= 0
        var p := Product(t, -r);
        var q := Product(c, t * -r);
        assert c * (t * -r) == c * t * u - c * t * t;
        var tt := Product(t, t);
        var q' := Product(c, tt);
        assert c * t * t == c * tt;
      }
    }
  }

  /** With `ApproximateLoss`: 2*NodeSlope is the derivative of the loss along the column. */
  lemma {:induction false} ConvexLoss(C: Vec, b: Vec, d: real, x: Row, k: nat)
    requires |C| == |b| && ValidRow(x, |b|) && k <= |x|
    requires forall i :: 0 <= i < |C| ==> C[i] >= 0.0
    ensures var b' := Axpy(b, -d, Dense(x, |b|));
            NodeLoss(C, b', x, k) >= NodeLoss(C, b, x, k) + Bend(NodeSlope(C, b, x, k), 0.0, d)
  {
    hide HingeSq, SlopeTerm, Sparse.Dense, LinAlg.Axpy, Bend;
    if k == 0 {
      BendZero(d);
    } else {
      ConvexLoss(C, b, d, x, k - 1);
      var i, v := x[k - 1].index - 1, x[k - 1].value;
      MovedEntry(b, d, x, k - 1);
      NodeLower(C[i], b[i], v, d, Axpy(b, -d, Dense(x, |b|))[i]);
      BendAdds(NodeSlope(C, b, x, k - 1), SlopeTerm(C[i], b[i], v), 0.0, 0.0, d);
    }
  }

  lemma NodeLower(c: real, t: real, v: real, d: real, t': real)
    requires c >= 0.0 && t' == t - d * v
    ensures HingeSq(c, t') >= HingeSq(c, t) + Bend(-SlopeTerm(c, t, v), 0.0, d)
  {
    hide HingeSq;
    HingeLower(c, t, d * v, t');
    assert c * t * (d * v) == c * v * t * d;
    assert 2.0 * -(c * v * t) * d == -2.0 * (c * v * t * d);
  }
}
