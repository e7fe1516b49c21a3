/**
 train_one hands the transposed problem to solve_l1r_l2_svc.  Together the two
 solve the problem of the header comment: the residual maintained over columns
 is 1 - y_i w.x_i over the original rows.
 */
module L1rPrimal {
  import opened LinAlg
  import opened Sparse
  import opened Transpose
  import opened L1rObjective
  import opened L1rL2Svc

  /** The columns that transpose builds. */
  ghost function ColumnsOf(p: Problem): (cols: seq<Row>)
    requires ValidProblem(p)
    ensures |cols| == p.n && ValidRows(cols, |p.y|)
    ensures forall j :: 0 <= j < p.n ==> cols[j] == Column(p.x, j)
  {
    var cols := seq(p.n, j requires 0 <= j < p.n => Column(p.x, j));
    AllValid(p, cols);
    cols
  }

  lemma AllValid(p: Problem, cols: seq<Row>)
    requires ValidProblem(p) && |cols| == p.n && forall j :: 0 <= j < p.n ==> cols[j] == Column(p.x, j)
    ensures ValidRows(cols, |p.y|)
  {
    hide Column;
    forall j | 0 <= j < p.n ensures ValidRow(cols[j], |p.y|) {
      ColumnValid(p.x, p.n, j);
    }
  }

  lemma SignedEntry(x: Row, y: Vec, i: nat)
    requires ValidRow(x, |y|) && i < |y|
    ensures ValidRow(SignedCol(x, y), |y|)
    ensures Dense(SignedCol(x, y), |y|)[i] == Sign(y[i]) * Dense(x, |y|)[i]
  {
    hide Sparse.Dense, Sign;
    var c := SignedCol(x, y);
    if k :| 0 <= k < |x| && x[k].index == i + 1 {
      DenseAt(x, |y|, k);
      DenseAt(c, |y|, k);
    } else {
      DenseAbsent(x, |y|, i);
      DenseAbsent(c, |y|, i);
    }
  }

  /** sum_j w_j v_j, at instance i, is y_i times w.x_i. */
  lemma {:induction false} CombEntry(w: Vec, V: seq<Vec>, l: nat, i: nat, sign: real, x: Vec, k: nat)
    requires |w| == |V| == |x| && k <= |w| && i < l && forall j :: 0 <= j < |V| ==> |V[j]| == l
    requires forall j :: 0 <= j < |V| ==> V[j][i] == sign * x[j]
    ensures Comb(w, V, l, k)[i] == sign * DotTo(x, w, k)
  {
    if k > 0 {
      CombEntry(w, V, l, i, sign, x, k - 1);
      assert sign * (DotTo(x, w, k - 1) + x[k - 1] * w[k - 1])
          == sign * DotTo(x, w, k - 1) + w[k - 1] * (sign * x[k - 1]);
    }
  }

  ghost function RowResidual(p: Problem, w: Vec, i: nat): real
    requires ValidProblem(p) && |w| == p.n && i < |p.x|
  {
    1.0 - Sign(p.y[i]) * Dot(Dense(p.x[i], p.n), w)
  }

  /** b_i = 1 - y_i w.x_i over the rows of the original problem. */
  lemma ResidualByRows(p: Problem, Cp: real, Cn: real, w: Vec, i: nat)
    requires ValidProblem(p) && Cp > 0.0 && Cn > 0.0 && |w| == p.n && i < |p.x|
    ensures var s := SetupOf(ColumnsOf(p), p.y, Cp, Cn);
            Residual(s, w)[i] == RowResidual(p, w, i)
  {
    hide Sparse.Dense, Sign, LinAlg.Comb, Column, SetupOf, ColumnsOf;
    var s := SetupOf(ColumnsOf(p), p.y, Cp, Cn);
    var V, x := Columns(s), Dense(p.x[i], p.n);
    forall j | 0 <= j < |V| ensures V[j][i] == Sign(p.y[i]) * x[j] { ColumnEntry(p, Cp, Cn, i, j); }
    CombEntry(w, V, s.l, i, Sign(p.y[i]), x, p.n);
  }

  /** Entry i of signed column j is y_i times entry j of row i. */
  lemma ColumnEntry(p: Problem, Cp: real, Cn: real, i: nat, j: nat)
    requires ValidProblem(p) && Cp > 0.0 && Cn > 0.0 && i < |p.x| && j < p.n
    ensures var V := Columns(SetupOf(ColumnsOf(p), p.y, Cp, Cn));
            |V| == p.n && |V[j]| == |p.y| && V[j][i] == Sign(p.y[i]) * Dense(p.x[i], p.n)[j]
  {
    hide Sparse.Dense, Sign, Column, SetupOf, ColumnsOf, L1rL2Svc.SignedCol;
    TransposedEntry(p.x, p.n, i, j);
    SignedEntry(Column(p.x, j), p.y, i);
  }

  /** sum_i C_i max(0, 1 - y_i w.x_i)^2 over the first k rows */
  ghost function RowLossTo(p: Problem, Cp: real, Cn: real, w: Vec, k: nat): real
    requires ValidProblem(p) && |w| == p.n && k <= |p.x|
  {
    if k == 0 then 0.0 else
      RowLossTo(p, Cp, Cn, w, k - 1)
        + HingeSq(if p.y[k - 1] > 0.0 then Cp else Cn, RowResidual(p, w, k - 1))
  }

  lemma {:induction false} LossByRows(p: Problem, Cp: real, Cn: real, w: Vec, k: nat)
    requires ValidProblem(p) && Cp > 0.0 && Cn > 0.0 && |w| == p.n && k <= |p.x|
    ensures var s := SetupOf(ColumnsOf(p), p.y, Cp, Cn);
            LossTo(s.C, Residual(s, w), k) == RowLossTo(p, Cp, Cn, w, k)
  {
    hide HingeSq, Residual, RowResidual;
    if k > 0 {
      LossByRows(p, Cp, Cn, w, k - 1);
      ResidualByRows(p, Cp, Cn, w, k - 1);
    }
  }

  /** The objective the solver decreases is the one of the original problem. */
  lemma ObjectiveByRows(p: Problem, Cp: real, Cn: real, w: Vec)
    requires ValidProblem(p) && Cp > 0.0 && Cn > 0.0 && |w| == p.n
    ensures Objective(SetupOf(ColumnsOf(p), p.y, Cp, Cn), w) == L1To(w, p.n) + RowLossTo(p, Cp, Cn, w, |p.x|)
  {
    hide L1To, RowLossTo, LossTo, Residual;
    LossByRows(p, Cp, Cn, w, |p.x|);
  }
}
