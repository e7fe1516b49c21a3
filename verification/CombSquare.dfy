/** How the squared norm of a combination of vectors changes with its coefficients: a convex parabola. */
module CombSquare {
  import opened LinAlg
  import opened Hessian

  ghost function Difference(c: Vec, e: Vec): (d: Vec)
    requires |c| == |e|
    ensures |d| == |c| && forall i :: 0 <= i < |c| ==> d[i] == e[i] - c[i]
  {
    seq(|c|, i requires 0 <= i < |c| => e[i] - c[i])
  }

  ghost predicate Wide(X: seq<Vec>, n: nat) {
    forall i :: 0 <= i < |X| ==> |X[i]| == n
  }

  lemma CombDifference(c: Vec, e: Vec, X: seq<Vec>, n: nat)
    requires |c| == |e| == |X| && Wide(X, n)
    ensures Comb(e, X, n, |c|) == Axpy(Comb(c, X, n, |c|), 1.0, Comb(Difference(c, e), X, n, |c|))
  {
    hide LinAlg.Comb, LinAlg.Axpy, Difference;
    var d := Difference(c, e);
    forall i | 0 <= i < |c| ensures e[i] == c[i] + 1.0 * d[i] {
      assert d[i] == e[i] - c[i];
    }
    CombLinear(c, 1.0, d, e, X, n, |c|);
  }

  /** |sum e_i x_i|^2 >= |sum c_i x_i|^2 + 2 sum (e_i - c_i) x_i.w  with w = sum c_i x_i */
  lemma SquareAbove(c: Vec, e: Vec, X: seq<Vec>, n: nat)
    requires |c| == |e| == |X| && Wide(X, n)
    ensures Dot(Comb(e, X, n, |c|), Comb(e, X, n, |c|))
         >= Dot(Comb(c, X, n, |c|), Comb(c, X, n, |c|)) + 2.0 * RowSum(Difference(c, e), X, n, Comb(c, X, n, |c|), |c|)
  {
    hide LinAlg.Comb, LinAlg.Axpy, LinAlg.Dot, LinAlg.RowSum;
    CombDifference(c, e, X, n);
    RowSumIsDot(Difference(c, e), X, n, Comb(c, X, n, |c|), |c|);
    SquareOfSum(Comb(c, X, n, |c|), Comb(Difference(c, e), X, n, |c|));
  }

  lemma SquareOfSum(w: Vec, u: Vec)
    requires |w| == |u|
    ensures Dot(Axpy(w, 1.0, u), Axpy(w, 1.0, u)) >= Dot(w, w) + 2.0 * Dot(u, w)
  {
    hide *;
    SquareAxpy(w, 1.0, u);
    DotSym(w, u);
    SquareNonNeg(u);
  }
}
