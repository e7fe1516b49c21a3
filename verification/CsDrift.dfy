/**
 How far w can be from sum_i alpha_i x_i in the Crammer-Singer solver: changes
 of alpha below 1e-12 are written to alpha but not to w, so each visit can add
 at most 1e-12 times the largest feature value to the difference.
 */
module CsDrift {
  import opened LinAlg
  import opened Sparse
  import opened CsVisit

  /** The coefficients of class c, instance by instance. */
  ghost function Coefs(alphas: seq<Vec>, c: int): (r: Vec)
    requires 0 <= c && forall i :: 0 <= i < |alphas| ==> c < |alphas[i]|
    ensures |r| == |alphas|
    ensures forall i :: 0 <= i < |alphas| ==> r[i] == alphas[i][c]
  {
    seq(|alphas|, i requires 0 <= i < |alphas| => alphas[i][c])
  }

  ghost predicate Shaped(W: seq<Vec>, alphas: seq<Vec>, X: seq<Vec>, n: nat) {
    && |alphas| == |X|
    && (forall i :: 0 <= i < |X| ==> |X[i]| == n)
    && (forall i :: 0 <= i < |alphas| ==> |alphas[i]| == |W|)
    && (forall c :: 0 <= c < |W| ==> |W[c]| == n)
  }

  /** |w_c - sum_i alpha_i[c] x_i| <= bound in every feature, for every class. */
  ghost predicate Within(W: seq<Vec>, alphas: seq<Vec>, X: seq<Vec>, n: nat, bound: real) {
    && Shaped(W, alphas, X, n)
    && forall c, f :: 0 <= c < |W| && 0 <= f < n ==> Abs(W[c][f] - Comb(Coefs(alphas, c), X, n, |X|)[f]) <= bound
  }

  lemma StartWithin(W: seq<Vec>, alphas: seq<Vec>, X: seq<Vec>, n: nat)
    requires Shaped(W, alphas, X, n)
    requires forall c :: 0 <= c < |W| ==> W[c] == Zeros(n)
    requires forall i :: 0 <= i < |alphas| ==> alphas[i] == Zeros(|W|)
    ensures Within(W, alphas, X, n, 0.0)
  {
    forall c, f | 0 <= c < |W| && 0 <= f < n ensures Abs(W[c][f] - Comb(Coefs(alphas, c), X, n, |X|)[f]) <= 0.0 {
      CombZero(Coefs(alphas, c), X, n, |X|);
    }
  }

  lemma PassedClose(d: real)
    ensures Abs(Passed(d) - d) <= 0.000000000001
  {
  }

  /** One visit adds at most 1e-12 * M to the bound. */
  lemma VisitWithin(W: seq<Vec>, alphas: seq<Vec>, X: seq<Vec>, n: nat, bound: real, i: nat, x: Row, W': seq<Vec>,
                    a': Vec, M: real)
    requires Within(W, alphas, X, n, bound) && i < |X| && ValidRow(x, n) && X[i] == Dense(x, n)
    requires Absorbed(x, n, W, W', alphas[i], a')
    requires forall f :: 0 <= f < n ==> Abs(X[i][f]) <= M
    ensures Within(W', alphas[i := a'], X, n, bound + 0.000000000001 * M)
  {
    hide LinAlg.Comb, LinAlg.Abs, Sparse.Dense, Passed;
    forall c, f | 0 <= c < |W'| && 0 <= f < n
      ensures Abs(W'[c][f] - Comb(Coefs(alphas[i := a'], c), X, n, |X|)[f]) <= bound + 0.000000000001 * M
    {
      ClassWithin(W, alphas, X, n, bound, i, x, W', a', M, c, f);
    }
  }

  lemma ClassWithin(W: seq<Vec>, alphas: seq<Vec>, X: seq<Vec>, n: nat, bound: real, i: nat, x: Row, W': seq<Vec>,
                    a': Vec, M: real, c: nat, f: nat)
    requires Within(W, alphas, X, n, bound) && i < |X| && ValidRow(x, n) && X[i] == Dense(x, n)
    requires Absorbed(x, n, W, W', alphas[i], a') && c < |W'| && f < n && Abs(X[i][f]) <= M
    ensures Shaped(W', alphas[i := a'], X, n)
    ensures Abs(W'[c][f] - Comb(Coefs(alphas[i := a'], c), X, n, |X|)[f]) <= bound + 0.000000000001 * M
  {
    hide Within, Absorbed, Passed, Sparse.Dense, LinAlg.Comb, LinAlg.Abs, LinAlg.Axpy, Coefs;
    AbsorbedShape(W, alphas, X, n, bound, i, x, W', a');
    WithinAt(W, alphas, X, n, bound, c, f);
    var d := a'[c] - alphas[i][c];
    AbsorbedAt(W, alphas, X, n, i, x, W', a', c, f, d);
    var u, u' := Comb(Coefs(alphas, c), X, n, |X|)[f], Comb(Coefs(alphas[i := a'], c), X, n, |X|)[f];
    CellWithin(W[c][f], u, d, X[i][f], bound, M, W'[c][f], u');
  }

  lemma AbsorbedShape(W: seq<Vec>, alphas: seq<Vec>, X: seq<Vec>, n: nat, bound: real, i: nat, x: Row, W': seq<Vec>,
                      a': Vec)
    requires Within(W, alphas, X, n, bound) && i < |X| && ValidRow(x, n) && Absorbed(x, n, W, W', alphas[i], a')
    ensures Shaped(W, alphas, X, n) && Shaped(W', alphas[i := a'], X, n) && |W'| == |W| == |a'|
  {
    hide LinAlg.Comb, LinAlg.Abs, LinAlg.Axpy, Sparse.Dense;
  }

  lemma WithinAt(W: seq<Vec>, alphas: seq<Vec>, X: seq<Vec>, n: nat, bound: real, c: nat, f: nat)
    requires Within(W, alphas, X, n, bound) && c < |W| && f < n
    ensures |W[c]| == n && Shaped(W, alphas, X, n) && Abs(W[c][f] - Comb(Coefs(alphas, c), X, n, |X|)[f]) <= bound
  {
    hide LinAlg.Comb, LinAlg.Abs;
  }

  lemma AbsorbedAt(W: seq<Vec>, alphas: seq<Vec>, X: seq<Vec>, n: nat, i: nat, x: Row, W': seq<Vec>, a': Vec, c: nat,
                   f: nat, d: real)
    requires Shaped(W, alphas, X, n) && i < |X| && ValidRow(x, n) && X[i] == Dense(x, n) && |alphas| == |X|
    requires Absorbed(x, n, W, W', alphas[i], a') && c < |W'| && f < n && |a'| == |alphas[i]| == |W'|
    requires d == a'[c] - alphas[i][c]
    ensures Shaped(W', alphas[i := a'], X, n) && |W'| == |W| == |a'| == |alphas[i]| && |W[c]| == |W'[c]| == |X[i]| == n
    ensures W'[c][f] == W[c][f] + Passed(d) * X[i][f]
    ensures Comb(Coefs(alphas[i := a'], c), X, n, |X|)[f] == Comb(Coefs(alphas, c), X, n, |X|)[f] + d * X[i][f]
  {
    hide Passed, Sparse.Dense, LinAlg.Comb, LinAlg.Axpy;
    var k := Coefs(alphas, c);
    assert Coefs(alphas[i := a'], c) == k[i := k[i] + d];
    CombUpdate(k, X, n, |X|, i, d);
  }

  lemma CellWithin(w: real, s: real, d: real, x: real, bound: real, M: real, w': real, s': real)
    requires Abs(w - s) <= bound && Abs(x) <= M && w' == w + Passed(d) * x && s' == s + d * x
    ensures Abs(w' - s') <= bound + 0.000000000001 * M
  {
    hide Passed;
    PassedClose(d);
    var e := Passed(d) - d;
    assert w' - s' == (w - s) + e * x;
    AbsProduct(e, x, 0.000000000001, M);
  }

  lemma AbsProduct(a: real, b: real, A: real, B: real)
    requires Abs(a) <= A && Abs(b) <= B
    ensures Abs(a * b) <= A * B
  {
    var p := Product(Abs(a), B - Abs(b));
    assert Abs(a) * (B - Abs(b)) == Abs(a) * B - Abs(a) * Abs(b);
    var p' := Product(A - Abs(a), B);
    assert (A - Abs(a)) * B == A * B - Abs(a) * B;
    assert Abs(a) * Abs(b) == a * b || Abs(a) * Abs(b) == -(a * b);
    var p'' := Product(Abs(a), Abs(b));
  }
}
