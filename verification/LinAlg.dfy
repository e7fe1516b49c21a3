/**
 Dense real vectors and the few facts about inner products that the solvers
 rest on.  A `double` of the solvers is a `real` here; `ddot_`, `daxpy_` and
 `dscal_` are `Dot`, `Axpy` and `Scale`.
 */
module LinAlg {
  type Vec = seq<real>

  function Zeros(n: nat): (v: Vec)
    ensures |v| == n
    ensures forall i :: 0 <= i < n ==> v[i] == 0.0
  {
    seq(n, _ => 0.0)
  }

  /** u + c * v */
  function Axpy(u: Vec, c: real, v: Vec): (r: Vec)
    requires |u| == |v|
    ensures |r| == |u|
    ensures forall i :: 0 <= i < |u| ==> r[i] == u[i] + c * v[i]
  {
    seq(|u|, i requires 0 <= i < |u| => u[i] + c * v[i])
  }

  function Scale(c: real, v: Vec): (r: Vec)
    ensures |r| == |v|
    ensures forall i :: 0 <= i < |v| ==> r[i] == c * v[i]
  {
    seq(|v|, i requires 0 <= i < |v| => c * v[i])
  }

  /** The inner product of the first k entries. */
  function DotTo(u: Vec, v: Vec, k: nat): (r: real)
    requires k <= |u| && k <= |v|
  {
    if k == 0 then 0.0 else DotTo(u, v, k - 1) + u[k - 1] * v[k - 1]
  }

  function Dot(u: Vec, v: Vec): real
    requires |u| == |v|
  {
    DotTo(u, v, |u|)
  }

  function SumTo(s: Vec, k: nat): real
    requires k <= |s|
  {
    if k == 0 then 0.0 else SumTo(s, k - 1) + s[k - 1]
  }

  function Sum(s: Vec): real {
    SumTo(s, |s|)
  }

  function Abs(x: real): (r: real)
    ensures r >= 0.0 && (r == x || r == -x) && r >= x && r >= -x
  {
    if x < 0.0 then -x else x
  }

  function Min(x: real, y: real): real {
    if x < y then x else y
  }

  function Max(x: real, y: real): real {
    if x > y then x else y
  }

  // ---------------------------------------------------------------- sums

  lemma {:induction false} SumToCongruent(s: Vec, t: Vec, k: nat)
    requires k <= |s| && k <= |t|
    requires forall i :: 0 <= i < k ==> s[i] == t[i]
    ensures SumTo(s, k) == SumTo(t, k)
  {
    if k > 0 { SumToCongruent(s, t, k - 1); }
  }

  lemma {:induction false} SumToAdd(s: Vec, t: Vec, r: Vec, c: real, k: nat)
    requires k <= |s| && k <= |t| && k <= |r|
    requires forall i :: 0 <= i < k ==> r[i] == s[i] + c * t[i]
    ensures SumTo(r, k) == SumTo(s, k) + c * SumTo(t, k)
  {
    if k > 0 { SumToAdd(s, t, r, c, k - 1); }
  }

  lemma {:induction false} SumToNonNeg(s: Vec, k: nat)
    requires k <= |s|
    requires forall i :: 0 <= i < k ==> s[i] >= 0.0
    ensures SumTo(s, k) >= 0.0
  {
    if k > 0 { SumToNonNeg(s, k - 1); }
  }

  lemma {:induction false} SumToLe(s: Vec, t: Vec, k: nat)
    requires k <= |s| && k <= |t|
    requires forall i :: 0 <= i < k ==> s[i] <= t[i]
    ensures SumTo(s, k) <= SumTo(t, k)
  {
    if k > 0 { SumToLe(s, t, k - 1); }
  }

  /** Changing one entry moves the sum by the change. */
  lemma {:induction false} SumToUpdate(s: Vec, i: nat, x: real, k: nat)
    requires i < |s| && k <= |s|
    ensures SumTo(s[i := x], k) == SumTo(s, k) + (if i < k then x - s[i] else 0.0)
  {
    if k > 0 { SumToUpdate(s, i, x, k - 1); }
  }

  lemma SumUpdate(s: Vec, i: nat, x: real)
    requires i < |s|
    ensures Sum(s[i := x]) == Sum(s) + x - s[i]
  {
    SumToUpdate(s, i, x, |s|);
  }

  // ------------------------------------------------------ inner products

  lemma {:induction false} DotToSym(u: Vec, v: Vec, k: nat)
    requires k <= |u| && k <= |v|
    ensures DotTo(u, v, k) == DotTo(v, u, k)
  {
    if k > 0 { DotToSym(u, v, k - 1); }
  }

  lemma DotSym(u: Vec, v: Vec)
    requires |u| == |v|
    ensures Dot(u, v) == Dot(v, u)
  {
    DotToSym(u, v, |u|);
  }

  lemma {:induction false} DotToAxpy(u: Vec, c: real, v: Vec, w: Vec, k: nat)
    requires |u| == |v| == |w| && k <= |u|
    ensures DotTo(Axpy(u, c, v), w, k) == DotTo(u, w, k) + c * DotTo(v, w, k)
  {
    if k > 0 { DotToAxpy(u, c, v, w, k - 1); }
  }

  /** Linearity in the left argument. */
  lemma DotAxpy(u: Vec, c: real, v: Vec, w: Vec)
    requires |u| == |v| == |w|
    ensures Dot(Axpy(u, c, v), w) == Dot(u, w) + c * Dot(v, w)
  {
    DotToAxpy(u, c, v, w, |u|);
  }

  /** Linearity in the right argument. */
  lemma DotAxpyR(w: Vec, u: Vec, c: real, v: Vec)
    requires |u| == |v| == |w|
    ensures Dot(w, Axpy(u, c, v)) == Dot(w, u) + c * Dot(w, v)
  {
    hide DotTo;
    DotSym(w, Axpy(u, c, v));
    DotAxpy(u, c, v, w);
    DotSym(u, w);
    DotSym(v, w);
  }

  /** |u + c v|^2 = |u|^2 + 2 c u.v + c^2 |v|^2 */
  lemma SquareAxpy(u: Vec, c: real, v: Vec)
    requires |u| == |v|
    ensures Dot(Axpy(u, c, v), Axpy(u, c, v)) == Dot(u, u) + 2.0 * c * Dot(u, v) + c * c * Dot(v, v)
  {
    hide DotTo;
    var a := Axpy(u, c, v);
    DotAxpy(u, c, v, a);
    DotAxpyR(u, u, c, v);
    DotAxpyR(v, u, c, v);
    DotSym(v, u);
    Expand(Dot(u, u), Dot(u, v), Dot(v, v), c);
  }

  lemma Expand(uu: real, uv: real, vv: real, c: real)
    ensures (uu + c * uv) + c * (uv + c * vv) == uu + 2.0 * c * uv + c * c * vv
  {
  }

  lemma {:induction false} DotToScale(c: real, v: Vec, w: Vec, k: nat)
    requires |v| == |w| && k <= |v|
    ensures DotTo(Scale(c, v), w, k) == c * DotTo(v, w, k)
  {
    if k > 0 { DotToScale(c, v, w, k - 1); }
  }

  lemma DotScale(c: real, v: Vec, w: Vec)
    requires |v| == |w|
    ensures Dot(Scale(c, v), w) == c * Dot(v, w)
    ensures Dot(w, Scale(c, v)) == c * Dot(w, v)
  {
    DotToScale(c, v, w, |v|);
    DotSym(w, Scale(c, v));
    DotSym(w, v);
  }

  lemma {:induction false} DotToZero(n: nat, v: Vec, k: nat)
    requires |v| == n && k <= n
    ensures DotTo(Zeros(n), v, k) == 0.0
  {
    if k > 0 { DotToZero(n, v, k - 1); }
  }

  lemma DotZero(v: Vec)
    ensures Dot(Zeros(|v|), v) == 0.0 == Dot(v, Zeros(|v|))
  {
    DotToZero(|v|, v, |v|);
    DotSym(v, Zeros(|v|));
  }

  lemma {:induction false} DotToSelf(v: Vec, k: nat)
    requires k <= |v|
    ensures DotTo(v, v, k) >= 0.0
    ensures forall i :: 0 <= i < k && v[i] != 0.0 ==> DotTo(v, v, k) > 0.0
  {
    if k > 0 {
      DotToSelf(v, k - 1);
      var y := Square(v[k - 1]);
      assert DotTo(v, v, k) == DotTo(v, v, k - 1) + y;
    }
  }

  lemma Product(a: real, b: real) returns (y: real)
    requires a >= 0.0 && b >= 0.0
    ensures y == a * b && y >= 0.0
    ensures a > 0.0 && b > 0.0 ==> y > 0.0
  {
    y := a * b;
  }

  lemma Factor(a: real, b: real)
    requires b > 0.0 && a * b >= 0.0
    ensures a >= 0.0
  {
    assert a < 0.0 ==> -a * b == -(a * b);
    if a < 0.0 { var p := Product(-a, b); }
  }

  lemma Square(x: real) returns (y: real)
    ensures y == x * x && y >= 0.0
    ensures x != 0.0 ==> y > 0.0
  {
    if x >= 0.0 {
      y := Product(x, x);
    } else {
      y := Product(-x, -x);
      assert (-x) * (-x) == x * x;
    }
  }

  /** The squared norm is non-negative, and zero only for the zero vector. */
  lemma SquareNonNeg(v: Vec)
    ensures Dot(v, v) >= 0.0
    ensures Dot(v, v) == 0.0 ==> v == Zeros(|v|)
  {
    DotToSelf(v, |v|);
    if Dot(v, v) == 0.0 {
      assert v == Zeros(|v|);
    }
  }

  /** (u.v)^2 <= |u|^2 |v|^2 */
  lemma CauchySchwarz(u: Vec, v: Vec)
    requires |u| == |v|
    ensures Dot(u, v) * Dot(u, v) <= Dot(u, u) * Dot(v, v)
  {
    hide DotTo;
    var a, b, c := Dot(u, u), Dot(u, v), Dot(v, v);
    SquareNonNeg(u);
    SquareNonNeg(v);
    if c == 0.0 {
      assert v == Zeros(|v|);
      DotZero(u);
      assert b == 0.0;
    } else {
      var t := -b / c;
      SquareAxpy(u, t, v);
      SquareNonNeg(Axpy(u, t, v));
      Discriminant(a, b, c, t);
    }
  }

  lemma Discriminant(a: real, b: real, c: real, t: real)
    requires c > 0.0 && t == -b / c
    requires a + 2.0 * t * b + t * t * c >= 0.0
    ensures b * b <= a * c
  {
    assert t * c == -b;
    assert (a + 2.0 * t * b + t * t * c) * c >= 0.0;
    assert t * t * c * c == b * b by { assert (t * c) * (t * c) == b * b; }
    assert 2.0 * t * b * c == -2.0 * b * b by { assert 2.0 * b * (t * c) == -2.0 * b * b; }
    assert (a + 2.0 * t * b + t * t * c) * c == a * c + 2.0 * t * b * c + t * t * c * c;
  }

  lemma AxpyNothing(w: Vec, d: real, v: Vec)
    requires |w| == |v| && d == 0.0
    ensures Axpy(w, d, v) == w
  {
    assert forall i :: 0 <= i < |w| ==> Axpy(w, d, v)[i] == w[i];
  }

  // ------------------------------------------------- linear combinations

  /** The combination of the first k vectors of X with coefficients c. */
  function Comb(c: Vec, X: seq<Vec>, n: nat, k: nat): (r: Vec)
    requires k <= |c| && k <= |X|
    requires forall i :: 0 <= i < |X| ==> |X[i]| == n
    ensures |r| == n
  {
    if k == 0 then Zeros(n) else Axpy(Comb(c, X, n, k - 1), c[k - 1], X[k - 1])
  }

  lemma AxpySwap(u: Vec, c: real, v: Vec, d: real, w: Vec)
    requires |u| == |v| == |w|
    ensures Axpy(Axpy(u, d, w), c, v) == Axpy(Axpy(u, c, v), d, w)
  {
    assert forall i :: 0 <= i < |u| ==> Axpy(Axpy(u, d, w), c, v)[i] == Axpy(Axpy(u, c, v), d, w)[i];
  }

  lemma AxpyMerge(u: Vec, c: real, d: real, v: Vec, e: real)
    requires |u| == |v| && e == c + d
    ensures Axpy(u, e, v) == Axpy(Axpy(u, c, v), d, v)
  {
    var l, r := Axpy(u, e, v), Axpy(Axpy(u, c, v), d, v);
    forall i | 0 <= i < |u| ensures l[i] == r[i] { MergeEntry(u[i], c, d, v[i], e); }
  }

  lemma MergeEntry(u: real, c: real, d: real, v: real, e: real)
    requires e == c + d
    ensures u + e * v == (u + c * v) + d * v
  {
  }

  /** (p + t q) + (a + t b) x = (p + a x) + t (q + b x), for vectors p, q and x. */
  lemma AxpyLinear(p: Vec, q: Vec, x: Vec, a: real, b: real, t: real, c: real)
    requires |p| == |q| == |x| && c == a + t * b
    ensures Axpy(Axpy(p, t, q), c, x) == Axpy(Axpy(p, a, x), t, Axpy(q, b, x))
  {
    var l, r := Axpy(Axpy(p, t, q), c, x), Axpy(Axpy(p, a, x), t, Axpy(q, b, x));
    forall j | 0 <= j < |p| ensures l[j] == r[j] { LinearEntry(p[j], q[j], a, b, t, x[j], c); }
  }

  lemma LinearEntry(p: real, q: real, a: real, b: real, t: real, x: real, c: real)
    requires c == a + t * b
    ensures (p + t * q) + c * x == (p + a * x) + t * (q + b * x)
  {
  }

  /** (u + t v) + c (x + t y) = (u + c x) + t (v + c y) */
  lemma AxpyExchange(u: Vec, v: Vec, x: Vec, y: Vec, c: real, t: real)
    requires |u| == |v| == |x| == |y|
    ensures Axpy(Axpy(u, t, v), c, Axpy(x, t, y)) == Axpy(Axpy(u, c, x), t, Axpy(v, c, y))
  {
    var l, r := Axpy(Axpy(u, t, v), c, Axpy(x, t, y)), Axpy(Axpy(u, c, x), t, Axpy(v, c, y));
    forall j | 0 <= j < |u| ensures l[j] == r[j] { ExchangeEntry(u[j], v[j], x[j], y[j], c, t); }
  }

  lemma ExchangeEntry(u: real, v: real, x: real, y: real, c: real, t: real)
    ensures (u + t * v) + c * (x + t * y) == (u + c * x) + t * (v + c * y)
  {
  }

  lemma EntryGrows(u: real, c: real, v: real, x: real, v': real)
    requires v' == v + x
    ensures u + c * v' == u + c * v + c * x
  {
  }

  /** Moving one coefficient moves the combination along that vector. */
  lemma {:induction false} CombUpdate(c: Vec, X: seq<Vec>, n: nat, k: nat, i: nat, d: real)
    requires k <= |c| && k <= |X| && i < |c| && i < |X|
    requires forall j :: 0 <= j < |X| ==> |X[j]| == n
    ensures Comb(c[i := c[i] + d], X, n, k) == if i < k then Axpy(Comb(c, X, n, k), d, X[i]) else Comb(c, X, n, k)
  {
    hide Axpy;
    if k > 0 {
      CombUpdate(c, X, n, k - 1, i, d);
      var u := Comb(c, X, n, k - 1);
      if i < k - 1 {
        AxpySwap(u, c[k - 1], X[k - 1], d, X[i]);
      } else if i == k - 1 {
        AxpyMerge(u, c[i], d, X[i], c[i] + d);
      }
    }
  }

  lemma {:induction false} CombZero(c: Vec, X: seq<Vec>, n: nat, k: nat)
    requires k <= |c| && k <= |X|
    requires forall j :: 0 <= j < |X| ==> |X[j]| == n
    requires forall j :: 0 <= j < k ==> c[j] == 0.0
    ensures Comb(c, X, n, k) == Zeros(n)
  {
    if k > 0 {
      CombZero(c, X, n, k - 1);
      assert Comb(c, X, n, k) == Zeros(n);
    }
  }

  /** The row sum  sum_{j<k} c_j X_j.v  and  the double sum  sum_{i<m} sum_{j<k} c_i c_j X_i.X_j. */
  function RowSum(c: Vec, X: seq<Vec>, n: nat, v: Vec, k: nat): real
    requires k <= |c| && k <= |X| && |v| == n
    requires forall i :: 0 <= i < |X| ==> |X[i]| == n
  {
    if k == 0 then 0.0 else RowSum(c, X, n, v, k - 1) + c[k - 1] * Dot(X[k - 1], v)
  }

  function DoubleSum(c: Vec, X: seq<Vec>, n: nat, m: nat, k: nat): real
    requires m <= |c| && m <= |X| && k <= |c| && k <= |X|
    requires forall i :: 0 <= i < |X| ==> |X[i]| == n
  {
    if m == 0 then 0.0 else DoubleSum(c, X, n, m - 1, k) + c[m - 1] * RowSum(c, X, n, X[m - 1], k)
  }

  lemma {:induction false} RowSumIsDot(c: Vec, X: seq<Vec>, n: nat, v: Vec, k: nat)
    requires k <= |c| && k <= |X| && |v| == n
    requires forall i :: 0 <= i < |X| ==> |X[i]| == n
    ensures RowSum(c, X, n, v, k) == Dot(Comb(c, X, n, k), v)
  {
    if k == 0 {
      DotZero(v);
    } else {
      RowSumIsDot(c, X, n, v, k - 1);
      DotAxpy(Comb(c, X, n, k - 1), c[k - 1], X[k - 1], v);
    }
  }

  /** |sum_i c_i X_i|^2 as a double sum over the Gram matrix. */
  lemma {:induction false} DoubleSumIsSquare(c: Vec, X: seq<Vec>, n: nat, m: nat, k: nat)
    requires m <= |c| && m <= |X| && k <= |c| && k <= |X|
    requires forall i :: 0 <= i < |X| ==> |X[i]| == n
    ensures DoubleSum(c, X, n, m, k) == Dot(Comb(c, X, n, m), Comb(c, X, n, k))
  {
    hide Dot, Axpy, RowSum;
    var w := Comb(c, X, n, k);
    if m == 0 {
      DotZero(w);
    } else {
      DoubleSumIsSquare(c, X, n, m - 1, k);
      DotAxpy(Comb(c, X, n, m - 1), c[m - 1], X[m - 1], w);
      RowSumIsDot(c, X, n, X[m - 1], k);
      DotSym(w, X[m - 1]);
      EqualSteps(DoubleSum(c, X, n, m - 1, k), Dot(Comb(c, X, n, m - 1), w), c[m - 1], RowSum(c, X, n, X[m - 1], k),
                 Dot(X[m - 1], w), DoubleSum(c, X, n, m, k), Dot(Comb(c, X, n, m), w));
    }
  }

  lemma EqualSteps(a: real, b: real, c: real, r: real, q: real, a': real, b': real)
    requires a == b && r == q && a' == a + c * r && b' == b + c * q
    ensures a' == b'
  {
  }
}
