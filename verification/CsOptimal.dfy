/**
 What Solver_MCSVM_CS is after: when w is the combination of the rows with the
 alphas, no instance has a gap if and only if the alphas minimise the whole dual
 problem,
   min  0.5 sum_c |w_c|^2 + sum_i sum_{c != y_i} alpha_i[c] .
 */
module CsOptimal {
  import opened LinAlg
  import opened Permutation
  import opened Sparse
  import opened CombSquare
  import opened CsSubProblem
  import opened CsRow
  import opened CsVisit
  import opened CsDrift
  import opened CsRun

  ghost predicate Fits(s: Setup, A: seq<Vec>) {
    Valid(s) && |A| == |s.x| && forall i :: 0 <= i < |A| ==> |A[i]| == |s.C|
  }

  ghost function CapOf(s: Setup, i: nat, c: int): real
    requires Valid(s) && i < |s.x|
  {
    Cap(c, s.y[i], s.C[s.y[i]])
  }

  ghost predicate FeasibleRow(s: Setup, i: nat, a: Vec)
    requires Valid(s) && i < |s.x|
  {
    |a| == |s.C| && Sum(a) == 0.0 && forall c :: 0 <= c < |a| ==> a[c] <= CapOf(s, i, c)
  }

  ghost predicate FeasibleAll(s: Setup, A: seq<Vec>) {
    Fits(s, A) && forall i :: 0 <= i < |A| ==> FeasibleRow(s, i, A[i])
  }

  /** w_c = sum_i alpha_i[c] x_i */
  ghost function Weight(s: Setup, A: seq<Vec>, c: nat): (w: Vec)
    requires Fits(s, A) && c < |s.C|
    ensures |w| == s.n
  {
    Comb(Coefs(A, c), DenseRows(s.x, s.n), s.n, |s.x|)
  }

  ghost function QuadTo(s: Setup, A: seq<Vec>, k: nat): real
    requires Fits(s, A) && k <= |s.C|
  {
    if k == 0 then 0.0 else QuadTo(s, A, k - 1) + 0.5 * Dot(Weight(s, A, k - 1), Weight(s, A, k - 1))
  }

  /** sum_{c != y_i} a[c] */
  ghost function Others(s: Setup, i: nat, a: Vec): real
    requires Valid(s) && i < |s.x| && |a| == |s.C|
  {
    Sum(a) - a[s.y[i]]
  }

  ghost function OthersTo(s: Setup, A: seq<Vec>, k: nat): real
    requires Fits(s, A) && k <= |A|
  {
    if k == 0 then 0.0 else OthersTo(s, A, k - 1) + Others(s, k - 1, A[k - 1])
  }

  ghost function Dual(s: Setup, A: seq<Vec>): real
    requires Fits(s, A)
  {
    QuadTo(s, A, |s.C|) + OthersTo(s, A, |A|)
  }

  /** The gradient of instance i in class c. */
  ghost function Grad(s: Setup, A: seq<Vec>, i: nat, c: nat): real
    requires Fits(s, A) && i < |A| && c < |s.C|
  {
    (if c == s.y[i] then 0.0 else 1.0) + Dot(Dense(s.x[i], s.n), Weight(s, A, c))
  }

  ghost function GradRow(s: Setup, A: seq<Vec>, i: nat): (g: Vec)
    requires Fits(s, A) && i < |A|
    ensures |g| == |s.C| && forall c :: 0 <= c < |g| ==> g[c] == Grad(s, A, i, c)
  {
    seq(|s.C|, c requires 0 <= c < |s.C| => Grad(s, A, i, c))
  }

  /** No class has a larger gradient than a class with room. */
  ghost predicate NoGap(s: Setup, A: seq<Vec>, i: nat)
    requires Fits(s, A) && i < |A|
  {
    forall c, d :: 0 <= c < |s.C| && 0 <= d < |s.C| && A[i][d] < CapOf(s, i, d) ==>
      GradRow(s, A, i)[c] <= GradRow(s, A, i)[d]
  }

  /** That is what maxG <= minG says when all classes are active. */
  lemma NoGapIff(s: Setup, A: seq<Vec>, i: nat, idx: seq<int>, minG: real, maxG: real)
    requires Fits(s, A) && i < |A|
    requires Extremal(A[i], idx, |s.C|, s.y[i], s.C[s.y[i]], GradRow(s, A, i), minG, maxG)
    ensures NoGap(s, A, i) <==> maxG <= minG
  {
    hide Weight, Grad, CsSubProblem.Cap;
    var g := GradRow(s, A, i);
    var lo :| 0 <= lo < |s.C| && A[i][idx[lo]] < Cap(idx[lo], s.y[i], s.C[s.y[i]]) && g[idx[lo]] == minG;
    var hi :| 0 <= hi < |s.C| && g[idx[hi]] == maxG;
    if maxG <= minG {
      forall c, d | 0 <= c < |s.C| && 0 <= d < |s.C| && A[i][d] < CapOf(s, i, d) ensures g[c] <= g[d] {
        var m := PermOnto(idx, |s.C|, c);
        var n := PermOnto(idx, |s.C|, d);
      }
    } else {
      assert g[idx[hi]] > g[idx[lo]];
    }
  }

  // ----------------------------------------------------------- above the tangent

  /** sum_{c<m} d[c] * x_i.w_c */
  ghost function ClassSum(s: Setup, A: seq<Vec>, B: seq<Vec>, i: nat, m: nat): real
    requires Fits(s, A) && Fits(s, B) && i < |A| && m <= |s.C|
  {
    if m == 0 then 0.0 else ClassSum(s, A, B, i, m - 1) + Cross(s, A, B, i, m - 1)
  }

  ghost function Cross(s: Setup, A: seq<Vec>, B: seq<Vec>, i: nat, c: nat): real
    requires Fits(s, A) && Fits(s, B) && i < |A| && c < |s.C|
  {
    (B[i][c] - A[i][c]) * Dot(Dense(s.x[i], s.n), Weight(s, A, c))
  }

  ghost function CrossTo(s: Setup, A: seq<Vec>, B: seq<Vec>, c: nat, k: nat): real
    requires Fits(s, A) && Fits(s, B) && c < |s.C| && k <= |A|
  {
    if k == 0 then 0.0 else CrossTo(s, A, B, c, k - 1) + Cross(s, A, B, k - 1, c)
  }

  ghost function ByClass(s: Setup, A: seq<Vec>, B: seq<Vec>, m: nat, k: nat): real
    requires Fits(s, A) && Fits(s, B) && m <= |s.C| && k <= |A|
  {
    if m == 0 then 0.0 else ByClass(s, A, B, m - 1, k) + CrossTo(s, A, B, m - 1, k)
  }

  ghost function ByRow(s: Setup, A: seq<Vec>, B: seq<Vec>, k: nat): real
    requires Fits(s, A) && Fits(s, B) && k <= |A|
  {
    if k == 0 then 0.0 else ByRow(s, A, B, k - 1) + ClassSum(s, A, B, k - 1, |s.C|)
  }

  lemma {:induction false} ByClassStep(s: Setup, A: seq<Vec>, B: seq<Vec>, m: nat, k: nat)
    requires Fits(s, A) && Fits(s, B) && m <= |s.C| && 0 < k <= |A|
    ensures ByClass(s, A, B, m, k) == ByClass(s, A, B, m, k - 1) + ClassSum(s, A, B, k - 1, m)
  {
    hide Cross;
    if m > 0 { ByClassStep(s, A, B, m - 1, k); }
  }

  lemma {:induction false} ByClassNone(s: Setup, A: seq<Vec>, B: seq<Vec>, m: nat)
    requires Fits(s, A) && Fits(s, B) && m <= |s.C|
    ensures ByClass(s, A, B, m, 0) == 0.0
  {
    hide Cross;
    if m > 0 { ByClassNone(s, A, B, m - 1); }
  }

  /** The two orders of summation agree. */
  lemma {:induction false} Exchange(s: Setup, A: seq<Vec>, B: seq<Vec>, k: nat)
    requires Fits(s, A) && Fits(s, B) && k <= |A|
    ensures ByClass(s, A, B, |s.C|, k) == ByRow(s, A, B, k)
  {
    hide Cross;
    if k == 0 {
      ByClassNone(s, A, B, |s.C|);
    } else {
      Exchange(s, A, B, k - 1);
      ByClassStep(s, A, B, |s.C|, k);
    }
  }

  lemma {:induction false} CrossIsRowSum(s: Setup, A: seq<Vec>, B: seq<Vec>, c: nat, d: Vec, V: seq<Vec>, w: Vec,
                                         k: nat)
    requires Fits(s, A) && Fits(s, B) && c < |s.C| && k <= |A|
    requires d == Difference(Coefs(A, c), Coefs(B, c)) && V == DenseRows(s.x, s.n) && w == Weight(s, A, c)
    ensures RowSum(d, V, s.n, w, k) == CrossTo(s, A, B, c, k)
  {
    hide Weight, LinAlg.Dot, Sparse.Dense;
    if k > 0 {
      CrossIsRowSum(s, A, B, c, d, V, w, k - 1);
      assert d[k - 1] == B[k - 1][c] - A[k - 1][c];
    }
  }

  lemma {:induction false} QuadAbove(s: Setup, A: seq<Vec>, B: seq<Vec>, m: nat)
    requires Fits(s, A) && Fits(s, B) && m <= |s.C|
    ensures QuadTo(s, B, m) >= QuadTo(s, A, m) + ByClass(s, A, B, m, |A|)
  {
    hide LinAlg.Comb, LinAlg.Dot, LinAlg.RowSum, CrossTo, Coefs;
    if m > 0 {
      var c := m - 1;
      QuadAbove(s, A, B, c);
      SquareAbove(Coefs(A, c), Coefs(B, c), DenseRows(s.x, s.n), s.n);
      CrossIsRowSum(s, A, B, c, Difference(Coefs(A, c), Coefs(B, c)), DenseRows(s.x, s.n), Weight(s, A, c), |A|);
    }
  }

  /** The first-order change of one row. */
  ghost function RowTilt(s: Setup, A: seq<Vec>, B: seq<Vec>, i: nat, m: nat): real
    requires Fits(s, A) && Fits(s, B) && i < |A| && m <= |s.C|
  {
    DotTo(Difference(A[i], B[i]), GradRow(s, A, i), m)
  }

  lemma {:induction false} RowTiltIs(s: Setup, A: seq<Vec>, B: seq<Vec>, i: nat, m: nat)
    requires Fits(s, A) && Fits(s, B) && i < |A| && m <= |s.C|
    ensures RowTilt(s, A, B, i, m) == ClassSum(s, A, B, i, m)
              + (SumTo(B[i], m) - SumTo(A[i], m)) - (if s.y[i] < m then B[i][s.y[i]] - A[i][s.y[i]] else 0.0)
  {
    hide Cross, GradRow, Difference;
    if m > 0 {
      RowTiltIs(s, A, B, i, m - 1);
      RowTiltStep(s, A, B, i, m - 1);
    }
  }

  lemma RowTiltStep(s: Setup, A: seq<Vec>, B: seq<Vec>, i: nat, m: nat)
    requires Fits(s, A) && Fits(s, B) && i < |A| && m < |s.C| && |A[i]| == |B[i]| == |s.C| && 0 <= s.y[i] < |s.C|
    requires RowTilt(s, A, B, i, m) == ClassSum(s, A, B, i, m)
               + (SumTo(B[i], m) - SumTo(A[i], m)) - (if s.y[i] < m then B[i][s.y[i]] - A[i][s.y[i]] else 0.0)
    ensures RowTilt(s, A, B, i, m + 1) == ClassSum(s, A, B, i, m + 1)
              + (SumTo(B[i], m + 1) - SumTo(A[i], m + 1))
              - (if s.y[i] < m + 1 then B[i][s.y[i]] - A[i][s.y[i]] else 0.0)
  {
    hide *;
    RowTermIs(s, A, B, i, m);
    RowSteps(s, A, B, i, m);
  }

  lemma RowSteps(s: Setup, A: seq<Vec>, B: seq<Vec>, i: nat, m: nat)
    requires Fits(s, A) && Fits(s, B) && i < |A| && m < |s.C|
    ensures |A[i]| == |B[i]| == |s.C|
    ensures RowTilt(s, A, B, i, m + 1)
         == RowTilt(s, A, B, i, m) + Difference(A[i], B[i])[m] * GradRow(s, A, i)[m]
    ensures ClassSum(s, A, B, i, m + 1) == ClassSum(s, A, B, i, m) + Cross(s, A, B, i, m)
    ensures SumTo(A[i], m + 1) == SumTo(A[i], m) + A[i][m] && SumTo(B[i], m + 1) == SumTo(B[i], m) + B[i][m]
  {
    hide Cross, GradRow, Difference;
  }

  lemma RowTermIs(s: Setup, A: seq<Vec>, B: seq<Vec>, i: nat, c: nat)
    requires Fits(s, A) && Fits(s, B) && i < |A| && c < |s.C|
    ensures Difference(A[i], B[i])[c] * GradRow(s, A, i)[c]
         == Cross(s, A, B, i, c) + (if c == s.y[i] then 0.0 else B[i][c] - A[i][c])
  {
    hide Weight, LinAlg.Dot, Sparse.Dense;
    var d, q := B[i][c] - A[i][c], Dot(Dense(s.x[i], s.n), Weight(s, A, c));
    TermIs(d, q, GradRow(s, A, i)[c], c == s.y[i]);
  }

  lemma TermIs(d: real, q: real, g: real, own: bool)
    requires g == (if own then 0.0 else 1.0) + q
    ensures d * g == d * q + (if own then 0.0 else d)
  {
  }

  ghost function TiltTo(s: Setup, A: seq<Vec>, B: seq<Vec>, k: nat): real
    requires Fits(s, A) && Fits(s, B) && k <= |A|
  {
    if k == 0 then 0.0 else TiltTo(s, A, B, k - 1) + RowTilt(s, A, B, k - 1, |s.C|)
  }

  lemma {:induction false} TiltIs(s: Setup, A: seq<Vec>, B: seq<Vec>, k: nat)
    requires Fits(s, A) && Fits(s, B) && k <= |A|
    ensures TiltTo(s, A, B, k) == ByRow(s, A, B, k) + OthersTo(s, B, k) - OthersTo(s, A, k)
  {
    hide RowTilt, ClassSum;
    if k > 0 {
      TiltIs(s, A, B, k - 1);
      RowTiltIs(s, A, B, k - 1, |s.C|);
    }
  }

  /** The dual objective lies above its tangent. */
  lemma AboveTangent(s: Setup, A: seq<Vec>, B: seq<Vec>)
    requires Fits(s, A) && Fits(s, B)
    ensures Dual(s, B) >= Dual(s, A) + TiltTo(s, A, B, |A|)
  {
    hide QuadTo, OthersTo, ByClass, ByRow, TiltTo;
    QuadAbove(s, A, B, |s.C|);
    Exchange(s, A, B, |A|);
    TiltIs(s, A, B, |A|);
  }

  // ------------------------------------------------------------- no gap is optimal

  lemma {:induction false} ShiftedDot(d: Vec, g: Vec, level: real, k: nat)
    requires |d| == |g| && k <= |d|
    requires forall c :: 0 <= c < |d| ==> d[c] * (g[c] - level) >= 0.0
    ensures DotTo(d, g, k) >= level * SumTo(d, k)
  {
    if k > 0 {
      ShiftedDot(d, g, level, k - 1);
      assert d[k - 1] * (g[k - 1] - level) == d[k - 1] * g[k - 1] - level * d[k - 1];
      assert level * (SumTo(d, k - 1) + d[k - 1]) == level * SumTo(d, k - 1) + level * d[k - 1];
    }
  }

  lemma DifferenceSum(a: Vec, b: Vec, d: Vec)
    requires |a| == |b| && d == Difference(a, b) && Sum(a) == 0.0 && Sum(b) == 0.0
    ensures SumTo(d, |d|) == 0.0
  {
    SumToAdd(a, d, b, 1.0, |a|);
  }

  /** Some class of a feasible row has room. */
  lemma RowHasRoom(s: Setup, i: nat, a: Vec) returns (d: nat)
    requires Valid(s) && i < |s.x| && FeasibleRow(s, i, a)
    ensures d < |a| && a[d] < CapOf(s, i, d)
  {
    hide LinAlg.Sum;
    var y, c := s.y[i], s.C[s.y[i]];
    var idx := Identity(|a|);
    d := SomeRoom(a, idx, |a|, y, y, c);
  }

  lemma RowTiltNonNeg(s: Setup, A: seq<Vec>, B: seq<Vec>, i: nat)
    requires Fits(s, A) && Fits(s, B) && i < |A| && NoGap(s, A, i) && FeasibleRow(s, i, A[i]) && FeasibleRow(s, i, B[i])
    ensures RowTilt(s, A, B, i, |s.C|) >= 0.0
  {
    hide Weight, Grad, LinAlg.Sum, CapOf;
    var g, d := GradRow(s, A, i), Difference(A[i], B[i]);
    var r := RowHasRoom(s, i, A[i]);
    forall c | 0 <= c < |d| ensures d[c] * (g[c] - g[r]) >= 0.0 {
      assert g[c] <= g[r];
      if A[i][c] < CapOf(s, i, c) {
        assert g[r] <= g[c];
        ZeroTimes(d[c], g[c] - g[r]);
      } else {
        var p := Product(-d[c], g[r] - g[c]);
        assert -d[c] * (g[r] - g[c]) == d[c] * (g[c] - g[r]);
      }
    }
    ShiftedDot(d, g, g[r], |d|);
    DifferenceSum(A[i], B[i], d);
    ZeroTimes(g[r], SumTo(d, |d|));
  }

  lemma ZeroTimes(a: real, b: real)
    ensures b == 0.0 ==> a * b == 0.0
  {
  }

  lemma {:induction false} TiltNonNeg(s: Setup, A: seq<Vec>, B: seq<Vec>, k: nat)
    requires FeasibleAll(s, A) && FeasibleAll(s, B) && k <= |A| && forall i :: 0 <= i < |A| ==> NoGap(s, A, i)
    ensures TiltTo(s, A, B, k) >= 0.0
  {
    hide RowTilt, NoGap, FeasibleRow;
    if k > 0 {
      TiltNonNeg(s, A, B, k - 1);
      RowTiltNonNeg(s, A, B, k - 1);
    }
  }

  // ------------------------------------------------------------- a gap can be used

  ghost function Changed(A: seq<Vec>, i: nat, c: nat, x: real): (B: seq<Vec>)
    requires i < |A| && c < |A[i]|
    ensures |B| == |A| && forall k :: 0 <= k < |A| ==> |B[k]| == |A[k]|
  {
    A[i := A[i][c := x]]
  }

  lemma WeightMoves(s: Setup, A: seq<Vec>, i: nat, c: nat, x: real, e: nat)
    requires Fits(s, A) && i < |A| && c < |s.C| && e < |s.C|
    ensures Fits(s, Changed(A, i, c, x)) && |Dense(s.x[i], s.n)| == s.n
    ensures Weight(s, Changed(A, i, c, x), e)
         == if e == c then Axpy(Weight(s, A, c), x - A[i][c], Dense(s.x[i], s.n)) else Weight(s, A, e)
  {
    hide LinAlg.Comb, LinAlg.Axpy, Sparse.Dense;
    var B, k := Changed(A, i, c, x), Coefs(A, e);
    if e == c {
      assert Coefs(B, e) == k[i := k[i] + (x - A[i][c])];
      CombUpdate(k, DenseRows(s.x, s.n), s.n, |s.x|, i, x - A[i][c]);
    } else {
      assert Coefs(B, e) == k;
    }
  }

  lemma {:induction false} QuadMoves(s: Setup, A: seq<Vec>, i: nat, c: nat, x: real, k: nat, d: real)
    requires Fits(s, A) && i < |A| && c < |s.C| && k <= |s.C| && d == x - A[i][c]
    ensures Fits(s, Changed(A, i, c, x))
    ensures var q := Dot(Dense(s.x[i], s.n), Weight(s, A, c));
            QuadTo(s, Changed(A, i, c, x), k)
              == QuadTo(s, A, k) + (if c < k then d * q + 0.5 * (d * d * Norm(s, i)) else 0.0)
  {
    hide Weight, LinAlg.Dot, LinAlg.Axpy, Sparse.Dense, Changed, Norm;
    WeightMoves(s, A, i, c, x, c);
    if k > 0 {
      QuadMoves(s, A, i, c, x, k - 1, d);
      HalfMoves(s, A, i, c, x, k - 1, d);
    }
  }

  lemma HalfMoves(s: Setup, A: seq<Vec>, i: nat, c: nat, x: real, e: nat, d: real)
    requires Fits(s, A) && i < |A| && c < |s.C| && e < |s.C| && d == x - A[i][c]
    ensures Fits(s, Changed(A, i, c, x))
    ensures var q, w := Dot(Dense(s.x[i], s.n), Weight(s, A, c)), Weight(s, Changed(A, i, c, x), e);
            0.5 * Dot(w, w) == 0.5 * Dot(Weight(s, A, e), Weight(s, A, e))
                             + (if e == c then d * q + 0.5 * (d * d * Norm(s, i)) else 0.0)
  {
    hide Weight, LinAlg.Dot, LinAlg.Axpy, Sparse.Dense, Changed;
    WeightMoves(s, A, i, c, x, e);
    if e == c {
      var w, v := Weight(s, A, c), Dense(s.x[i], s.n);
      SquareAxpy(w, d, v);
      DotSym(w, v);
      HalfSquare(Dot(w, w), d, Dot(v, w), Norm(s, i), Dot(Axpy(w, d, v), Axpy(w, d, v)));
    }
  }

  lemma HalfSquare(w: real, d: real, q: real, n: real, r: real)
    requires r == w + 2.0 * d * q + d * d * n
    ensures 0.5 * r == 0.5 * w + (d * q + 0.5 * (d * d * n))
  {
  }

  lemma {:induction false} OthersMoves(s: Setup, A: seq<Vec>, i: nat, c: nat, x: real, k: nat)
    requires Fits(s, A) && i < |A| && c < |s.C| && k <= |A|
    ensures Fits(s, Changed(A, i, c, x))
    ensures OthersTo(s, Changed(A, i, c, x), k)
        == OthersTo(s, A, k) + (if i < k && c != s.y[i] then x - A[i][c] else 0.0)
  {
    hide LinAlg.Sum;
    if k > 0 {
      OthersMoves(s, A, i, c, x, k - 1);
      if k - 1 == i { SumUpdate(A[i], c, x); }
    }
  }

  /** Along one alpha the dual objective is a parabola with slope `Grad` and curvature QD. */
  lemma DualMoves(s: Setup, A: seq<Vec>, i: nat, c: nat, x: real, d: real)
    requires Fits(s, A) && i < |A| && c < |s.C| && d == x - A[i][c]
    ensures Fits(s, Changed(A, i, c, x))
    ensures Dual(s, Changed(A, i, c, x)) == Dual(s, A) + d * Grad(s, A, i, c) + 0.5 * (d * d * Norm(s, i))
  {
    hide Weight, LinAlg.Dot, Sparse.Dense, Changed, QuadTo, OthersTo, Norm;
    QuadMoves(s, A, i, c, x, |s.C|, d);
    OthersMoves(s, A, i, c, x, |A|);
    TermIs(d, Dot(Dense(s.x[i], s.n), Weight(s, A, c)), Grad(s, A, i, c), c == s.y[i]);
  }

  /** t moved from class c to class d of instance i. */
  ghost function Handed(A: seq<Vec>, i: nat, c: nat, d: nat, t: real): (B: seq<Vec>)
    requires i < |A| && c < |A[i]| && d < |A[i]|
  {
    var H := Changed(A, i, c, A[i][c] - t);
    Changed(H, i, d, A[i][d] + t)
  }

  lemma HandedDual(s: Setup, A: seq<Vec>, i: nat, c: nat, d: nat, t: real)
    requires Fits(s, A) && i < |A| && c < |s.C| && d < |s.C| && c != d
    ensures Fits(s, Handed(A, i, c, d, t))
    ensures Dual(s, Handed(A, i, c, d, t)) == Dual(s, A) + (Grad(s, A, i, d) - Grad(s, A, i, c)) * t
        + Norm(s, i) * (t * t)
  {
    hide Dual, Norm, Grad;
    var H := Changed(A, i, c, A[i][c] - t);
    assert H[i][d] == A[i][d];
    DualMoves(s, A, i, c, A[i][c] - t, -t);
    DualMoves(s, H, i, d, A[i][d] + t, t);
    SameGrad(s, A, i, c, d, A[i][c] - t);
    TwoMoves(Grad(s, A, i, c), Grad(s, A, i, d), t, Norm(s, i), -t);
  }

  lemma SameGrad(s: Setup, A: seq<Vec>, i: nat, c: nat, d: nat, x: real)
    requires Fits(s, A) && i < |A| && c < |s.C| && d < |s.C| && c != d
    ensures Fits(s, Changed(A, i, c, x)) && Grad(s, Changed(A, i, c, x), i, d) == Grad(s, A, i, d)
  {
    hide Weight, LinAlg.Dot, Sparse.Dense, Changed;
    WeightMoves(s, A, i, c, x, d);
  }

  lemma TwoMoves(gc: real, gd: real, t: real, n: real, u: real)
    requires u == -t
    ensures u * gc + 0.5 * (u * u * n) + (t * gd + 0.5 * (t * t * n)) == (gd - gc) * t + n * (t * t)
  {
    assert u * u == t * t;
    assert t * t * n == n * (t * t);
  }

  lemma HandedFeasible(s: Setup, A: seq<Vec>, i: nat, c: nat, d: nat, t: real)
    requires FeasibleAll(s, A) && i < |A| && c < |s.C| && d < |s.C| && c != d && t >= 0.0
    requires A[i][d] + t <= CapOf(s, i, d)
    ensures FeasibleAll(s, Handed(A, i, c, d, t))
  {
    hide LinAlg.Sum, CapOf;
    var B := Handed(A, i, c, d, t);
    SumUpdate(A[i], c, A[i][c] - t);
    SumUpdate(A[i][c := A[i][c] - t], d, A[i][d] + t);
    forall k | 0 <= k < |B| ensures FeasibleRow(s, k, B[k]) {
      assert FeasibleRow(s, k, A[k]);
    }
  }

  /** At a minimiser no instance has a gap. */
  lemma OptimalHasNoGap(s: Setup, A: seq<Vec>, i: nat)
    requires FeasibleAll(s, A) && i < |A|
    requires forall B :: FeasibleAll(s, B) ==> Dual(s, B) >= Dual(s, A)
    ensures NoGap(s, A, i)
  {
    hide Dual, Grad, CapOf, FeasibleAll, Norm;
    FeasibleFits(s, A);
    var g := GradRow(s, A, i);
    forall c, d | 0 <= c < |s.C| && 0 <= d < |s.C| && A[i][d] < CapOf(s, i, d) ensures g[c] <= g[d] {
      if g[c] > g[d] {
        NormNonNeg(s, i);
        var t := PayingStep(Norm(s, i) + 1.0, g[c] - g[d], CapOf(s, i, d) - A[i][d]);
        HandedFeasible(s, A, i, c, d, t);
        HandedDual(s, A, i, c, d, t);
        Gains(g[c], g[d], t, Norm(s, i));
      }
    }
  }

  lemma FeasibleFits(s: Setup, A: seq<Vec>)
    requires FeasibleAll(s, A)
    ensures Fits(s, A)
  {
    hide FeasibleRow;
  }

  lemma NormNonNeg(s: Setup, i: nat)
    requires Valid(s) && i < |s.x|
    ensures Norm(s, i) >= 0.0
  {
    hide Sparse.Dense;
    SquareNonNeg(Dense(s.x[i], s.n));
  }

  lemma Gains(gc: real, gd: real, t: real, n: real)
    requires t > 0.0 && -(gc - gd) * t + (n + 1.0) * (t * t) < 0.0
    ensures (gd - gc) * t + n * (t * t) < 0.0
  {
    var tt := Square(t);
    assert (n + 1.0) * (t * t) == n * (t * t) + t * t;
    assert -(gc - gd) * t == (gd - gc) * t;
  }

  /** No instance has a gap if and only if the alphas minimise the dual problem over all feasible alphas. */
  lemma OptimalIff(s: Setup, A: seq<Vec>)
    requires FeasibleAll(s, A)
    ensures Fits(s, A)
    ensures (forall i :: 0 <= i < |A| ==> NoGap(s, A, i)) <==>
        (forall B :: FeasibleAll(s, B) ==> Dual(s, B) >= Dual(s, A))
  {
    hide Dual, NoGap, FeasibleRow;
    FeasibleFits(s, A);
    if forall i :: 0 <= i < |A| ==> NoGap(s, A, i) {
      forall B | FeasibleAll(s, B) ensures Dual(s, B) >= Dual(s, A) {
        FeasibleFits(s, B);
        AboveTangent(s, A, B);
        TiltNonNeg(s, A, B, |A|);
      }
    } else if forall B :: FeasibleAll(s, B) ==> Dual(s, B) >= Dual(s, A) {
      forall i | 0 <= i < |A| ensures NoGap(s, A, i) { OptimalHasNoGap(s, A, i); }
    }
  }
}
