/**
 How far a slope can drift during a pass of a coordinate-descent solver: each visit
 moves the slope of every other variable by at most K times what the visit found, so
 between two visits it moves by at most K times the sum of what was found.
 */
module PassDrift {
  import opened LinAlg
  import opened RunHistory
  import opened ExtReal
  import opened KinkedParabola

  /** Visit k moves the slope of variable i by at most K times what it found. */
  ghost predicate Shifts<P, X>(slope: (P, int) -> real, f: (P, int) -> real, h: History<P, X>, i: int, K: real, k: nat)
    requires k < |h.marks| < |h.points|
  {
    Abs(slope(h.points[k + 1], i) - slope(h.points[k], i)) <= K * f(h.points[k], h.marks[k].i)
  }

  /** From visit j to visit n a slope moves by at most K times the sum of what is found in between. */
  lemma {:induction false} Drift<P, X>(slope: (P, int) -> real, f: (P, int) -> real, h: History<P, X>, i: int,
                                       K: real, j: nat, n: nat)
    requires j <= n <= |h.marks| < |h.points| && forall k :: j <= k < n ==> Shifts(slope, f, h, i, K, k)
    ensures Abs(slope(h.points[n], i) - slope(h.points[j], i)) <= K * (Total(f, h, n) - Total(f, h, j))
    decreases n
  {
    hide LinAlg.Abs, Shifts, Total;
    if j < n {
      Drift(slope, f, h, i, K, j, n - 1);
      OneShift(slope, f, h, i, K, n - 1);
      DriftAdds(slope(h.points[j], i), slope(h.points[n - 1], i), slope(h.points[n], i), K, Total(f, h, n - 1),
                Total(f, h, j), f(h.points[n - 1], h.marks[n - 1].i), Total(f, h, n));
    } else {
      NoDrift(slope(h.points[j], i), K, Total(f, h, j));
    }
  }

  lemma ShowShifts<P, X>(slope: (P, int) -> real, f: (P, int) -> real, h: History<P, X>, i: int, K: real, k: nat)
    requires k < |h.marks| < |h.points|
    requires Abs(slope(h.points[k + 1], i) - slope(h.points[k], i)) <= K * f(h.points[k], h.marks[k].i)
    ensures Shifts(slope, f, h, i, K, k)
  {
    hide LinAlg.Abs;
  }

  /** The same from the start of the pass, seen from visit n. */
  lemma DriftFromStart<P, X>(slope: (P, int) -> real, f: (P, int) -> real, h: History<P, X>, i: int, K: real, n: nat)
    requires n <= |h.marks| < |h.points| && forall k :: 0 <= k < n ==> Shifts(slope, f, h, i, K, k)
    ensures Abs(slope(h.points[0], i) - slope(h.points[n], i)) <= K * Total(f, h, n)
  {
    hide Shifts, LinAlg.Abs, Total;
    Drift(slope, f, h, i, K, 0, n);
    TotalOfNone(f, h);
    Turned(slope(h.points[0], i), slope(h.points[n], i), K, Total(f, h, n), Total(f, h, 0));
  }

  lemma Turned(g: real, g': real, K: real, t: real, t0: real)
    requires Abs(g' - g) <= K * (t - t0) && t0 == 0.0
    ensures Abs(g - g') <= K * t
  {
  }

  lemma OneShift<P, X>(slope: (P, int) -> real, f: (P, int) -> real, h: History<P, X>, i: int, K: real, k: nat)
    requires k < |h.marks| < |h.points| && Shifts(slope, f, h, i, K, k)
    ensures Abs(slope(h.points[k + 1], i) - slope(h.points[k], i)) <= K * f(h.points[k], h.marks[k].i)
    ensures Total(f, h, k + 1) == Total(f, h, k) + f(h.points[k], h.marks[k].i)
  {
    hide LinAlg.Abs;
  }

  lemma DriftAdds(g0: real, g1: real, g2: real, K: real, t1: real, t0: real, v: real, t2: real)
    requires Abs(g1 - g0) <= K * (t1 - t0) && Abs(g2 - g1) <= K * v && t2 == t1 + v
    ensures Abs(g2 - g0) <= K * (t2 - t0)
  {
    assert K * (t2 - t0) == K * (t1 - t0) + K * v;
  }

  lemma NoDrift(g: real, K: real, t: real)
    ensures Abs(g - g) <= K * (t - t)
  {
  }

  // ------------------------------------------------------------ one visit

  /** A move of e with QD e <= v shifts a slope coupled by r <= K QD by at most K v. */
  lemma Chain(e: real, r: real, K: real, QD: real, v: real)
    requires e >= 0.0 && K >= 0.0 && r <= K * QD && QD * e <= v
    ensures e * r <= K * v
  {
    var p1 := Product(e, K * QD - r);
    assert e * (K * QD - r) == K * (QD * e) - e * r;
    var p2 := Product(K, v - QD * e);
    assert K * (v - QD * e) == K * v - K * (QD * e);
  }

  lemma AbsNonNeg(d: real)
    ensures Abs(d) >= 0.0
  {
  }

  lemma AbsTimes(d: real, z: real, q: real, f: real)
    requires (z == q || z == -q) && f == d * z
    ensures Abs(f) == Abs(d) * Abs(q)
  {
    var p := Product(Abs(d), Abs(q));
    assert f == Abs(d) * Abs(q) || f == -(Abs(d) * Abs(q));
  }

  /** |x_i.x_j| <= K (d_j + x_j.x_j) for all i and j */
  ghost predicate RowsCoupled(X: seq<Vec>, n: nat, D: Vec, K: real) {
    && |D| == |X| && (forall k :: 0 <= k < |X| ==> |X[k]| == n)
    && forall i, j :: 0 <= i < |X| && 0 <= j < |X| ==> Abs(Dot(X[i], X[j])) <= K * (D[j] + Dot(X[j], X[j]))
  }

  lemma CoupledPair(X: seq<Vec>, n: nat, D: Vec, K: real, i: nat, j: nat, c: real)
    requires RowsCoupled(X, n, D, K) && i < |X| && j < |X| && c == D[j] + Dot(X[j], X[j])
    ensures Abs(Dot(X[i], X[j])) <= K * c
  {
    hide LinAlg.Dot, LinAlg.Abs;
  }

  /** |x_i.x_j| / (d_j + x_j.x_j), or zero when x_j has no curvature. */
  ghost function Ratio(X: seq<Vec>, n: nat, D: Vec, i: int, j: int): real
    requires |D| == |X| && forall k :: 0 <= k < |X| ==> |X[k]| == n
  {
    if 0 <= i < |X| && 0 <= j < |X| && D[j] + Dot(X[j], X[j]) > 0.0
    then Abs(Dot(X[i], X[j])) / (D[j] + Dot(X[j], X[j]))
    else 0.0
  }

  /** Every set of rows has a coupling constant: a row without curvature is zero, and so are its products. */
  lemma CouplingOf(X: seq<Vec>, n: nat, D: Vec) returns (K: real)
    requires |D| == |X| && (forall k :: 0 <= k < |X| ==> |X[k]| == n) && forall k :: 0 <= k < |X| ==> D[k] >= 0.0
    ensures K >= 0.0 && RowsCoupled(X, n, D, K)
  {
    hide LinAlg.Dot, LinAlg.Abs, Ratio;
    var f := (i: int, j: int) => Ratio(X, n, D, i, j);
    K := SomeBoundOn(f, |X|, |X|);
    forall i, j | 0 <= i < |X| && 0 <= j < |X| ensures Abs(Dot(X[i], X[j])) <= K * (D[j] + Dot(X[j], X[j])) {
      assert f(i, j) <= K;
      PairCoupled(X, n, D, i, j, K);
    }
  }

  lemma PairCoupled(X: seq<Vec>, n: nat, D: Vec, i: nat, j: nat, K: real)
    requires |D| == |X| && (forall k :: 0 <= k < |X| ==> |X[k]| == n) && i < |X| && j < |X|
    requires D[j] >= 0.0 && K >= 0.0 && Ratio(X, n, D, i, j) <= K
    ensures Abs(Dot(X[i], X[j])) <= K * (D[j] + Dot(X[j], X[j]))
  {
    hide LinAlg.Dot, LinAlg.Abs;
    var q, QD := Abs(Dot(X[i], X[j])), D[j] + Dot(X[j], X[j]);
    SquareNonNeg(X[j]);
    if QD > 0.0 {
      RatioBound(q, QD, K);
    } else {
      DotZero(X[i]);
      assert q == Abs(0.0) && K * QD == 0.0;
    }
  }

  lemma RatioBound(q: real, QD: real, K: real)
    requires QD > 0.0 && q / QD <= K
    ensures q <= K * QD
  {
    var r := q / QD;
    assert r * QD == q;
    var p := Product(K - r, QD);
    assert (K - r) * QD == K * QD - r * QD;
  }

  /** Some K bounds finitely many numbers. */
  lemma {:induction false} SomeBoundOn(f: (int, int) -> real, m: nat, n: nat) returns (K: real)
    ensures K >= 0.0 && forall i, j :: 0 <= i < m && 0 <= j < n ==> f(i, j) <= K
  {
    K := 0.0;
    if m > 0 {
      var L := SomeBoundOn(f, m - 1, n);
      var R := RowBound(f, m - 1, n);
      K := Max(L, R);
    }
  }

  lemma {:induction false} RowBound(f: (int, int) -> real, i: int, n: nat) returns (K: real)
    ensures K >= 0.0 && forall j :: 0 <= j < n ==> f(i, j) <= K
  {
    K := 0.0;
    if n > 0 {
      var L := RowBound(f, i, n - 1);
      K := Max(L, f(i, n - 1));
    }
  }

  // ------------------------------------------------------------- distances

  /** sum_{i<k} |b_i - a_i| */
  ghost function Distance(a: Vec, b: Vec, k: nat): real
    requires k <= |a| && k <= |b|
  {
    if k == 0 then 0.0 else Distance(a, b, k - 1) + Abs(b[k - 1] - a[k - 1])
  }

  lemma {:induction false} DistanceNonNeg(a: Vec, b: Vec, k: nat)
    requires k <= |a| && k <= |b|
    ensures Distance(a, b, k) >= 0.0
  {
    if k > 0 { DistanceNonNeg(a, b, k - 1); }
  }

  lemma Spread(c: real, d: real, e: real)
    ensures c * (d + e) == c * d + c * e
  {
  }

  lemma OneMore(k: nat, e: real)
    requires k > 0
    ensures k as real * e == (k - 1) as real * e + e
  {
    assert k as real == (k - 1) as real + 1.0;
  }

  /** A smaller factor loses less. */
  lemma LessLost(f: real, g: real, c: real, c': real, d: real)
    requires f >= g - c * d && c <= c' && d >= 0.0
    ensures f >= g - c' * d
  {
    var p := Product(c' - c, d);
    assert (c' - c) * d == c' * d - c * d;
  }

  // ------------------------------------------------- what is left at the start

  /** The gain per unit of distance that the start of a pass leaves at most. */
  ghost function Slack(K: real, total: real, largest: real): real {
    largest + K * total
  }

  /** The sum before a visit and its own value are within the measures of the pass. */
  lemma MeasuredAt<P, X>(f: (P, int) -> real, h: History<P, X>, k: nat, total: real, largest: real)
    requires Measured(f, h, total, largest) && k < |h.marks|
    requires forall i :: 0 <= i < |h.marks| ==> f(h.points[i], h.marks[i].i) >= 0.0
    ensures Total(f, h, k) <= total && f(h.points[k], h.marks[k].i) <= largest
  {
    hide Total;
    TotalMonotone(f, h, k, |h.marks|);
  }

  /** A coordinate whose violation v was found after its slope had drifted from G0 to G. */
  lemma TiltFromStart(G0: real, G: real, p: real, b: real, u: Ext, z: real, v: real, K: real, t: real, total: real,
                      largest: real)
    requires InBox(b, u) && InBox(z, u) && p >= 0.0 && (u.PosInf? || (u.Fin? && u.r > 0.0)) && v == Viol(G, p, b, u)
    requires Abs(G0 - G) <= K * t && K >= 0.0 && t <= total && v <= largest
    ensures Tilt(G0, p, b, z) >= -(Slack(K, total, largest) * Abs(z - b))
  {
    hide InBox, Viol, Tilt;
    TiltAtLeast(G, p, b, u, z, v);
    TiltShift(G0, G, p, b, z, K * t);
    TwoLosses(Tilt(G0, p, b, z), Tilt(G, p, b, z), v, t, K, Abs(z - b), total, largest);
  }

  lemma TwoLosses(t0: real, t1: real, v: real, t: real, K: real, e: real, total: real, largest: real)
    requires t1 >= -(v * e) && t0 >= t1 - (K * t) * e && v <= largest && t <= total && K >= 0.0 && e >= 0.0
    ensures t0 >= -(Slack(K, total, largest) * e)
  {
    var p := Product(largest - v, e);
    assert (largest - v) * e == largest * e - v * e;
    var q := Product(K, total - t);
    var r := Product(K * (total - t), e);
    assert K * (total - t) * e == (K * total) * e - (K * t) * e;
    assert (largest + K * total) * e == largest * e + (K * total) * e;
  }

  /** When the sum is within g0, so is the largest, and the slack is at most (1 + K) g0. */
  lemma WithinFirst(K: real, total: real, largest: real, g0: real, a: Vec, z: Vec, fz: real, fa: real)
    requires K >= 0.0 && largest <= total <= g0 && |a| == |z|
    requires fz >= fa - (largest + K * total) * Distance(a, z, |a|)
    ensures fz >= fa - (1.0 + K) * g0 * Distance(a, z, |a|)
  {
    var p := Product(K, g0 - total);
    assert K * (g0 - total) == K * g0 - K * total;
    assert (1.0 + K) * g0 == g0 + K * g0;
    DistanceNonNeg(a, z, |a|);
    LessLost(fz, fa, largest + K * total, (1.0 + K) * g0, Distance(a, z, |a|));
  }
}
