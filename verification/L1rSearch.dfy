/**
 When the line search of solve_l1r_l2_svc succeeds, as a condition on numbers known
 before it starts: the column's xj_sq against the curvature H.
 */
module L1rSearch {
  import opened LinAlg
  import opened Sparse
  import opened RunHistory
  import opened KinkedParabola
  import opened L1rObjective
  import opened L1rL2Svc
  import opened L1rOptimal

  lemma {:induction false} HalvedIsProduct(x: real, k: nat)
    ensures Halved(x, k) == Halved(1.0, k) * x && 0.0 < Halved(1.0, k) <= 1.0
  {
    if k > 0 {
      HalvedIsProduct(x, k - 1);
      assert (0.5 * Halved(1.0, k - 1)) * x == 0.5 * (Halved(1.0, k - 1) * x);
    }
  }

  ghost function ColumnSquare(s: Setup, j: nat): real
    requires Valid(s) && j < |s.cols|
  {
    NodeSquare(s.C, s.cols[j], |s.cols[j]|)
  }

  /** xj_sq <= 0.99 * 2^k * H, without a division. */
  ghost predicate Steady(s: Setup, w: Vec, j: nat, k: nat)
    requires Valid(s) && |w| == |s.cols| && j < |w|
  {
    ColumnSquare(s, j) * Halved(1.0, k) <= 0.99 * Curve(s, w, j)
  }

  /** Then k halvings are enough. */
  lemma SteadyFalls(s: Setup, w: Vec, j: nat, k: nat)
    requires Valid(s) && |w| == |s.cols| && j < |w| && Steady(s, w, j, k)
    ensures Falls(s, w, j, k)
  {
    hide *;
    var d, t, G, H := Newton(s, w, j), Halved(1.0, k), Slope(s, w, j), Curve(s, w, j);
    var P, q := Promise(s, w, j), ColumnSquare(s, j);
    var e, f := Halved(d, k), Halved(P, k);
    HalvedIsProduct(d, k);
    HalvedIsProduct(P, k);
    ColumnSquareIs(s, j);
    BelowParabola(s, w, j, e);
    TiltConvexAt(G, w[j], d, t, e);
    PromiseFalls(s, w, j, G, H, d, P);
    SteadyIs(s, w, j, k, q, t, H);
    var tilt := Tilt(G, 1.0, w[j], w[j] + e);
    Enough(P, H, d, t, q, tilt, Tilt(G, 1.0, w[j], w[j] + d), e, f);
    FallsIs(s, w, j, k, e, f, tilt, q);
  }

  lemma SteadyIs(s: Setup, w: Vec, j: nat, k: nat, q: real, t: real, H: real)
    requires Valid(s) && |w| == |s.cols| && j < |w| && Steady(s, w, j, k)
    requires q == ColumnSquare(s, j) && t == Halved(1.0, k) && H == Curve(s, w, j)
    ensures q * t <= 0.99 * H
  {
    hide Valid, ColumnSquare, Halved, Curve;
  }

  lemma FallsIs(s: Setup, w: Vec, j: nat, k: nat, e: real, f: real, tilt: real, q: real)
    requires Valid(s) && |w| == |s.cols| && j < |w|
    requires e == Halved(Newton(s, w, j), k) && f == Halved(Promise(s, w, j), k)
    requires Objective(s, Moved(w, j, e)) <= Objective(s, w) + tilt + q * (e * e) && tilt + q * (e * e) <= 0.01 * f
    ensures Falls(s, w, j, k)
  {
    hide Valid, Objective, Halved, Newton, Promise, Moved;
  }

  lemma PromiseFalls(s: Setup, w: Vec, j: nat, G: real, H: real, d: real, P: real)
    requires Valid(s) && |w| == |s.cols| && j < |w| && G == Slope(s, w, j) && H == Curve(s, w, j)
    requires d == Newton(s, w, j) && P == Promise(s, w, j)
    ensures P == Tilt(G, 1.0, w[j], w[j] + d) && P <= -(H * (d * d))
  {
    hide Valid, Slope, Curve, LinAlg.Abs, Direction, Tilt;
    NewtonIs(s, w, j, G, H);
    DirectionFalls(w[j], G, H);
    PromiseIsTilt(G, w[j], d, P);
  }

  lemma TiltConvexAt(G: real, w: real, d: real, t: real, e: real)
    requires 0.0 <= t <= 1.0 && e == t * d
    ensures Tilt(G, 1.0, w, w + e) <= t * Tilt(G, 1.0, w, w + d)
  {
    hide Tilt;
    TiltConvex(G, w, d, t);
    assert w + e == w + t * d;
  }

  lemma ColumnSquareIs(s: Setup, j: nat)
    requires Valid(s) && j < |s.cols|
    ensures |s.C| == s.l && ValidRow(s.cols[j], |s.C|) && ColumnSquare(s, j) == NodeSquare(s.C, s.cols[j], |s.cols[j]|)
  {
  }

  lemma PromiseIsTilt(G: real, w: real, d: real, P: real)
    requires P == Abs(w + d) - Abs(w) + G * d
    ensures P == Tilt(G, 1.0, w, w + d)
  {
    assert G * (w + d - w) == G * d;
  }

  lemma Enough(P: real, H: real, d: real, t: real, q: real, tilt: real, full: real, e: real, f: real)
    requires 0.0 < t <= 1.0 && full == P && tilt <= t * full && P <= -(H * (d * d)) && q * t <= 0.99 * H
    requires e == t * d && f == t * P
    ensures tilt + q * (e * e) <= 0.01 * f
  {
    var dd := Square(d);
    var a := Product(0.99 * H - q * t, dd);
    assert (0.99 * H - q * t) * dd == 0.99 * (H * dd) - q * t * dd;
    assert 0.99 * P + q * t * dd <= 0.0;
    var b := Product(t, -(0.99 * P + q * t * dd));
    assert t * -(0.99 * P + q * t * dd) == -(0.99 * (t * P)) - t * (q * t * dd);
    assert t * (q * t * dd) == q * (e * e) by { assert e * e == t * t * dd; }
  }

  /** So a line search stops at the latest at the first k with xj_sq <= 0.99 * 2^k * H. */
  lemma StopsBy(s: Setup, w: Vec, w': Vec, m: Mark<nat>, k: nat)
    requires Step(s, w, w', m) && !m.shrunk && k < MAX_LINE_SEARCH && Steady(s, w, m.i, k)
    ensures m.note <= k && !Exhausted(m)
  {
    hide Newton, Violation, Falls, Steady, Promise;
    SteadyFalls(s, w, m.i, k);
  }

  /** At every visit of the run 2^-19 of xj_sq is at most 0.99 H. */
  ghost predicate Tame(s: Setup, passes: seq<History<Vec, nat>>) {
    forall p, k :: 0 <= p < |passes| && 0 <= k < |passes[p].marks| ==> TameAt(s, passes[p], k)
  }

  ghost predicate TameAt(s: Setup, h: History<Vec, nat>, k: nat) {
    k < |h.marks| && k < |h.points| && Valid(s) && |h.points[k]| == |s.cols| && 0 <= h.marks[k].i < |s.cols|
    && (!h.marks[k].shrunk ==> Steady(s, h.points[k], h.marks[k].i, MAX_LINE_SEARCH - 1))
  }

  lemma TameIsUnexhausted(s: Setup, passes: seq<History<Vec, nat>>, start: Vec, end: Vec)
    requires Linked(Steps(s), passes, start, end) && Tame(s, passes)
    ensures Unexhausted(passes)
  {
    hide Step, Steady, Valid, Exhausted;
    forall p, k | 0 <= p < |passes| && 0 <= k < |passes[p].marks| ensures !Exhausted(passes[p].marks[k]) {
      var h := passes[p];
      assert Runs(Steps(s), h) && TameAt(s, h, k);
      assert Steps(s)(h.points[k], h.points[k + 1], h.marks[k]);
      if h.marks[k].shrunk {
        ShrunkIsNot(h.marks[k]);
      } else {
        StopsBy(s, h.points[k], h.points[k + 1], h.marks[k], MAX_LINE_SEARCH - 1);
      }
    }
  }

  lemma ShrunkIsNot(m: Mark<nat>)
    requires m.shrunk
    ensures !Exhausted(m)
  {
  }

  /** A tame run never raises the objective. */
  lemma TameRunDescends(s: Setup, passes: seq<History<Vec, nat>>, start: Vec, end: Vec, p: nat, j: nat, q: nat, k: nat)
    requires Linked(Steps(s), passes, start, end) && q < |passes| && (p < q || (p == q && j <= k)) && Tame(s, passes)
    requires j < |passes[p].points| && k < |passes[q].points| && Valid(s)
    requires |passes[p].points[j]| == |s.cols| == |passes[q].points[k]|
    ensures Objective(s, passes[q].points[k]) <= Objective(s, passes[p].points[j])
  {
    hide *;
    TameIsUnexhausted(s, passes, start, end);
    RunDescends(s, passes, start, end, p, j, q, k);
  }

  /** A condition on the data alone: since H is at least 1e-12, every run is tame when all xj_sq are at most 5e-7. */
  lemma SmallColumnsAreTame(s: Setup, passes: seq<History<Vec, nat>>, start: Vec, end: Vec)
    requires Linked(Steps(s), passes, start, end) && Valid(s)
    requires forall j :: 0 <= j < |s.cols| ==> ColumnSquare(s, j) <= 0.0000005
    ensures Tame(s, passes)
  {
    hide Step, Valid, ColumnSquare, Halved, Curve;
    forall p, k | 0 <= p < |passes| && 0 <= k < |passes[p].marks| ensures TameAt(s, passes[p], k) {
      var h := passes[p];
      assert Runs(Steps(s), h);
      assert Steps(s)(h.points[k], h.points[k + 1], h.marks[k]);
      StepShape(s, h.points[k], h.points[k + 1], h.marks[k]);
      SmallIsSteady(ColumnSquare(s, h.marks[k].i), Halved(1.0, 19), Curve(s, h.points[k], h.marks[k].i));
      CurveFloor(s, h.points[k], h.marks[k].i);
    }
  }

  lemma CurveFloor(s: Setup, w: Vec, j: nat)
    requires Valid(s) && |w| == |s.cols| && j < |w|
    ensures Curve(s, w, j) >= 0.000000000001 && 0.0 < Halved(1.0, 19) <= 0.0000019074
  {
    hide NodeCurve, Residual;
    HalvedIsProduct(1.0, 19);
    assert Halved(1.0, 10) == 1.0 / 1024.0;
    assert Halved(1.0, 19) == 1.0 / 524288.0;
  }

  lemma SmallIsSteady(q: real, t: real, H: real)
    ensures q <= 0.0000005 && 0.0 < t <= 0.0000019074 && H >= 0.000000000001 ==> q * t <= 0.99 * H
  {
    if q <= 0.0000005 && 0.0 < t <= 0.0000019074 && H >= 0.000000000001 {
      var p := Product(0.0000005 - q, t);
      assert (0.0000005 - q) * t == 0.0000005 * t - q * t;
    }
  }
}
