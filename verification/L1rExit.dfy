/**
 What the stopping measure of solve_l1r_l2_svc is worth: the violations of a pass
 over all weights sum to zero if and only if the pass starts at a global minimiser;
 in general their sum and their maximum bound how much better any weights can be.
 */
module L1rExit {
  import opened LinAlg
  import opened ExtReal
  import opened RunHistory
  import opened PassDrift
  import opened KinkedParabola
  import opened L1rObjective
  import opened L1rL2Svc
  import opened L1rOptimal

  lemma ViolationNonNeg(s: Setup, w: Vec, j: nat)
    requires Valid(s) && |w| == |s.cols| && j < |w|
    ensures Violation(s, w, j) >= 0.0
  {
    hide Slope;
  }

  /** Without a violation the Newton direction is zero. */
  lemma NoDirection(s: Setup, w: Vec, j: nat)
    requires Valid(s) && |w| == |s.cols| && j < |w| && Violation(s, w, j) == 0.0
    ensures Newton(s, w, j) == 0.0
  {
    hide Slope, Curve;
    var G, H := Slope(s, w, j), Curve(s, w, j);
    if w[j] > 0.0 { var p := Product(H, w[j]); }
    if w[j] < 0.0 { var p := Product(H, -w[j]); assert H * -w[j] == -(H * w[j]); }
  }

  lemma NoMove(s: Setup, w: Vec, w': Vec, m: Mark<nat>)
    requires Step(s, w, w', m) && Violation(s, w, m.i) == 0.0
    ensures w' == w
  {
    hide Violation, Newton, Searched;
    NoDirection(s, w, m.i);
    assert Abs(0.0) < 0.000000000001;
  }

  lemma {:induction false} StandsStill(s: Setup, h: History<Vec, nat>, k: nat)
    requires Runs(Steps(s), h) && k < |h.points|
    requires forall j :: 0 <= j < k ==> ViolationAt(s)(h.points[j], h.marks[j].i) == 0.0
    ensures h.points[k] == h.points[0]
  {
    hide Step, Violation;
    if k > 0 {
      StandsStill(s, h, k - 1);
      var w, w', m := h.points[k - 1], h.points[k], h.marks[k - 1];
      assert Steps(s)(w, w', m);
      StepShape(s, w, w', m);
      NoMove(s, w, w', m);
    }
  }

  ghost predicate Minimal(s: Setup, w: Vec) {
    Valid(s) && |w| == |s.cols| && forall z: Vec :: |z| == |w| ==> Objective(s, z) >= Objective(s, w)
  }

  lemma ZeroSumIff(s: Setup, h: History<Vec, nat>)
    requires Runs(Steps(s), h) && Valid(s) && VisitsOnce(h, Everything(|s.cols|)) && |h.points[0]| == |s.cols|
    ensures SumOver(ViolationAt(s), h) == 0.0 <==> Minimal(s, h.points[0])
  {
    hide Step, Objective, Violation, SumOver;
    var w, f := h.points[0], ViolationAt(s);
    OptimalIff(s, w);
    forall k | 0 <= k < |h.marks| ensures f(h.points[k], h.marks[k].i) >= 0.0 {
      if |h.points[k]| == |s.cols| && 0 <= h.marks[k].i < |s.cols| { ViolationNonNeg(s, h.points[k], h.marks[k].i); }
    }
    SumZeroIff(f, h);
    if forall k :: 0 <= k < |h.marks| ==> f(h.points[k], h.marks[k].i) == 0.0 {
      forall j | 0 <= j < |w| ensures Violation(s, w, j) == 0.0 {
        var k := VisitOf(h, Everything(|s.cols|), j);
        StandsStill(s, h, k);
        assert f(h.points[k], h.marks[k].i) == 0.0;
      }
    } else if Minimal(s, w) {
      AllZero(s, h, |h.marks|);
    }
  }

  lemma {:induction false} AllZero(s: Setup, h: History<Vec, nat>, n: nat)
    requires Runs(Steps(s), h) && Valid(s) && |h.points[0]| == |s.cols| && n <= |h.marks|
    requires forall j :: 0 <= j < |s.cols| ==> Violation(s, h.points[0], j) == 0.0
    ensures forall k :: 0 <= k < n ==> ViolationAt(s)(h.points[k], h.marks[k].i) == 0.0
  {
    hide Step, Violation;
    if n > 0 {
      AllZero(s, h, n - 1);
      StandsStill(s, h, n - 1);
      assert Steps(s)(h.points[n - 1], h.points[n], h.marks[n - 1]);
      StepShape(s, h.points[n - 1], h.points[n], h.marks[n - 1]);
    }
  }

  // ------------------------------------------------------- how much is left to gain

  lemma ViolationIs(s: Setup, w: Vec, j: nat)
    requires Valid(s) && |w| == |s.cols| && j < |w|
    ensures Violation(s, w, j) == Viol(Slope(s, w, j), 1.0, w[j], PosInf)
  {
    hide Slope;
  }

  /** The Newton direction is at most the violation over the curvature. */
  lemma DirectionSize(s: Setup, w: Vec, j: nat)
    requires Valid(s) && |w| == |s.cols| && j < |w|
    ensures Curve(s, w, j) * Abs(Newton(s, w, j)) <= Violation(s, w, j)
  {
    hide Slope, Curve, Violation, Direction, Viol, LinAlg.Abs;
    var G, H, d := Slope(s, w, j), Curve(s, w, j), Newton(s, w, j);
    DirectionFalls(w[j], G, H);
    DirectionPays(G, H, w[j], d, w[j] + d);
    ViolationIs(s, w, j);
    MoveSize(G, H, 1.0, w[j], PosInf, w[j] + d, Violation(s, w, j));
    assert w[j] + d - w[j] == d;
  }

  lemma DirectionPays(G: real, H: real, w: real, d: real, x: real)
    requires Abs(w + d) - Abs(w) + G * d <= -(H * (d * d)) && x == w + d
    ensures Tilt(G, 1.0, w, x) + H * ((x - w) * (x - w)) <= 0.0
  {
    hide LinAlg.Abs;
    assert x - w == d;
  }

  lemma {:induction false} HalvedSize(d: real, k: nat)
    ensures Abs(Halved(d, k)) <= Abs(d)
  {
    if k > 0 { HalvedSize(d, k - 1); }
  }

  /** A step changes one weight, by at most the length of the Newton direction. */
  lemma StepSize(s: Setup, w: Vec, w': Vec, m: Mark<nat>) returns (d: real)
    requires Step(s, w, w', m)
    ensures Valid(s) && |w| == |w'| == |s.cols| && 0 <= m.i < |w| && w' == Moved(w, m.i, d)
    ensures Abs(d) <= Abs(Newton(s, w, m.i))
  {
    hide Newton, Violation, Halved, Falls, Promise;
    if w' == w {
      d := 0.0;
      assert w == w[m.i := w[m.i] + 0.0];
    } else {
      d := Halved(Newton(s, w, m.i), m.note);
      HalvedSize(Newton(s, w, m.i), m.note);
    }
  }

  // ------------------------------------------------------------ how slopes move

  /** sum_{n<k} |u_n| C_n |v_n| */
  ghost function CrossTo(u: Vec, C: Vec, v: Vec, k: nat): real
    requires k <= |u| && k <= |C| && k <= |v|
  {
    if k == 0 then 0.0 else CrossTo(u, C, v, k - 1) + Cross(u[k - 1], C[k - 1], v[k - 1])
  }

  /** C max(0, b) */
  ghost function PullOf(c: real, b: real): real {
    if b > 0.0 then c * b else 0.0
  }

  /** It moves by at most C times the move of b. */
  lemma PullLipschitz(c: real, b: real, b': real)
    requires c >= 0.0
    ensures Abs(PullOf(c, b') - PullOf(c, b)) <= c * Abs(b' - b)
  {
    var p := Product(c, Abs(b' - b) - (b' - b));
    var q := Product(c, Abs(b' - b) + (b' - b));
    assert c * (Abs(b' - b) - (b' - b)) == c * Abs(b' - b) - c * b' + c * b;
    assert c * (Abs(b' - b) + (b' - b)) == c * Abs(b' - b) + c * b' - c * b;
    if b <= 0.0 { var r := Product(c, -b); assert c * -b == -(c * b); }
    if b' <= 0.0 { var r := Product(c, -b'); assert c * -b' == -(c * b'); }
    var t := Product(c, Abs(b' - b));
  }

  ghost function Cross(u: real, c: real, v: real): real {
    Abs(u) * (c * Abs(v))
  }

  lemma CrossTerm(u: real, c: real, v: real, d: real, e: real, g: real)
    requires c >= 0.0 && e == -d * v && Abs(g) <= c * Abs(e)
    ensures Abs(u * g) <= Abs(d) * Cross(u, c, v)
  {
    hide LinAlg.Abs;
    AbsTimes(v, -d, d, e);
    AbsTimes(u, g, g, u * g);
    Regroup(Abs(u), c, Abs(d), Abs(v), Abs(g), Abs(e));
  }

  lemma Regroup(u: real, c: real, d: real, v: real, g: real, b: real)
    requires b == v * d && u >= 0.0 && g <= c * b
    ensures u * g <= d * (u * (c * v))
  {
    var p := Product(u, c * b - g);
    assert c * b == d * (c * v);
    assert u * (d * (c * v) - g) == d * (u * (c * v)) - u * g;
  }

  /** A move of b by -d v moves u times the pull by at most |d| |u| C |v|. */
  lemma EntryMoves(u: real, c: real, v: real, d: real, b: real, b': real, g: real, g': real)
    requires c >= 0.0 && b' == b + -d * v && g == PullOf(c, b) && g' == PullOf(c, b')
    ensures Abs(u * g' - u * g) <= Abs(d) * Cross(u, c, v)
  {
    hide LinAlg.Abs, PullOf, Cross;
    PullLipschitz(c, b, b');
    CrossTerm(u, c, v, d, b' - b, g' - g);
    assert u * (g' - g) == u * g' - u * g;
  }

  /** b' is b after a move of d along the column v. */
  ghost predicate AfterMove(C: Vec, b: Vec, b': Vec, v: Vec, d: real) {
    && |C| == |b| == |b'| == |v| && b' == Axpy(b, -d, v)
    && forall n :: 0 <= n < |b| ==> C[n] >= 0.0
  }

  ghost predicate IsPull(C: Vec, b: Vec, g: Vec) {
    |C| == |b| && g == Pull(C, b)
  }

  lemma EntryOf(C: Vec, b: Vec, b': Vec, v: Vec, d: real, g: Vec, g': Vec, n: nat)
    requires AfterMove(C, b, b', v, d) && IsPull(C, b, g) && IsPull(C, b', g') && n < |b|
    ensures |C| == |b| == |b'| == |v| == |g| == |g'| && C[n] >= 0.0 && b'[n] == b[n] + -d * v[n]
    ensures g[n] == PullOf(C[n], b[n]) && g'[n] == PullOf(C[n], b'[n])
  {
  }

  lemma MoveShape(C: Vec, b: Vec, b': Vec, v: Vec, d: real, g: Vec, g': Vec)
    requires AfterMove(C, b, b', v, d) && IsPull(C, b, g) && IsPull(C, b', g')
    ensures |C| == |b| == |b'| == |v| == |g| == |g'|
  {
  }

  lemma StepOf(u: Vec, C: Vec, g: Vec, v: Vec, n: nat)
    requires |u| == |C| == |g| == |v| && n < |u|
    ensures DotTo(u, g, n + 1) == DotTo(u, g, n) + u[n] * g[n]
    ensures CrossTo(u, C, v, n + 1) == CrossTo(u, C, v, n) + Cross(u[n], C[n], v[n])
  {
  }

  lemma {:induction false} PullMoves(u: Vec, C: Vec, b: Vec, b': Vec, v: Vec, d: real, g: Vec, g': Vec, k: nat)
    requires AfterMove(C, b, b', v, d) && IsPull(C, b, g) && IsPull(C, b', g') && k <= |b| == |u|
    ensures |C| == |b| == |b'| == |v| == |g| == |g'|
    ensures Abs(DotTo(u, g', k) - DotTo(u, g, k)) <= Abs(d) * CrossTo(u, C, v, k)
  {
    hide AfterMove, IsPull, LinAlg.Abs, Cross;
    MoveShape(C, b, b', v, d, g, g');
    if k == 0 {
      NoMoves(d);
    } else {
      PullMoves(u, C, b, b', v, d, g, g', k - 1);
      PullStep(u, C, b, b', v, d, g, g', k - 1);
    }
  }

  lemma PullStep(u: Vec, C: Vec, b: Vec, b': Vec, v: Vec, d: real, g: Vec, g': Vec, n: nat)
    requires AfterMove(C, b, b', v, d) && IsPull(C, b, g) && IsPull(C, b', g') && n < |b| == |u|
    requires |C| == |b| == |b'| == |v| == |g| == |g'|
    requires Abs(DotTo(u, g', n) - DotTo(u, g, n)) <= Abs(d) * CrossTo(u, C, v, n)
    ensures Abs(DotTo(u, g', n + 1) - DotTo(u, g, n + 1)) <= Abs(d) * CrossTo(u, C, v, n + 1)
  {
    hide *;
    EntryOf(C, b, b', v, d, g, g', n);
    EntryMoves(u[n], C[n], v[n], d, b[n], b'[n], g[n], g'[n]);
    StepOf(u, C, g, v, n);
    StepOf(u, C, g', v, n);
    AbsSum(DotTo(u, g, n), DotTo(u, g', n), u[n] * g[n], u[n] * g'[n], Abs(d), CrossTo(u, C, v, n),
           Cross(u[n], C[n], v[n]), DotTo(u, g, n + 1), DotTo(u, g', n + 1), CrossTo(u, C, v, n + 1));
  }

  lemma NoMoves(d: real)
    ensures Abs(0.0 - 0.0) <= Abs(d) * 0.0
  {
  }

  lemma AbsSum(a: real, a': real, x: real, x': real, d: real, p: real, q: real, r: real, r': real, c: real)
    requires Abs(a' - a) <= d * p && Abs(x' - x) <= d * q && r == a + x && r' == a' + x' && c == p + q
    ensures Abs(r' - r) <= d * c
  {
    assert d * (p + q) == d * p + d * q;
  }

  /** 2 sum_n |x_in| C_n |x_jn|, by which the slope of weight i reacts to weight j at most. */
  ghost function Reaction(s: Setup, i: nat, j: nat): real
    requires Valid(s) && i < |s.cols| && j < |s.cols|
  {
    2.0 * CrossTo(Columns(s)[i], s.C, Columns(s)[j], s.l)
  }

  lemma SlopeMoves(s: Setup, w: Vec, j: nat, d: real, i: nat)
    requires Valid(s) && |w| == |s.cols| && i < |w| && j < |w|
    ensures |Moved(w, j, d)| == |w| && Abs(Slope(s, Moved(w, j, d), i) - Slope(s, w, i)) <= Abs(d) * Reaction(s, i, j)
  {
    hide Slope, Residual, Pull, LinAlg.Abs, CrossTo, Columns, LinAlg.DotTo, LinAlg.Axpy;
    var V, b := Columns(s), Residual(s, w);
    MovedIs(w, j, d);
    var w' := Moved(w, j, d);
    var b' := Residual(s, w');
    ColumnSlope(s, w, i);
    ColumnSlope(s, w', i);
    ResidualMoves(s, w, j, d);
    PullMoves(V[i], s.C, b, b', V[j], d, Pull(s.C, b), Pull(s.C, b'), s.l);
    TwiceAbs(Slope(s, w', i), Slope(s, w, i), Dot(V[i], Pull(s.C, b')), Dot(V[i], Pull(s.C, b)), Abs(d),
             CrossTo(V[i], s.C, V[j], s.l));
  }

  lemma TwiceAbs(g': real, g: real, q': real, q: real, d: real, c: real)
    requires g' == -2.0 * q' && g == -2.0 * q && Abs(q' - q) <= d * c
    ensures Abs(g' - g) <= d * (2.0 * c)
  {
    assert d * (2.0 * c) == 2.0 * (d * c);
  }

  // -------------------------------------------------------------------- the pass

  /** 2 sum_n |x_in| C_n |x_jn| <= K H_j at the point w, for all i and j */
  ghost predicate Coupled(s: Setup, K: real, w: Vec) {
    Valid(s) && |w| == |s.cols| && K >= 0.0 && forall i, j :: 0 <= i < |w| && 0 <= j < |w| ==>
      Reaction(s, i, j) <= K * Curve(s, w, j)
  }

  /** Some K couples the weights at every point: H_j is at least 1e-12. */
  lemma SomeCoupling(s: Setup) returns (K: real)
    requires Valid(s)
    ensures forall w: Vec :: |w| == |s.cols| ==> Coupled(s, K, w)
  {
    hide Reaction, Curve;
    var n := |s.cols|;
    var f := (i: int, j: int) => if 0 <= i < n && 0 <= j < n then Reaction(s, i, j) else 0.0;
    var R := SomeBoundOn(f, n, n);
    K := R * 1000000000000.0;
    forall w: Vec | |w| == |s.cols| ensures Coupled(s, K, w) {
      forall i, j | 0 <= i < |w| && 0 <= j < |w| ensures Reaction(s, i, j) <= K * Curve(s, w, j) {
        assert f(i, j) <= R;
        CurveFloor(s, w, j);
        OverFloor(Reaction(s, i, j), R, Curve(s, w, j));
      }
    }
  }

  lemma CurveFloor(s: Setup, w: Vec, j: nat)
    requires Valid(s) && |w| == |s.cols| && j < |w|
    ensures Curve(s, w, j) >= 0.000000000001
  {
  }

  lemma OverFloor(r: real, R: real, H: real)
    requires r <= R && R >= 0.0 && H >= 0.000000000001
    ensures r <= R * 1000000000000.0 * H
  {
    var p := Product(R, 1000000000000.0 * H - 1.0);
    assert R * (1000000000000.0 * H - 1.0) == R * 1000000000000.0 * H - R;
  }

  lemma ReactionAt(s: Setup, K: real, w: Vec, i: nat, j: nat)
    requires Coupled(s, K, w) && i < |w| && j < |w|
    ensures Valid(s) && |w| == |s.cols| && K >= 0.0 && Reaction(s, i, j) <= K * Curve(s, w, j)
  {
    hide Reaction, Curve;
  }

  /** The visit of one weight moves every slope by at most K times the violation found. */
  lemma ShiftBound(s: Setup, w: Vec, w': Vec, m: Mark<nat>, i: nat, K: real)
    requires Step(s, w, w', m) && Coupled(s, K, w) && i < |w|
    ensures Valid(s) && |w'| == |w| == |s.cols| && 0 <= m.i < |w| && (i != m.i ==> w'[i] == w[i])
    ensures Abs(Slope(s, w', i) - Slope(s, w, i)) <= K * Violation(s, w, m.i)
  {
    hide *;
    var d := StepSize(s, w, w', m);
    MovedIs(w, m.i, d);
    SlopeMoves(s, w, m.i, d, i);
    DirectionSize(s, w, m.i);
    ReactionAt(s, K, w, i, m.i);
    var H, n := Curve(s, w, m.i), Abs(Newton(s, w, m.i));
    AbsNonNeg(d);
    Shorter(H, Abs(d), n, Violation(s, w, m.i));
    Chain(Abs(d), Reaction(s, i, m.i), K, H, Violation(s, w, m.i));
  }

  lemma Shorter(H: real, e: real, n: real, v: real)
    requires H > 0.0 && e <= n && H * n <= v
    ensures H * e <= v
  {
    var p := Product(H, n - e);
    assert H * (n - e) == H * n - H * e;
  }

  ghost function SlopeAt(s: Setup): (Vec, int) -> real {
    (w, j) => if Valid(s) && |w| == |s.cols| && 0 <= j < |w| then Slope(s, w, j) else 0.0
  }

  lemma ValuesAt(s: Setup, w: Vec, j: nat)
    requires Valid(s) && |w| == |s.cols| && j < |w|
    ensures SlopeAt(s)(w, j) == Slope(s, w, j) && ViolationAt(s)(w, j) == Violation(s, w, j) >= 0.0
  {
    hide Slope, Valid, Violation;
    ViolationNonNeg(s, w, j);
  }

  /** K couples the weights at every point of the pass. */
  ghost predicate PassCoupled(s: Setup, K: real, h: History<Vec, nat>) {
    |h.points| > 0 && forall k :: 0 <= k < |h.points| ==> Coupled(s, K, h.points[k])
  }

  lemma CoupledAt(s: Setup, K: real, h: History<Vec, nat>, k: nat)
    requires PassCoupled(s, K, h) && k < |h.points|
    ensures Coupled(s, K, h.points[k]) && Valid(s) && |h.points[k]| == |s.cols| && K >= 0.0
  {
    hide Reaction, Curve;
  }

  lemma StepAt(s: Setup, h: History<Vec, nat>, k: nat)
    requires Runs(Steps(s), h) && k < |h.marks|
    ensures |h.points| == |h.marks| + 1 && Step(s, h.points[k], h.points[k + 1], h.marks[k])
  {
    hide Step;
    assert Steps(s)(h.points[k], h.points[k + 1], h.marks[k]);
  }

  lemma RunsShape(s: Setup, h: History<Vec, nat>)
    requires Runs(Steps(s), h)
    ensures |h.points| == |h.marks| + 1 && Total(ViolationAt(s), h, 0) == 0.0
  {
  }

  lemma StepShifts(s: Setup, h: History<Vec, nat>, i: nat, K: real, k: nat)
    requires Runs(Steps(s), h) && PassCoupled(s, K, h) && i < |s.cols| && k < |h.marks|
    ensures |h.points| == |h.marks| + 1 && Shifts(SlopeAt(s), ViolationAt(s), h, i, K, k)
    ensures |h.points[k]| == |h.points[k + 1]| == |s.cols| && 0 <= h.marks[k].i < |s.cols|
    ensures h.marks[k].i != i ==> h.points[k + 1][i] == h.points[k][i]
  {
    hide *;
    RunsShape(s, h);
    StepAt(s, h, k);
    CoupledAt(s, K, h, k);
    var w, w', m := h.points[k], h.points[k + 1], h.marks[k];
    ShiftBound(s, w, w', m, i, K);
    ValuesAt(s, w, m.i);
    ValuesAt(s, w, i);
    ValuesAt(s, w', i);
    ShowShifts(SlopeAt(s), ViolationAt(s), h, i, K, k);
  }

  lemma {:induction false} NotMoved(s: Setup, h: History<Vec, nat>, i: nat, K: real, n: nat)
    requires Runs(Steps(s), h) && PassCoupled(s, K, h) && i < |s.cols| && n < |h.points|
    requires forall k :: 0 <= k < n ==> h.marks[k].i != i
    ensures |h.points[n]| == |h.points[0]| == |s.cols| && h.points[n][i] == h.points[0][i]
  {
    hide Steps, PassCoupled, Shifts;
    CoupledAt(s, K, h, 0);
    if n > 0 {
      NotMoved(s, h, i, K, n - 1);
      StepShifts(s, h, i, K, n - 1);
    }
  }

  /** Until its visit, the slope of a weight moves by at most K times the violations found. */
  lemma SlopeDrift(s: Setup, h: History<Vec, nat>, i: nat, K: real, n: nat)
    requires Runs(Steps(s), h) && PassCoupled(s, K, h) && i < |s.cols| && n < |h.points|
    requires forall k :: 0 <= k < n ==> h.marks[k].i != i
    ensures Valid(s) && |h.points| == |h.marks| + 1
    ensures |h.points[n]| == |h.points[0]| == |s.cols| && h.points[n][i] == h.points[0][i]
    ensures Abs(Slope(s, h.points[0], i) - Slope(s, h.points[n], i)) <= K * Total(ViolationAt(s), h, n)
  {
    hide *;
    CoupledAt(s, K, h, n);
    NotMoved(s, h, i, K, n);
    RunsShape(s, h);
    forall k | 0 <= k < n ensures Shifts(SlopeAt(s), ViolationAt(s), h, i, K, k) { StepShifts(s, h, i, K, k); }
    DriftFromStart(SlopeAt(s), ViolationAt(s), h, i, K, n);
    ValuesAt(s, h.points[0], i);
    ValuesAt(s, h.points[n], i);
  }

  /** What can be gained in weight i from the start of a pass over everything. */
  lemma StartTilt(s: Setup, h: History<Vec, nat>, K: real, i: nat, z: real, total: real, largest: real)
    requires Runs(Steps(s), h) && VisitsOnce(h, Everything(|s.cols|)) && PassCoupled(s, K, h)
    requires Measured(ViolationAt(s), h, total, largest) && i < |s.cols|
    ensures Valid(s) && |h.points[0]| == |s.cols|
    ensures Tilt(Slope(s, h.points[0], i), 1.0, h.points[0][i], z)
         >= -(Slack(K, total, largest) * Abs(z - h.points[0][i]))
  {
    hide *;
    RunsShape(s, h);
    var k := VisitOf(h, Everything(|s.cols|), i);
    SlopeDrift(s, h, i, K, k);
    var a, b := h.points[0], h.points[k];
    ViolationIs(s, b, i);
    ValuesAt(s, b, i);
    CoupledAt(s, K, h, k);
    FoundNonNeg(s, h, K);
    MeasuredAt(ViolationAt(s), h, k, total, largest);
    NoBox(b[i]);
    NoBox(z);
    TiltFromStart(Slope(s, a, i), Slope(s, b, i), 1.0, b[i], PosInf, z, Violation(s, b, i), K,
                  Total(ViolationAt(s), h, k), total, largest);
  }

  lemma NoBox(z: real)
    ensures InBox(z, PosInf)
  {
  }

  lemma FoundNonNeg(s: Setup, h: History<Vec, nat>, K: real)
    requires Runs(Steps(s), h) && PassCoupled(s, K, h)
    ensures |h.points| == |h.marks| + 1
    ensures forall k :: 0 <= k < |h.marks| ==> ViolationAt(s)(h.points[k], h.marks[k].i) >= 0.0
  {
    hide *;
    RunsShape(s, h);
    forall k | 0 <= k < |h.marks| ensures ViolationAt(s)(h.points[k], h.marks[k].i) >= 0.0 {
      CoupledAt(s, K, h, k);
      StepAt(s, h, k);
      StepShape(s, h.points[k], h.points[k + 1], h.marks[k]);
      ValuesAt(s, h.points[k], h.marks[k].i);
    }
  }

  lemma {:induction false} TiltAbove(s: Setup, h: History<Vec, nat>, K: real, a: Vec, z: Vec, total: real,
                                     largest: real, k: nat)
    requires Runs(Steps(s), h) && VisitsOnce(h, Everything(|s.cols|)) && PassCoupled(s, K, h) && a == h.points[0]
    requires Measured(ViolationAt(s), h, total, largest) && Valid(s) && |a| == |z| == |s.cols| && k <= |a|
    ensures TiltTo(s, a, z, k) >= -(Slack(K, total, largest) * Distance(a, z, k))
  {
    hide Slope, Slack, Valid, LinAlg.Abs, PassCoupled, VisitsOnce, Runs, Steps, Measured, KinkedParabola.Tilt;
    if k > 0 {
      TiltAbove(s, h, K, a, z, total, largest, k - 1);
      StartTilt(s, h, K, k - 1, z[k - 1], total, largest);
      Spread(Slack(K, total, largest), Distance(a, z, k - 1), Abs(z[k - 1] - a[k - 1]));
    }
  }

  /** No line search of the pass gave up. */
  ghost predicate Steady(h: History<Vec, nat>) {
    forall k :: 0 <= k < |h.marks| ==> !Exhausted(h.marks[k])
  }

  /**
   No weights are better than the start of a pass over everything by more than (the
   largest violation found + K times their sum) times their distance; and unless a line
   search gave up, the end of the pass is at least as good as its start.
   */
  lemma PassGap(s: Setup, h: History<Vec, nat>, K: real, z: Vec, total: real, largest: real)
    requires Runs(Steps(s), h) && VisitsOnce(h, Everything(|s.cols|)) && PassCoupled(s, K, h)
    requires Measured(ViolationAt(s), h, total, largest) && |z| == |s.cols|
    ensures Valid(s) && |h.points| == |h.marks| + 1 && |h.points[0]| == |h.points[|h.marks|]| == |s.cols|
    ensures Objective(s, z) >= Objective(s, h.points[0]) - (largest + K * total) * Distance(h.points[0], z, |s.cols|)
    ensures Steady(h) ==> Objective(s, h.points[|h.marks|]) <= Objective(s, h.points[0])
  {
    hide Objective, Valid, PassCoupled, VisitsOnce, Runs, Steps, Measured, TiltTo, Steady;
    RunsShape(s, h);
    CoupledAt(s, K, h, 0);
    CoupledAt(s, K, h, |h.marks|);
    TiltAbove(s, h, K, h.points[0], z, total, largest, |s.cols|);
    AboveTangent(s, h.points[0], z);
    if Steady(h) { PassFalls(s, h); }
  }

  lemma PassFalls(s: Setup, h: History<Vec, nat>)
    requires Runs(Steps(s), h) && Steady(h) && Valid(s) && |h.points[0]| == |h.points[|h.marks|]| == |s.cols|
    ensures Objective(s, h.points[|h.marks|]) <= Objective(s, h.points[0])
  {
    hide Objective, Step, Exhausted;
    forall k | 0 <= k < |h.marks| ensures GoodSteps(s)(h.points[k], h.points[k + 1], h.marks[k]) {
      assert Steps(s)(h.points[k], h.points[k + 1], h.marks[k]);
    }
    GoodStepsDescend(s);
    PassDescends(GoodSteps(s), Value(s), h, 0, |h.marks|);
  }

  /**
   What the early exit is worth: no weights are better than the result by more than
   (1 + K) eps Gnorm1_init times their distance from the start of the last pass, unless
   a line search of that pass gave up.
   */
  lemma ExitGap(s: Setup, passes: seq<History<Vec, nat>>, eps: real, end: Vec, K: real, z: Vec)
    requires |z| == |s.cols| && |passes| > 0
    requires IsRun(Steps(s), Closing(ViolationAt(s), passes, eps), Rule(s), passes, |s.cols|, Zeros(|s.cols|), end)
    requires Exits(Closing(ViolationAt(s), passes, eps), passes[|passes| - 1], |s.cols|)
    requires PassCoupled(s, K, passes[|passes| - 1]) && Steady(passes[|passes| - 1])
    ensures Valid(s) && |end| == |s.cols| && |First(passes).marks| <= |First(passes).points|
    ensures |passes[|passes| - 1].points| > 0 && |passes[|passes| - 1].points[0]| == |s.cols|
    ensures Objective(s, z) >= Objective(s, end)
        - (1.0 + K) * (eps * SumOver(ViolationAt(s), First(passes)))
                    * Distance(passes[|passes| - 1].points[0], z, |s.cols|)
  {
    hide *;
    var h, total, largest := ClosingExit(Steps(s), ViolationAt(s), Rule(s), passes, |s.cols|, eps,
                                         Zeros(|s.cols|), end);
    FoundNonNeg(s, h, K);
    LargestInSum(ViolationAt(s), h, total, largest);
    PassGap(s, h, K, z, total, largest);
    CoupledAt(s, K, h, 0);
    WithinFirst(K, total, largest, eps * SumOver(ViolationAt(s), First(passes)), h.points[0], z, Objective(s, z),
                Objective(s, h.points[0]));
  }
}
