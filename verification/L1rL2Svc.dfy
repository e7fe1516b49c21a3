/**
 solve_l1r_l2_svc of linear.cpp: coordinate descent for L1-regularised L2-loss
 support vector classification, with a line search that changes the residual
 vector b while it runs.
 */
module L1rL2Svc {
  import opened LinAlg
  import opened Sparse
  import opened ExtReal
  import opened KinkedParabola
  import opened Permutation
  import opened ActiveSet
  import opened RunHistory
  import opened L1rObjective

  /** b_i = 1 - sum_j w_j y_i x_ij */
  ghost predicate State(s: Setup, w: Vec, b: Vec) {
    Valid(s) && |w| == |s.cols| && b == Residual(s, w)
  }

  // ---------------------------------------------------- gradient and curvature

  ghost function CurveTerm(c: real, t: real, v: real): real {
    if t > 0.0 then c * v * v else 0.0
  }

  /** sum C v^2 over the nodes with b > 0 */
  ghost function NodeCurve(C: Vec, b: Vec, x: Row, k: nat): real
    requires |C| == |b| && ValidRow(x, |b|) && k <= |x|
  {
    if k == 0 then 0.0 else
      var i := x[k - 1].index - 1;
      NodeCurve(C, b, x, k - 1) + CurveTerm(C[i], b[i], x[k - 1].value)
  }

  method Derivatives(C: Vec, b: array<real>, x: Row) returns (Gloss: real, H: real)
    requires |C| == b.Length && ValidRow(x, b.Length)
    ensures Gloss == 2.0 * NodeSlope(C, b[..], x, |x|)
    ensures H == Max(2.0 * NodeCurve(C, b[..], x, |x|), 0.000000000001) && H > 0.0
  {
    Gloss, H := 0.0, 0.0;
    for k := 0 to |x|
      invariant Gloss == NodeSlope(C, b[..], x, k)
      invariant H == NodeCurve(C, b[..], x, k)
    {
      var ind := x[k].index - 1;
      if b[ind] > 0.0 {
        var val := x[k].value;
        var tmp := C[ind] * val;
        Gloss := Gloss - tmp * b[ind];
        H := H + tmp * val;
      }
    }
    Gloss := Gloss * 2.0;
    H := Max(H * 2.0, 0.000000000001);
  }

  /** b and b' are positive at the same instances of the column. */
  ghost predicate SameSides(b: Vec, b': Vec, x: Row)
    requires ValidRow(x, |b|) && |b| == |b'|
  {
    forall k :: 0 <= k < |x| ==> (b[x[k].index - 1] > 0.0 <==> b'[x[k].index - 1] > 0.0)
  }

  /** H is the second derivative: until a residual changes sides the loss is its parabola. */
  lemma {:induction false} SecondOrder(C: Vec, b: Vec, d: real, x: Row, k: nat)
    requires |C| == |b| && ValidRow(x, |b|) && k <= |x| && SameSides(b, Axpy(b, -d, Dense(x, |b|)), x)
    ensures var b' := Axpy(b, -d, Dense(x, |b|));
            NodeLoss(C, b', x, k) == NodeLoss(C, b, x, k) + Bend(NodeSlope(C, b, x, k), NodeCurve(C, b, x, k), d)
  {
    hide HingeSq, SlopeTerm, CurveTerm, Sparse.Dense, LinAlg.Axpy, Bend;
    if k == 0 {
      BendZero(d);
    } else {
      SecondOrder(C, b, d, x, k - 1);
      var i, v := x[k - 1].index - 1, x[k - 1].value;
      MovedEntry(b, d, x, k - 1);
      NodeParabola(C[i], b[i], v, d, Axpy(b, -d, Dense(x, |b|))[i]);
      BendAdds(NodeSlope(C, b, x, k - 1), SlopeTerm(C[i], b[i], v), NodeCurve(C, b, x, k - 1),
               CurveTerm(C[i], b[i], v), d);
    }
  }

  lemma NodeParabola(c: real, t: real, v: real, d: real, t': real)
    requires t' == t - d * v && (t > 0.0 <==> t' > 0.0)
    ensures HingeSq(c, t') == HingeSq(c, t) + Bend(-SlopeTerm(c, t, v), CurveTerm(c, t, v), d)
  {
    hide Bend;
    if t > 0.0 {
      var u := d * v;
      BendOf(c, t, v, d);
      assert c * t' * t' == c * t * t - 2.0 * (c * t * u) + c * (u * u);
    } else {
      assert -SlopeTerm(c, t, v) == -0.0 == 0.0;
      BendZero(d);
    }
  }

  /** xj_sq is this curvature where all residuals of the column are positive, and never less. */
  lemma {:induction false} SquareIsLargestCurve(C: Vec, b: Vec, x: Row, k: nat)
    requires |C| == |b| && ValidRow(x, |b|) && k <= |x| && forall i :: 0 <= i < |C| ==> C[i] >= 0.0
    ensures NodeCurve(C, b, x, k) <= NodeSquare(C, x, k)
    ensures (forall j :: 0 <= j < k ==> b[x[j].index - 1] > 0.0) ==> NodeCurve(C, b, x, k) == NodeSquare(C, x, k)
  {
    if k > 0 {
      SquareIsLargestCurve(C, b, x, k - 1);
      var i, v := x[k - 1].index - 1, x[k - 1].value;
      var vv := Square(v);
      var p := Product(C[i], vv);
      assert C[i] * v * v == C[i] * vv;
    }
  }

  // ------------------------------------------------------------- the direction

  /** The Newton direction of the one-variable model |w+d| + G d + 0.5 H d^2. */
  function Direction(w: real, G: real, H: real): (d: real)
    requires H > 0.0
  {
    if G + 1.0 < H * w then -(G + 1.0) / H
    else if G - 1.0 > H * w then -(G - 1.0) / H
    else -w
  }

  /** It minimises that model, so delta = |w+d| - |w| + G d is at most -H d^2. */
  lemma DirectionFalls(w: real, G: real, H: real)
    requires H > 0.0
    ensures var d := Direction(w, G, H);
            Abs(w + d) - Abs(w) + G * d <= -(H * (d * d))
  {
    hide LinAlg.Abs, Direction, KinkedParabola.Target, KinkedParabola.ClipTo, KinkedParabola.Kinked;
    var d := Direction(w, G, H);
    DirectionIsTarget(w, G, H);
    ClippedTarget(G, H, 1.0, w, PosInf);
    assert InBox(w, PosInf);
    KinkedFalls(G, H, w, d, w + d);
  }

  lemma KinkedFalls(G: real, H: real, w: real, d: real, x: real)
    requires x == w + d
    requires Kinked(G, H, 1.0, w, w) >= Kinked(G, H, 1.0, w, x) + 0.5 * (H * ((w - x) * (w - x)))
    ensures Abs(w + d) - Abs(w) + G * d <= -(H * (d * d))
  {
    hide LinAlg.Abs;
    assert (w - x) * (w - x) == d * d && x - w == d;
  }

  lemma DirectionIsTarget(w: real, G: real, H: real)
    requires H > 0.0
    ensures ClipTo(Target(w, G, H, 1.0), PosInf) == Fin(w + Direction(w, G, H))
  {
    assert -(G + 1.0) / H == -((G + 1.0) / H) && -(G - 1.0) / H == -((G - 1.0) / H);
  }

  // ------------------------------------------------------------ the line search

  lemma AxpyTwice(b: Vec, c: real, e: real, v: Vec)
    requires |b| == |v|
    ensures Axpy(Axpy(b, c, v), e, v) == Axpy(b, c + e, v)
  {
    var l, r := Axpy(Axpy(b, c, v), e, v), Axpy(b, c + e, v);
    forall i | 0 <= i < |b| ensures l[i] == r[i] {
      assert (c + e) * v[i] == c * v[i] + e * v[i];
    }
  }

  lemma Untouched(b: Vec, c: real, x: Row, k: nat)
    requires ValidRow(x, |b|) && k < |x|
    ensures var i := x[k].index - 1;
            AddNodes(b, c, x, k)[i] == b[i] && Axpy(b, c, Dense(x, |b|))[i] == b[i] + c * x[k].value
  {
    hide Sparse.AddNodes;
    var i := x[k].index - 1;
    AddNodesIsAxpy(b, c, x, k);
    DenseEntries(x, |b|, k);
    assert DenseTo(x, |b|, k)[i] == 0.0;
    DenseAt(x, |b|, k);
  }

  lemma NoNodes(C: Vec, b: Vec, b': Vec, c: real, x: Row)
    requires |C| == |b| == |b'| && ValidRow(x, |b|)
    ensures AddNodes(b, c, x, 0) == b && NodeLoss(C, b, x, 0) == 0.0 && NodeLoss(C, b', x, 0) == 0.0
  {
  }

  lemma LossStep(C: Vec, b: Vec, x: Row, k: nat)
    requires |C| == |b| && ValidRow(x, |b|) && k < |x|
    ensures var i := x[k].index - 1;
            NodeLoss(C, b, x, k + 1) == NodeLoss(C, b, x, k) + (if b[i] > 0.0 then C[i] * b[i] * b[i] else 0.0)
  {
  }

  lemma NodeMoved(b: Vec, c: real, x: Row, k: nat, y: real)
    requires ValidRow(x, |b|) && k < |x| && y == AddNodes(b, c, x, k)[x[k].index - 1] + c * x[k].value
    ensures AddNodes(b, c, x, k)[x[k].index - 1 := y] == AddNodes(b, c, x, k + 1)
  {
    NodeStep(b, c, x, k);
  }

  /** The loop that moves b by c times the column and sums the loss before and after, node by node. */
  method MoveAndMeasure(C: Vec, b: array<real>, x: Row, c: real) returns (lossOld: real, lossNew: real)
    requires |C| == b.Length && ValidRow(x, b.Length)
    modifies b
    ensures b[..] == Axpy(old(b[..]), c, Dense(x, b.Length))
    ensures lossOld == NodeLoss(C, old(b[..]), x, |x|)
    ensures lossNew == NodeLoss(C, b[..], x, |x|)
  {
    hide LinAlg.Axpy, Sparse.Dense, Sparse.AddNodes, NodeLoss, HingeSq;
    ghost var b0 := b[..];
    ghost var b1 := Axpy(b0, c, Dense(x, b.Length));
    lossOld, lossNew := 0.0, 0.0;
    NoNodes(C, b0, b1, c, x);
    for k := 0 to |x|
      invariant b[..] == AddNodes(b0, c, x, k)
      invariant lossOld == NodeLoss(C, b0, x, k) && lossNew == NodeLoss(C, b1, x, k)
    {
      var ind := x[k].index - 1;
      ghost var v := b[..];
      Untouched(b0, c, x, k);
      LossStep(C, b0, x, k);
      LossStep(C, b1, x, k);
      if b[ind] > 0.0 {
        lossOld := lossOld + C[ind] * b[ind] * b[ind];
      }
      var bNew := b[ind] + c * x[k].value;
      b[ind] := bNew;
      assert b[..] == v[ind := bNew];
      NodeMoved(b0, c, x, k, bNew);
      if bNew > 0.0 {
        lossNew := lossNew + C[ind] * bNew * bNew;
      }
    }
    FullyMoved(b0, c, x);
  }

  lemma FullyMoved(b: Vec, c: real, x: Row)
    requires ValidRow(x, |b|)
    ensures AddNodes(b, c, x, |x|) == Axpy(b, c, Dense(x, |b|))
  {
    AddNodesIsAxpy(b, c, x, |x|);
  }

  /** x halved k times */
  ghost function Halved(x: real, k: nat): real {
    if k == 0 then x else 0.5 * Halved(x, k - 1)
  }

  lemma HalvedStep(x: real, k: nat)
    ensures Halved(x, 0) == x && Halved(x, k + 1) == 0.5 * Halved(x, k)
  {
  }

  lemma {:induction false} HalvedSign(x: real, k: nat)
    ensures x <= 0.0 ==> Halved(x, k) <= 0.0
    ensures x < 0.0 ==> Halved(x, k) < 0.0
  {
    if k > 0 { HalvedSign(x, k - 1); }
  }

  /** The sufficient-decrease condition: |w+d| - |w| + (loss after - loss before) <= sigma * delta. */
  ghost predicate Decreases(C: Vec, b: Vec, x: Row, w: real, d: real, delta: real)
    requires |C| == |b| && ValidRow(x, |b|)
  {
    Abs(w + d) - Abs(w) + LossTo(C, Axpy(b, -d, Dense(x, |b|)), |b|) - LossTo(C, b, |b|) <= 0.01 * delta
  }

  /** The cheap test implies it. */
  lemma CheapTest(C: Vec, b: Vec, x: Row, w: real, d: real, delta: real, xjSq: real, Gloss: real)
    requires |C| == |b| && ValidRow(x, |b|) && forall i :: 0 <= i < |C| ==> C[i] >= 0.0
    requires xjSq == NodeSquare(C, x, |x|) && Gloss == 2.0 * NodeSlope(C, b, x, |x|)
    requires xjSq * d * d + Gloss * d + (Abs(w + d) - Abs(w) - 0.01 * delta) <= 0.0
    ensures Decreases(C, b, x, w, d, delta)
  {
    hide LossTo, NodeLoss, NodeSlope, NodeSquare, LinAlg.Axpy, Sparse.Dense, LinAlg.Abs, Bend;
    ColumnLoss(C, b, d, x);
    ApproximateLoss(C, b, d, x, |x|);
    BendIs(NodeSlope(C, b, x, |x|), xjSq, d, Gloss);
  }

  lemma BendIs(slope: real, xjSq: real, d: real, Gloss: real)
    requires Gloss == 2.0 * slope
    ensures Bend(slope, xjSq, d) == xjSq * d * d + Gloss * d
  {
    assert xjSq * d * d == xjSq * (d * d);
  }

  /** The full test is it. */
  lemma FullTest(C: Vec, b: Vec, x: Row, w: real, d: real, delta: real, lossOld: real, lossNew: real)
    requires |C| == |b| && ValidRow(x, |b|)
    requires lossOld == NodeLoss(C, b, x, |x|) && lossNew == NodeLoss(C, Axpy(b, -d, Dense(x, |b|)), x, |x|)
    ensures Decreases(C, b, x, w, d, delta) <==> Abs(w + d) - Abs(w) - 0.01 * delta + lossNew - lossOld <= 0.0
  {
    hide LossTo, NodeLoss, LinAlg.Axpy, Sparse.Dense, LinAlg.Abs;
    ColumnLoss(C, b, d, x);
  }

  const MAX_LINE_SEARCH := 20

  /** None of the first n halvings decreases the objective enough. */
  ghost predicate NoneBefore(C: Vec, b: Vec, x: Row, w: real, d: real, delta: real, n: nat)
    requires |C| == |b| && ValidRow(x, |b|)
  {
    forall k :: 0 <= k < n ==> !Decreases(C, b, x, w, Halved(d, k), Halved(delta, k))
  }

  /**
   The line search.  It stops at the first halving with a sufficient decrease,
   whichever test finds it; b then belongs to w + d.  After 20 failures d has
   been halved once more than b knows.
   */
  method LineSearch(C: Vec, b: array<real>, x: Row, w: real, d0: real, delta0: real, xjSq: real, Gloss: real)
    returns (d: real, tries: nat, ghost delta: real)
    requires |C| == b.Length && ValidRow(x, b.Length) && forall i :: 0 <= i < |C| ==> C[i] >= 0.0
    requires xjSq == NodeSquare(C, x, |x|) && Gloss == 2.0 * NodeSlope(C, b[..], x, |x|)
    modifies b
    ensures tries <= MAX_LINE_SEARCH && d == Halved(d0, tries) && delta == Halved(delta0, tries)
    ensures tries < MAX_LINE_SEARCH ==> b[..] == Axpy(old(b[..]), -d, Dense(x, b.Length))
    ensures tries < MAX_LINE_SEARCH ==> Decreases(C, old(b[..]), x, w, d, delta)
    ensures NoneBefore(C, old(b[..]), x, w, d0, delta0, tries)
  {
    hide LinAlg.Axpy, Sparse.Dense, Decreases, NodeLoss, Halved, NodeSlope, NodeSquare, LinAlg.Abs;
    ghost var b0, v := b[..], Dense(x, b.Length);
    d := d0;
    var del, dOld, lossOld := delta0, 0.0, 0.0;
    delta := delta0;
    tries := 0;
    AxpyNothing(b0, -0.0, v);
    HalvedStep(d0, 0);
    HalvedStep(delta0, 0);
    while tries < MAX_LINE_SEARCH
      invariant NoneBefore(C, b0, x, w, d0, delta0, tries)
      invariant tries <= MAX_LINE_SEARCH && d == Halved(d0, tries) && del == delta == Halved(delta0, tries)
      invariant b[..] == Axpy(b0, -dOld, v)
      invariant tries > 0 ==> lossOld == NodeLoss(C, b0, x, |x|)
      invariant tries == 0 ==> b[..] == b0
    {
      var dDiff := dOld - d;
      AxpyTwice(b0, -dOld, dDiff, v);
      var cond := Abs(w + d) - Abs(w) - 0.01 * del;
      var appxcond := xjSq * d * d + Gloss * d + cond;
      if appxcond <= 0.0 {
        AddRow(b, dDiff, x);
        CheapTest(C, b0, x, w, d, del, xjSq, Gloss);
        break;
      }
      var before, lossNew := MoveAndMeasure(C, b, x, dDiff);
      if tries == 0 {
        lossOld := before;
      }
      cond := cond + lossNew - lossOld;
      FullTest(C, b0, x, w, d, del, lossOld, lossNew);
      if cond <= 0.0 {
        break;
      } else {
        HalvedStep(d0, tries);
        HalvedStep(delta0, tries);
        dOld := d;
        d := d * 0.5;
        del := del * 0.5;
        delta := del;
      }
      tries := tries + 1;
    }
  }

  // ----------------------------------------------------------- one coordinate

  /** The derivative of the loss along column j, and the curvature the code gives it. */
  ghost function Slope(s: Setup, w: Vec, j: nat): real
    requires Valid(s) && |w| == |s.cols| && j < |w|
  {
    2.0 * NodeSlope(s.C, Residual(s, w), s.cols[j], |s.cols[j]|)
  }

  ghost function Curve(s: Setup, w: Vec, j: nat): (h: real)
    requires Valid(s) && |w| == |s.cols| && j < |w|
    ensures h > 0.0
  {
    Max(2.0 * NodeCurve(s.C, Residual(s, w), s.cols[j], |s.cols[j]|), 0.000000000001)
  }

  ghost function Newton(s: Setup, w: Vec, j: nat): real
    requires Valid(s) && |w| == |s.cols| && j < |w|
  {
    Direction(w[j], Slope(s, w, j), Curve(s, w, j))
  }

  /** The decrease that the full Newton step promises. */
  ghost function Promise(s: Setup, w: Vec, j: nat): real
    requires Valid(s) && |w| == |s.cols| && j < |w|
  {
    Abs(w[j] + Newton(s, w, j)) - Abs(w[j]) + Slope(s, w, j) * Newton(s, w, j)
  }

  ghost function Moved(w: Vec, j: nat, d: real): (r: Vec)
    requires j < |w|
    ensures |r| == |w|
  {
    w[j := w[j] + d]
  }

  /** After k halvings the objective falls by at least sigma times what is promised. */
  ghost predicate Falls(s: Setup, w: Vec, j: nat, k: nat)
    requires Valid(s) && |w| == |s.cols| && j < |w|
  {
    Objective(s, Moved(w, j, Halved(Newton(s, w, j), k))) <= Objective(s, w) + 0.01 * Halved(Promise(s, w, j), k)
  }

  /** The line search gave up; the note of a visit counts the halvings. */
  predicate Exhausted(m: Mark<nat>) { !m.shrunk && m.note >= MAX_LINE_SEARCH }

  /**
   What a visit does.  A shrunk weight stays and violates nothing, an idle one
   stays; any other moves by the Newton direction after the first halving that
   falls enough, or after the twentieth if none of them does.
   */
  ghost predicate Step(s: Setup, w: Vec, w': Vec, m: Mark<nat>) {
    && Valid(s) && |w| == |w'| == |s.cols| && 0 <= m.i < |w|
    && (m.shrunk ==> w' == w && Violation(s, w, m.i) == 0.0)
    && (!m.shrunk && Abs(Newton(s, w, m.i)) < 0.000000000001 ==> w' == w && m.note == 0)
    && (!m.shrunk && Abs(Newton(s, w, m.i)) >= 0.000000000001 ==> Searched(s, w, w', m.i, m.note))
  }

  ghost predicate Searched(s: Setup, w: Vec, w': Vec, j: nat, tries: nat)
    requires Valid(s) && |w| == |s.cols| && j < |w|
  {
    && w' == Moved(w, j, Halved(Newton(s, w, j), tries)) && Promise(s, w, j) < 0.0
    && tries <= MAX_LINE_SEARCH && (tries < MAX_LINE_SEARCH ==> Falls(s, w, j, tries))
    && forall k :: 0 <= k < tries ==> !Falls(s, w, j, k)
  }

  /** The test of the line search, on the column alone, is the fall of the whole objective. */
  lemma DecreasesIff(s: Setup, w: Vec, b: Vec, j: nat, d: real, delta: real)
    requires State(s, w, b) && j < |w|
    ensures |s.C| == |b| && ValidRow(s.cols[j], |b|)
    ensures Decreases(s.C, b, s.cols[j], w[j], d, delta) <==>
        Objective(s, Moved(w, j, d)) <= Objective(s, w) + 0.01 * delta
    ensures |Dense(s.cols[j], s.l)| == |b| && State(s, Moved(w, j, d), Axpy(b, -d, Dense(s.cols[j], s.l)))
  {
    hide LossTo, LinAlg.Abs, Sparse.Dense, Residual;
    ResidualMoves(s, w, j, d);
    L1Moves(w, j, w[j] + d, |w|);
  }

  lemma SearchedIs(s: Setup, w: Vec, b: Vec, j: nat, d: real, delta: real, tries: nat)
    requires State(s, w, b) && j < |w| && d == Newton(s, w, j) && delta == Promise(s, w, j) < 0.0
    requires tries <= MAX_LINE_SEARCH
    requires |s.C| == |b| && ValidRow(s.cols[j], |b|)
    requires tries < MAX_LINE_SEARCH ==> Decreases(s.C, b, s.cols[j], w[j], Halved(d, tries), Halved(delta, tries))
    requires NoneBefore(s.C, b, s.cols[j], w[j], d, delta, tries)
    ensures Searched(s, w, Moved(w, j, Halved(d, tries)), j, tries)
  {
    hide Decreases, Objective, Newton, Promise, Residual, Halved, Moved;
    forall k | 0 <= k < tries ensures !Falls(s, w, j, k) {
      DecreasesIff(s, w, b, j, Halved(d, k), Halved(delta, k));
    }
    DecreasesIff(s, w, b, j, Halved(d, tries), Halved(delta, tries));
  }

  /** The optimality violation of weight j. */
  ghost function Violation(s: Setup, w: Vec, j: nat): real
    requires Valid(s) && |w| == |s.cols| && j < |w|
  {
    var G := Slope(s, w, j);
    if w[j] == 0.0 then Max(Max(-(G + 1.0), G - 1.0), 0.0)
    else if w[j] > 0.0 then Abs(G + 1.0)
    else Abs(G - 1.0)
  }

  /** The shrinking test: a zero weight whose subdifferential reaches beyond the bound on both sides. */
  ghost predicate Shrinkable(s: Setup, w: Vec, j: nat, bound: Ext)
    requires Valid(s) && |w| == |s.cols| && j < |w|
  {
    var G := Slope(s, w, j);
    w[j] == 0.0 && -1.0 <= G <= 1.0 && Below(bound, Fin(G + 1.0)) && Below(Fin(G - 1.0), Neg(bound))
  }

  function OverL(g: Ext, l: nat): Ext
    requires l > 0
  {
    match g case Fin(r) => Fin(r / l as real) case _ => g
  }

  /**
   The shrinking test after a pass with largest violation Gmax: at zero, and further than
   Gmax / l inside the interval in which zero is optimal.
   */
  lemma ShrinkableIff(s: Setup, w: Vec, j: nat, Gmax: real)
    requires Valid(s) && |w| == |s.cols| && j < |w| && s.l > 0 && Gmax >= 0.0
    ensures Shrinkable(s, w, j, OverL(Fin(Gmax), s.l)) <==>
            w[j] == 0.0 && s.l as real * (1.0 - Abs(Slope(s, w, j))) > Gmax
  {
    hide Slope;
    var q, l, e := Gmax / s.l as real, s.l as real, 1.0 - Abs(Slope(s, w, j));
    assert q * l == Gmax;
    OverIff(l, e, q, Gmax);
  }

  lemma OverIff(l: real, e: real, q: real, g: real)
    requires l > 0.0 && q * l == g && g >= 0.0
    ensures l * e > g <==> e > q
    ensures q >= 0.0
  {
    assert l * (e - q) == l * e - q * l && l * (q - e) == q * l - l * e;
    assert l * -q == -(q * l);
    if e > q { var p := Product(l, e - q); } else { var p := Product(l, q - e); }
    if q < 0.0 { var p := Product(l, -q); }
  }

  /** The violation, or the decision to shrink. */
  function Inspect(w: real, Gp: real, Gn: real, bound: Ext): (r: (bool, real)) {
    if w == 0.0 then
      if Gp < 0.0 then (false, -Gp)
      else if Gn > 0.0 then (false, Gn)
      else (Below(bound, Fin(Gp)) && Below(Fin(Gn), Neg(bound)), 0.0)
    else if w > 0.0 then (false, Abs(Gp))
    else (false, Abs(Gn))
  }

  lemma ShowVisit(s: Setup, w: Vec, b: Vec, j: nat, G: real, H: real, bound: Ext)
    requires State(s, w, b) && j < |w| && |s.C| == |b| && ValidRow(s.cols[j], |b|)
    requires G == 2.0 * NodeSlope(s.C, b, s.cols[j], |s.cols[j]|)
    requires H == Max(2.0 * NodeCurve(s.C, b, s.cols[j], |s.cols[j]|), 0.000000000001)
    ensures G == Slope(s, w, j) && H == Curve(s, w, j)
    ensures var r := Inspect(w[j], G + 1.0, G - 1.0, bound);
            && r.1 == Violation(s, w, j)
            && (r.0 <==> Shrinkable(s, w, j, bound))
            && (r.0 ==> Step(s, w, w, Mark(j, true, 0)))
  {
    hide NodeSlope, NodeCurve, Residual, Newton, Searched;
  }

  lemma IdleStep(s: Setup, w: Vec, j: nat)
    requires Valid(s) && |w| == |s.cols| && j < |w| && Abs(Newton(s, w, j)) < 0.000000000001
    ensures Step(s, w, w, Mark(j, false, 0))
  {
    hide Newton, Searched, Violation;
  }

  lemma NewtonIs(s: Setup, w: Vec, j: nat, G: real, H: real)
    requires Valid(s) && |w| == |s.cols| && j < |w| && G == Slope(s, w, j) && H == Curve(s, w, j)
    ensures H > 0.0 && Direction(w[j], G, H) == Newton(s, w, j)
  {
    hide Slope, Curve;
  }

  lemma PromiseIs(s: Setup, w: Vec, j: nat, G: real, H: real, d: real, delta: real)
    requires Valid(s) && |w| == |s.cols| && j < |w| && G == Slope(s, w, j) && H == Curve(s, w, j)
    requires d == Newton(s, w, j) && d != 0.0
    requires delta == Abs(w[j] + d) - Abs(w[j]) + G * d
    ensures delta == Promise(s, w, j) < 0.0
  {
    hide Slope, Curve, LinAlg.Abs, Newton;
    NewtonIs(s, w, j, G, H);
    NegativeDelta(w[j], G, H, d, delta);
  }

  lemma SearchedStep(s: Setup, w: Vec, w': Vec, j: nat, tries: nat)
    requires Valid(s) && |w| == |s.cols| && j < |w| && Searched(s, w, w', j, tries)
    requires Abs(Newton(s, w, j)) >= 0.000000000001
    ensures Step(s, w, w', Mark(j, false, tries))
  {
    hide Newton, Violation, Falls, Promise;
  }

  lemma StateFacts(s: Setup, w: Vec, b: Vec)
    requires State(s, w, b)
    ensures Valid(s) && |w| == |s.cols| && |b| == s.l == |s.C| && ValidRows(s.cols, s.l)
    ensures forall j :: 0 <= j < |w| ==> ValidRow(s.cols[j], s.l)
    ensures forall i :: 0 <= i < |s.C| ==> s.C[i] >= 0.0
  {
  }

  lemma NegativeDelta(w: real, G: real, H: real, d: real, delta: real)
    requires H > 0.0 && d == Direction(w, G, H) && d != 0.0 && delta == Abs(w + d) - Abs(w) + G * d
    ensures delta < 0.0
  {
    hide LinAlg.Abs, Direction;
    DirectionFalls(w, G, H);
    var y := Square(d);
    var p := Product(H, y);
  }

  /** b from scratch, skipping zero weights. */
  method Recompute(s: Setup, w: array<real>, b: array<real>)
    requires Valid(s) && w.Length == |s.cols| && b.Length == s.l && w != b
    modifies b
    ensures State(s, w[..], b[..])
  {
    hide Sparse.Dense, LinAlg.Comb, LinAlg.Axpy, Residual;
    for i := 0 to s.l
      invariant forall k :: 0 <= k < i ==> b[k] == 1.0
    {
      b[i] := 1.0;
    }
    ghost var V, wv := Columns(s), w[..];
    RecomputeStart(s, wv, b[..]);
    for j := 0 to w.Length
      invariant b[..] == Partly(s, wv, j)
    {
      RecomputeStep(s, wv, j);
      if w[j] != 0.0 {
        AddRow(b, -w[j], s.cols[j]);
      } else {
        AxpyNothing(b[..], -w[j], V[j]);
      }
    }
    RecomputeEnd(s, wv);
  }

  /** 1 - sum_{k<j} w_k v_k */
  ghost function Partly(s: Setup, w: Vec, j: nat): (b: Vec)
    requires Valid(s) && |w| == |s.cols| && j <= |w|
    ensures |b| == s.l
  {
    Axpy(Ones(s.l), -1.0, Comb(w, Columns(s), s.l, j))
  }

  lemma RecomputeStart(s: Setup, w: Vec, b: Vec)
    requires Valid(s) && |w| == |s.cols| && |b| == s.l && forall k :: 0 <= k < s.l ==> b[k] == 1.0
    ensures b == Partly(s, w, 0)
  {
  }

  lemma RecomputeStep(s: Setup, w: Vec, j: nat)
    requires Valid(s) && |w| == |s.cols| && j < |w|
    ensures |Columns(s)[j]| == s.l && Partly(s, w, j + 1) == Axpy(Partly(s, w, j), -w[j], Columns(s)[j])
  {
    var l, r := Partly(s, w, j + 1), Axpy(Partly(s, w, j), -w[j], Columns(s)[j]);
    assert forall i :: 0 <= i < s.l ==> l[i] == r[i];
  }

  lemma RecomputeEnd(s: Setup, w: Vec)
    requires Valid(s) && |w| == |s.cols|
    ensures State(s, w, Partly(s, w, |w|))
  {
  }

  method VisitVariable(s: Setup, w: array<real>, b: array<real>, xjSq: real, j: nat, GmaxOld: Ext)
    returns (shrunk: bool, violation: real, ghost m: Mark<nat>)
    requires State(s, w[..], b[..]) && j < w.Length && w != b && s.l > 0
    requires j < |s.cols| && ValidRow(s.cols[j], |s.C|) && xjSq == NodeSquare(s.C, s.cols[j], |s.cols[j]|)
    modifies w, b
    ensures State(s, w[..], b[..])
    ensures Valid(s) && |s.cols| == w.Length && (shrunk <==> Shrinkable(s, old(w[..]), j, OverL(GmaxOld, s.l)))
    ensures m.i == j && m.shrunk == shrunk && Step(s, old(w[..]), w[..], m)
    ensures violation == Violation(s, old(w[..]), j)
  {
    hide *;
    ghost var wv, bv := w[..], b[..];
    StateFacts(s, wv, bv);
    var Gloss, H := Derivatives(s.C, b, s.cols[j]);
    var G := Gloss;
    var bound := OverL(GmaxOld, s.l);
    ShowVisit(s, wv, bv, j, G, H, bound);
    var r := Inspect(w[j], G + 1.0, G - 1.0, bound);
    shrunk, violation := r.0, r.1;
    m := Mark(j, shrunk, 0);
    if shrunk {
      return;
    }
    var d := Direction(w[j], G, H);
    NewtonIs(s, wv, j, G, H);
    AbsTest(d);
    if Abs(d) < 0.000000000001 {
      IdleStep(s, wv, j);
      return;
    }
    var delta := Abs(w[j] + d) - Abs(w[j]) + G * d;
    PromiseIs(s, wv, j, G, H, d, delta);
    var step, tries;
    ghost var final;
    step, tries, final := LineSearch(s.C, b, s.cols[j], w[j], d, delta, xjSq, Gloss);
    SearchedIs(s, wv, bv, j, d, delta, tries);
    DecreasesIff(s, wv, bv, j, step, final);
    SearchedStep(s, wv, Moved(wv, j, step), j, tries);
    MovedIs(wv, j, step);
    m := Mark(j, false, tries);
    w[j] := w[j] + step;
    assert w[..] == wv[j := wv[j] + step];
    if tries >= MAX_LINE_SEARCH {
      Recompute(s, w, b);
    }
  }

  lemma MovedIs(w: Vec, j: nat, d: real)
    requires j < |w|
    ensures Moved(w, j, d) == w[j := w[j] + d]
  {
  }

  lemma AbsTest(d: real)
    ensures d == 0.0 ==> Abs(d) < 0.000000000001
  {
  }

  // ---------------------------------------------------------------- the columns

  function Sign(y: real): (r: real)
    ensures y > 0.0 ==> r == 1.0
    ensures y <= 0.0 ==> r == -1.0
  {
    if y > 0.0 then 1.0 else -1.0
  }

  /** A column with every value multiplied by the sign of its label. */
  function SignedCol(x: Row, y: Vec): (r: Row)
    requires forall k :: 0 <= k < |x| ==> 1 <= x[k].index <= |y|
    ensures |r| == |x|
    ensures forall k :: 0 <= k < |x| ==> r[k] == Node(x[k].index, x[k].value * Sign(y[x[k].index - 1]))
  {
    seq(|x|, k requires 0 <= k < |x| => Node(x[k].index, x[k].value * Sign(y[x[k].index - 1])))
  }

  /** The restoring loop at the end: every value multiplied by the label itself. */
  function RestoredCol(x: Row, y: Vec): (r: Row)
    requires forall k :: 0 <= k < |x| ==> 1 <= x[k].index <= |y|
    ensures |r| == |x|
    ensures forall k :: 0 <= k < |x| ==> r[k] == Node(x[k].index, x[k].value * y[x[k].index - 1])
  {
    seq(|x|, k requires 0 <= k < |x| => Node(x[k].index, x[k].value * y[x[k].index - 1]))
  }

  /**
   The restoring loop multiplies by y itself, not by its sign: it undoes the first loop exactly when
   every label that matters is +1 or -1.
   */
  lemma RestoreIff(x: Row, y: Vec)
    requires forall k :: 0 <= k < |x| ==> 1 <= x[k].index <= |y|
    ensures RestoredCol(SignedCol(x, y), y) == x <==>
            forall k :: 0 <= k < |x| ==> x[k].value == 0.0 || Abs(y[x[k].index - 1]) == 1.0
  {
    hide Sign, LinAlg.Abs;
    var r := RestoredCol(SignedCol(x, y), y);
    forall k | 0 <= k < |x| ensures r[k] == x[k] <==> (x[k].value == 0.0 || Abs(y[x[k].index - 1]) == 1.0) {
      var v, t := x[k].value, y[x[k].index - 1];
      assert r[k] == Node(x[k].index, v * Sign(t) * t);
      RestoreNode(v, t);
      assert x[k] == Node(x[k].index, v);
    }
  }

  lemma RestoreNode(v: real, y: real)
    ensures v * Sign(y) * y == v <==> v == 0.0 || Abs(y) == 1.0
  {
    assert Sign(y) * y == Abs(y);
    assert v * Sign(y) * y == v * Abs(y);
    if v != 0.0 && v * Abs(y) == v {
      assert v * (Abs(y) - 1.0) == 0.0;
    }
  }

  function SetupOf(cols: seq<Row>, y: Vec, Cp: real, Cn: real): (s: Setup)
    requires ValidRows(cols, |y|) && Cp > 0.0 && Cn > 0.0
    ensures Valid(s) && s.l == |y| && |s.cols| == |cols|
    ensures forall j :: 0 <= j < |cols| ==> s.cols[j] == SignedCol(cols[j], y)
    ensures forall i :: 0 <= i < |y| ==> s.C[i] == if y[i] > 0.0 then Cp else Cn
  {
    Setup(|y|,
          seq(|cols|, j requires 0 <= j < |cols| => SignedCol(cols[j], y)),
          seq(|y|, i requires 0 <= i < |y| => if y[i] > 0.0 then Cp else Cn))
  }

  // -------------------------------------------------------------------- the run

  ghost function Steps(s: Setup): (Vec, Vec, Mark<nat>) -> bool {
    (w, w', m) => Step(s, w, w', m)
  }

  lemma StepShape(s: Setup, w: Vec, w': Vec, m: Mark<nat>)
    requires Step(s, w, w', m)
    ensures Valid(s) && |w'| == |w| == |s.cols| && 0 <= m.i < |w|
    ensures !Exhausted(m) ==> Objective(s, w') <= Objective(s, w)
  {
    hide Objective, Newton, Promise, Violation, Halved;
    HalvedSign(Promise(s, w, m.i), m.note);
  }

  /**
   A step that leaves the search by a break lowers the objective by sigma times a promise that is
   itself at least H*d^2, halved as often as d.
   */
  lemma SufficientDecrease(s: Setup, w: Vec, w': Vec, m: Mark<nat>)
    requires Step(s, w, w', m) && !Exhausted(m) && w' != w
    ensures Objective(s, w') <= Objective(s, w) + 0.01 * Halved(Promise(s, w, m.i), m.note) < Objective(s, w)
    ensures Promise(s, w, m.i) <= -(Curve(s, w, m.i) * (Newton(s, w, m.i) * Newton(s, w, m.i)))
  {
    hide Objective, Violation, Halved, Curve, Slope, LinAlg.Abs, Direction;
    HalvedSign(Promise(s, w, m.i), m.note);
    DirectionFalls(w[m.i], Slope(s, w, m.i), Curve(s, w, m.i));
  }

  /** The steps whose line search did not give up. */
  ghost function GoodSteps(s: Setup): (Vec, Vec, Mark<nat>) -> bool {
    (w, w', m) => Step(s, w, w', m) && !Exhausted(m)
  }

  /** The objective of the points of a run; zero elsewhere. */
  ghost function Value(s: Setup): Vec -> real {
    w => if Valid(s) && |w| == |s.cols| then Objective(s, w) else 0.0
  }

  lemma GoodStepsDescend(s: Setup)
    ensures forall w, w', m :: GoodSteps(s)(w, w', m) ==> Value(s)(w') <= Value(s)(w)
  {
    hide Step, Objective, Exhausted;
    forall w, w', m | GoodSteps(s)(w, w', m) ensures Value(s)(w') <= Value(s)(w) {
      StepShape(s, w, w', m);
    }
  }

  /** No line search of the run gives up. */
  ghost predicate Unexhausted(passes: seq<History<Vec, nat>>) {
    forall p, k :: 0 <= p < |passes| && 0 <= k < |passes[p].marks| ==> !Exhausted(passes[p].marks[k])
  }

  lemma GoodRuns(s: Setup, passes: seq<History<Vec, nat>>, start: Vec, end: Vec)
    requires Linked(Steps(s), passes, start, end) && Unexhausted(passes)
    ensures Linked(GoodSteps(s), passes, start, end)
  {
    hide Step, Exhausted;
    forall p | 0 <= p < |passes| ensures Runs(GoodSteps(s), passes[p]) {
      var h := passes[p];
      assert Runs(Steps(s), h);
      forall k | 0 <= k < |h.marks| ensures GoodSteps(s)(h.points[k], h.points[k + 1], h.marks[k]) {
        assert Steps(s)(h.points[k], h.points[k + 1], h.marks[k]);
      }
    }
  }

  /** A run without an exhausted line search never raises the objective, from any point to any later one. */
  lemma RunDescends(s: Setup, passes: seq<History<Vec, nat>>, start: Vec, end: Vec, p: nat, j: nat, q: nat, k: nat)
    requires Linked(Steps(s), passes, start, end) && q < |passes| && (p < q || (p == q && j <= k))
    requires Unexhausted(passes)
    requires j < |passes[p].points| && k < |passes[q].points| && Valid(s)
    requires |passes[p].points[j]| == |s.cols| == |passes[q].points[k]|
    ensures Objective(s, passes[q].points[k]) <= Objective(s, passes[p].points[j])
  {
    hide Steps, GoodSteps, Objective, Linked, Unexhausted;
    GoodRuns(s, passes, start, end);
    GoodStepsDescend(s);
    NeverRises(GoodSteps(s), Value(s), passes, start, end, p, j, q, k);
  }

  // ---------------------------------------------------------------- one pass

  /** The violation of weight j at w; zero where there is none. */
  ghost function ViolationAt(s: Setup): (Vec, int) -> real {
    (w, j) => if Valid(s) && |w| == |s.cols| && 0 <= j < |w| then Violation(s, w, j) else 0.0
  }

  /** Which weights a pass shrinks is decided by the largest violation of the pass before, over l. */
  ghost function Shrinks(s: Setup, bound: Ext): (Vec, int) -> bool {
    (w, j) => Valid(s) && |w| == |s.cols| && 0 <= j < |w| && Shrinkable(s, w, j, bound)
  }

  lemma ShowSteps(s: Setup, w: Vec, w': Vec, m: Mark<nat>, v: real, bound: Ext)
    requires Step(s, w, w', m) && Valid(s) && |w| == |s.cols| && 0 <= m.i < |w| && v == Violation(s, w, m.i)
    ensures Steps(s)(w, w', m) && v == ViolationAt(s)(w, m.i)
    ensures Shrinks(s, bound)(w, m.i) <==> Shrinkable(s, w, m.i, bound)
  {
    hide Step, Violation, Valid, Shrinkable;
  }

  lemma ShrunkIsZero(s: Setup, w: Vec, w': Vec, m: Mark<nat>)
    requires Step(s, w, w', m) && m.shrunk
    ensures Valid(s) && |w| == |s.cols| && 0 <= m.i < |w| && Violation(s, w, m.i) == 0.0
  {
    hide Violation, Newton, Searched;
  }

  /** Gmax_old: INF at first and after a reset, else the largest violation of the pass before. */
  ghost predicate Threshold(s: Setup, prior: Prior<Vec, nat>, bound: Ext) {
    match prior
    case Fresh => bound == PosInf
    case After(g) => exists total, largest :: Measured(ViolationAt(s), g, total, largest) && bound == Fin(largest)
  }

  /** A pass shrinks by the threshold that the pass before left. */
  ghost function Rule(s: Setup): (Prior<Vec, nat>, History<Vec, nat>) -> bool {
    (prior, h) => s.l > 0 && exists bound :: Threshold(s, prior, bound) && ShrinksBy(Shrinks(s, OverL(bound, s.l)), h)
  }

  lemma ShowRule(s: Setup, prior: Prior<Vec, nat>, bound: Ext, h: History<Vec, nat>)
    requires s.l > 0 && Threshold(s, prior, bound) && ShrinksBy(Shrinks(s, OverL(bound, s.l)), h)
    ensures Rule(s)(prior, h)
  {
    hide Threshold, ShrinksBy;
  }

  lemma FreshThreshold(s: Setup)
    ensures Threshold(s, Fresh, PosInf)
  {
  }

  lemma NextThreshold(s: Setup, h: History<Vec, nat>, total: real, largest: real)
    requires Measured(ViolationAt(s), h, total, largest)
    ensures Threshold(s, After(h), Fin(largest))
  {
    hide Measured;
  }

  lemma FreshIs(s: Setup, bound: Ext)
    requires Threshold(s, Fresh, bound)
    ensures bound == PosInf
  {
  }

  /** At first and after a reset no weight is shrunk. */
  lemma FreshKeepsAll(s: Setup, h: History<Vec, nat>)
    requires s.l > 0 && |h.marks| <= |h.points|
    ensures Rule(s)(Fresh, h) <==> NoneShrunk(h)
  {
    hide Threshold, ShrinksBy, NoneShrunk;
    FreshThreshold(s);
    NeverShrinks(Shrinks(s, PosInf), h);
    assert OverL(PosInf, s.l) == PosInf;
    if NoneShrunk(h) { ShowRule(s, Fresh, PosInf, h); }
    if Rule(s)(Fresh, h) {
      var bound :| Threshold(s, Fresh, bound) && ShrinksBy(Shrinks(s, OverL(bound, s.l)), h);
      FreshIs(s, bound);
      assert Shrinks(s, OverL(bound, s.l)) == Shrinks(s, PosInf);
    }
  }

  /** l times the distance of the slope of a zero weight from where it would pay to move it. */
  ghost function SpareAt(s: Setup): (Vec, int) -> real {
    (w, i) => if Valid(s) && |w| == |s.cols| && 0 <= i < |w| then Spare(s, w, i) else 0.0
  }

  ghost function Spare(s: Setup, w: Vec, j: nat): real
    requires Valid(s) && |w| == |s.cols| && j < |w|
  {
    if w[j] == 0.0 then s.l as real * (1.0 - Abs(Slope(s, w, j))) else 0.0
  }

  ghost predicate InReach(s: Setup, w: Vec, j: int)
    requires Valid(s)
  {
    |w| == |s.cols| && 0 <= j < |w|
  }

  /** A pass shrinks exactly the variables whose distance is larger than every violation of the pass before. */
  lemma RuleMeans(s: Setup, g: History<Vec, nat>, h: History<Vec, nat>)
    requires Valid(s) && s.l > 0 && |g.points| == |g.marks| + 1 && |h.marks| <= |h.points|
    requires forall k :: 0 <= k < |h.marks| ==> InReach(s, h.points[k], h.marks[k].i)
    ensures Rule(s)(After(g), h) <==>
            forall k :: 0 <= k < |h.marks| ==>
              (h.marks[k].shrunk <==> Exceeds(ViolationAt(s), g, SpareAt(s)(h.points[k], h.marks[k].i)))
  {
    hide ViolationAt, SpareAt, Shrinks, InReach, Measured, Exceeds;
    var total, largest := SomeMeasure(ViolationAt(s), g);
    NextThreshold(s, g, total, largest);
    ShrinksByIff(s, g, h, total, largest);
    if ShrinksBy(Shrinks(s, OverL(Fin(largest), s.l)), h) { ShowRule(s, After(g), Fin(largest), h); }
    if Rule(s)(After(g), h) {
      var bound :| Threshold(s, After(g), bound) && ShrinksBy(Shrinks(s, OverL(bound, s.l)), h);
      OneThreshold(s, g, bound, total, largest);
    }
  }

  lemma OneThreshold(s: Setup, g: History<Vec, nat>, bound: Ext, total: real, largest: real)
    requires Threshold(s, After(g), bound) && Measured(ViolationAt(s), g, total, largest)
    ensures bound == Fin(largest)
  {
    hide ViolationAt;
    var t, m :| Measured(ViolationAt(s), g, t, m) && bound == Fin(m);
    MeasuredOnce(ViolationAt(s), g, total, largest, t, m);
  }

  lemma ShrinksByIff(s: Setup, g: History<Vec, nat>, h: History<Vec, nat>, total: real, largest: real)
    requires Valid(s) && s.l > 0 && Measured(ViolationAt(s), g, total, largest) && |h.marks| <= |h.points|
    requires forall k :: 0 <= k < |h.marks| ==> InReach(s, h.points[k], h.marks[k].i)
    ensures ShrinksBy(Shrinks(s, OverL(Fin(largest), s.l)), h) <==>
            forall k :: 0 <= k < |h.marks| ==>
              (h.marks[k].shrunk <==> Exceeds(ViolationAt(s), g, SpareAt(s)(h.points[k], h.marks[k].i)))
  {
    hide ViolationAt, SpareAt, Shrinks, InReach, Measured, Exceeds;
    forall k | 0 <= k < |h.marks|
      ensures Shrinks(s, OverL(Fin(largest), s.l))(h.points[k], h.marks[k].i)
           == Exceeds(ViolationAt(s), g, SpareAt(s)(h.points[k], h.marks[k].i))
    {
      ExceedsIff(ViolationAt(s), g, total, largest, SpareAt(s)(h.points[k], h.marks[k].i));
      MeasuredFacts(ViolationAt(s), g, total, largest);
      ShrinksIff(s, h.points[k], h.marks[k].i, largest);
    }
    assert forall k :: 0 <= k < |h.marks| ==>
      (ShrinksAt(Shrinks(s, OverL(Fin(largest), s.l)), h, k) <==>
        (h.marks[k].shrunk <==> Exceeds(ViolationAt(s), g, SpareAt(s)(h.points[k], h.marks[k].i))));
  }

  lemma ShrinksIff(s: Setup, w: Vec, i: int, largest: real)
    requires Valid(s) && s.l > 0 && InReach(s, w, i) && largest >= 0.0
    ensures Shrinks(s, OverL(Fin(largest), s.l))(w, i) <==> SpareAt(s)(w, i) > largest
  {
    hide Slope, OverL;
    ShrinkableIff(s, w, i, largest);
  }

  method RunPass(s: Setup, xjSq: array<real>, w: array<real>, b: array<real>, index: array<int>, activeIn: nat,
                 GmaxOld: Ext)
    returns (active: nat, Gmax: real, Gnorm1: real, ghost h: History<Vec, nat>)
    requires State(s, w[..], b[..]) && s.l > 0
    requires w.Length == xjSq.Length == index.Length == |s.cols| && w != b && xjSq != w && xjSq != b
    requires forall j :: 0 <= j < |s.cols| ==>
               ValidRow(s.cols[j], |s.C|) && xjSq[j] == NodeSquare(s.C, s.cols[j], |s.cols[j]|)
    requires IsPerm(index[..], index.Length) && activeIn <= index.Length
    modifies w, b, index
    ensures State(s, w[..], b[..]) && IsPerm(index[..], index.Length)
    ensures Runs(Steps(s), h) && StartsAt(h, old(w[..])) && EndsAt(h, w[..])
    ensures PassOver(h, old(index[..]), activeIn, index[..], active)
    ensures Measured(ViolationAt(s), h, Gnorm1, Gmax) && ShrinksBy(Shrinks(s, OverL(GmaxOld, s.l)), h)
  {
    hide State, Runs, Step, Steps, Shrinkable, Shrinks, ViolationAt, Measured, ShrinksBy, ActiveSet.Pass, Violation;
    hide Permutation.Values, VisitedAll, Permutation.IsPerm, NodeSquare, Sparse.ValidRow, Valid, Exhausted;
    hide Names, Kept, StartsAt, EndsAt, Extended;
    ghost var before, w0, bound := index[..], w[..], OverL(GmaxOld, s.l);
    active, Gmax, Gnorm1, h := activeIn, 0.0, 0.0, Begun(w[..]);
    ghost var all := Values(index[..], activeIn);
    StartPass(index[..], index.Length, activeIn);
    RunsBegun(Steps(s), w0);
    MeasuredBegun<Vec, nat>(ViolationAt(s), w0);
    ShrinksBegun<Vec, nat>(Shrinks(s, bound), before, w0);
    var k := 0;
    while k < active
      invariant k <= active <= activeIn
      invariant Pass(index[..], index.Length, activeIn, k, active, Names(h.marks), all)
      invariant State(s, w[..], b[..])
      invariant Runs(Steps(s), h) && StartsAt(h, w0) && EndsAt(h, w[..]) && |h.points| == |h.marks| + 1
      invariant Measured(ViolationAt(s), h, Gnorm1, Gmax) && ShrinksBy(Shrinks(s, bound), h)
      invariant Values(index[..], k) == Kept(h.marks) && (active == activeIn <==> NoneShrunk(h))
      decreases active - k
    {
      PassEntry(index[..], index.Length, activeIn, k, active, Names(h.marks), all);
      var j := index[k];
      ghost var wv, g := w[..], h;
      var shrunk, violation;
      ghost var m;
      shrunk, violation, m := VisitVariable(s, w, b, xjSq[j], j, GmaxOld);
      ShowSteps(s, wv, w[..], m, violation, bound);
      RunsExtended(Steps(s), g, wv, w[..], m, w0);
      ShrinksMore(Shrinks(s, bound), g, wv, w[..], m);
      MeasuredMore(ViolationAt(s), g, Gnorm1, Gmax, wv, w[..], m, violation);
      ExtendedShape(g, w[..], m);
      h := Extended(g, w[..], m);
      if shrunk {
        ShrunkIsZero(s, wv, w[..], m);
        MeasuredFacts(ViolationAt(s), g, Gnorm1, Gmax);
        Drop(index[..], index.Length, activeIn, k, active, Names(g.marks), all);
        active := active - 1;
        Swap(index, k, active);
      } else {
        Gmax := Max(Gmax, violation);
        Gnorm1 := Gnorm1 + violation;
        Keep(index[..], index.Length, activeIn, k, active, Names(g.marks), all);
        k := k + 1;
      }
    }
    PassEnds(index[..], index.Length, activeIn, k, active, Names(h.marks), all);
  }

  /** w = 0, b = 1, index and xj_sq. */
  method Init(s: Setup, w: array<real>, b: array<real>, xjSq: array<real>, index: array<int>)
    requires Valid(s) && w.Length == xjSq.Length == index.Length == |s.cols| && b.Length == s.l
    requires w != b && xjSq != w && xjSq != b
    modifies w, b, xjSq, index
    ensures State(s, w[..], b[..]) && w[..] == Zeros(|s.cols|)
    ensures forall j :: 0 <= j < |s.cols| ==> xjSq[j] == NodeSquare(s.C, s.cols[j], |s.cols[j]|)
    ensures IsPerm(index[..], index.Length)
  {
    hide State, Sparse.Dense;
    for j := 0 to w.Length
      invariant forall k :: 0 <= k < j ==>
          && w[k] == 0.0 && index[k] == k
          && xjSq[k] == NodeSquare(s.C, s.cols[k], |s.cols[k]|)
    {
      w[j] := 0.0;
      index[j] := j;
      var q := 0.0;
      for k := 0 to |s.cols[j]|
        invariant q == NodeSquare(s.C, s.cols[j], k)
      {
        q := q + s.C[s.cols[j][k].index - 1] * s.cols[j][k].value * s.cols[j][k].value;
      }
      xjSq[j] := q;
    }
    Recompute(s, w, b);
  }

  /** The value printed at the end, from w and the maintained b. */
  method ObjectiveValue(s: Setup, w: array<real>, b: array<real>) returns (v: real)
    requires State(s, w[..], b[..])
    ensures v == Objective(s, w[..])
  {
    hide Residual;
    v := 0.0;
    for j := 0 to w.Length
      invariant v == L1To(w[..], j)
    {
      if w[j] != 0.0 {
        v := v + Abs(w[j]);
      }
    }
    ghost var l1 := v;
    ghost var bv := b[..];
    for i := 0 to b.Length
      invariant v == l1 + LossTo(s.C, bv, i)
    {
      if b[i] > 0.0 {
        v := v + s.C[i] * b[i] * b[i];
      }
    }
  }

  const MAX_ITER := 1000

  /** solve_l1r_l2_svc.  `passes` is the whole run, pass by pass; b is the residual it ends with. */
  method Solve(cols: seq<Row>, y: Vec, w: array<real>, eps: real, Cp: real, Cn: real)
    returns (value: real, iter: nat, converged: bool, ghost s: Setup, ghost b: Vec,
             ghost passes: seq<History<Vec, nat>>)
    requires |y| > 0 && ValidRows(cols, |y|) && Cp > 0.0 && Cn > 0.0 && w.Length == |cols|
    modifies w
    ensures s == SetupOf(cols, y, Cp, Cn) && State(s, w[..], b)
    ensures IsRun(Steps(s), Closing(ViolationAt(s), passes, eps), Rule(s), passes, |cols|, Zeros(|cols|), w[..])
    ensures iter == |passes| <= 1000 && (!converged ==> iter == 1000)
    ensures iter > 0 ==> NoneExits(Closing(ViolationAt(s), passes, eps), passes, iter - 1, |cols|)
    ensures converged <==> iter > 0 && Exits(Closing(ViolationAt(s), passes, eps), passes[iter - 1], |cols|)
    ensures value == Objective(s, w[..])
  {
    hide State, Runs, Steps, Measured, ShrinksBy, Permutation.Values, Permutation.IsPerm, Shrinks;
    hide ViolationAt, Objective, Threshold, Rule;
    hide IsRun, NoneExits, Exits, StartsAt, EndsAt, PassOver, Due, First, Closing, PriorTo, Valid, SetupOf, NodeSquare;
    hide Exhausted, Curve;
    var l, n := |y|, |cols|;
    var setup := SetupOf(cols, y, Cp, Cn);
    s, passes := setup, [];
    var res := new real[l];
    var xjSq := new real[n];
    var index := new int[n];
    Init(setup, w, res, xjSq, index);
    ColumnsValid(setup);
    StartRun(Steps(s), Closing(ViolationAt(s), [], eps), Rule(s), Zeros(n), index[..], n);
    var active: nat := n;
    var GmaxOld, GnormInit := PosInf, 0.0;
    ghost var largest := 0.0;
    FreshThreshold(s);
    iter, converged := 0, false;
    while iter < MAX_ITER
      invariant iter == |passes| <= MAX_ITER
      invariant State(s, w[..], res[..])
      invariant IsRun(Steps(s), Closing(ViolationAt(s), passes, eps), Rule(s), passes, n, Zeros(n), w[..])
      invariant Threshold(s, PriorTo(passes, Closing(ViolationAt(s), passes, eps)), GmaxOld)
      invariant NoneExits(Closing(ViolationAt(s), passes, eps), passes, iter, n)
      invariant active <= n && IsPerm(index[..], n)
      invariant Values(index[..], active) == Due(passes, n, Closing(ViolationAt(s), passes, eps))
      invariant forall j :: 0 <= j < n ==> xjSq[j] == NodeSquare(s.C, s.cols[j], |s.cols[j]|)
      invariant iter > 0 ==> Measured(ViolationAt(s), First(passes), GnormInit, largest)
    {
      Shuffle(index, active);
      ghost var before, wv, activeIn := index[..], w[..], active;
      var Gmax, Gnorm1;
      ghost var h;
      active, Gmax, Gnorm1, h := RunPass(setup, xjSq, w, res, index, active, GmaxOld);
      if iter == 0 {
        GnormInit, largest := Gnorm1, Gmax;
      }
      ShowRule(s, PriorTo(passes, Closing(ViolationAt(s), passes, eps)), GmaxOld, h);
      NextThreshold(s, h, Gnorm1, Gmax);
      AddMeasured(Steps(s), ViolationAt(s), Rule(s), passes, h, n, eps, Zeros(n), wv, w[..], before, activeIn,
                  index[..], active, Gnorm1, Gmax, GnormInit, largest);
      passes := passes + [h];
      iter := iter + 1;
      if Gnorm1 <= eps * GnormInit {
        if active == n {
          converged := true;
          break;
        } else {
          active := n;
          GmaxOld := PosInf;
          continue;
        }
      }
      GmaxOld := Fin(Gmax);
    }
    if !converged { NotEvenTheLast(Closing(ViolationAt(s), passes, eps), passes, n); }
    b := res[..];
    value := ObjectiveValue(setup, w, res);
  }

  lemma ColumnsValid(s: Setup)
    requires Valid(s)
    ensures |s.C| == s.l && forall j :: 0 <= j < |s.cols| ==> ValidRow(s.cols[j], |s.C|)
  {
  }
}
