/**
 Why solve_l1r_l2_svc can raise its objective: when all twenty tries of a line
 search fail, the step is halved once more and taken without a test.  The example
 is the first pass of a run over three instances and two features.
 */
module L1rExhausted {
  import opened LinAlg
  import opened Sparse
  import opened ActiveSet
  import opened RunHistory
  import opened L1rObjective
  import opened L1rL2Svc

  const COLUMNS: seq<Row> := [[Node(1, 1.0), Node(2, -10000.0)], [Node(2, 1.0), Node(3, -0.5)]]
  const LABELS: Vec := [1.0, 1.0, -1.0]

  lemma ColumnsValid()
    ensures ValidRows(COLUMNS, |LABELS|)
  {
    assert ValidRow(COLUMNS[0], 3) && ValidRow(COLUMNS[1], 3);
  }

  /** The second instance reacts ten thousand times as strongly to the first weight as the first instance. */
  ghost function Steep(): (s: Setup)
    ensures Valid(s)
  {
    ColumnsValid();
    SetupOf(COLUMNS, LABELS, 1.0, 2.0)
  }

  lemma SteepIs()
    ensures var s := Steep();
            && s.l == 3 && s.C == [1.0, 1.0, 2.0] && |s.cols| == 2
            && s.cols == [[Node(1, 1.0), Node(2, -10000.0)], [Node(2, 1.0), Node(3, 0.5)]]
  {
    var s := Steep();
    assert s.cols[0] == [Node(1, 1.0), Node(2, -10000.0)];
    assert s.cols[1] == [Node(2, 1.0), Node(3, 0.5)];
  }

  lemma SteepColumns()
    ensures Columns(Steep()) == [[1.0, -10000.0, 0.0], [0.0, 1.0, 0.5]]
  {
    SteepIs();
    hide Steep;
    var a, b := Steep().cols[0], Steep().cols[1];
    DenseAt(a, 3, 0);
    DenseAt(a, 3, 1);
    DenseAbsent(a, 3, 2);
    DenseAbsent(b, 3, 0);
    DenseAt(b, 3, 0);
    DenseAt(b, 3, 1);
    assert Dense(a, 3) == [1.0, -10000.0, 0.0];
    assert Dense(b, 3) == [0.0, 1.0, 0.5];
  }

  /** b for the weights (x, z) */
  lemma SteepResidual(x: real, z: real)
    ensures |[x, z]| == |Steep().cols| && Residual(Steep(), [x, z]) == [1.0 - x, 1.0 + 10000.0 * x - z, 1.0 - 0.5 * z]
  {
    SteepIs();
    SteepColumns();
    hide Steep, Columns, LinAlg.Comb;
    var V, w := Columns(Steep()), [x, z];
    CombOfTwo(w, V);
    Scaled(x, V[0]);
    Scaled(z, V[1]);
    var b := Residual(Steep(), w);
    assert b[0] == 1.0 - x && b[1] == 1.0 + 10000.0 * x - z && b[2] == 1.0 - 0.5 * z;
  }

  lemma CombOfTwo(w: Vec, V: seq<Vec>)
    requires |w| == |V| == 2 && |V[0]| == |V[1]| == 3
    ensures forall k :: 0 <= k < 3 ==> Comb(w, V, 3, 2)[k] == w[0] * V[0][k] + w[1] * V[1][k]
  {
    assert Comb(w, V, 3, 1) == Axpy(Zeros(3), w[0], V[0]);
  }

  lemma Scaled(c: real, v: Vec)
    requires |v| == 3
    ensures v == [1.0, -10000.0, 0.0] ==> c * v[0] == c && c * v[1] == -10000.0 * c && c * v[2] == 0.0
    ensures v == [0.0, 1.0, 0.5] ==> c * v[0] == 0.0 && c * v[1] == c && c * v[2] == 0.5 * c
  {
  }

  ghost function At(x: real, z: real): Vec { [x, z] }

  lemma SteepLoss(C: Vec, b: Vec, h0: real, h1: real, h2: real)
    requires |C| == |b| == 3 && h0 == HingeSq(C[0], b[0]) && h1 == HingeSq(C[1], b[1]) && h2 == HingeSq(C[2], b[2])
    ensures LossTo(C, b, 3) == h0 + h1 + h2
  {
    assert LossTo(C, b, 1) == h0;
    assert LossTo(C, b, 2) == h0 + h1;
  }

  lemma SteepStart()
    ensures |At(0.0, 0.0)| == |Steep().cols| && Objective(Steep(), At(0.0, 0.0)) == 4.0
  {
    SteepIs();
    SteepResidual(0.0, 0.0);
    hide Steep, Residual;
    var s, b := Steep(), Residual(Steep(), At(0.0, 0.0));
    assert b == [1.0, 1.0, 1.0];
    SteepLoss(s.C, b, 1.0, 1.0, 2.0);
    assert L1To(At(0.0, 0.0), 1) == 0.0;
    assert L1To(At(0.0, 0.0), 2) == 0.0;
  }

  /** The objective along the first weight once the second is one. */
  lemma SteepObjective(x: real)
    requires 0.0 <= x < 1.0
    ensures |At(x, 1.0)| == |Steep().cols| && Objective(Steep(), At(x, 1.0)) == 2.5 - x + 100000001.0 * (x * x)
  {
    SteepIs();
    SteepResidual(x, 1.0);
    hide Steep, Residual;
    var s, b := Steep(), Residual(Steep(), At(x, 1.0));
    Hinges(x, b);
    SteepLoss(s.C, b, 1.0 - 2.0 * x + x * x, 100000000.0 * (x * x), 0.5);
    assert L1To(At(x, 1.0), 1) == x;
    assert L1To(At(x, 1.0), 2) == x + 1.0;
  }

  lemma Hinges(x: real, b: Vec)
    requires 0.0 <= x < 1.0 && b == [1.0 - x, 10000.0 * x, 0.5]
    ensures HingeSq(1.0, b[0]) == 1.0 - 2.0 * x + x * x && HingeSq(1.0, b[1]) == 100000000.0 * (x * x)
    ensures HingeSq(2.0, b[2]) == 0.5
  {
    assert (1.0 - x) * (1.0 - x) == 1.0 - 2.0 * x + x * x;
    assert (10000.0 * x) * (10000.0 * x) == 100000000.0 * (x * x);
  }

  // ------------------------------------------------------------ the second weight

  lemma FirstVisit()
    ensures Newton(Steep(), At(0.0, 0.0), 1) == 1.0 && Promise(Steep(), At(0.0, 0.0), 1) == -3.0
  {
    SteepIs();
    SteepResidual(0.0, 0.0);
    hide Steep, Residual;
    var s, w := Steep(), At(0.0, 0.0);
    var b, x := Residual(s, w), s.cols[1];
    assert b == [1.0, 1.0, 1.0];
    assert NodeSlope(s.C, b, x, 1) == -1.0;
    assert NodeSlope(s.C, b, x, 2) == -2.0;
    assert NodeCurve(s.C, b, x, 1) == 1.0;
    assert NodeCurve(s.C, b, x, 2) == 1.5;
    assert Slope(s, w, 1) == -4.0 && Curve(s, w, 1) == 3.0;
  }

  lemma FirstStep()
    ensures Step(Steep(), At(0.0, 0.0), At(0.0, 1.0), Mark(1, false, 0))
  {
    SteepIs();
    FirstVisit();
    SteepStart();
    SteepObjective(0.0);
    hide Steep, Objective, Newton, Promise, Violation;
    var s, w := Steep(), At(0.0, 0.0);
    HalvedStep(1.0, 0);
    HalvedStep(-3.0, 0);
    assert Moved(w, 1, Halved(Newton(s, w, 1), 0)) == At(0.0, 1.0);
    assert Falls(s, w, 1, 0);
    assert Abs(1.0) >= 0.000000000001;
  }

  // ------------------------------------------------------------- the first weight

  lemma SecondVisit()
    ensures Newton(Steep(), At(0.0, 1.0), 0) == 0.5 && Promise(Steep(), At(0.0, 1.0), 0) == -0.5
  {
    SteepIs();
    SteepResidual(0.0, 1.0);
    hide Steep, Residual;
    var s, w := Steep(), At(0.0, 1.0);
    var b, x := Residual(s, w), s.cols[0];
    assert b == [1.0, 0.0, 0.5];
    assert NodeSlope(s.C, b, x, 1) == -1.0;
    assert NodeSlope(s.C, b, x, 2) == -1.0;
    assert NodeCurve(s.C, b, x, 1) == 1.0;
    assert NodeCurve(s.C, b, x, 2) == 1.0;
    assert Slope(s, w, 0) == -2.0 && Curve(s, w, 0) == 2.0;
  }

  lemma {:induction false} HalvedAbove(k: nat)
    requires k <= 20
    ensures 0.0000004 < Halved(0.5, 20) <= Halved(0.5, k) <= 0.5
    decreases 20 - k
  {
    if k < 20 {
      HalvedAbove(k + 1);
      HalvedStep(0.5, k);
      HalvedBelow(k);
    } else {
      assert Halved(0.5, 10) == 0.5 / 1024.0;
      assert Halved(0.5, 20) == 0.5 / 1048576.0;
    }
  }

  lemma {:induction false} HalvedBelow(k: nat)
    ensures 0.0 < Halved(0.5, k) <= 0.5
  {
    if k > 0 { HalvedBelow(k - 1); }
  }

  lemma RisesAt(x: real)
    requires 0.0000004 < x <= 0.5
    ensures |At(0.0, 1.0)| == |Steep().cols| == 2
    ensures Objective(Steep(), Moved(At(0.0, 1.0), 0, x)) > Objective(Steep(), At(0.0, 1.0)) == 2.5
  {
    hide *;
    SteepObjective(0.0);
    SteepObjective(x);
    MovedAt(x);
    AboveStart(x);
  }

  lemma MovedAt(x: real)
    ensures |At(0.0, 1.0)| == 2 && Moved(At(0.0, 1.0), 0, x) == At(x, 1.0)
  {
  }

  lemma AboveStart(x: real)
    requires x > 0.0000004
    ensures 2.5 - x + 100000001.0 * (x * x) > 2.5
  {
    var p := Product(x, 100000001.0 * x - 1.0);
    assert x * (100000001.0 * x - 1.0) == 100000001.0 * (x * x) - x;
  }

  /** Every halving tried, and the one after, is above the start. */
  lemma SteepRises(k: nat)
    requires k <= 20
    ensures |At(0.0, 1.0)| == |Steep().cols| == 2
    ensures Objective(Steep(), Moved(At(0.0, 1.0), 0, Halved(0.5, k))) > Objective(Steep(), At(0.0, 1.0)) == 2.5
  {
    hide *;
    HalvedAbove(k);
    RisesAt(Halved(0.5, k));
  }

  lemma SecondStep()
    ensures Step(Steep(), At(0.0, 1.0), At(Halved(0.5, 20), 1.0), Mark(0, false, 20))
    ensures |At(Halved(0.5, 20), 1.0)| == |At(0.0, 1.0)| == |Steep().cols|
    ensures Objective(Steep(), At(Halved(0.5, 20), 1.0)) > Objective(Steep(), At(0.0, 1.0)) == 2.5
  {
    hide Halved, Objective, Newton, Promise, Violation, Steep, Valid;
    SecondVisit();
    SteepRises(20);
    MovedAt(Halved(0.5, 20));
    forall k | 0 <= k <= 20 ensures !Falls(Steep(), At(0.0, 1.0), 0, k) {
      SteepRises(k);
      HalvedSign(-0.5, k);
    }
    assert Abs(0.5) >= 0.000000000001;
  }

  // ---------------------------------------------------------------- the pass

  ghost function RisingPass(): History<Vec, nat> {
    History([At(0.0, 0.0), At(0.0, 1.0), At(Halved(0.5, 20), 1.0)], [Mark(1, false, 0), Mark(0, false, 20)])
  }

  /**
   The first pass of a run from zero, second weight first: its second visit exhausts the search and
   raises the objective.
   */
  lemma ExhaustedCanRise(eps: real)
    ensures var s, h := Steep(), RisingPass();
            && |s.cols| == 2
            && IsRun(Steps(s), Closing(ViolationAt(s), [h], eps), Rule(s), [h], 2, Zeros(2), At(Halved(0.5, 20), 1.0))
            && Exhausted(h.marks[1]) && |h.points[1]| == |h.points[2]| == 2
            && Objective(s, h.points[2]) > Objective(s, h.points[1])
  {
    hide Halved, Objective, Step, Steep, Closing, Rule;
    SteepIs();
    FirstStep();
    SecondStep();
    var s, h := Steep(), RisingPass();
    BothVisited(h);
    FreshKeepsAll(s, h);
    assert [h][..0] == [];
    assert Zeros(2) == At(0.0, 0.0);
    assert Runs(Steps(s), h);
  }

  lemma BothVisited(h: History<Vec, nat>)
    requires h.marks == [Mark(1, false, 0), Mark(0, false, 20)]
    ensures VisitsOnce(h, Everything(2))
  {
    var names := Names(h.marks);
    assert names == [1, 0];
    assert names[0] == 1 && names[1] == 0;
    forall v ensures v in names <==> v in Everything(2) { }
  }
}
