/**
 What Solver_MCSVM_CS is for: the problem of Crammer and Singer,
   min  0.5 sum_c |w_c|^2 + sum_i C_{y_i} max_c (e_ic + w_c.x_i - w_{y_i}.x_i) ,
 with e_ic = 1 for the classes other than y_i.  The dual objective bounds it, and at a
 minimiser of the dual problem the weights are a minimiser of this one.
 */
module CsDuality {
  import opened LinAlg
  import opened Sparse
  import opened CsSubProblem
  import opened CsVisit
  import opened CsDrift
  import opened CsRun
  import opened CsOptimal

  // ------------------------------------------------------------- the primal problem

  ghost predicate Weights(s: Setup, W: seq<Vec>) {
    Valid(s) && |W| == |s.C| && forall c :: 0 <= c < |W| ==> |W[c]| == s.n
  }

  /** w_c.x_i */
  ghost function Score(s: Setup, W: seq<Vec>, i: nat, c: nat): real
    requires Weights(s, W) && i < |s.x| && c < |W|
  {
    Dot(Dense(s.x[i], s.n), W[c])
  }

  /** How far class c comes too close to the instance's own class. */
  ghost function Exceed(s: Setup, W: seq<Vec>, i: nat, c: nat): real
    requires Weights(s, W) && i < |s.x| && c < |W|
  {
    (if c == s.y[i] then 0.0 else 1.0) + Score(s, W, i, c) - Score(s, W, i, s.y[i])
  }

  /** The largest of these, which is 0 for the own class. */
  ghost function WorstTo(s: Setup, W: seq<Vec>, i: nat, m: nat): (r: real)
    requires Weights(s, W) && i < |s.x| && m <= |W|
    ensures r >= 0.0 && forall c :: 0 <= c < m ==> r >= Exceed(s, W, i, c)
    ensures r == 0.0 || exists c :: 0 <= c < m && r == Exceed(s, W, i, c)
  {
    if m == 0 then 0.0 else
      var e := Exceed(s, W, i, m - 1);
      if e > WorstTo(s, W, i, m - 1) then e else WorstTo(s, W, i, m - 1)
  }

  ghost function Worst(s: Setup, W: seq<Vec>, i: nat): real
    requires Weights(s, W) && i < |s.x|
  {
    WorstTo(s, W, i, |W|)
  }

  ghost function SquaresTo(s: Setup, W: seq<Vec>, m: nat): real
    requires Weights(s, W) && m <= |W|
  {
    if m == 0 then 0.0 else SquaresTo(s, W, m - 1) + 0.5 * Dot(W[m - 1], W[m - 1])
  }

  ghost function LossTo(s: Setup, W: seq<Vec>, k: nat): real
    requires Weights(s, W) && k <= |s.x|
  {
    if k == 0 then 0.0 else LossTo(s, W, k - 1) + s.C[s.y[k - 1]] * Worst(s, W, k - 1)
  }

  ghost function PrimalValue(s: Setup, W: seq<Vec>): real
    requires Weights(s, W)
  {
    SquaresTo(s, W, |W|) + LossTo(s, W, |s.x|)
  }

  // ------------------------------------------------------------- the squared norms

  /** 0.5 sum_{c<m} |W_c - w_c(A)|^2 */
  ghost function DistanceTo(s: Setup, W: seq<Vec>, A: seq<Vec>, m: nat): real
    requires Weights(s, W) && Fits(s, A) && m <= |W|
  {
    if m == 0 then 0.0 else
      var d := Axpy(W[m - 1], -1.0, Weight(s, A, m - 1));
      DistanceTo(s, W, A, m - 1) + 0.5 * Dot(d, d)
  }

  /** sum_{i<k} A_ic W_c.x_i */
  ghost function ClassPair(s: Setup, W: seq<Vec>, A: seq<Vec>, c: nat, k: nat): real
    requires Weights(s, W) && Fits(s, A) && c < |W| && k <= |A|
  {
    if k == 0 then 0.0 else ClassPair(s, W, A, c, k - 1) + A[k - 1][c] * Score(s, W, k - 1, c)
  }

  ghost function PairTo(s: Setup, W: seq<Vec>, A: seq<Vec>, m: nat, k: nat): real
    requires Weights(s, W) && Fits(s, A) && m <= |W| && k <= |A|
  {
    if m == 0 then 0.0 else PairTo(s, W, A, m - 1, k) + ClassPair(s, W, A, m - 1, k)
  }

  /** sum_{c<m} A_ic W_c.x_i */
  ghost function RowPair(s: Setup, W: seq<Vec>, A: seq<Vec>, i: nat, m: nat): real
    requires Weights(s, W) && Fits(s, A) && i < |A| && m <= |W|
  {
    if m == 0 then 0.0 else RowPair(s, W, A, i, m - 1) + A[i][m - 1] * Score(s, W, i, m - 1)
  }

  ghost function RowPairs(s: Setup, W: seq<Vec>, A: seq<Vec>, k: nat): real
    requires Weights(s, W) && Fits(s, A) && k <= |A|
  {
    if k == 0 then 0.0 else RowPairs(s, W, A, k - 1) + RowPair(s, W, A, k - 1, |W|)
  }

  lemma {:induction false} PairStep(s: Setup, W: seq<Vec>, A: seq<Vec>, m: nat, k: nat)
    requires Weights(s, W) && Fits(s, A) && m <= |W| && k < |A|
    ensures PairTo(s, W, A, m, k + 1) == PairTo(s, W, A, m, k) + RowPair(s, W, A, k, m)
  {
    hide Score;
    if m > 0 { PairStep(s, W, A, m - 1, k); }
  }

  lemma {:induction false} PairNone(s: Setup, W: seq<Vec>, A: seq<Vec>, m: nat)
    requires Weights(s, W) && Fits(s, A) && m <= |W|
    ensures PairTo(s, W, A, m, 0) == 0.0
  {
    hide Score;
    if m > 0 { PairNone(s, W, A, m - 1); }
  }

  /** The two orders of summation agree. */
  lemma {:induction false} PairsExchange(s: Setup, W: seq<Vec>, A: seq<Vec>, k: nat)
    requires Weights(s, W) && Fits(s, A) && k <= |A|
    ensures PairTo(s, W, A, |W|, k) == RowPairs(s, W, A, k)
  {
    hide Score, PairTo, RowPair;
    if k == 0 {
      PairNone(s, W, A, |W|);
    } else {
      PairsExchange(s, W, A, k - 1);
      PairStep(s, W, A, |W|, k - 1);
    }
  }

  lemma {:induction false} ClassPairIsRowSum(s: Setup, W: seq<Vec>, A: seq<Vec>, c: nat, V: seq<Vec>, k: nat)
    requires Weights(s, W) && Fits(s, A) && c < |W| && k <= |A| && V == DenseRows(s.x, s.n)
    ensures RowSum(Coefs(A, c), V, s.n, W[c], k) == ClassPair(s, W, A, c, k)
  {
    hide LinAlg.Dot, Sparse.Dense;
    if k > 0 { ClassPairIsRowSum(s, W, A, c, V, k - 1); }
  }

  lemma {:induction false} SquaresGap(s: Setup, W: seq<Vec>, A: seq<Vec>, m: nat)
    requires Weights(s, W) && Fits(s, A) && m <= |W|
    ensures SquaresTo(s, W, m) + QuadTo(s, A, m) == DistanceTo(s, W, A, m) + PairTo(s, W, A, m, |A|)
  {
    hide LinAlg.Dot, LinAlg.Axpy, LinAlg.Comb, LinAlg.RowSum, ClassPair, Coefs, Weight;
    if m > 0 {
      SquaresGap(s, W, A, m - 1);
      ClassGap(s, W, A, m - 1);
    }
  }

  lemma ClassGap(s: Setup, W: seq<Vec>, A: seq<Vec>, c: nat)
    requires Weights(s, W) && Fits(s, A) && c < |W|
    ensures var u, d := Weight(s, A, c), Axpy(W[c], -1.0, Weight(s, A, c));
            0.5 * Dot(W[c], W[c]) + 0.5 * Dot(u, u) == 0.5 * Dot(d, d) + ClassPair(s, W, A, c, |A|)
  {
    hide LinAlg.Dot, LinAlg.Axpy, LinAlg.Comb, LinAlg.RowSum, ClassPair, Coefs;
    var u, V := Weight(s, A, c), DenseRows(s.x, s.n);
    RowSumIsDot(Coefs(A, c), V, s.n, W[c], |A|);
    ClassPairIsRowSum(s, W, A, c, V, |A|);
    SquareAxpy(W[c], -1.0, u);
    DotSym(W[c], u);
  }

  // ------------------------------------------------------------------- one instance

  /** (cap_c - A_ic) (worst - exceed_c) */
  ghost function Room(s: Setup, W: seq<Vec>, A: seq<Vec>, i: nat, c: nat): real
    requires Weights(s, W) && Fits(s, A) && i < |A| && c < |W|
  {
    (CapOf(s, i, c) - A[i][c]) * (Worst(s, W, i) - Exceed(s, W, i, c))
  }

  ghost function RoomTo(s: Setup, W: seq<Vec>, A: seq<Vec>, i: nat, m: nat): real
    requires Weights(s, W) && Fits(s, A) && i < |A| && m <= |W|
  {
    if m == 0 then 0.0 else RoomTo(s, W, A, i, m - 1) + Room(s, W, A, i, m - 1)
  }

  /** What the room of the first m classes adds up to. */
  ghost function RoomSum(s: Setup, W: seq<Vec>, A: seq<Vec>, i: nat, m: nat): real
    requires Weights(s, W) && Fits(s, A) && i < |A| && m <= |W|
  {
    var y, total := s.y[i], SumTo(A[i], m);
    (if y < m then s.C[y] * Worst(s, W, i) - A[i][y] else 0.0)
      + total - (Worst(s, W, i) + Score(s, W, i, y)) * total + RowPair(s, W, A, i, m)
  }

  lemma {:induction false} RoomIs(s: Setup, W: seq<Vec>, A: seq<Vec>, i: nat, m: nat)
    requires Weights(s, W) && Fits(s, A) && i < |A| && m <= |W|
    ensures RoomTo(s, W, A, i, m) == RoomSum(s, W, A, i, m)
  {
    hide Score, Worst, Exceed, Room, RoomSum;
    if m == 0 {
      NoRoom(s, W, A, i);
    } else {
      RoomIs(s, W, A, i, m - 1);
      RoomStep(s, W, A, i, m - 1);
    }
  }

  lemma NoRoom(s: Setup, W: seq<Vec>, A: seq<Vec>, i: nat)
    requires Weights(s, W) && Fits(s, A) && i < |A|
    ensures RoomSum(s, W, A, i, 0) == 0.0
  {
    hide Score, Worst;
    assert SumTo(A[i], 0) == 0.0;
  }

  lemma RoomStep(s: Setup, W: seq<Vec>, A: seq<Vec>, i: nat, c: nat)
    requires Weights(s, W) && Fits(s, A) && i < |A| && c < |W|
    ensures RoomSum(s, W, A, i, c + 1) == RoomSum(s, W, A, i, c) + Room(s, W, A, i, c)
  {
    hide Score, Worst, RowPair;
    var y := s.y[i];
    assert SumTo(A[i], c + 1) == SumTo(A[i], c) + A[i][c];
    PairGrows(s, W, A, i, c);
    RoomScalar(s.C[y], A[i][c], SumTo(A[i], c), SumTo(A[i], c + 1), Worst(s, W, i), Score(s, W, i, c),
               Score(s, W, i, y), c == y, CapOf(s, i, c), Exceed(s, W, i, c));
  }

  lemma PairGrows(s: Setup, W: seq<Vec>, A: seq<Vec>, i: nat, c: nat)
    requires Weights(s, W) && Fits(s, A) && i < |A| && c < |W|
    ensures RowPair(s, W, A, i, c + 1) == RowPair(s, W, A, i, c) + A[i][c] * Score(s, W, i, c)
  {
    hide Score;
  }

  lemma RoomScalar(C: real, a: real, total: real, total': real, worst: real, q: real, own: real, isOwn: bool, cap: real,
                   e: real)
    requires total' == total + a && cap == (if isOwn then C else 0.0) && (isOwn ==> q == own)
    requires e == (if isOwn then 0.0 else 1.0) + q - own
    ensures (cap - a) * (worst - e)
         == (if isOwn then C * worst - a else 0.0) + a + a * q - ((worst + own) * total' - (worst + own) * total)
  {
    assert (worst + own) * total' - (worst + own) * total == a * worst + a * own;
    if isOwn {
      assert (C - a) * worst == C * worst - a * worst;
    } else {
      assert -a * (worst - e) == -a * worst + a * (1.0 + q - own);
    }
  }

  /** C times the loss and the dual terms of an instance are its room. */
  lemma InstanceGap(s: Setup, W: seq<Vec>, A: seq<Vec>, i: nat)
    requires Weights(s, W) && Fits(s, A) && i < |A| && Sum(A[i]) == 0.0
    ensures s.C[s.y[i]] * Worst(s, W, i) + Others(s, i, A[i]) + RowPair(s, W, A, i, |W|) == RoomTo(s, W, A, i, |W|)
  {
    hide Score, Worst, RowPair, RoomTo;
    RoomIs(s, W, A, i, |W|);
    NothingTimes(Worst(s, W, i) + Score(s, W, i, s.y[i]), SumTo(A[i], |W|));
  }

  lemma NothingTimes(x: real, z: real)
    requires z == 0.0
    ensures x * z == 0.0
  {
  }

  // ------------------------------------------------------------------------ the gap

  ghost function RoomsTo(s: Setup, W: seq<Vec>, A: seq<Vec>, k: nat): real
    requires Weights(s, W) && Fits(s, A) && k <= |A|
  {
    if k == 0 then 0.0 else RoomsTo(s, W, A, k - 1) + RoomTo(s, W, A, k - 1, |W|)
  }

  lemma {:induction false} RoomsAre(s: Setup, W: seq<Vec>, A: seq<Vec>, k: nat)
    requires Weights(s, W) && FeasibleAll(s, A) && k <= |A|
    ensures LossTo(s, W, k) + OthersTo(s, A, k) + RowPairs(s, W, A, k) == RoomsTo(s, W, A, k)
  {
    hide Worst, Others, RowPair, RoomTo, CapOf;
    if k > 0 {
      RoomsAre(s, W, A, k - 1);
      assert FeasibleRow(s, k - 1, A[k - 1]);
      InstanceGap(s, W, A, k - 1);
    }
  }

  /** The two values differ by half the squared distance of the weights and the room of all instances. */
  lemma GapIs(s: Setup, W: seq<Vec>, A: seq<Vec>)
    requires Weights(s, W) && FeasibleAll(s, A)
    ensures Fits(s, A) && PrimalValue(s, W) + Dual(s, A) == DistanceTo(s, W, A, |W|) + RoomsTo(s, W, A, |A|)
  {
    hide FeasibleRow, SquaresTo, LossTo, DistanceTo, RoomsTo, QuadTo, OthersTo, PairTo, RowPairs;
    SquaresGap(s, W, A, |W|);
    PairsExchange(s, W, A, |A|);
    RoomsAre(s, W, A, |A|);
  }

  lemma RoomNonNeg(s: Setup, W: seq<Vec>, A: seq<Vec>, i: nat, c: nat)
    requires Weights(s, W) && FeasibleAll(s, A) && i < |A| && c < |W|
    ensures Fits(s, A) && Room(s, W, A, i, c) >= 0.0
    ensures Room(s, W, A, i, c) == 0.0 <==> A[i][c] == CapOf(s, i, c) || Exceed(s, W, i, c) == Worst(s, W, i)
  {
    hide CapOf, Exceed;
    assert FeasibleRow(s, i, A[i]);
    var p := Product(CapOf(s, i, c) - A[i][c], Worst(s, W, i) - Exceed(s, W, i, c));
  }

  lemma {:induction false} RoomGrows(s: Setup, W: seq<Vec>, A: seq<Vec>, i: nat, b: nat, m: nat)
    requires Weights(s, W) && FeasibleAll(s, A) && i < |A| && b <= m <= |W|
    ensures Fits(s, A) && RoomTo(s, W, A, i, b) <= RoomTo(s, W, A, i, m)
  {
    hide Room, FeasibleRow;
    if b < m {
      RoomGrows(s, W, A, i, b, m - 1);
      RoomNonNeg(s, W, A, i, m - 1);
    }
  }

  lemma {:induction false} RoomsGrow(s: Setup, W: seq<Vec>, A: seq<Vec>, j: nat, k: nat)
    requires Weights(s, W) && FeasibleAll(s, A) && j <= k <= |A|
    ensures Fits(s, A) && RoomsTo(s, W, A, j) <= RoomsTo(s, W, A, k)
  {
    hide RoomTo, FeasibleRow;
    if j < k {
      RoomsGrow(s, W, A, j, k - 1);
      RoomStarts(s, W, A, k - 1);
      RoomGrows(s, W, A, k - 1, 0, |W|);
    }
  }

  lemma RoomStarts(s: Setup, W: seq<Vec>, A: seq<Vec>, i: nat)
    requires Weights(s, W) && Fits(s, A) && i < |A|
    ensures RoomTo(s, W, A, i, 0) == 0.0
  {
  }

  lemma {:induction false} DistanceNonNeg(s: Setup, W: seq<Vec>, A: seq<Vec>, m: nat)
    requires Weights(s, W) && Fits(s, A) && m <= |W|
    ensures DistanceTo(s, W, A, m) >= 0.0
  {
    hide Weight, LinAlg.Dot, LinAlg.Axpy;
    if m > 0 {
      DistanceNonNeg(s, W, A, m - 1);
      SquareNonNeg(Axpy(W[m - 1], -1.0, Weight(s, A, m - 1)));
    }
  }

  /** Weak duality: minus the dual objective never exceeds the primal one. */
  lemma WeakDuality(s: Setup, W: seq<Vec>, A: seq<Vec>)
    requires Weights(s, W) && FeasibleAll(s, A)
    ensures Fits(s, A) && -Dual(s, A) <= PrimalValue(s, W)
  {
    hide Dual, PrimalValue, FeasibleRow, DistanceTo, RoomTo;
    GapIs(s, W, A);
    DistanceNonNeg(s, W, A, |W|);
    RoomsGrow(s, W, A, 0, |A|);
  }

  // ------------------------------------------------------------- no gap at a minimum

  /** The weights of the alphas. */
  ghost function WeightsOf(s: Setup, A: seq<Vec>): (W: seq<Vec>)
    requires Fits(s, A)
    ensures Weights(s, W) && forall c :: 0 <= c < |W| ==> W[c] == Weight(s, A, c)
  {
    seq(|s.C|, c requires 0 <= c < |s.C| => Weight(s, A, c))
  }

  lemma {:induction false} DistanceNone(s: Setup, W: seq<Vec>, A: seq<Vec>, m: nat)
    requires Fits(s, A) && W == WeightsOf(s, A) && m <= |W|
    ensures DistanceTo(s, W, A, m) == 0.0
  {
    hide Weight, LinAlg.Dot;
    if m > 0 {
      DistanceNone(s, W, A, m - 1);
      var w := W[m - 1];
      assert Axpy(w, -1.0, w) == Zeros(|w|);
      DotZero(Zeros(|w|));
    }
  }

  /** The gradients of an instance are those of a visit: its excess and its own score. */
  lemma GradIsExceed(s: Setup, W: seq<Vec>, A: seq<Vec>, i: nat, c: nat)
    requires Fits(s, A) && W == WeightsOf(s, A) && i < |A| && c < |W|
    ensures GradRow(s, A, i)[c] == Exceed(s, W, i, c) + Score(s, W, i, s.y[i])
  {
    hide Weight, LinAlg.Dot, Sparse.Dense;
  }

  lemma WorstReached(s: Setup, W: seq<Vec>, i: nat) returns (c: nat)
    requires Weights(s, W) && i < |s.x|
    ensures c < |W| && Worst(s, W, i) == Exceed(s, W, i, c)
    ensures forall d :: 0 <= d < |W| ==> Worst(s, W, i) >= Exceed(s, W, i, d)
  {
    hide Score;
    if Worst(s, W, i) == 0.0 {
      c := s.y[i];
    } else {
      c :| 0 <= c < |W| && Worst(s, W, i) == Exceed(s, W, i, c);
    }
  }

  /** The instance has no room exactly when it has no gap. */
  lemma RoomZeroIff(s: Setup, W: seq<Vec>, A: seq<Vec>, i: nat)
    requires FeasibleAll(s, A) && i < |A| && Fits(s, A) && W == WeightsOf(s, A)
    ensures RoomTo(s, W, A, i, |W|) == 0.0 <==> NoGap(s, A, i)
  {
    hide FeasibleRow, CapOf, Exceed, Score, Worst, Room, GradRow, RoomTo;
    var top := WorstReached(s, W, i);
    if NoGap(s, A, i) {
      forall c | 0 <= c < |W| ensures Room(s, W, A, i, c) == 0.0 {
        RoomNonNeg(s, W, A, i, c);
        WithinCap(s, A, i, c);
        GradIsExceed(s, W, A, i, c);
        GradIsExceed(s, W, A, i, top);
        if A[i][c] < CapOf(s, i, c) { assert GradRow(s, A, i)[top] <= GradRow(s, A, i)[c]; }
      }
      AllRoomZero(s, W, A, i, |W|);
    }
    if RoomTo(s, W, A, i, |W|) == 0.0 {
      forall c, d | 0 <= c < |s.C| && 0 <= d < |s.C| && A[i][d] < CapOf(s, i, d)
        ensures GradRow(s, A, i)[c] <= GradRow(s, A, i)[d]
      {
        RoomZeroAt(s, W, A, i, d);
        RoomNonNeg(s, W, A, i, d);
        GradIsExceed(s, W, A, i, c);
        GradIsExceed(s, W, A, i, d);
      }
    }
  }

  lemma WithinCap(s: Setup, A: seq<Vec>, i: nat, c: nat)
    requires FeasibleAll(s, A) && i < |A| && c < |s.C|
    ensures Fits(s, A) && A[i][c] <= CapOf(s, i, c)
  {
    hide CapOf;
    assert FeasibleRow(s, i, A[i]);
  }

  lemma {:induction false} AllRoomZero(s: Setup, W: seq<Vec>, A: seq<Vec>, i: nat, m: nat)
    requires Weights(s, W) && Fits(s, A) && i < |A| && m <= |W|
    requires forall c :: 0 <= c < |W| ==> Room(s, W, A, i, c) == 0.0
    ensures RoomTo(s, W, A, i, m) == 0.0
  {
    hide Room;
    if m > 0 { AllRoomZero(s, W, A, i, m - 1); }
  }

  lemma RoomZeroAt(s: Setup, W: seq<Vec>, A: seq<Vec>, i: nat, c: nat)
    requires Weights(s, W) && FeasibleAll(s, A) && Fits(s, A) && i < |A| && c < |W| && RoomTo(s, W, A, i, |W|) == 0.0
    ensures Room(s, W, A, i, c) == 0.0
  {
    hide Room, FeasibleRow;
    RoomStarts(s, W, A, i);
    RoomGrows(s, W, A, i, 0, c);
    RoomGrows(s, W, A, i, c + 1, |W|);
    RoomNonNeg(s, W, A, i, c);
  }

  lemma {:induction false} AllRoomsZero(s: Setup, W: seq<Vec>, A: seq<Vec>, k: nat)
    requires Weights(s, W) && Fits(s, A) && k <= |A|
    requires forall i :: 0 <= i < |A| ==> RoomTo(s, W, A, i, |W|) == 0.0
    ensures RoomsTo(s, W, A, k) == 0.0
  {
    hide RoomTo;
    if k > 0 { AllRoomsZero(s, W, A, k - 1); }
  }

  lemma RoomsZeroAt(s: Setup, W: seq<Vec>, A: seq<Vec>, i: nat)
    requires Weights(s, W) && FeasibleAll(s, A) && Fits(s, A) && i < |A| && RoomsTo(s, W, A, |A|) == 0.0
    ensures RoomTo(s, W, A, i, |W|) == 0.0
  {
    hide RoomTo, FeasibleRow;
    RoomsGrow(s, W, A, 0, i);
    RoomsGrow(s, W, A, i + 1, |A|);
    RoomStarts(s, W, A, i);
    RoomGrows(s, W, A, i, 0, |W|);
  }

  /** The weights have the value of minus the dual objective if and only if the alphas minimise the dual problem. */
  lemma StrongDuality(s: Setup, A: seq<Vec>)
    requires FeasibleAll(s, A)
    ensures Fits(s, A)
    ensures PrimalValue(s, WeightsOf(s, A)) == -Dual(s, A) <==>
            forall B :: FeasibleAll(s, B) ==> Dual(s, B) >= Dual(s, A)
  {
    hide Dual, PrimalValue, FeasibleRow, RoomTo, NoGap, RoomsTo, DistanceTo, WeightsOf;
    FeasibleFits(s, A);
    var W := WeightsOf(s, A);
    OptimalIff(s, A);
    GapIs(s, W, A);
    DistanceNone(s, W, A, |W|);
    if forall i :: 0 <= i < |A| ==> NoGap(s, A, i) {
      forall i | 0 <= i < |A| ensures RoomTo(s, W, A, i, |W|) == 0.0 { RoomZeroIff(s, W, A, i); }
      AllRoomsZero(s, W, A, |A|);
    } else if RoomsTo(s, W, A, |A|) == 0.0 {
      forall i | 0 <= i < |A| ensures NoGap(s, A, i) {
        RoomsZeroAt(s, W, A, i);
        RoomZeroIff(s, W, A, i);
      }
    }
  }

  /** So the weights of a dual minimiser minimise the problem the solver is for. */
  lemma ReturnedIsOptimal(s: Setup, A: seq<Vec>, V: seq<Vec>)
    requires FeasibleAll(s, A) && Weights(s, V) && forall B :: FeasibleAll(s, B) ==> Dual(s, B) >= Dual(s, A)
    ensures Fits(s, A) && PrimalValue(s, WeightsOf(s, A)) <= PrimalValue(s, V)
  {
    hide Dual, PrimalValue, FeasibleRow, WeightsOf;
    StrongDuality(s, A);
    WeakDuality(s, V, A);
  }
}
