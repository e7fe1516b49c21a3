/**
 Runs of Solver_MCSVM_CS::Solve as values: what a visit does to the whole state,
 how the passes follow each other, and what holds at every point of every run.
 */
module CsRun {
  import opened LinAlg
  import opened Permutation
  import opened ActiveSet
  import opened RunHistory
  import opened ExtReal
  import opened Sparse
  import opened CsSubProblem
  import opened CsRow
  import opened CsVisit
  import opened CsDrift

  /** The data of a run: rows over n features, their classes, and one C per class. */
  datatype Setup = Setup(n: nat, x: seq<Row>, y: seq<int>, C: Vec)

  ghost predicate Valid(s: Setup) {
    && |s.x| == |s.y| && ValidRows(s.x, s.n)
    && (forall i :: 0 <= i < |s.y| ==> 0 <= s.y[i] < |s.C|)
    && (forall m :: 0 <= m < |s.C| ==> s.C[m] > 0.0)
  }

  /** QD[i] */
  ghost function Norm(s: Setup, i: nat): real
    requires Valid(s) && i < |s.x|
  {
    Dot(Dense(s.x[i], s.n), Dense(s.x[i], s.n))
  }

  /** The state between two visits: the weights of every class and the row of every instance. */
  datatype Snapshot = Snapshot(W: seq<Vec>, alpha: seq<Vec>, idx: seq<seq<int>>, act: seq<int>, yix: seq<int>)

  ghost predicate Shaped(s: Setup, p: Snapshot) {
    && |p.W| == |s.C| && (forall c :: 0 <= c < |p.W| ==> |p.W[c]| == s.n)
    && |p.alpha| == |p.idx| == |p.act| == |p.yix| == |s.x|
  }

  ghost predicate RowOk(s: Setup, p: Snapshot, i: nat)
    requires Valid(s) && Shaped(s, p) && i < |s.x|
  {
    && |p.alpha[i]| == |s.C|
    && RowInv(p.alpha[i], p.idx[i], p.act[i], p.yix[i], s.y[i], s.C[s.y[i]])
  }

  /**
   What holds between visits: the alphas of every instance sum to zero and
   respect their caps, entries past the active size sit on them, alpha_index is a
   permutation and has the instance's class at y_index.
   */
  ghost predicate Sound(s: Setup, p: Snapshot) {
    Valid(s) && Shaped(s, p) && forall i :: 0 <= i < |s.x| ==> RowOk(s, p, i)
  }

  // ---------------------------------------------------------------- one visit

  /** What a visit finds: minG and the gap maxG - minG. */
  datatype Finding = Finding(minG: real, gap: real)

  const TINY: real := 0.000000000001

  ghost function Grads(s: Setup, p: Snapshot, i: nat): (gv: Vec)
    requires Valid(s) && Shaped(s, p) && i < |s.x|
    ensures |gv| == |s.C|
  {
    GradientsOf(s.x[i], s.n, p.W, s.y[i])
  }

  /** After the visit the active alphas solve the sub-problem over the classes still active. */
  ghost predicate RowSolved(s: Setup, p: Snapshot, q: Snapshot, i: nat)
    requires Valid(s) && Shaped(s, p) && Shaped(s, q) && i < |s.x|
  {
    var gv, A := Grads(s, p, i), Norm(s, i);
    && |p.alpha[i]| == |q.alpha[i]| == |gv| && IsPerm(q.idx[i], |gv|) && 0 <= q.act[i] <= |gv| && A > 0.0
    && Minimiser(A, Linear(gv, A, p.alpha[i], q.idx[i], q.act[i]), q.yix[i], s.C[s.y[i]],
                 Gather(q.alpha[i], q.idx[i], q.act[i]))
  }

  /** q differs from p in instance i and in the weights only. */
  ghost predicate OnlyRow(s: Setup, p: Snapshot, q: Snapshot, i: nat)
    requires Shaped(s, p) && Shaped(s, q) && i < |s.x|
  {
    && q.alpha == p.alpha[i := q.alpha[i]] && q.idx == p.idx[i := q.idx[i]]
    && q.act == p.act[i := q.act[i]] && q.yix == p.yix[i := q.yix[i]]
  }

  /**
   The visit of an instance with a non-zero row: the gap is that of the row found,
   exactly the classes that can be shrunk are shrunk, and the sub-problem is solved
   unless the instance is dropped or the gap is within 1e-12; w absorbs the change.
   */
  ghost predicate RowVisited(s: Setup, p: Snapshot, q: Snapshot, i: nat, f: Finding)
    requires Valid(s) && Shaped(s, p) && Shaped(s, q) && i < |s.x|
  {
    var y, c := s.y[i], s.C[s.y[i]];
    && OnlyRow(s, p, q, i) && RowOk(s, p, i) && RowOk(s, q, i)
    && Extremal(p.alpha[i], p.idx[i], p.act[i], y, c, Grads(s, p, i), f.minG, f.minG + f.gap)
    && ShrunkBy(p.alpha[i], Grads(s, p, i), y, c, f.minG, p.idx[i], q.idx[i], p.act[i], q.act[i])
    && (if q.act[i] > 1 && f.gap > TINY then RowSolved(s, p, q, i) else q.alpha[i] == p.alpha[i])
    && Absorbed(s.x[i], s.n, p.W, q.W, p.alpha[i], q.alpha[i])
  }

  /** A visit: an all-zero row is left alone; an instance is dropped when at most one class stays active. */
  ghost predicate Visited(s: Setup, p: Snapshot, q: Snapshot, m: Mark<Finding>) {
    && Valid(s) && Shaped(s, p) && Shaped(s, q) && 0 <= m.i < |s.x|
    && (Norm(s, m.i) > 0.0 ==> RowVisited(s, p, q, m.i, m.note) && (m.shrunk <==> q.act[m.i] <= 1))
    && (!(Norm(s, m.i) > 0.0) ==> q == p && !m.shrunk && m.note.gap == 0.0)
  }

  ghost function Visits(s: Setup): (Snapshot, Snapshot, Mark<Finding>) -> bool {
    (p, q, m) => Visited(s, p, q, m)
  }

  lemma VisitedShape(s: Setup, p: Snapshot, q: Snapshot, m: Mark<Finding>)
    requires Visited(s, p, q, m)
    ensures Valid(s) && Shaped(s, p) && Shaped(s, q) && 0 <= m.i < |s.x|
    ensures OnlyRow(s, p, q, m.i)
  {
    hide RowOk, CsRow.Extremal, CsRow.ShrunkBy, RowSolved, CsVisit.Absorbed, Norm;
  }

  /** A visit keeps the state sound. */
  lemma VisitSound(s: Setup, p: Snapshot, q: Snapshot, m: Mark<Finding>)
    requires Visited(s, p, q, m) && Sound(s, p)
    ensures Sound(s, q)
  {
    hide CsRow.RowInv, CsRow.Extremal, CsRow.ShrunkBy, RowSolved, CsVisit.Absorbed, Norm;
    VisitedShape(s, p, q, m);
    forall i | 0 <= i < |s.x| ensures RowOk(s, q, i) {
      assert RowOk(s, p, i);
    }
  }

  /** An instance is only dropped when it has no gap. */
  lemma DroppedIsOptimal(s: Setup, p: Snapshot, q: Snapshot, m: Mark<Finding>)
    requires Visited(s, p, q, m) && m.shrunk
    ensures m.note.gap == 0.0
  {
    hide CsRow.RowInv, CsRow.Extremal, CsRow.ShrunkBy, CsVisit.Absorbed, Norm, Grads, RowSolved;
    var i, f := m.i, m.note;
    DroppedGap(p.alpha[i], Grads(s, p, i), s.y[i], s.C[s.y[i]], f.minG, f.minG + f.gap, p.idx[i], q.idx[i], p.act[i],
               q.act[i]);
  }

  /** The gap a visit finds is zero if and only if the row it finds already solves its sub-problem. */
  lemma NoGapIsOptimal(s: Setup, p: Snapshot, q: Snapshot, m: Mark<Finding>)
    requires Visited(s, p, q, m) && Norm(s, m.i) > 0.0
    ensures |p.alpha[m.i]| == |s.C| && 0 <= p.act[m.i] <= |s.C| && IsPerm(p.idx[m.i], |s.C|)
    ensures var gv, A, i := Grads(s, p, m.i), Norm(s, m.i), m.i;
            m.note.gap <= 0.0 <==>
              Minimiser(A, Linear(gv, A, p.alpha[i], p.idx[i], p.act[i]), p.yix[i], s.C[s.y[i]],
                        Gather(p.alpha[i], p.idx[i], p.act[i]))
  {
    hide CsRow.RowInv, CsRow.Extremal, CsRow.ShrunkBy, CsVisit.Absorbed, Norm, Grads, RowSolved, Linear;
    hide Gather, Minimiser;
    var i, f := m.i, m.note;
    assert RowOk(s, p, i);
    RowFacts(p.alpha[i], p.idx[i], p.act[i], p.yix[i], s.y[i], s.C[s.y[i]]);
    ZeroGapIff(Norm(s, i), p.alpha[i], p.idx[i], p.act[i], p.yix[i], s.y[i], s.C[s.y[i]], Grads(s, p, i),
               f.minG, f.minG + f.gap);
  }

  // ------------------------------------------------------------------- drift

  ghost predicate Bounded(s: Setup, M: real)
    requires Valid(s)
  {
    forall i, f :: 0 <= i < |s.x| && 0 <= f < s.n ==> Abs(Dense(s.x[i], s.n)[f]) <= M
  }

  /** Every data set has such a bound. */
  lemma SomeBound(s: Setup) returns (M: real)
    requires Valid(s)
    ensures M >= 0.0 && Bounded(s, M)
  {
    hide Sparse.Dense;
    M := RowsBound(DenseRows(s.x, s.n));
  }

  lemma {:induction false} RowsBound(X: seq<Vec>) returns (M: real)
    ensures M >= 0.0 && forall i, f :: 0 <= i < |X| && 0 <= f < |X[i]| ==> Abs(X[i][f]) <= M
  {
    M := 0.0;
    if |X| > 0 {
      var m := EntriesBound(X[0]);
      M := RowsBound(X[1..]);
      M := Max(m, M);
      forall i, f | 0 <= i < |X| && 0 <= f < |X[i]| ensures Abs(X[i][f]) <= M {
        if i > 0 { assert X[1..][i - 1] == X[i]; }
      }
    }
  }

  lemma {:induction false} EntriesBound(v: Vec) returns (M: real)
    ensures M >= 0.0 && forall f :: 0 <= f < |v| ==> Abs(v[f]) <= M
  {
    M := 0.0;
    if |v| > 0 {
      M := EntriesBound(v[1..]);
      M := Max(Abs(v[0]), M);
      forall f | 0 <= f < |v| ensures Abs(v[f]) <= M {
        if f > 0 { assert v[1..][f - 1] == v[f]; }
      }
    }
  }

  /** w is within v times 1e-12 M of the combination of the rows with the alphas. */
  ghost predicate Drifted(s: Setup, p: Snapshot, M: real, v: nat)
    requires Valid(s)
  {
    Within(p.W, p.alpha, DenseRows(s.x, s.n), s.n, Drift(M, v))
  }

  ghost function Drift(M: real, v: nat): real {
    v as real * (TINY * M)
  }

  lemma DriftStep(M: real, v: nat)
    ensures Drift(M, v) + TINY * M == Drift(M, v + 1)
  {
    assert (v + 1) as real == v as real + 1.0;
  }

  /** One visit adds at most 1e-12 M. */
  lemma VisitDrift(s: Setup, p: Snapshot, q: Snapshot, m: Mark<Finding>, M: real, v: nat)
    requires Visited(s, p, q, m) && Bounded(s, M) && Drifted(s, p, M, v) && M >= 0.0
    ensures Drifted(s, q, M, v + 1)
  {
    hide CsDrift.Within, CsVisit.Absorbed, CsRow.RowInv, CsRow.Extremal, CsRow.ShrunkBy, RowSolved;
    hide LinAlg.Abs, Norm, RowOk;
    DriftStep(M, v);
    var X, i := DenseRows(s.x, s.n), m.i;
    WithinShape(p.W, p.alpha, X, s.n, Drift(M, v));
    if Norm(s, i) > 0.0 {
      VisitWithin(p.W, p.alpha, X, s.n, Drift(M, v), i, s.x[i], q.W, q.alpha[i], M);
    } else {
      WithinMore(p.W, p.alpha, X, s.n, Drift(M, v), Drift(M, v + 1));
    }
  }

  lemma WithinShape(W: seq<Vec>, alphas: seq<Vec>, X: seq<Vec>, n: nat, bound: real)
    requires Within(W, alphas, X, n, bound)
    ensures CsDrift.Shaped(W, alphas, X, n)
  {
  }

  lemma WithinMore(W: seq<Vec>, alphas: seq<Vec>, X: seq<Vec>, n: nat, b: real, c: real)
    requires Within(W, alphas, X, n, b) && b <= c
    ensures Within(W, alphas, X, n, c)
  {
    hide LinAlg.Comb, LinAlg.Abs;
  }

  // ---------------------------------------------------------------- one pass

  /** Soundness and the drift bound hold at every point of a pass. */
  lemma {:induction false} PassSound(s: Setup, h: History<Snapshot, Finding>, M: real, v: nat, k: nat)
    requires Runs(Visits(s), h) && k < |h.points| && Sound(s, h.points[0])
    requires Bounded(s, M) && M >= 0.0 && Drifted(s, h.points[0], M, v)
    ensures Sound(s, h.points[k]) && Drifted(s, h.points[k], M, v + k)
  {
    hide Visited, RowOk, Drifted, Bounded, Valid;
    if k > 0 {
      PassSound(s, h, M, v, k - 1);
      var p, q, m := h.points[k - 1], h.points[k], h.marks[k - 1];
      assert Visits(s)(p, q, m);
      VisitSound(s, p, q, m);
      VisitDrift(s, p, q, m, M, v + (k - 1));
    }
  }

  /** An instance keeps its active size until it is visited. */
  lemma {:induction false} ActUntouched(s: Setup, h: History<Snapshot, Finding>, i: nat, k: nat)
    requires Runs(Visits(s), h) && k < |h.points| && Valid(s) && i < |s.x| && Shaped(s, h.points[0])
    requires forall j :: 0 <= j < k ==> h.marks[j].i != i
    ensures Shaped(s, h.points[k]) && h.points[k].act[i] == h.points[0].act[i]
  {
    hide Visited, Valid;
    if k > 0 {
      ActUntouched(s, h, i, k - 1);
      assert Visits(s)(h.points[k - 1], h.points[k], h.marks[k - 1]);
      VisitedShape(s, h.points[k - 1], h.points[k], h.marks[k - 1]);
    }
  }

  /** stopping < t: every gap above 1e-12 that the pass found is below t. */
  ghost predicate GapsBelow(h: History<Snapshot, Finding>, t: real) {
    forall k :: 0 <= k < |h.marks| && h.marks[k].note.gap > TINY ==> h.marks[k].note.gap < t
  }

  /** stopping is the largest gap above 1e-12 that was found, or -INF. */
  ghost predicate Stopping(h: History<Snapshot, Finding>, stopping: Ext) {
    && (forall k :: 0 <= k < |h.marks| && h.marks[k].note.gap > TINY ==> AtMost(Fin(h.marks[k].note.gap), stopping))
    && (stopping == NegInf
        || exists k :: 0 <= k < |h.marks| && h.marks[k].note.gap > TINY && Fin(h.marks[k].note.gap) == stopping)
  }

  lemma StoppingBelow(h: History<Snapshot, Finding>, stopping: Ext, t: real)
    requires Stopping(h, stopping)
    ensures Below(stopping, Fin(t)) <==> GapsBelow(h, t)
  {
  }

  lemma StoppingMore(h: History<Snapshot, Finding>, stopping: Ext, q: Snapshot, m: Mark<Finding>, stopping': Ext)
    requires Stopping(h, stopping)
    requires stopping' == if m.note.gap > TINY then MaxE(Fin(m.note.gap), stopping) else stopping
    ensures Stopping(Extended(h, q, m), stopping')
  {
    var h' := Extended(h, q, m);
    assert h'.marks[|h.marks|] == m;
    assert forall k :: 0 <= k < |h.marks| ==> h'.marks[k] == h.marks[k];
    if stopping != NegInf && stopping' == stopping {
      var k :| 0 <= k < |h.marks| && h.marks[k].note.gap > TINY && Fin(h.marks[k].note.gap) == stopping;
      assert h'.marks[k] == h.marks[k];
    }
  }

  // ------------------------------------------------------------------ the run

  ghost function Identity(n: nat): (r: seq<int>)
    ensures |r| == n && forall k :: 0 <= k < n ==> r[k] == k
  {
    seq(n, k requires 0 <= k < n => k)
  }

  /** Everything zero, everything active. */
  ghost function Start(s: Setup): (p: Snapshot)
    requires Valid(s)
    ensures Shaped(s, p)
    ensures forall c :: 0 <= c < |s.C| ==> p.W[c] == Zeros(s.n)
    ensures forall i :: 0 <= i < |s.x| ==>
              p.alpha[i] == Zeros(|s.C|) && p.idx[i] == Identity(|s.C|) && p.act[i] == |s.C| && p.yix[i] == s.y[i]
  {
    var l, k := |s.x|, |s.C|;
    Snapshot(seq(k, _ => Zeros(s.n)), seq(l, _ => Zeros(k)), seq(l, _ => Identity(k)), seq(l, _ => k), s.y)
  }

  /** All classes of all instances active again. */
  ghost function Reactivated(s: Setup, p: Snapshot): Snapshot {
    p.(act := seq(|s.x|, _ => |s.C|))
  }

  lemma StartSound(s: Setup, M: real)
    requires Valid(s)
    ensures Sound(s, Start(s)) && Drifted(s, Start(s), M, 0)
  {
    hide LinAlg.Comb, LinAlg.Abs, Sparse.Dense;
    var p, k := Start(s), |s.C|;
    forall i | 0 <= i < |s.x| ensures RowOk(s, p, i) {
      SumZeros(Zeros(k), k);
    }
    StartWithin(p.W, p.alpha, DenseRows(s.x, s.n), s.n);
  }

  lemma ReactivatedSound(s: Setup, p: Snapshot)
    requires Sound(s, p)
    ensures Sound(s, Reactivated(s, p))
  {
    hide LinAlg.Sum;
    var q := Reactivated(s, p);
    forall i | 0 <= i < |s.x| ensures RowOk(s, q, i) {
      assert RowOk(s, p, i);
    }
  }

  lemma ReactivatedDrift(s: Setup, p: Snapshot, M: real, v: nat)
    requires Valid(s) && Drifted(s, p, M, v)
    ensures Drifted(s, Reactivated(s, p), M, v)
  {
    hide CsDrift.Within;
  }

  /** eps_shrink at the end of pass p. */
  ghost function Threshold(passes: seq<History<Snapshot, Finding>>, eps: real, p: nat): real
    requires p < |passes| || p == 0
    decreases p, 0
  {
    if p == 0 then Max(10.0 * eps, 1.0)
    else if Resets(passes, eps, p - 1) then Max(Threshold(passes, eps, p - 1) / 2.0, eps)
    else Threshold(passes, eps, p - 1)
  }

  /** stopping < eps_shrink after pass p: the next pass starts from everything, unless there is none. */
  ghost predicate Resets(passes: seq<History<Snapshot, Finding>>, eps: real, p: nat)
    requires p < |passes|
    decreases p, 1
  {
    GapsBelow(passes[p], Threshold(passes, eps, p))
  }

  ghost predicate FromAll(passes: seq<History<Snapshot, Finding>>, eps: real, p: nat)
    requires p <= |passes|
  {
    p == 0 || Resets(passes, eps, p - 1)
  }

  /** What pass p has to visit, and the state it starts from. */
  ghost function CsDue(s: Setup, passes: seq<History<Snapshot, Finding>>, eps: real, p: nat): set<int>
    requires p <= |passes|
  {
    if FromAll(passes, eps, p) then Everything(|s.x|) else Kept(passes[p - 1].marks)
  }

  ghost predicate Begins(s: Setup, passes: seq<History<Snapshot, Finding>>, eps: real, p: nat, q: Snapshot)
    requires p <= |passes| && Valid(s)
  {
    if p == 0 then q == Start(s) else
      var h := passes[p - 1];
      |h.points| > 0 && q == (if Resets(passes, eps, p - 1) then Reactivated(s, h.points[|h.points| - 1])
        else h.points[|h.points| - 1])
  }

  /** A run: every pass is made of visits, visits what is due once each, and starts where the one before left off. */
  ghost predicate IsCsRun(s: Setup, passes: seq<History<Snapshot, Finding>>, eps: real) {
    && Valid(s)
    && forall p :: 0 <= p < |passes| ==> IsPass(s, passes, eps, p)
  }

  ghost predicate IsPass(s: Setup, passes: seq<History<Snapshot, Finding>>, eps: real, p: nat)
    requires p < |passes| && Valid(s)
  {
    && Runs(Visits(s), passes[p]) && VisitsOnce(passes[p], CsDue(s, passes, eps, p))
    && |passes[p].points| > 0 && Begins(s, passes, eps, p, passes[p].points[0])
  }

  /** The early exit: a pass that started from everything and found no gap of eps or more, 1e-12 aside. */
  ghost predicate CsExits(passes: seq<History<Snapshot, Finding>>, eps: real, p: nat)
    requires p < |passes|
  {
    FromAll(passes, eps, p) && Resets(passes, eps, p) && GapsBelow(passes[p], eps)
  }

  // ------------------------------------------------------ the threshold of a pass

  /** x halved k times. */
  ghost function Halving(x: real, k: nat): real {
    if k == 0 then x else Halving(x, k - 1) / 2.0
  }

  /** How many of the first p passes were followed by a reset. */
  ghost function ResetsBefore(passes: seq<History<Snapshot, Finding>>, eps: real, p: nat): nat
    requires p <= |passes|
  {
    if p == 0 then 0 else ResetsBefore(passes, eps, p - 1) + if Resets(passes, eps, p - 1) then 1 else 0
  }

  /**
   A pass is followed by a reset exactly when every gap above 1e-12 it found is below eps, or below
   max(10 eps, 1) halved once for each reset before it.
   */
  lemma ResetsIff(passes: seq<History<Snapshot, Finding>>, eps: real, p: nat)
    requires p < |passes|
    ensures var level := Halving(if eps > 0.1 then 10.0 * eps else 1.0, ResetsBefore(passes, eps, p));
            Resets(passes, eps, p) <==>
              forall k :: 0 <= k < |passes[p].marks| && passes[p].marks[k].note.gap > 0.000000000001 ==>
                passes[p].marks[k].note.gap < level || passes[p].marks[k].note.gap < eps
  {
    ThresholdIs(passes, eps, p);
  }

  lemma {:induction false} ThresholdIs(passes: seq<History<Snapshot, Finding>>, eps: real, p: nat)
    requires p < |passes| || p == 0
    ensures Threshold(passes, eps, p) == Max(Halving(if eps > 0.1 then 10.0 * eps else 1.0,
                                                     ResetsBefore(passes, eps, p)), eps)
  {
    hide GapsBelow, Resets;
    if p > 0 {
      ThresholdIs(passes, eps, p - 1);
      HalvingPositive(if eps > 0.1 then 10.0 * eps else 1.0, ResetsBefore(passes, eps, p));
    }
  }

  lemma {:induction false} HalvingPositive(x: real, k: nat)
    requires x > 0.0
    ensures Halving(x, k) > 0.0
  {
    if k > 0 { HalvingPositive(x, k - 1); }
  }

  /** The early exit: also nothing at or above eps, in a pass that followed a reset or was the first. */
  lemma ExitsIff(passes: seq<History<Snapshot, Finding>>, eps: real, p: nat)
    requires p < |passes|
    ensures CsExits(passes, eps, p) <==>
            && (p == 0 || Resets(passes, eps, p - 1))
            && forall k :: 0 <= k < |passes[p].marks| && passes[p].marks[k].note.gap > 0.000000000001 ==>
                 passes[p].marks[k].note.gap < eps
  {
    ResetsIff(passes, eps, p);
  }

  // ------------------------------------------- adding a pass changes nothing before

  lemma {:induction false} SameBefore(passes: seq<History<Snapshot, Finding>>, h: History<Snapshot, Finding>, eps: real,
                                      p: nat)
    requires p < |passes|
    ensures Threshold(passes + [h], eps, p) == Threshold(passes, eps, p)
    ensures Resets(passes + [h], eps, p) <==> Resets(passes, eps, p)
  {
    hide GapsBelow;
    if p > 0 { SameBefore(passes, h, eps, p - 1); }
  }

  lemma SamePass(s: Setup, passes: seq<History<Snapshot, Finding>>, h: History<Snapshot, Finding>, eps: real, p: nat)
    requires p <= |passes| && Valid(s)
    ensures FromAll(passes + [h], eps, p) <==> FromAll(passes, eps, p)
    ensures CsDue(s, passes + [h], eps, p) == CsDue(s, passes, eps, p)
    ensures forall q :: Begins(s, passes + [h], eps, p, q) <==> Begins(s, passes, eps, p, q)
  {
    hide Resets, Kept, Reactivated;
    if p > 0 { SameBefore(passes, h, eps, p - 1); }
  }

  lemma RunMore(s: Setup, passes: seq<History<Snapshot, Finding>>, h: History<Snapshot, Finding>, eps: real,
                p: Snapshot)
    requires IsCsRun(s, passes, eps) && Begins(s, passes, eps, |passes|, p)
    requires Runs(Visits(s), h) && StartsAt(h, p) && VisitsOnce(h, CsDue(s, passes, eps, |passes|))
    ensures IsCsRun(s, passes + [h], eps)
    ensures forall k :: 0 <= k < |passes| ==> (CsExits(passes + [h], eps, k) <==> CsExits(passes, eps, k))
  {
    hide Runs, VisitsOnce, Begins, CsDue, Resets, FromAll, GapsBelow;
    var all := passes + [h];
    forall k | 0 <= k < |all| ensures IsPass(s, all, eps, k) {
      SamePass(s, passes, h, eps, k);
      if k < |passes| { assert IsPass(s, passes, eps, k); }
    }
    forall k | 0 <= k < |passes| ensures CsExits(all, eps, k) <==> CsExits(passes, eps, k) {
      SamePass(s, passes, h, eps, k);
      SameBefore(passes, h, eps, k);
    }
  }

  // --------------------------------------------------------- what every run keeps

  /** The number of visits before pass p. */
  ghost function VisitsBefore(passes: seq<History<Snapshot, Finding>>, p: nat): nat
    requires p <= |passes|
  {
    if p == 0 then 0 else VisitsBefore(passes, p - 1) + |passes[p - 1].marks|
  }

  /** At every point of every run the state is sound, and w is within 1e-12 M per visit of the alphas' combination. */
  lemma {:induction false} RunSound(s: Setup, passes: seq<History<Snapshot, Finding>>, eps: real, M: real, p: nat,
                                    k: nat)
    requires IsCsRun(s, passes, eps) && Bounded(s, M) && M >= 0.0 && p < |passes| && k < |passes[p].points|
    ensures Sound(s, passes[p].points[k]) && Drifted(s, passes[p].points[k], M, VisitsBefore(passes, p) + k)
    decreases p
  {
    hide Sound, Drifted, Bounded, Runs, VisitsOnce, CsDue, Reactivated;
    assert IsPass(s, passes, eps, p);
    var first := passes[p].points[0];
    if p == 0 {
      StartSound(s, M);
    } else {
      var h := passes[p - 1];
      assert IsPass(s, passes, eps, p - 1);
      RunsShape(s, h);
      RunSound(s, passes, eps, M, p - 1, |h.marks|);
      ReactivatedSound(s, h.points[|h.marks|]);
      ReactivatedDrift(s, h.points[|h.marks|], M, VisitsBefore(passes, p));
    }
    PassSound(s, passes[p], M, VisitsBefore(passes, p), k);
  }

  lemma RunsShape(s: Setup, h: History<Snapshot, Finding>)
    requires Runs(Visits(s), h)
    ensures |h.points| == |h.marks| + 1
  {
  }

  /**
   What an early exit means: every instance was visited in the last pass, with all
   its classes active, and unless its row is all zeros, where no gap is looked for,
   the gap maxG - minG of its gradients is below eps or within 1e-12.
   */
  lemma ExitMeans(s: Setup, passes: seq<History<Snapshot, Finding>>, eps: real, p: nat, i: nat) returns (k: nat)
    requires IsCsRun(s, passes, eps) && p < |passes| && CsExits(passes, eps, p) && i < |s.x|
    ensures k < |passes[p].marks| < |passes[p].points| && passes[p].marks[k].i == i && Shaped(s, passes[p].points[k])
    ensures passes[p].points[k].act[i] == |s.C|
    ensures Norm(s, i) > 0.0 ==>
              var q, f := passes[p].points[k], passes[p].marks[k].note;
              && |q.alpha[i]| == |s.C|
              && Extremal(q.alpha[i], q.idx[i], |s.C|, s.y[i], s.C[s.y[i]], Grads(s, q, i), f.minG, f.minG + f.gap)
              && (f.gap <= TINY || f.gap < eps)
  {
    hide Runs, Visits, Sound, Resets, Visited, Grads, CsRow.Extremal, Norm;
    var h := passes[p];
    assert IsPass(s, passes, eps, p);
    RunsShape(s, h);
    k := VisitOf(h, Everything(|s.x|), i);
    StartsActive(s, passes, eps, p);
    ActUntouched(s, h, i, k);
    VisitAt(s, h, k);
    if Norm(s, i) > 0.0 { GapIsFound(s, h.points[k], h.points[k + 1], h.marks[k]); }
  }

  lemma VisitAt(s: Setup, h: History<Snapshot, Finding>, k: nat)
    requires Runs(Visits(s), h) && k < |h.marks|
    ensures |h.points| == |h.marks| + 1 && Visited(s, h.points[k], h.points[k + 1], h.marks[k])
  {
    hide Visited;
    assert Visits(s)(h.points[k], h.points[k + 1], h.marks[k]);
  }

  /** The gap of a visit to a row that is not all zeros is that between the gradients found. */
  lemma GapIsFound(s: Setup, p: Snapshot, q: Snapshot, m: Mark<Finding>)
    requires Visited(s, p, q, m) && Norm(s, m.i) > 0.0
    ensures |p.alpha[m.i]| == |s.C|
    ensures Extremal(p.alpha[m.i], p.idx[m.i], p.act[m.i], s.y[m.i], s.C[s.y[m.i]], Grads(s, p, m.i), m.note.minG,
                     m.note.minG + m.note.gap)
  {
    hide CsRow.RowInv, CsRow.Extremal, CsRow.ShrunkBy, RowSolved, CsVisit.Absorbed, Norm, Grads;
  }

  lemma StartsActive(s: Setup, passes: seq<History<Snapshot, Finding>>, eps: real, p: nat)
    requires IsCsRun(s, passes, eps) && p < |passes| && FromAll(passes, eps, p)
    ensures |passes[p].points| > 0 && Shaped(s, passes[p].points[0])
    ensures forall i :: 0 <= i < |s.x| ==> passes[p].points[0].act[i] == |s.C|
  {
    hide Resets, VisitsOnce, CsDue, Runs;
    assert IsPass(s, passes, eps, p);
    if p > 0 {
      assert IsPass(s, passes, eps, p - 1);
      RunsShape(s, passes[p - 1]);
      LastShaped(s, passes, eps, p - 1);
    }
  }

  lemma LastShaped(s: Setup, passes: seq<History<Snapshot, Finding>>, eps: real, p: nat)
    requires IsCsRun(s, passes, eps) && p < |passes|
    ensures |passes[p].points| > 0 && Shaped(s, passes[p].points[|passes[p].points| - 1])
    decreases p
  {
    hide Resets, VisitsOnce, CsDue, Visited;
    assert IsPass(s, passes, eps, p);
    var h := passes[p];
    RunsShape(s, h);
    var n := |h.marks|;
    if n > 0 {
      assert Visits(s)(h.points[n - 1], h.points[n], h.marks[n - 1]);
      VisitedShape(s, h.points[n - 1], h.points[n], h.marks[n - 1]);
    } else if p > 0 {
      LastShaped(s, passes, eps, p - 1);
    }
  }
}
