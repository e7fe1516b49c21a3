/**
 Solver_MCSVM_CS of linear.cpp.  The fields are those of the class (B, C, G and
 the problem) together with the arrays that Solve allocates; row i of `alpha`
 and `alphaIndex` is what the code addresses as &alpha[i*nr_class].
 */
module CrammerSinger {
  import opened LinAlg
  import opened Permutation
  import opened ActiveSet
  import opened RunHistory
  import opened ExtReal
  import opened Sparse
  import opened CsSubProblem
  import opened CsRow
  import opened CsVisit
  import opened CsRun

  class Solver {
    const n: nat
    const x: seq<Row>
    const y: seq<int>
    const nrClass: nat
    const C: Vec
    const eps: real
    const maxIter: int

    const B: array<real>
    const G: array<real>

    const alpha: seq<array<real>>
    const alphaIndex: seq<array<int>>
    const alphaNew: array<real>
    const index: array<int>
    const QD: array<real>
    const dInd: array<int>
    const dVal: array<real>
    const yIndex: array<int>
    const activeSizeI: array<int>
    const w: array2<real>

    ghost function Task(): Setup {
      Setup(n, x, y, C)
    }

    ghost predicate Data() {
      Valid(Task()) && |C| == nrClass
    }

    /** Sizes of the arrays, and that no two of them are the same. */
    ghost predicate Layout() {
      && |alpha| == |alphaIndex| == |x|
      && (forall i :: 0 <= i < |x| ==> alpha[i].Length == nrClass && alphaIndex[i].Length == nrClass)
      && B.Length == G.Length == alphaNew.Length == dInd.Length == dVal.Length == nrClass
      && index.Length == QD.Length == yIndex.Length == activeSizeI.Length == |x|
      && w.Length0 == n && w.Length1 == nrClass
      && (forall i, j :: 0 <= i < j < |x| ==> alpha[i] != alpha[j])
      && (forall i, j :: 0 <= i < j < |x| ==> alphaIndex[i] != alphaIndex[j])
      && (forall i :: 0 <= i < |x| ==>
          && alpha[i] != B && alpha[i] != G && alpha[i] != alphaNew && alpha[i] != dVal
          && alpha[i] != QD)
      && (forall i :: 0 <= i < |x| ==>
          && alphaIndex[i] != dInd && alphaIndex[i] != index && alphaIndex[i] != yIndex
          && alphaIndex[i] != activeSizeI)
      && B != G && B != alphaNew && B != dVal && B != QD && G != alphaNew && G != dVal && G != QD
      && alphaNew != dVal && alphaNew != QD && dVal != QD
      && dInd != index && dInd != yIndex && dInd != activeSizeI && index != yIndex && index != activeSizeI
          && yIndex != activeSizeI
    }

    constructor (n: nat, x: seq<Row>, y: seq<int>, nrClass: nat, C: Vec, eps: real, maxIter: int)
      requires |x| == |y| && ValidRows(x, n) && |C| == nrClass
      requires forall i :: 0 <= i < |y| ==> 0 <= y[i] < nrClass
      requires forall m :: 0 <= m < nrClass ==> C[m] > 0.0
      ensures Data() && Layout()
      ensures this.n == n && this.x == x && this.y == y && this.nrClass == nrClass && this.C == C
      ensures this.eps == eps && this.maxIter == maxIter
    {
      this.n, this.x, this.y, this.nrClass, this.C, this.eps, this.maxIter := n, x, y, nrClass, C, eps, maxIter;
      var rows: seq<array<real>> := AllocateRows(|x|, nrClass, 0.0);
      var irows: seq<array<int>> := AllocateRows(|x|, nrClass, 0);
      alpha, alphaIndex := rows, irows;
      B := new real[nrClass];
      G := new real[nrClass];
      alphaNew := new real[nrClass];
      index := new int[|x|];
      QD := new real[|x|];
      dInd := new int[nrClass];
      dVal := new real[nrClass];
      yIndex := new int[|x|];
      activeSizeI := new int[|x|];
      w := new real[n, nrClass];
    }

    /** The state between two visits, as a value. */
    ghost function State(): (p: Snapshot)
      requires Layout()
      reads alpha, alphaIndex, activeSizeI, yIndex, w
      ensures |p.alpha| == |p.idx| == |x| && p.W == Weights(w) && p.act == activeSizeI[..] && p.yix == yIndex[..]
      ensures forall i :: 0 <= i < |x| ==> p.alpha[i] == alpha[i][..] && p.idx[i] == alphaIndex[i][..]
    {
      Snapshot(Weights(w),
               seq(|x|, i requires 0 <= i < |x| reads alpha => alpha[i][..]),
               seq(|x|, i requires 0 <= i < |x| reads alphaIndex => alphaIndex[i][..]),
               activeSizeI[..], yIndex[..])
    }

    lemma StateShaped()
      requires Data() && Layout()
      ensures Shaped(Task(), State())
    {
    }

    lemma StateRow(i: nat)
      requires Data() && Layout() && Sound(Task(), State()) && i < |x|
      ensures RowInv(alpha[i][..], alphaIndex[i][..], activeSizeI[i], yIndex[i], y[i], C[y[i]])
    {
      hide CsRow.RowInv;
      assert RowOk(Task(), State(), i);
    }

    /** QD holds the squared norms. */
    ghost predicate Norms()
      requires Data() && Layout()
      reads QD
    {
      forall i :: 0 <= i < |x| ==> QD[i] == Norm(Task(), i)
    }

    /** Visits instance i, whose QD is positive. */
    method Visit(i: nat) returns (gap: real, ghost m: Mark<Finding>)
      requires Data() && Layout() && Sound(Task(), State()) && Norms() && i < |x| && QD[i] > 0.0
      modifies alpha, alphaIndex, activeSizeI, yIndex, G, B, alphaNew, dInd, dVal, w
      ensures Visited(Task(), old(State()), State(), m)
      ensures m.i == i && m.note.gap == gap && (m.shrunk <==> activeSizeI[i] <= 1)
    {
      hide CsRow.RowInv, CsVisit.Absorbed, CsVisit.Weights, CsVisit.Linear, CsVisit.Gather, CsVisit.Gradients;
      hide CsRow.Extremal, CsRow.ShrunkBy, CsSubProblem.Minimiser, Permutation.IsPerm, Sparse.Dense, Sparse.ValidRow;
      hide CsVisit.GradientsOf, LinAlg.Dot, RowVisited, Visited, Sound;
      StateRow(i);
      StateShaped();
      RowFacts(alpha[i][..], alphaIndex[i][..], activeSizeI[i], yIndex[i], y[i], C[y[i]]);
      GradientsAre(x[i], w, y[i]);
      ghost var p := State();
      var act, yix;
      ghost var minG;
      act, yix, gap, minG := VisitRow(x[i], QD[i], y[i], C[y[i]], w, alpha[i], alphaIndex[i], activeSizeI[i],
                                      yIndex[i], G, B, alphaNew, dInd, dVal);
      activeSizeI[i] := act;
      yIndex[i] := yix;
      m := Mark(i, act <= 1, Finding(minG, gap));
      StateShaped();
      ShowVisited(Task(), p, State(), m);
    }

    /** Visits instance i if its QD is positive; otherwise there is nothing to do and no gap. */
    method VisitOrSkip(i: nat) returns (drop: bool, gap: real, ghost m: Mark<Finding>)
      requires Data() && Layout() && Sound(Task(), State()) && Norms() && i < |x|
      modifies alpha, alphaIndex, activeSizeI, yIndex, G, B, alphaNew, dInd, dVal, w
      ensures Visited(Task(), old(State()), State(), m) && m.i == i && m.shrunk == drop && m.note.gap == gap
      ensures drop ==> gap == 0.0
      ensures Sound(Task(), State()) && Norms() && index[..] == old(index[..])
    {
      hide Sound, Visited, State, CsRun.Norm;
      ghost var p := State();
      drop, gap, m := false, 0.0, Mark(i, false, Finding(0.0, 0.0));
      if QD[i] > 0.0 {
        gap, m := Visit(i);
        drop := activeSizeI[i] <= 1;
        if drop { DroppedIsOptimal(Task(), p, State(), m); }
      } else {
        SkipVisited(i, m);
      }
      VisitSound(Task(), p, State(), m);
    }

    /** One pass over the active instances. */
    method RunPass(activeIn: nat) returns (active: nat, stopping: Ext, ghost h: History<Snapshot, Finding>)
      requires Data() && Layout() && Sound(Task(), State()) && Norms() && activeIn <= |x| && IsPerm(index[..], |x|)
      modifies alpha, alphaIndex, activeSizeI, yIndex, G, B, alphaNew, dInd, dVal, w, index
      ensures Sound(Task(), State()) && IsPerm(index[..], |x|) && Norms()
      ensures Runs(Visits(Task()), h) && StartsAt(h, old(State())) && EndsAt(h, State())
      ensures PassOver(h, old(index[..]), activeIn, index[..], active)
      ensures Stopping(h, stopping)
    {
      hide ActiveSet.Pass, Permutation.Values, VisitedAll, Sound, Data, Permutation.IsPerm, Norms, Visited, Visits;
      hide Runs, StartsAt, EndsAt, Extended, Names, Kept, Stopping, State, Layout;
      IndexLength();
      ghost var before, p0, s0 := index[..], State(), Task();
      active, stopping, h := activeIn, NegInf, Begun(p0);
      ghost var all := Values(index[..], activeIn);
      StartPass(index[..], |x|, activeIn);
      RunsBegun(Visits(s0), p0);
      BeginPass(before, p0);
      var s := 0;
      while s < active
        invariant s <= active <= activeIn <= |x| && Norms()
        invariant Pass(index[..], |x|, activeIn, s, active, Names(h.marks), all)
        invariant Sound(s0, State())
        invariant Runs(Visits(s0), h) && StartsAt(h, p0) && EndsAt(h, State()) && |h.points| == |h.marks| + 1
        invariant Stopping(h, stopping)
        invariant Values(index[..], s) == Kept(h.marks) && (active == activeIn <==> NoneShrunk(h))
        decreases active - s
      {
        PassEntry(index[..], |x|, activeIn, s, active, Names(h.marks), all);
        var i := index[s];
        ghost var p, g := State(), h;
        var drop, gap;
        ghost var m;
        drop, gap, m := VisitOrSkip(i);
        StoppingMore(g, stopping, State(), m, if gap > 0.000000000001 then MaxE(Fin(gap), stopping) else stopping);
        if !drop && gap > 0.000000000001 {
          stopping := MaxE(Fin(gap), stopping);
        }
        ShowVisits(s0, p, State(), m);
        RunsExtended(Visits(s0), g, p, State(), m, p0);
        ExtendedShape(g, State(), m);
        h := Extended(g, State(), m);
        if drop {
          Drop(index[..], |x|, activeIn, s, active, Names(g.marks), all);
          active := active - 1;
          Exchange(s, active);
        } else {
          Keep(index[..], |x|, activeIn, s, active, Names(g.marks), all);
          s := s + 1;
        }
      }
      PassEnds(index[..], |x|, activeIn, s, active, Names(h.marks), all);
    }

    lemma IndexLength()
      requires Layout()
      ensures index.Length == |x|
    {
    }

    /** Permutes the active part of index; nothing else depends on it. */
    method Reshuffle(active: nat)
      requires Data() && Layout() && Norms() && active <= index.Length && IsPerm(index[..], index.Length)
      modifies index
      ensures IsPerm(index[..], index.Length) && Values(index[..], active) == Values(old(index[..]), active)
      ensures State() == old(State()) && Norms()
    {
      hide State, Data, Permutation.IsPerm, Permutation.Values, CsRun.Norm;
      Shuffle(index, active);
    }

    method Exchange(i: nat, j: nat)
      requires Data() && Layout() && Norms() && i < index.Length && j < index.Length
      modifies index
      ensures index[..] == Swapped(old(index[..]), i, j) && State() == old(State()) && Norms()
    {
      hide State, Data, CsRun.Norm;
      Swap(index, i, j);
    }

    /** An all-zero row is left alone. */
    lemma SkipVisited(i: nat, m: Mark<Finding>)
      requires Data() && Layout() && Norms() && i < |x| && !(QD[i] > 0.0) && m == Mark(i, false, Finding(0.0, 0.0))
      ensures Visited(Task(), State(), State(), m)
    {
      hide RowVisited, CsRun.Norm;
      StateShaped();
    }

    /** All classes of all instances become active again. */
    method Reactivate()
      requires Data() && Layout() && Sound(Task(), State()) && Norms()
      modifies activeSizeI
      ensures State() == Reactivated(Task(), old(State())) && Sound(Task(), State())
      ensures Norms() && index[..] == old(index[..])
    {
      hide CsRow.RowInv, CsRun.Norm, CsVisit.Weights, Sparse.Dense;
      ghost var p := State();
      for i := 0 to |x|
        invariant forall k :: 0 <= k < i ==> activeSizeI[k] == nrClass
      {
        activeSizeI[i] := nrClass;
      }
      SameButActive(p);
      ReactivatedSound(Task(), p);
    }

    lemma SameButActive(p: Snapshot)
      requires Data() && Layout() && p.W == Weights(w) && p.yix == yIndex[..] && |p.alpha| == |p.idx| == |x|
      requires forall i :: 0 <= i < |x| ==> p.alpha[i] == alpha[i][..] && p.idx[i] == alphaIndex[i][..]
      requires forall i :: 0 <= i < |x| ==> activeSizeI[i] == nrClass
      ensures State() == Reactivated(Task(), p)
    {
      hide CsVisit.Weights;
      assert State().alpha == p.alpha && State().idx == p.idx;
      assert activeSizeI[..] == Reactivated(Task(), p).act;
    }

    /** Norms, sizes and positions of all instances. */
    method InitScalars()
      requires Data() && Layout()
      modifies activeSizeI, yIndex, index, QD
      ensures Norms()
      ensures forall k :: 0 <= k < |x| ==> index[k] == k && activeSizeI[k] == nrClass && yIndex[k] == y[k]
    {
      hide Sparse.Dense, LinAlg.Dot;
      for i := 0 to |x|
        invariant forall k :: 0 <= k < i ==> index[k] == k && activeSizeI[k] == nrClass && yIndex[k] == y[k]
        invariant forall k :: 0 <= k < i ==> QD[k] == Norm(Task(), k)
      {
        var q := RowSquare(x[i], n);
        QD[i] := q;
        activeSizeI[i] := nrClass;
        yIndex[i] := y[i];
        index[i] := i;
      }
    }

    method InitRows()
      requires Data() && Layout()
      modifies alpha, alphaIndex
      ensures forall k :: 0 <= k < |x| ==> alpha[k][..] == Zeros(nrClass) && alphaIndex[k][..] == Identity(nrClass)
    {
      hide LinAlg.Zeros, Identity;
      for i := 0 to |x|
        invariant forall k :: 0 <= k < i ==> alpha[k][..] == Zeros(nrClass) && alphaIndex[k][..] == Identity(nrClass)
      {
        InitRow(alpha[i], alphaIndex[i]);
      }
    }

    /** The initial state: all alphas and weights zero, all index arrays the identity. */
    method Init()
      requires Data() && Layout()
      modifies alpha, alphaIndex, activeSizeI, yIndex, index, QD, w
      ensures State() == Start(Task()) && Norms() && IsPerm(index[..], |x|)
    {
      hide CsVisit.Col, LinAlg.Zeros, CsRun.Norm;
      InitScalars();
      InitRows();
      ClearW();
      ghost var p, q := State(), Start(Task());
      assert p.W == q.W && p.alpha == q.alpha && p.idx == q.idx && p.act == q.act && p.yix == q.yix;
    }

    method ClearW()
      modifies w
      ensures forall c :: 0 <= c < w.Length1 ==> Col(w, c) == Zeros(w.Length0)
    {
      for f := 0 to w.Length0
        invariant forall g, c :: 0 <= g < f && 0 <= c < w.Length1 ==> w[g, c] == 0.0
      {
        for m := 0 to w.Length1
          invariant forall g, c :: 0 <= g < f && 0 <= c < w.Length1 ==> w[g, c] == 0.0
          invariant forall c :: 0 <= c < m ==> w[f, c] == 0.0
        {
          w[f, m] := 0.0;
        }
      }
    }

    /** Solve.  `passes` is the whole run, pass by pass. */
    method Solve() returns (converged: bool, iter: nat, ghost passes: seq<History<Snapshot, Finding>>)
      requires Data() && Layout()
      modifies alpha, alphaIndex, activeSizeI, yIndex, G, B, alphaNew, dInd, dVal, w, index, QD
      ensures Sound(Task(), State()) && IsCsRun(Task(), passes, eps)
      ensures iter == |passes| && (iter > 0 ==> iter <= maxIter) && (!converged ==> iter >= maxIter)
      ensures forall k :: 0 <= k < iter - 1 ==> !CsExits(passes, eps, k)
      ensures converged <==> iter > 0 && CsExits(passes, eps, iter - 1)
      ensures if converged then EndsAt(passes[iter - 1], State()) else Begins(Task(), passes, eps, iter, State())
    {
      hide ActiveSet.VisitedAll, Permutation.IsPerm, Permutation.Values, Norms, Sound, State, Visits, Runs;
      hide StartsAt, EndsAt, Layout, Everything;
      hide IsCsRun, CsExits, Begins, CsDue, Stopping, PassOver, GapsBelow, Resets, Threshold, FromAll, Start;
      hide Reactivated, Data;
      ghost var s0 := Task();
      IndexLength();
      Init();
      DataValid();
      FirstRun(s0, eps);
      EverythingActive(index[..], |x|);
      var active: nat := |x|;
      var epsShrink := Max(10.0 * eps, 1.0);
      var startFromAll := true;
      iter, converged, passes := 0, false, [];
      while iter < maxIter
        invariant Sound(s0, State()) && Norms() && IsPerm(index[..], |x|) && active <= |x|
        invariant iter == |passes| && (iter > 0 ==> iter <= maxIter)
        invariant IsCsRun(s0, passes, eps) && Begins(s0, passes, eps, iter, State())
        invariant Values(index[..], active) == CsDue(s0, passes, eps, iter)
        invariant startFromAll <==> FromAll(passes, eps, iter)
        invariant epsShrink == NextThreshold(passes, eps)
        invariant forall k :: 0 <= k < iter ==> !CsExits(passes, eps, k)
      {
        Reshuffle(active);
        ghost var before, p, activeIn := index[..], State(), active;
        var stopping;
        ghost var h;
        active, stopping, h := RunPass(active);
        PassDone(s0, passes, h, eps, p, State(), before, activeIn, index[..], active, stopping);
        passes := passes + [h];
        iter := iter + 1;
        if Below(stopping, Fin(epsShrink)) {
          if Below(stopping, Fin(eps)) && startFromAll {
            converged := true;
            break;
          } else {
            active := |x|;
            Reactivate();
            epsShrink := Max(epsShrink / 2.0, eps);
            startFromAll := true;
          }
        } else {
          startFromAll := false;
        }
      }
    }

    lemma DataValid()
      requires Data()
      ensures Valid(Task())
    {
    }
  }

  /** eps_shrink before the next pass. */
  ghost function NextThreshold(passes: seq<History<Snapshot, Finding>>, eps: real): real {
    if |passes| == 0 then Max(10.0 * eps, 1.0)
    else if Resets(passes, eps, |passes| - 1) then Max(Threshold(passes, eps, |passes| - 1) / 2.0, eps)
    else Threshold(passes, eps, |passes| - 1)
  }

  lemma FirstRun(s: Setup, eps: real)
    requires Valid(s)
    ensures IsCsRun(s, [], eps) && Begins(s, [], eps, 0, Start(s)) && Sound(s, Start(s))
    ensures FromAll([], eps, 0) && CsDue(s, [], eps, 0) == Everything(|s.x|)
  {
    StartSound(s, 0.0);
  }

  /** One more pass, and what its two tests decide. */
  lemma PassDone(s: Setup, passes: seq<History<Snapshot, Finding>>, h: History<Snapshot, Finding>, eps: real,
                 p: Snapshot, q: Snapshot, before: seq<int>, activeIn: nat, after: seq<int>, active: nat, stopping: Ext)
    requires IsCsRun(s, passes, eps) && Valid(s) && Begins(s, passes, eps, |passes|, p)
    requires Runs(Visits(s), h) && StartsAt(h, p) && EndsAt(h, q) && Stopping(h, stopping)
    requires IsPerm(before, |s.x|) && IsPerm(after, |s.x|) && PassOver(h, before, activeIn, after, active)
    requires Values(before, activeIn) == CsDue(s, passes, eps, |passes|)
    requires forall k :: 0 <= k < |passes| ==> !CsExits(passes, eps, k)
    ensures var all, n, t := passes + [h], |passes|, NextThreshold(passes, eps);
            && IsCsRun(s, all, eps) && active <= |s.x| == |after| && Values(after, |s.x|) == Everything(|s.x|)
            && (forall k :: 0 <= k < n ==> !CsExits(all, eps, k))
            && (Resets(all, eps, n) <==> Below(stopping, Fin(t)))
            && (CsExits(all, eps, n) <==>
                  FromAll(passes, eps, n) && Below(stopping, Fin(t)) && Below(stopping, Fin(eps)))
            && (FromAll(all, eps, n + 1) <==> Resets(all, eps, n))
            && NextThreshold(all, eps) == (if Resets(all, eps, n) then Max(t / 2.0, eps) else t)
            && CsDue(s, all, eps, n + 1) == (if Resets(all, eps, n) then Everything(|s.x|) else Values(after, active))
            && Begins(s, all, eps, n + 1, if Resets(all, eps, n) then Reactivated(s, q) else q)
  {
    hide Runs, VisitsOnce, Kept, NoneShrunk, Stopping, Permutation.Values, Permutation.IsPerm, GapsBelow;
    hide IsCsRun, Reactivated, Visits;
    var all, n := passes + [h], |passes|;
    RunMore(s, passes, h, eps, p);
    SamePass(s, passes, h, eps, n);
    EverythingActive(after, |s.x|);
    StoppingBelow(h, stopping, NextThreshold(passes, eps));
    StoppingBelow(h, stopping, eps);
    LastThreshold(passes, h, eps);
  }

  lemma LastThreshold(passes: seq<History<Snapshot, Finding>>, h: History<Snapshot, Finding>, eps: real)
    ensures Threshold(passes + [h], eps, |passes|) == NextThreshold(passes, eps)
  {
    hide GapsBelow;
    if |passes| > 0 { SameBefore(passes, h, eps, |passes| - 1); }
  }

  lemma BeginPass(index: seq<int>, p: Snapshot)
    ensures Stopping(Begun(p), NegInf) && Values(index, 0) == {} && NoneShrunk(Begun<Snapshot, Finding>(p))
  {
  }

  lemma ShowVisits(s: Setup, p: Snapshot, q: Snapshot, m: Mark<Finding>)
    requires Visited(s, p, q, m)
    ensures Visits(s)(p, q, m)
  {
    hide Visited;
  }

  lemma ShowVisited(s: Setup, p: Snapshot, q: Snapshot, m: Mark<Finding>)
    requires Valid(s) && Shaped(s, p) && Shaped(s, q) && 0 <= m.i < |s.x| && Norm(s, m.i) > 0.0
    requires OnlyRow(s, p, q, m.i) && RowOk(s, p, m.i) && RowOk(s, q, m.i) && (m.shrunk <==> q.act[m.i] <= 1)
    requires var i, y, c, gv := m.i, s.y[m.i], s.C[s.y[m.i]], Grads(s, p, m.i);
             && Extremal(p.alpha[i], p.idx[i], p.act[i], y, c, gv, m.note.minG, m.note.minG + m.note.gap)
             && ShrunkBy(p.alpha[i], gv, y, c, m.note.minG, p.idx[i], q.idx[i], p.act[i], q.act[i])
             && Absorbed(s.x[i], s.n, p.W, q.W, p.alpha[i], q.alpha[i])
    requires q.act[m.i] <= 1 || m.note.gap <= TINY ==> q.alpha[m.i] == p.alpha[m.i]
    requires q.act[m.i] > 1 && m.note.gap > TINY ==> RowSolved(s, p, q, m.i)
    ensures Visited(s, p, q, m)
  {
    hide CsRow.Extremal, CsRow.ShrunkBy, CsVisit.Absorbed, RowSolved, RowOk, Norm, Grads;
  }

  method AllocateRows<T>(l: nat, k: nat, init: T) returns (rows: seq<array<T>>)
    ensures |rows| == l && fresh(rows)
    ensures forall i :: 0 <= i < l ==> rows[i].Length == k
    ensures forall i, j :: 0 <= i < j < l ==> rows[i] != rows[j]
  {
    rows := [];
    for i := 0 to l
      invariant |rows| == i && fresh(rows)
      invariant forall j :: 0 <= j < i ==> rows[j].Length == k
      invariant forall a, b :: 0 <= a < b < i ==> rows[a] != rows[b]
    {
      var row := new T[k](_ => init);
      rows := rows + [row];
    }
  }

  method InitRow(alpha: array<real>, idx: array<int>)
    requires alpha.Length == idx.Length
    modifies alpha, idx
    ensures alpha[..] == Zeros(alpha.Length) && idx[..] == Identity(idx.Length)
  {
    for m := 0 to idx.Length
      invariant forall k :: 0 <= k < m ==> alpha[k] == 0.0 && idx[k] == k
    {
      alpha[m] := 0.0;
      idx[m] := m;
    }
  }
}
