/**
 One visit of an instance in Solver_MCSVM_CS::Solve: gradient, shrinking,
 sub-problem, write-back of alpha and update of w.  w[f, c] is the weight of
 feature f for class c.
 */
module CsVisit {
  import opened LinAlg
  import opened Permutation
  import opened ExtReal
  import opened Sparse
  import opened CsSubProblem
  import opened CsRow

  // ------------------------------------------------------------- the gradient

  /** The weights of class c. */
  ghost function Col(w: array2<real>, c: int): (v: Vec)
    requires 0 <= c < w.Length1
    reads w
    ensures |v| == w.Length0
    ensures forall f :: 0 <= f < w.Length0 ==> v[f] == w[f, c]
  {
    seq(w.Length0, f requires 0 <= f < w.Length0 reads w => w[f, c])
  }

  /** The gradient of class c: x.w_c, plus one for every class but the own one. */
  ghost function ClassGradient(x: Row, w: array2<real>, y: int, c: int): real
    requires ValidRow(x, w.Length0) && 0 <= c < w.Length1
    reads w
  {
    (if c == y then 0.0 else 1.0) + Dot(Dense(x, w.Length0), Col(w, c))
  }

  ghost function Gradients(x: Row, w: array2<real>, y: int): (gv: Vec)
    requires ValidRow(x, w.Length0)
    reads w
    ensures |gv| == w.Length1
    ensures forall c :: 0 <= c < w.Length1 ==> gv[c] == ClassGradient(x, w, y, c)
  {
    seq(w.Length1, c requires 0 <= c < w.Length1 reads w => ClassGradient(x, w, y, c))
  }

  /** The share of one node in the gradients of the active classes. */
  method AddNodeToG(w: array2<real>, f: int, v: real, idx: array<int>, act: nat, G: array<real>)
    requires 0 <= f < w.Length0 && act <= idx.Length <= G.Length
    requires forall j :: 0 <= j < act ==> 0 <= idx[j] < w.Length1
    modifies G
    ensures forall j :: 0 <= j < act ==> G[j] == old(G[j]) + w[f, idx[j]] * v
  {
    for m := 0 to act
      invariant forall j :: 0 <= j < m ==> G[j] == old(G[j]) + w[f, idx[j]] * v
      invariant forall j :: m <= j < act ==> G[j] == old(G[j])
    {
      G[m] := G[m] + w[f, idx[m]] * v;
    }
  }

  method InitG(act: nat, yix: int, G: array<real>)
    requires act <= G.Length && 0 <= yix
    modifies G
    ensures forall j :: 0 <= j < act ==> G[j] == if j == yix then 0.0 else 1.0
  {
    for m := 0 to act
      invariant forall j :: 0 <= j < m ==> G[j] == 1.0
    {
      G[m] := 1.0;
    }
    if yix < act {
      G[yix] := 0.0;
    }
  }

  method ComputeG(x: Row, w: array2<real>, idx: array<int>, act: nat, yix: int, ghost y: int, G: array<real>)
    requires ValidRow(x, w.Length0) && idx.Length == w.Length1 <= G.Length && act <= idx.Length
    requires IsPerm(idx[..], idx.Length) && 0 <= yix < idx.Length && idx[yix] == y
    modifies G
    ensures Paired(G[..], idx[..], Gradients(x, w, y), act)
  {
    hide LinAlg.Dot, Sparse.Dense, Sparse.DenseTo;
    InitG(act, yix, G);
    for k := 0 to |x|
      invariant forall j :: 0 <= j < act ==> G[j] == (if j == yix then 0.0 else 1.0) + RowDotTo(x, Col(w, idx[j]), k)
    {
      AddNodeToG(w, x[k].index - 1, x[k].value, idx, act, G);
    }
    forall m | 0 <= m < act ensures G[m] == Gradients(x, w, y)[idx[m]] {
      GradientByNodes(x, w, y, idx[m]);
    }
  }

  lemma GradientByNodes(x: Row, w: array2<real>, y: int, c: int)
    requires ValidRow(x, w.Length0) && 0 <= c < w.Length1
    ensures ClassGradient(x, w, y, c) == (if c == y then 0.0 else 1.0) + RowDotTo(x, Col(w, c), |x|)
  {
    RowDotIsDot(x, Col(w, c), |x|);
  }

  // ----------------------------------------------------------- after shrinking

  lemma SameTail(s: seq<int>, t: seq<int>, a: int)
    requires 0 <= a <= |s| == |t| && s[a..] == t[a..]
    ensures forall k :: a <= k < |s| ==> s[k] == t[k]
  {
    forall k | a <= k < |s| ensures s[k] == t[k] {
      assert s[k] == s[a..][k - a] && t[k] == t[a..][k - a];
    }
  }

  /** Shrinking keeps the row invariant; at least one class stays active. */
  lemma ShrinkKeepsRow(alpha: Vec, idx0: seq<int>, act0: int, yix0: int, y: int, c: real, idx: seq<int>, act: int,
                       yix: int,
                       G: seq<real>, gv: Vec, minG: real, m0: int)
    requires RowInv(alpha, idx0, act0, yix0, y, c) && 0 <= act <= act0
    requires ShrinkInv(alpha, idx, idx0, G, gv, act0, yix, y)
    requires AllShrinkable(alpha, gv, y, c, minG, idx, act, act0, true)
    requires 0 <= m0 < act0 && alpha[idx0[m0]] < Cap(m0, yix0, c)
    ensures RowInv(alpha, idx, act, yix, y, c)
  {
    hide LinAlg.Sum;
    CapByPosition(idx0, yix0, y, c, m0);
    var k := PermOnto(idx, |idx|, idx0[m0]);
    assert !Shrinkable(alpha, gv, y, c, minG, idx[k]);
    SameTail(idx, idx0, act0);
    forall m | act <= m < |idx| ensures alpha[idx[m]] == Cap(idx[m], y, c) {
      if m < act0 {
        assert Shrinkable(alpha, gv, y, c, minG, idx[m]);
      }
    }
  }

  // -------------------------------------------------------------- the write-back

  /** The part of a change of alpha that is passed on to w: changes below 1e-12 are not. */
  ghost function Passed(d: real): real {
    if Abs(d) >= 0.000000000001 then d else 0.0
  }

  /** The recorded changes of class c. */
  ghost function Recorded(dInd: seq<int>, dVal: Vec, k: nat, c: int): real
    requires k <= |dInd| && k <= |dVal|
  {
    if k == 0 then 0.0 else Recorded(dInd, dVal, k - 1, c) + (if dInd[k - 1] == c then dVal[k - 1] else 0.0)
  }

  lemma {:induction false} RecordedCongruent(s: seq<int>, v: Vec, s': seq<int>, v': Vec, k: nat, c: int)
    requires k <= |s| && k <= |v| && k <= |s'| && k <= |v'|
    requires forall i :: 0 <= i < k ==> s[i] == s'[i] && v[i] == v'[i]
    ensures Recorded(s, v, k, c) == Recorded(s', v', k, c)
  {
    if k > 0 { RecordedCongruent(s, v, s', v', k - 1, c); }
  }

  lemma PassedIs(d: real)
    ensures Passed(d) == if Abs(d) >= 0.000000000001 then d else 0.0
  {
  }

  lemma PassedNothing()
    ensures Passed(0.0) == 0.0
  {
  }

  /** Writes the new alphas and records what w has to absorb. */
  method WriteBack(alpha: array<real>, idx: array<int>, act: nat, alphaNew: array<real>, dInd: array<int>,
                   dVal: array<real>) returns (nz: nat)
    requires alpha.Length == idx.Length && act <= idx.Length && act <= alphaNew.Length && act <= dInd.Length
    requires act <= dVal.Length
    requires IsPerm(idx[..], idx.Length)
    requires alpha != alphaNew && alpha != dVal && alphaNew != dVal && idx != dInd
    modifies alpha, dInd, dVal
    ensures nz <= act && forall k :: 0 <= k < nz ==> 0 <= dInd[k] < idx.Length
    ensures forall m :: 0 <= m < act ==> alpha[idx[m]] == alphaNew[m]
    ensures forall m :: act <= m < idx.Length ==> alpha[idx[m]] == old(alpha[idx[m]])
    ensures forall c :: 0 <= c < idx.Length ==> Recorded(dInd[..], dVal[..], nz, c) == Passed(alpha[c] - old(alpha[c]))
  {
    hide Passed, Recorded, Booked;
    nz := 0;
    ghost var a0 := alpha[..];
    NothingBooked(dInd[..], dVal[..], a0);
    for m := 0 to act
      invariant nz <= m && forall k :: 0 <= k < nz ==> 0 <= dInd[k] < idx.Length
      invariant forall j :: 0 <= j < m ==> alpha[idx[j]] == alphaNew[j]
      invariant forall j :: m <= j < idx.Length ==> alpha[idx[j]] == a0[idx[j]]
      invariant Booked(dInd[..], dVal[..], nz, alpha[..], a0)
    {
      ghost var s, v, a1, e := dInd[..], dVal[..], alpha[..], idx[m];
      var d := alphaNew[m] - alpha[idx[m]];
      BookOne(s, v, nz, a1, a0, e, alphaNew[m], d);
      alpha[idx[m]] := alphaNew[m];
      assert alpha[..] == a1[e := alphaNew[m]];
      if Abs(d) >= 0.000000000001 {
        dInd[nz] := idx[m];
        dVal[nz] := d;
        assert dInd[..] == s[nz := e] && dVal[..] == v[nz := d];
        nz := nz + 1;
      }
    }
    BookedAt(dInd[..], dVal[..], nz, alpha[..], a0);
  }

  /** The recorded changes of every class are what is passed on of its change. */
  ghost predicate Booked(s: seq<int>, v: Vec, nz: nat, a: Vec, a0: Vec) {
    && nz <= |s| && nz <= |v| && |a| == |a0|
    && forall c :: 0 <= c < |a| ==> Recorded(s, v, nz, c) == Passed(a[c] - a0[c])
  }

  lemma NothingBooked(s: seq<int>, v: Vec, a: Vec)
    ensures Booked(s, v, 0, a, a)
  {
    hide Passed;
    PassedNothing();
  }

  lemma BookedAt(s: seq<int>, v: Vec, nz: nat, a: Vec, a0: Vec)
    requires Booked(s, v, nz, a, a0)
    ensures nz <= |s| && nz <= |v| && |a| == |a0|
    ensures forall c :: 0 <= c < |a| ==> Recorded(s, v, nz, c) == Passed(a[c] - a0[c])
  {
  }

  /** A class untouched so far takes the value y; the change d is recorded when it is large enough. */
  lemma BookOne(s: seq<int>, v: Vec, nz: nat, a: Vec, a0: Vec, e: int, y: real, d: real)
    requires Booked(s, v, nz, a, a0) && nz < |s| && nz < |v| && 0 <= e < |a| && a[e] == a0[e] && d == y - a[e]
    ensures Abs(d) >= 0.000000000001 ==> Booked(s[nz := e], v[nz := d], nz + 1, a[e := y], a0)
    ensures Abs(d) < 0.000000000001 ==> Booked(s, v, nz, a[e := y], a0)
  {
    hide Passed, Recorded, LinAlg.Abs;
    PassedIs(d);
    PassedNothing();
    var a', s', v' := a[e := y], s[nz := e], v[nz := d];
    forall c | 0 <= c < |a| ensures Recorded(s', v', nz + 1, c) == Recorded(s, v, nz, c) + if e == c then d else 0.0 {
      RecordedCongruent(s, v, s', v', nz, c);
      RecordedNext(s', v', nz, c);
    }
    assert Passed(a[e] - a0[e]) == 0.0;
    assert Passed(a'[e] - a0[e]) == Passed(d);
    assert forall c :: 0 <= c < |a| && c != e ==> a'[c] == a[c];
  }

  lemma RecordedNext(s: seq<int>, v: Vec, k: nat, c: int)
    requires k < |s| && k < |v|
    ensures Recorded(s, v, k + 1, c) == Recorded(s, v, k, c) + if s[k] == c then v[k] else 0.0
  {
  }

  lemma {:induction false} GatherWritten(a: Vec, idx: seq<int>, b: Vec, k: nat)
    requires IsPerm(idx, |a|) && k <= |b| <= |a|
    requires forall m :: 0 <= m < |b| ==> a[idx[m]] == b[m]
    ensures GatherTo(a, idx, k) == SumTo(b, k)
  {
    if k > 0 { GatherWritten(a, idx, b, k - 1); }
  }

  /** Writing a feasible solution of the sub-problem over the active classes keeps the row invariant. */
  lemma WriteKeepsRow(a0: Vec, a1: Vec, idx: seq<int>, act: nat, yix: int, y: int, c: real, b: Vec)
    requires RowInv(a0, idx, act, yix, y, c) && |a1| == |a0| && |b| == act && Feasible(b, yix, c)
    requires forall m :: 0 <= m < act ==> a1[idx[m]] == b[m]
    requires forall m :: act <= m < |idx| ==> a1[idx[m]] == a0[idx[m]]
    ensures RowInv(a1, idx, act, yix, y, c)
  {
    hide LinAlg.SumTo, Cap;
    forall k | 0 <= k < |a1| ensures a1[k] <= Cap(k, y, c) {
      var m := PermOnto(idx, |idx|, k);
      CapByPosition(idx, yix, y, c, m);
      if m < act { assert b[m] <= Cap(m, yix, c); }
    }
    GatherWritten(a1, idx, b, act);
    GatherActive(a1, idx, act, yix, y, c);
  }

  // ------------------------------------------------------------- the update of w

  method AddNodeToW(w: array2<real>, f: int, v: real, dInd: array<int>, dVal: array<real>, nz: nat)
    requires 0 <= f < w.Length0 && nz <= dInd.Length && nz <= dVal.Length
    requires forall k :: 0 <= k < nz ==> 0 <= dInd[k] < w.Length1
    modifies w
    ensures forall c :: 0 <= c < w.Length1 ==> w[f, c] == old(w[f, c]) + Recorded(dInd[..], dVal[..], nz, c) * v
    ensures forall g, c :: 0 <= g < w.Length0 && 0 <= c < w.Length1 && g != f ==> w[g, c] == old(w[g, c])
  {
    hide Recorded, RecordedTimes;
    ghost var s, d := dInd[..], dVal[..];
    NoneRecorded(s, d, v, w.Length1);
    for m := 0 to nz
      invariant forall c :: 0 <= c < w.Length1 ==> w[f, c] == old(w[f, c]) + RecordedTimes(s, d, m, c, v)
      invariant forall g, c :: 0 <= g < w.Length0 && 0 <= c < w.Length1 && g != f ==> w[g, c] == old(w[g, c])
    {
      RecordedStep(s, d, m, v, w.Length1);
      w[f, dInd[m]] := w[f, dInd[m]] + dVal[m] * v;
    }
    AllRecorded(s, d, nz, v, w.Length1);
  }

  ghost function RecordedTimes(s: seq<int>, d: Vec, k: nat, c: int, v: real): real
    requires k <= |s| && k <= |d|
  {
    Recorded(s, d, k, c) * v
  }

  lemma NoneRecorded(s: seq<int>, d: Vec, v: real, n: nat)
    ensures forall c :: 0 <= c < n ==> RecordedTimes(s, d, 0, c, v) == 0.0
  {
  }

  lemma RecordedStep(s: seq<int>, d: Vec, m: nat, v: real, n: nat)
    requires m < |s| && m < |d|
    ensures forall c :: 0 <= c < n ==>
              RecordedTimes(s, d, m + 1, c, v) == RecordedTimes(s, d, m, c, v) + (if s[m] == c then d[m] * v else 0.0)
  {
    forall c | 0 <= c < n
      ensures RecordedTimes(s, d, m + 1, c, v) == RecordedTimes(s, d, m, c, v) + (if s[m] == c then d[m] * v else 0.0) {
      AddTimes(Recorded(s, d, m, c), if s[m] == c then d[m] else 0.0, v);
    }
  }

  lemma AllRecorded(s: seq<int>, d: Vec, k: nat, v: real, n: nat)
    requires k <= |s| && k <= |d|
    ensures forall c :: 0 <= c < n ==> RecordedTimes(s, d, k, c, v) == Recorded(s, d, k, c) * v
  {
  }

  lemma AddTimes(a: real, b: real, v: real)
    ensures (a + b) * v == a * v + b * v
  {
  }

  method UpdateW(x: Row, w: array2<real>, dInd: array<int>, dVal: array<real>, nz: nat)
    requires ValidRow(x, w.Length0) && nz <= dInd.Length && nz <= dVal.Length
    requires forall k :: 0 <= k < nz ==> 0 <= dInd[k] < w.Length1
    modifies w
    ensures forall f, c :: 0 <= f < w.Length0 && 0 <= c < w.Length1 ==>
              w[f, c] == old(w[f, c]) + Recorded(dInd[..], dVal[..], nz, c) * Dense(x, w.Length0)[f]
  {
    hide Recorded, Cell;
    ghost var s, d, n := dInd[..], dVal[..], w.Length0;
    CellStart();
    for k := 0 to |x|
      invariant forall f, c :: 0 <= f < n && 0 <= c < w.Length1 ==>
          w[f, c] == Cell(old(w[f, c]), Recorded(s, d, nz, c), DenseTo(x, n, k)[f])
    {
      var i := x[k].index - 1;
      NodeStep(Zeros(n), 1.0, x, k);
      forall c | 0 <= c < w.Length1
        ensures Cell(old(w[i, c]), Recorded(s, d, nz, c), DenseTo(x, n, k + 1)[i])
             == Cell(old(w[i, c]), Recorded(s, d, nz, c), DenseTo(x, n, k)[i]) + Recorded(s, d, nz, c) * x[k].value
      {
        CellStep(old(w[i, c]), Recorded(s, d, nz, c), DenseTo(x, n, k)[i], x[k].value, DenseTo(x, n, k + 1)[i]);
      }
      AddNodeToW(w, i, x[k].value, dInd, dVal, nz);
    }
    forall f, c | 0 <= f < n && 0 <= c < w.Length1
      ensures w[f, c] == old(w[f, c]) + Recorded(s, d, nz, c) * Dense(x, n)[f]
    {
      CellIs(old(w[f, c]), Recorded(s, d, nz, c), Dense(x, n)[f]);
    }
  }

  /** A weight o that absorbed the change r of alpha times u. */
  ghost function Cell(o: real, r: real, u: real): real {
    o + r * u
  }

  lemma CellIs(o: real, r: real, u: real)
    ensures Cell(o, r, u) == o + r * u
  {
  }

  lemma CellStart()
    ensures forall o, r :: Cell(o, r, 0.0) == o
  {
  }

  lemma CellStep(o: real, r: real, u: real, v: real, t: real)
    requires t == u + v
    ensures Cell(o, r, t) == Cell(o, r, u) + r * v
  {
    assert r * (u + v) == r * u + r * v;
  }

  // -------------------------------------------------------------------- the visit

  /** The weight vectors, class by class. */
  ghost function Weights(w: array2<real>): (W: seq<Vec>)
    reads w
    ensures |W| == w.Length1
    ensures forall c :: 0 <= c < w.Length1 ==> W[c] == Col(w, c)
  {
    seq(w.Length1, c requires 0 <= c < w.Length1 reads w => Col(w, c))
  }

  /** w absorbed the changes of alpha, up to those below 1e-12. */
  ghost predicate Absorbed(x: Row, n: nat, W0: seq<Vec>, W1: seq<Vec>, a0: Vec, a1: Vec)
    requires ValidRow(x, n)
  {
    && |W0| == |W1| == |a0| == |a1|
    && forall c :: 0 <= c < |W1| ==> |W0[c]| == |W1[c]| == n && W1[c] == Axpy(W0[c], Passed(a1[c] - a0[c]), Dense(x, n))
  }

  ghost function Linear(gv: Vec, A: real, a: Vec, idx: seq<int>, act: nat): (B: Vec)
    requires |gv| == |a| && IsPerm(idx, |a|) && act <= |a|
    ensures |B| == act
    ensures forall m :: 0 <= m < act ==> B[m] == gv[idx[m]] - A * a[idx[m]]
  {
    seq(act, m requires 0 <= m < act => gv[idx[m]] - A * a[idx[m]])
  }

  ghost function Gather(a: Vec, idx: seq<int>, act: nat): (b: Vec)
    requires IsPerm(idx, |a|) && act <= |a|
    ensures |b| == act
    ensures forall m :: 0 <= m < act ==> b[m] == a[idx[m]]
  {
    seq(act, m requires 0 <= m < act => a[idx[m]])
  }

  /** The linear coefficients of the sub-problem. */
  method ComputeB(A: real, alpha: array<real>, idx: array<int>, act: nat, G: array<real>, B: array<real>, ghost gv: Vec)
    requires alpha.Length == idx.Length == |gv| && act <= idx.Length <= G.Length && idx.Length <= B.Length
    requires IsPerm(idx[..], idx.Length) && Paired(G[..], idx[..], gv, act)
    requires B != alpha && B != G
    modifies B
    ensures B[..act] == Linear(gv, A, alpha[..], idx[..], act)
  {
    ghost var r := Linear(gv, A, alpha[..], idx[..], act);
    for m := 0 to act
      invariant forall j :: 0 <= j < m ==> B[j] == r[j]
    {
      assert r[m] == gv[idx[..][m]] - A * alpha[..][idx[..][m]];
      B[m] := G[m] - A * alpha[idx[m]];
    }
  }

  /** The sub-problem of the visit is solved: the active alphas are its minimiser. */
  method SolveAndWrite(x: Row, A: real, y: int, c: real, w: array2<real>, alpha: array<real>, idx: array<int>, act: nat,
                       yix: int,
                       G: array<real>, B: array<real>, alphaNew: array<real>, dInd: array<int>, dVal: array<real>,
                         ghost gv: Vec)
    requires A > 0.0 && c > 0.0 && ValidRow(x, w.Length0)
    requires alpha.Length == idx.Length == w.Length1 == |gv| == G.Length == B.Length == alphaNew.Length == dInd.Length
        == dVal.Length
    requires alpha != G && alpha != B && alpha != alphaNew && alpha != dVal && B != G && B != alphaNew && B != dVal
    requires alphaNew != dVal && idx != dInd
    requires RowInv(alpha[..], idx[..], act, yix, y, c) && IsPerm(idx[..], idx.Length)
    requires Paired(G[..], idx[..], gv, act)
    modifies alpha, B, alphaNew, dInd, dVal, w
    ensures RowInv(alpha[..], idx[..], act, yix, y, c)
    ensures act <= |gv|
    ensures Minimiser(A, Linear(gv, A, old(alpha[..]), idx[..], act), yix, c, Gather(alpha[..], idx[..], act))
    ensures Absorbed(x, w.Length0, old(Weights(w)), Weights(w), old(alpha[..]), alpha[..])
  {
    hide *;
    ghost var a0 := alpha[..];
    RowFacts(a0, idx[..], act, yix, y, c);
    ComputeB(A, alpha, idx, act, G, B, gv);
    SolveSubProblem(A, yix, c, act, B, alphaNew);
    ghost var b := alphaNew[..act];
    MinimiserFacts(A, B[..act], yix, c, b);
    var nz := WriteBack(alpha, idx, act, alphaNew, dInd, dVal);
    WriteKeepsRow(a0, alpha[..], idx[..], act, yix, y, c, b);
    assert Gather(alpha[..], idx[..], act) == b;
    ghost var W0 := Weights(w);
    UpdateW(x, w, dInd, dVal, nz);
    ShowAbsorbed(x, w, W0, a0, alpha[..]);
  }

  lemma RowFacts(a: Vec, idx: seq<int>, act: int, yix: int, y: int, c: real)
    requires RowInv(a, idx, act, yix, y, c)
    ensures |a| == |idx| && IsPerm(idx, |idx|) && 1 <= act <= |idx| && 0 <= yix < |idx| && idx[yix] == y
  {
  }

  lemma MinimiserFacts(A: real, B: Vec, yi: int, C: real, a: Vec)
    requires Minimiser(A, B, yi, C, a)
    ensures Feasible(a, yi, C) && |a| == |B|
  {
  }

  lemma ShowAbsorbed(x: Row, w: array2<real>, W0: seq<Vec>, a0: Vec, a1: Vec)
    requires ValidRow(x, w.Length0) && |a0| == |a1| == |W0| == w.Length1
    requires forall c :: 0 <= c < w.Length1 ==> |W0[c]| == w.Length0
    requires forall f, c :: 0 <= f < w.Length0 && 0 <= c < w.Length1 ==>
      w[f, c] == W0[c][f] + Passed(a1[c] - a0[c]) * Dense(x, w.Length0)[f]
    ensures Absorbed(x, w.Length0, W0, Weights(w), a0, a1)
  {
    hide Passed, Sparse.Dense;
  }

  lemma NothingAbsorbed(x: Row, n: nat, W: seq<Vec>, a: Vec)
    requires ValidRow(x, n) && |W| == |a| && forall c :: 0 <= c < |W| ==> |W[c]| == n
    ensures Absorbed(x, n, W, W, a, a)
  {
    hide Sparse.Dense;
    forall c | 0 <= c < |W| ensures W[c] == Axpy(W[c], Passed(a[c] - a[c]), Dense(x, n)) {
    }
  }

  /**
   The body of the visit for QD[i] > 0.  gap is maxG - minG; exactly the classes
   on their cap with a gradient below minG are shrunk; the sub-problem is solved
   when more than one class stays active and the gap exceeds 1e-12.
   */
  method VisitRow(x: Row, A: real, y: int, c: real, w: array2<real>, alpha: array<real>, idx: array<int>, act0: nat,
                  yix0: int,
                  G: array<real>, B: array<real>, alphaNew: array<real>, dInd: array<int>, dVal: array<real>)
    returns (act: nat, yix: int, gap: real, ghost minG: real)
    requires A > 0.0 && c > 0.0 && ValidRow(x, w.Length0)
    requires alpha.Length == idx.Length == w.Length1 == G.Length == B.Length == alphaNew.Length == dInd.Length
        == dVal.Length
    requires alpha != G && alpha != B && alpha != alphaNew && alpha != dVal && B != G && B != alphaNew && B != dVal
    requires alphaNew != dVal && idx != dInd
    requires RowInv(alpha[..], idx[..], act0, yix0, y, c)
    modifies alpha, idx, G, B, alphaNew, dInd, dVal, w
    ensures RowInv(alpha[..], idx[..], act, yix, y, c) && act <= act0
    ensures Absorbed(x, w.Length0, old(Weights(w)), Weights(w), old(alpha[..]), alpha[..])
    ensures Extremal(old(alpha[..]), old(idx[..]), act0, y, c, old(Gradients(x, w, y)), minG, minG + gap)
    ensures ShrunkBy(old(alpha[..]), old(Gradients(x, w, y)), y, c, minG, old(idx[..]), idx[..], act0, act)
    ensures act <= 1 || gap <= 0.000000000001 ==> alpha[..] == old(alpha[..])
    ensures act > 1 && gap > 0.000000000001 ==>
              && IsPerm(idx[..], alpha.Length) && act <= alpha.Length
              && Minimiser(A, Linear(old(Gradients(x, w, y)), A, old(alpha[..]), idx[..], act), yix, c,
                  Gather(alpha[..], idx[..], act))
  {
    hide *;
    ghost var a0, idx0, gv := alpha[..], idx[..], Gradients(x, w, y);
    RowFacts(a0, idx0, act0, yix0, y, c);
    ComputeG(x, w, idx, act0, yix0, y, G);
    var lo, hi := Extremes(alpha, idx, act0, yix0, y, c, G);
    minG := lo;
    ShowExtremal(a0, idx0, act0, yix0, y, c, G[..], gv, lo, hi);
    ghost var m0 :| 0 <= m0 < act0 && a0[idx0[m0]] < Cap(m0, yix0, c);
    StartShrink(a0, idx0, G[..], gv, act0, yix0, y, c);
    act, yix := Shrink(alpha, idx, act0, yix0, y, c, G, lo, gv);
    ShrinkKeepsRow(a0, idx0, act0, yix0, y, c, idx[..], act, yix, G[..], gv, minG, m0);
    StopShrink(a0, idx[..], idx0, G[..], gv, act0, yix, y, act);
    ShowShrunk(a0, gv, y, c, minG, idx0, idx[..], act0, act, G[..], yix);
    gap := hi - lo;
    if act > 1 && gap > 0.000000000001 {
      SolveAndWrite(x, A, y, c, w, alpha, idx, act, yix, G, B, alphaNew, dInd, dVal, gv);
    } else {
      NothingAbsorbed(x, w.Length0, Weights(w), a0);
    }
  }

  lemma StartShrink(a: Vec, idx: seq<int>, G: seq<real>, gv: Vec, act: int, yix: int, y: int, c: real)
    requires RowInv(a, idx, act, yix, y, c) && |gv| == |a| && |G| >= |a| && Paired(G, idx, gv, act)
    ensures ShrinkInv(a, idx, idx, G, gv, act, yix, y)
  {
  }

  lemma StopShrink(a: Vec, idx: seq<int>, idx0: seq<int>, G: seq<real>, gv: Vec, act0: int, yix: int, y: int, act: int)
    requires ShrinkInv(a, idx, idx0, G, gv, act0, yix, y) && 0 <= act <= act0
    ensures IsPerm(idx, |gv|) && Paired(G, idx, gv, act) && |idx| == |gv|
  {
  }

  lemma ShowShrunk(a: Vec, gv: Vec, y: int, c: real, minG: real, idx0: seq<int>, idx: seq<int>, act0: int, act: int,
                   G: seq<real>, yix: int)
    requires ShrinkInv(a, idx, idx0, G, gv, act0, yix, y) && 0 <= act <= act0 && IsPerm(idx0, |gv|)
    requires AllShrinkable(a, gv, y, c, minG, idx, 0, act, false)
    requires AllShrinkable(a, gv, y, c, minG, idx, act, act0, true)
    ensures ShrunkBy(a, gv, y, c, minG, idx0, idx, act0, act)
  {
    hide AllShrinkable;
  }

  // -------------------------------------------------------- what the gap measures

  /** The gradients of an instance, from the weight vectors. */
  ghost function GradientsOf(x: Row, n: nat, W: seq<Vec>, y: int): (gv: Vec)
    requires ValidRow(x, n) && forall c :: 0 <= c < |W| ==> |W[c]| == n
    ensures |gv| == |W|
    ensures forall c :: 0 <= c < |W| ==> gv[c] == (if c == y then 0.0 else 1.0) + Dot(Dense(x, n), W[c])
  {
    seq(|W|, c requires 0 <= c < |W| => (if c == y then 0.0 else 1.0) + Dot(Dense(x, n), W[c]))
  }

  lemma GradientsAre(x: Row, w: array2<real>, y: int)
    requires ValidRow(x, w.Length0)
    ensures Gradients(x, w, y) == GradientsOf(x, w.Length0, Weights(w), y)
  {
    hide LinAlg.Dot, Sparse.Dense;
    assert |Gradients(x, w, y)| == |GradientsOf(x, w.Length0, Weights(w), y)|;
  }

  /** Without a gap the alphas of an instance already solve its sub-problem over all active classes. */
  lemma ZeroGapIsOptimal(A: real, alpha: Vec, idx: seq<int>, act: nat, yix: int, y: int, c: real, gv: Vec, minG: real,
                         maxG: real)
    requires A > 0.0 && c > 0.0 && RowInv(alpha, idx, act, yix, y, c) && |gv| == |alpha| && act <= |alpha|
    requires IsPerm(idx, |alpha|)
    requires Extremal(alpha, idx, act, y, c, gv, minG, maxG) && maxG <= minG
    ensures Minimiser(A, Linear(gv, A, alpha, idx, act), yix, c, Gather(alpha, idx, act))
  {
    hide LinAlg.Sum, CsSubProblem.Clip, CsSubProblem.Cost, CsSubProblem.DistTo, CsSubProblem.Feasible, CsSubProblem.Cap;
    var B, a := Linear(gv, A, alpha, idx, act), Gather(alpha, idx, act);
    forall m | 0 <= m < act ensures a[m] == Clip(A, B[m], Cap(m, yix, c), minG) {
      CapByPosition(idx, yix, y, c, m);
      ClipAtLevel(A, gv[idx[m]], alpha[idx[m]], Cap(m, yix, c), minG, B[m]);
    }
    assert AtLevel(A, B, yix, c, minG, a);
    RowIsFeasible(alpha, idx, act, yix, y, c, a);
    forall x | |x| == |a| && Feasible(x, yix, c) ensures Cost(A, B, x) >= Cost(A, B, a) + A / 2.0 * DistTo(x, a, |a|) {
      LevelIsOptimal(A, B, yix, c, minG, a, x);
    }
  }

  lemma ClipAtLevel(A: real, g: real, a: real, cap: real, level: real, b: real)
    requires A > 0.0 && b == g - A * a && a <= cap && g <= level && (a < cap ==> g == level)
    ensures a == Clip(A, b, cap, level)
  {
    var t := (level - b) / A;
    DivTimes(level - b, A, t);
    AtLevelIs(A, g, a, cap, level, b, t);
  }

  lemma AtLevelIs(A: real, g: real, a: real, cap: real, level: real, b: real, t: real)
    requires A > 0.0 && b == g - A * a && a <= cap && g <= level && (a < cap ==> g == level) && A * t == level - b
    ensures a == Min(cap, t)
  {
    assert A * (t - a) == A * t - A * a;
    assert A * (a - t) == -(A * (t - a));
    if t < a { var p := Product(A, a - t); }
    if a < cap && t > a { var p := Product(A, t - a); }
  }

  lemma DivTimes(x: real, A: real, t: real)
    requires A > 0.0 && t == x / A
    ensures A * t == x
  {
  }

  lemma RowIsFeasible(alpha: Vec, idx: seq<int>, act: nat, yix: int, y: int, c: real, a: Vec)
    requires RowInv(alpha, idx, act, yix, y, c) && IsPerm(idx, |alpha|) && act <= |alpha|
    requires a == Gather(alpha, idx, act)
    ensures Feasible(a, yix, c)
  {
    hide LinAlg.Sum, CsSubProblem.Target;
    GatherActive(alpha, idx, act, yix, y, c);
    GatherWritten(alpha, idx, a, act);
    forall m | 0 <= m < act ensures a[m] <= Cap(m, yix, c) { CapByPosition(idx, yix, y, c, m); }
    SumOfAll(a);
  }

  lemma SumOfAll(a: Vec)
    ensures SumTo(a, |a|) == Sum(a)
  {
  }

  lemma {:induction false} CostUpdate(A: real, B: Vec, a: Vec, i: nat, x: real, k: nat)
    requires |a| == |B| && i < |a| && k <= |a|
    ensures CostTo(A, B, a[i := x], k) == CostTo(A, B, a, k)
        + (if i < k then CostTerm(A, B[i], x) - CostTerm(A, B[i], a[i]) else 0.0)
  {
    hide CsSubProblem.CostTerm;
    if k > 0 { CostUpdate(A, B, a, i, x, k - 1); }
  }

  /** Passing t from one class to another costs (g2 - g1) t + A t^2. */
  lemma TransferCost(A: real, b1: real, b2: real, a1: real, a2: real, t: real, g1: real, g2: real)
    requires g1 == b1 + A * a1 && g2 == b2 + A * a2
    ensures CostTerm(A, b1, a1 - t) - CostTerm(A, b1, a1) + CostTerm(A, b2, a2 + t) - CostTerm(A, b2, a2)
        == (g2 - g1) * t + A * (t * t)
  {
    var h := A / 2.0;
    assert (a1 - t) * (a1 - t) == a1 * a1 - 2.0 * (a1 * t) + t * t;
    assert (a2 + t) * (a2 + t) == a2 * a2 + 2.0 * (a2 * t) + t * t;
    assert h * ((a1 - t) * (a1 - t)) == h * (a1 * a1) - A * (a1 * t) + h * (t * t);
    assert h * ((a2 + t) * (a2 + t)) == h * (a2 * a2) + A * (a2 * t) + h * (t * t);
    assert (g2 - g1) * t == b2 * t + A * (a2 * t) - b1 * t - A * (a1 * t);
  }

  /** Moving t from position i to position j. */
  ghost function Transferred(a: Vec, i: nat, j: nat, t: real): (r: Vec)
    requires i < |a| && j < |a| && i != j
    ensures |r| == |a|
  {
    a[i := a[i] - t][j := a[j] + t]
  }

  lemma TransferFeasible(a: Vec, yix: int, c: real, i: nat, j: nat, t: real)
    requires Feasible(a, yix, c) && i < |a| && j < |a| && i != j && t >= 0.0 && a[j] + t <= Cap(j, yix, c)
    ensures Feasible(Transferred(a, i, j, t), yix, c)
  {
    hide LinAlg.Sum, CsSubProblem.Cap;
    SumUpdate(a, i, a[i] - t);
    SumUpdate(a[i := a[i] - t], j, a[j] + t);
  }

  /** A length for which the transfer pays. */
  lemma PayingStep(A: real, diff: real, room: real) returns (t: real)
    requires A > 0.0 && diff > 0.0 && room > 0.0
    ensures 0.0 < t <= room && -diff * t + A * (t * t) < 0.0
  {
    var q := diff / (2.0 * A);
    assert q * (2.0 * A) == diff;
    t := if q < room then q else room;
    assert q > 0.0 by { if q <= 0.0 { var p := Product(-q, 2.0 * A); } }
    var p := Product(A, q - t);
    assert A * t <= A * q by { assert A * (q - t) == A * q - A * t; }
    var r := Product(t, diff - A * t);
    assert t * (diff - A * t) == diff * t - A * (t * t);
  }

  lemma OptimalHasNoGap(A: real, B: Vec, yix: int, c: real, a: Vec, i: nat, j: nat, gi: real, gj: real)
    requires A > 0.0 && Minimiser(A, B, yix, c, a) && i < |a| && j < |a| && i != j
    requires gi == B[i] + A * a[i] && gj == B[j] + A * a[j] && a[j] < Cap(j, yix, c)
    ensures gi <= gj
  {
    hide LinAlg.Sum, CsSubProblem.Cap, CsSubProblem.CostTerm, CsSubProblem.CostTo, CsSubProblem.DistTo;
    hide CsSubProblem.Feasible;
    if gi > gj {
      var t := PayingStep(A, gi - gj, Cap(j, yix, c) - a[j]);
      var x := Transferred(a, i, j, t);
      TransferFeasible(a, yix, c, i, j, t);
      CostUpdate(A, B, a, i, a[i] - t, |a|);
      CostUpdate(A, B, a[i := a[i] - t], j, a[j] + t, |a|);
      TransferCost(A, B[i], B[j], a[i], a[j], t, gi, gj);
      DistPositive(x, a, |a|);
      var p := Product(A / 2.0, DistTo(x, a, |a|));
    }
  }

  /** An instance has no gap if and only if its active alphas already solve its sub-problem. */
  lemma ZeroGapIff(A: real, alpha: Vec, idx: seq<int>, act: nat, yix: int, y: int, c: real, gv: Vec, minG: real,
                   maxG: real)
    requires A > 0.0 && c > 0.0 && RowInv(alpha, idx, act, yix, y, c) && |gv| == |alpha| && act <= |alpha|
    requires IsPerm(idx, |alpha|)
    requires Extremal(alpha, idx, act, y, c, gv, minG, maxG)
    ensures maxG <= minG <==> Minimiser(A, Linear(gv, A, alpha, idx, act), yix, c, Gather(alpha, idx, act))
  {
    hide LinAlg.Sum, CsSubProblem.Minimiser, CsSubProblem.Cap, CsRow.RowInv, Linear, Gather;
    RowFacts(alpha, idx, act, yix, y, c);
    var B, a := Linear(gv, A, alpha, idx, act), Gather(alpha, idx, act);
    if maxG <= minG {
      ZeroGapIsOptimal(A, alpha, idx, act, yix, y, c, gv, minG, maxG);
    } else if Minimiser(A, B, yix, c, a) {
      var j :| 0 <= j < act && alpha[idx[j]] < Cap(idx[j], y, c) && gv[idx[j]] == minG;
      var i :| 0 <= i < act && gv[idx[i]] == maxG;
      CapByPosition(idx, yix, y, c, j);
      OptimalHasNoGap(A, B, yix, c, a, i, j, maxG, minG);
    }
  }
}
