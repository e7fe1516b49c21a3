/**
 What a pass of Solver_MCSVM_CS is worth while w is the combination of the rows with
 the alphas: no visit raises the dual objective, and the gaps a pass over everything
 finds bound how much better any feasible alphas can be.
 */
module CsGap {
  import opened LinAlg
  import opened Permutation
  import opened RunHistory
  import opened PassDrift
  import KinkedParabola
  import opened Sparse
  import opened CombSquare
  import opened CsSubProblem
  import opened CsRow
  import opened CsVisit
  import opened CsRun
  import opened CsOptimal
  import opened CsExit

  // ----------------------------------------------------- what solving a row pays

  /** g d + N d^2 for the move d from x to z. */
  ghost function PayOf(g: real, N: real, x: real, z: real): real {
    g * (z - x) + N * ((z - x) * (z - x))
  }

  ghost function Pay(g: Vec, N: real, a: Vec, b: Vec): (r: Vec)
    requires |g| == |a| == |b|
    ensures |r| == |a| && forall c :: 0 <= c < |a| ==> r[c] == PayOf(g[c], N, a[c], b[c])
  {
    seq(|a|, c requires 0 <= c < |a| => PayOf(g[c], N, a[c], b[c]))
  }

  lemma CostStep(N: real, g: real, B: real, x: real, z: real, u: real, v: real)
    requires B == g - N * u && x == u && z == v
    ensures CostTerm(N, B, x) - CostTerm(N, B, z) - N / 2.0 * SquareOf(x - z) == -PayOf(g, N, u, v)
  {
    var d, h := z - x, N / 2.0;
    assert z * z == x * x + 2.0 * (x * d) + d * d;
    assert h * (z * z) == h * (x * x) + N * (x * d) + h * (d * d);
    assert B * z == B * x + g * d - N * (x * d);
    assert (x - z) * (x - z) == d * d;
    assert N * (d * d) == h * (d * d) + h * (d * d);
  }

  lemma CostAdds(c: real, c': real, t: real, r: real, e: real, e': real, q: real, y: real, h: real, u: real)
    requires c - c' - h * t == -r && e - e' - h * q == -y && u == t + q
    ensures (c + e) - (c' + e') - h * u == -(r + y)
  {
    assert h * (t + q) == h * t + h * q;
  }

  /** Over the first k active classes the sub-problem's cost falls by exactly what is paid. */
  ghost predicate CostIs(N: real, B: Vec, x: Vec, z: Vec, P: Vec, idx: seq<int>, k: nat) {
    && IsPerm(idx, |P|) && k <= |B| == |x| == |z| <= |P|
    && CostTo(N, B, x, k) - CostTo(N, B, z, k) - N / 2.0 * DistTo(x, z, k) == -GatherTo(P, idx, k)
  }

  lemma {:induction false} CostPays(N: real, g: Vec, a: Vec, b: Vec, idx: seq<int>, act: nat, B: Vec, x: Vec, z: Vec,
                                    P: Vec, k: nat)
    requires |g| == |a| == |b| && IsPerm(idx, |a|) && k <= act <= |a|
    requires B == Linear(g, N, a, idx, act) && x == Gather(a, idx, act) && z == Gather(b, idx, act)
    requires P == Pay(g, N, a, b)
    ensures CostIs(N, B, x, z, P, idx, k)
  {
    hide *;
    if k == 0 {
      CostNothing(N, g, a, b, idx, act, B, x, z, P);
    } else {
      CostPays(N, g, a, b, idx, act, B, x, z, P, k - 1);
      CostPaysStep(N, g, a, b, idx, act, B, x, z, P, k - 1);
    }
  }

  lemma CostNothing(N: real, g: Vec, a: Vec, b: Vec, idx: seq<int>, act: nat, B: Vec, x: Vec, z: Vec, P: Vec)
    requires |g| == |a| == |b| && IsPerm(idx, |a|) && act <= |a|
    requires B == Linear(g, N, a, idx, act) && x == Gather(a, idx, act) && z == Gather(b, idx, act)
    requires P == Pay(g, N, a, b)
    ensures CostIs(N, B, x, z, P, idx, 0)
  {
    hide Linear, Gather, Pay;
  }

  lemma CostPaysStep(N: real, g: Vec, a: Vec, b: Vec, idx: seq<int>, act: nat, B: Vec, x: Vec, z: Vec, P: Vec, k: nat)
    requires |g| == |a| == |b| == |P| && IsPerm(idx, |a|) && k < act <= |a| && |B| == |x| == |z| == act
    requires B == Linear(g, N, a, idx, act) && x == Gather(a, idx, act) && z == Gather(b, idx, act)
    requires P == Pay(g, N, a, b) && CostIs(N, B, x, z, P, idx, k)
    ensures CostIs(N, B, x, z, P, idx, k + 1)
  {
    hide CsSubProblem.CostTo, CsSubProblem.CostTerm, CsSubProblem.DistTo, CsSubProblem.SquareOf, GatherTo, Linear;
    hide Gather, Pay, IsPerm;
    PositionPays(N, g, a, b, idx, act, B, x, z, P, k);
    CostSteps(N, B, x, z, P, idx, k);
    CostAdds(CostTo(N, B, x, k), CostTo(N, B, z, k), DistTo(x, z, k), GatherTo(P, idx, k), CostTerm(N, B[k], x[k]),
             CostTerm(N, B[k], z[k]), SquareOf(x[k] - z[k]), P[idx[k]], N / 2.0, DistTo(x, z, k + 1));
  }

  lemma CostSteps(N: real, B: Vec, x: Vec, z: Vec, P: Vec, idx: seq<int>, k: nat)
    requires |B| == |x| == |z| && k < |B| <= |P| && IsPerm(idx, |P|)
    ensures |idx| == |P| && 0 <= idx[k] < |P|
    ensures CostTo(N, B, x, k + 1) == CostTo(N, B, x, k) + CostTerm(N, B[k], x[k])
    ensures CostTo(N, B, z, k + 1) == CostTo(N, B, z, k) + CostTerm(N, B[k], z[k])
    ensures DistTo(x, z, k + 1) == DistTo(x, z, k) + SquareOf(x[k] - z[k])
    ensures GatherTo(P, idx, k + 1) == GatherTo(P, idx, k) + P[idx[k]]
  {
    hide CsSubProblem.CostTerm, CsSubProblem.SquareOf;
  }

  lemma PositionPays(N: real, g: Vec, a: Vec, b: Vec, idx: seq<int>, act: nat, B: Vec, x: Vec, z: Vec, P: Vec, k: nat)
    requires |g| == |a| == |b| && IsPerm(idx, |a|) && k < act <= |a|
    requires B == Linear(g, N, a, idx, act) && x == Gather(a, idx, act) && z == Gather(b, idx, act)
    requires P == Pay(g, N, a, b)
    ensures |idx| == |P| && 0 <= idx[k] < |P|
    ensures CostTerm(N, B[k], x[k]) - CostTerm(N, B[k], z[k]) - N / 2.0 * SquareOf(x[k] - z[k]) == -P[idx[k]]
  {
    hide CsSubProblem.CostTerm, CsSubProblem.SquareOf, PayOf;
    var m := idx[k];
    CostStep(N, g[m], B[k], x[k], z[k], a[m], b[m]);
  }

  /** The old row, with the classes just shrunk behind the active size, still satisfies the row invariant. */
  lemma ShrunkRow(s: Setup, p: Snapshot, q: Snapshot, i: nat, f: Finding)
    requires Valid(s) && Shaped(s, p) && Shaped(s, q) && i < |s.x| && RowVisited(s, p, q, i, f)
    ensures |p.alpha[i]| == |s.C|
    ensures RowInv(p.alpha[i], q.idx[i], q.act[i], q.yix[i], s.y[i], s.C[s.y[i]])
  {
    hide LinAlg.Sum, RowSolved, CsVisit.Absorbed, CsRow.Extremal, Grads, CsSubProblem.Cap;
    var a, idx, idx0, y, c := p.alpha[i], q.idx[i], p.idx[i], s.y[i], s.C[s.y[i]];
    assert RowOk(s, p, i) && RowOk(s, q, i);
    forall m | q.act[i] <= m < |idx| ensures a[idx[m]] == Cap(idx[m], y, c) {
      if m < p.act[i] {
        assert Shrinkable(a, Grads(s, p, i), y, c, f.minG, idx[m]);
      } else {
        var act := p.act[i];
        assert idx[act..][m - act] == idx0[act..][m - act];
      }
    }
  }

  /** A visit that solves the sub-problem: sum_c g_c d_c + QD sum_c d_c^2 <= 0 for the changes d. */
  lemma SolvedPays(s: Setup, p: Snapshot, q: Snapshot, i: nat, f: Finding)
    requires Valid(s) && Shaped(s, p) && Shaped(s, q) && i < |s.x| && RowVisited(s, p, q, i, f)
    requires RowSolved(s, p, q, i)
    ensures |p.alpha[i]| == |q.alpha[i]| == |s.C|
    ensures Sum(Pay(Grads(s, p, i), Norm(s, i), p.alpha[i], q.alpha[i])) <= 0.0
  {
    ShrunkRow(s, p, q, i, f);
    hide RowVisited, Norm, Grads, LinAlg.Sum, CsSubProblem.Feasible, CsSubProblem.Cost, CsRow.RowInv, Pay;
    var a, b, idx, act, N, g := p.alpha[i], q.alpha[i], q.idx[i], q.act[i], Norm(s, i), Grads(s, p, i);
    RowIsFeasible(a, idx, act, q.yix[i], s.y[i], s.C[s.y[i]], Gather(a, idx, act));
    CheaperPays(N, g, a, b, idx, act, q.yix[i], s.C[s.y[i]]);
    TailUnpaid(s, p, q, i, f);
    TailPays(Pay(g, N, a, b), idx, act);
  }

  lemma CheaperPays(N: real, g: Vec, a: Vec, b: Vec, idx: seq<int>, act: nat, yix: int, c: real)
    requires |g| == |a| == |b| && IsPerm(idx, |a|) && act <= |a| && Feasible(Gather(a, idx, act), yix, c)
    requires Minimiser(N, Linear(g, N, a, idx, act), yix, c, Gather(b, idx, act))
    ensures GatherTo(Pay(g, N, a, b), idx, act) <= 0.0
  {
    hide Linear, Gather, CsSubProblem.Feasible, GatherTo, Pay;
    CostPays(N, g, a, b, idx, act, Linear(g, N, a, idx, act), Gather(a, idx, act), Gather(b, idx, act),
             Pay(g, N, a, b), act);
  }

  lemma TailUnpaid(s: Setup, p: Snapshot, q: Snapshot, i: nat, f: Finding)
    requires Valid(s) && Shaped(s, p) && Shaped(s, q) && i < |s.x| && RowVisited(s, p, q, i, f)
    requires RowInv(p.alpha[i], q.idx[i], q.act[i], q.yix[i], s.y[i], s.C[s.y[i]])
    ensures |p.alpha[i]| == |q.alpha[i]| == |q.idx[i]| == |s.C| && 0 <= q.act[i] <= |s.C| && IsPerm(q.idx[i], |s.C|)
    ensures forall m :: q.act[i] <= m < |s.C| ==>
              Pay(Grads(s, p, i), Norm(s, i), p.alpha[i], q.alpha[i])[q.idx[i][m]] == 0.0
  {
    hide LinAlg.Sum, RowSolved, CsVisit.Absorbed, CsRow.Extremal, CsRow.ShrunkBy, Grads, Norm, CsSubProblem.Cap;
    var a, b, idx, N, g := p.alpha[i], q.alpha[i], q.idx[i], Norm(s, i), Grads(s, p, i);
    assert RowOk(s, q, i);
    forall m | q.act[i] <= m < |s.C| ensures Pay(g, N, a, b)[idx[m]] == 0.0 {
      assert b[idx[m]] == a[idx[m]];
      NothingPaid(g[idx[m]], N, a[idx[m]], b[idx[m]]);
    }
  }

  lemma NothingPaid(g: real, N: real, x: real, z: real)
    requires z == x
    ensures PayOf(g, N, x, z) == 0.0
  {
  }

  lemma TailPays(v: Vec, idx: seq<int>, act: nat)
    requires IsPerm(idx, |v|) && act <= |v| && forall m :: act <= m < |v| ==> v[idx[m]] == 0.0
    ensures Sum(v) == GatherTo(v, idx, act)
  {
    hide LinAlg.Sum;
    GatherAll(v, idx);
    ZeroTail(v, idx, act, |v|);
  }

  lemma {:induction false} ZeroTail(v: Vec, idx: seq<int>, act: nat, k: nat)
    requires IsPerm(idx, |v|) && act <= k <= |v| && forall m :: act <= m < |v| ==> v[idx[m]] == 0.0
    ensures GatherTo(v, idx, k) == GatherTo(v, idx, act)
    decreases k
  {
    if act < k { ZeroTail(v, idx, act, k - 1); }
  }

  // --------------------------------------------------------- moving a whole row

  /** The first k classes of row i taken from b. */
  ghost function Mixed(A: seq<Vec>, i: nat, b: Vec, k: nat): (r: seq<Vec>)
    requires i < |A| && |b| == |A[i]| && k <= |b|
    ensures |r| == |A| && (forall j :: 0 <= j < |A| ==> |r[j]| == |A[j]|)
    ensures forall j :: 0 <= j < |A| && j != i ==> r[j] == A[j]
    ensures forall c :: 0 <= c < |b| ==> r[i][c] == if c < k then b[c] else A[i][c]
  {
    A[i := b[..k] + A[i][k..]]
  }

  /** g d + 0.5 N d^2 */
  ghost function Half(g: Vec, N: real, a: Vec, b: Vec): (r: Vec)
    requires |g| == |a| == |b|
    ensures |r| == |a| && forall c :: 0 <= c < |a| ==> r[c] == HalfOf(g[c], N, b[c] - a[c])
  {
    seq(|a|, c requires 0 <= c < |a| => HalfOf(g[c], N, b[c] - a[c]))
  }

  ghost function HalfOf(g: real, N: real, d: real): real {
    d * g + 0.5 * (d * d * N)
  }

  /** The gradient of a class depends on that class's alphas only. */
  lemma MixedGrad(s: Setup, A: seq<Vec>, i: nat, b: Vec, k: nat)
    requires Fits(s, A) && i < |A| && |b| == |s.C| && k < |b|
    ensures Fits(s, Mixed(A, i, b, k)) && Grad(s, Mixed(A, i, b, k), i, k) == Grad(s, A, i, k)
  {
    hide LinAlg.Dot, Sparse.Dense, LinAlg.Comb;
    assert CsDrift.Coefs(Mixed(A, i, b, k), k) == CsDrift.Coefs(A, k);
  }

  lemma MixedStep(s: Setup, A: seq<Vec>, i: nat, b: Vec, k: nat)
    requires Fits(s, A) && i < |A| && |b| == |s.C| && k < |b|
    ensures Fits(s, Mixed(A, i, b, k)) && Mixed(A, i, b, k + 1) == Changed(Mixed(A, i, b, k), i, k, b[k])
  {
    var l, r := Mixed(A, i, b, k + 1), Changed(Mixed(A, i, b, k), i, k, b[k]);
    assert l[i] == r[i] by { assert forall c :: 0 <= c < |b| ==> l[i][c] == r[i][c]; }
    assert forall j :: 0 <= j < |A| ==> l[j] == r[j];
  }

  lemma {:induction false} RowMoves(s: Setup, A: seq<Vec>, i: nat, b: Vec, k: nat)
    requires Fits(s, A) && i < |A| && |b| == |s.C| && k <= |b|
    ensures Fits(s, Mixed(A, i, b, k))
    ensures Dual(s, Mixed(A, i, b, k)) == Dual(s, A) + SumTo(Half(GradRow(s, A, i), Norm(s, i), A[i], b), k)
  {
    hide Dual, Norm, GradRow, Half, Mixed;
    if k == 0 {
      NothingMixed(A, i, b);
    } else {
      RowMoves(s, A, i, b, k - 1);
      RowMovesStep(s, A, i, b, k - 1);
    }
  }

  lemma NothingMixed(A: seq<Vec>, i: nat, b: Vec)
    requires i < |A| && |b| == |A[i]|
    ensures Mixed(A, i, b, 0) == A
  {
    assert Mixed(A, i, b, 0)[i] == A[i];
  }

  lemma RowMovesStep(s: Setup, A: seq<Vec>, i: nat, b: Vec, k: nat)
    requires Fits(s, A) && i < |A| && |b| == |s.C| == |A[i]| && k < |b| && Fits(s, Mixed(A, i, b, k))
    requires Dual(s, Mixed(A, i, b, k)) == Dual(s, A) + SumTo(Half(GradRow(s, A, i), Norm(s, i), A[i], b), k)
    ensures Fits(s, Mixed(A, i, b, k + 1))
    ensures Dual(s, Mixed(A, i, b, k + 1)) == Dual(s, A) + SumTo(Half(GradRow(s, A, i), Norm(s, i), A[i], b), k + 1)
  {
    FitsValid(s, A);
    hide *;
    MixedStep(s, A, i, b, k);
    MixedGrad(s, A, i, b, k);
    ClassMoves(s, A, i, b, k);
    SumToStep(Half(GradRow(s, A, i), Norm(s, i), A[i], b), k);
  }

  lemma FitsValid(s: Setup, A: seq<Vec>)
    requires Fits(s, A)
    ensures Valid(s) && |A| == |s.x|
  {
  }

  lemma SumToStep(v: Vec, k: nat)
    requires k < |v|
    ensures SumTo(v, k + 1) == SumTo(v, k) + v[k]
  {
  }

  lemma ClassMoves(s: Setup, A: seq<Vec>, i: nat, b: Vec, k: nat)
    requires Fits(s, A) && i < |A| && |b| == |s.C| && k < |b| && Fits(s, Mixed(A, i, b, k))
    requires Grad(s, Mixed(A, i, b, k), i, k) == Grad(s, A, i, k)
    ensures Fits(s, Changed(Mixed(A, i, b, k), i, k, b[k]))
    ensures Dual(s, Changed(Mixed(A, i, b, k), i, k, b[k]))
         == Dual(s, Mixed(A, i, b, k)) + Half(GradRow(s, A, i), Norm(s, i), A[i], b)[k]
  {
    hide Dual, Grad, Norm, Changed, Mixed;
    DualMoves(s, Mixed(A, i, b, k), i, k, b[k], b[k] - A[i][k]);
  }

  lemma SumHalf(g: Vec, N: real, a: Vec, b: Vec, k: nat)
    requires |g| == |a| == |b| && k <= |a| && N >= 0.0
    ensures SumTo(Half(g, N, a, b), k) <= SumTo(Pay(g, N, a, b), k)
  {
    hide PayOf, HalfOf;
    if k > 0 {
      SumHalf(g, N, a, b, k - 1);
      HalfBelow(g[k - 1], N, a[k - 1], b[k - 1], b[k - 1] - a[k - 1]);
    }
  }

  lemma HalfBelow(g: real, N: real, x: real, z: real, d: real)
    requires N >= 0.0 && d == z - x
    ensures HalfOf(g, N, d) <= PayOf(g, N, x, z)
  {
    var dd := Square(d);
    var p := Product(N, dd);
    assert d * d * N == N * (d * d);
  }

  /** While w is exact, no visit raises the dual objective. */
  lemma VisitDescends(s: Setup, p: Snapshot, q: Snapshot, m: Mark<Finding>)
    requires Visited(s, p, q, m) && Exact(s, p) && Sound(s, p)
    ensures Fits(s, q.alpha) && Dual(s, q.alpha) <= Dual(s, p.alpha)
  {
    VisitSound(s, p, q, m);
    SoundFeasible(s, q);
    FeasibleFits(s, q.alpha);
    VisitedShape(s, p, q, m);
    hide Dual, Norm, Sound, Grads, LinAlg.Sum, Exact, RowSolved, CsVisit.Absorbed, CsRow.Extremal, CsRow.ShrunkBy;
    hide RowOk;
    var i := m.i;
    if q.alpha[i] != p.alpha[i] {
      assert RowSolved(s, p, q, i);
      SolvedPays(s, p, q, i, m.note);
      ExactGrads(s, p, i);
      SolvedDescends(s, p.alpha, i, q.alpha[i]);
    } else {
      assert q.alpha == p.alpha;
    }
  }

  lemma SolvedDescends(s: Setup, A: seq<Vec>, i: nat, b: Vec)
    requires Fits(s, A) && i < |A| && |b| == |s.C| && Sum(Pay(GradRow(s, A, i), Norm(s, i), A[i], b)) <= 0.0
    ensures Fits(s, A[i := b]) && Dual(s, A[i := b]) <= Dual(s, A)
  {
    hide Dual, Norm, Grad, Pay, Half;
    assert Mixed(A, i, b, |b|) == A[i := b] by { assert Mixed(A, i, b, |b|)[i] == b; }
    RowMoves(s, A, i, b, |b|);
    NormNonNeg(s, i);
    SumHalf(GradRow(s, A, i), Norm(s, i), A[i], b, |b|);
  }

  // --------------------------------------------------- how far a visit can move

  /** sum_{c<k} (b_c - a_c)^2 */
  ghost function SquaresTo(a: Vec, b: Vec, k: nat): real
    requires k <= |a| && k <= |b|
  {
    if k == 0 then 0.0 else SquaresTo(a, b, k - 1) + SquareOf(b[k - 1] - a[k - 1])
  }

  ghost predicate PaysTo(g: Vec, N: real, a: Vec, b: Vec, P: Vec, d: Vec, k: nat) {
    && k <= |g| == |a| == |b| == |P| == |d|
    && SumTo(P, k) == DotTo(d, g, k) + N * SquaresTo(a, b, k)
  }

  lemma {:induction false} PayIs(g: Vec, N: real, a: Vec, b: Vec, k: nat)
    requires |g| == |a| == |b| && k <= |a|
    ensures PaysTo(g, N, a, b, Pay(g, N, a, b), Difference(a, b), k)
  {
    hide *;
    if k == 0 {
      PayNothing(g, N, a, b);
    } else {
      PayIs(g, N, a, b, k - 1);
      PayStep(g, N, a, b, Pay(g, N, a, b), Difference(a, b), k - 1);
    }
  }

  lemma PayNothing(g: Vec, N: real, a: Vec, b: Vec)
    requires |g| == |a| == |b|
    ensures PaysTo(g, N, a, b, Pay(g, N, a, b), Difference(a, b), 0)
  {
  }

  lemma PayStep(g: Vec, N: real, a: Vec, b: Vec, P: Vec, d: Vec, k: nat)
    requires |g| == |a| == |b| == |P| == |d| && k < |a| && P == Pay(g, N, a, b) && d == Difference(a, b)
    requires PaysTo(g, N, a, b, P, d, k)
    ensures PaysTo(g, N, a, b, P, d, k + 1)
  {
    hide LinAlg.SumTo, LinAlg.DotTo, SquaresTo, Pay, Difference, CsSubProblem.SquareOf;
    SumToStep(P, k);
    DotStep(d, g, k);
    ChangeSteps(a, b, k);
    EntryPays(g, N, a, b, k);
    Spread(N, SquaresTo(a, b, k), SquareOf(b[k] - a[k]));
    SameScale(N, SquaresTo(a, b, k + 1), SquaresTo(a, b, k) + SquareOf(b[k] - a[k]));
  }

  lemma SameScale(N: real, x: real, y: real)
    requires x == y
    ensures N * x == N * y
  {
  }

  lemma DotStep(u: Vec, v: Vec, k: nat)
    requires |u| == |v| && k < |u|
    ensures DotTo(u, v, k + 1) == DotTo(u, v, k) + u[k] * v[k]
  {
  }

  lemma EntryPays(g: Vec, N: real, a: Vec, b: Vec, k: nat)
    requires |g| == |a| == |b| && k < |a|
    ensures Pay(g, N, a, b)[k] == Difference(a, b)[k] * g[k] + N * SquareOf(b[k] - a[k])
  {
    hide PayOf, CsSubProblem.SquareOf;
    PayTerm(g[k], N, a[k], b[k], Difference(a, b)[k]);
  }

  lemma PayTerm(g: real, N: real, x: real, z: real, d: real)
    requires d == z - x
    ensures PayOf(g, N, x, z) == d * g + N * SquareOf(z - x)
  {
  }

  /** Against a level, no class gains more than w per unit. */
  ghost predicate Level(g: Vec, a: Vec, b: Vec, level: real, w: real) {
    && |g| == |a| == |b| && w >= 0.0
    && forall c :: 0 <= c < |a| ==> g[c] <= level + w && (b[c] > a[c] ==> g[c] >= level - w)
  }

  ghost predicate TiltsTo(g: Vec, a: Vec, b: Vec, level: real, w: real, d: Vec, k: nat) {
    && k <= |g| == |a| == |b| == |d|
    && DotTo(d, g, k) >= level * SumTo(d, k) - w * Distance(a, b, k)
  }

  lemma {:induction false} LevelTilt(g: Vec, a: Vec, b: Vec, level: real, w: real, k: nat)
    requires Level(g, a, b, level, w) && k <= |a| == |b|
    ensures TiltsTo(g, a, b, level, w, Difference(a, b), k)
  {
    hide *;
    LevelShape(g, a, b, level, w);
    if k == 0 {
      LevelNothing(g, a, b, level, w);
    } else {
      LevelTilt(g, a, b, level, w, k - 1);
      LevelStep(g, a, b, level, w, Difference(a, b), k - 1);
    }
  }

  lemma LevelNothing(g: Vec, a: Vec, b: Vec, level: real, w: real)
    requires |g| == |a| == |b|
    ensures TiltsTo(g, a, b, level, w, Difference(a, b), 0)
  {
  }

  lemma LevelStep(g: Vec, a: Vec, b: Vec, level: real, w: real, d: Vec, k: nat)
    requires Level(g, a, b, level, w) && |g| == |a| == |b| == |d| && k < |a| && d == Difference(a, b)
    requires TiltsTo(g, a, b, level, w, d, k)
    ensures TiltsTo(g, a, b, level, w, d, k + 1)
  {
    hide LinAlg.SumTo, LinAlg.DotTo, Distance, Difference, LinAlg.Abs, Level;
    LevelEntry(g, a, b, level, w, k);
    DotStep(d, g, k);
    SumToStep(d, k);
    ChangeSteps(a, b, k);
    LevelAdds(DotTo(d, g, k), SumTo(d, k), Distance(a, b, k), level, w, d[k] * g[k], d[k], Abs(b[k] - a[k]),
              SumTo(d, k + 1), Distance(a, b, k + 1));
  }

  lemma LevelEntry(g: Vec, a: Vec, b: Vec, level: real, w: real, k: nat)
    requires Level(g, a, b, level, w) && |g| == |a| == |b| && k < |a|
    ensures Difference(a, b)[k] * g[k] >= level * Difference(a, b)[k] - w * Abs(b[k] - a[k])
  {
    hide LinAlg.Abs;
    LevelTerm(g[k], level, w, Difference(a, b)[k], b[k] - a[k]);
  }

  lemma LevelAdds(t: real, u: real, e: real, level: real, w: real, dg: real, d: real, ad: real, u': real, e': real)
    requires t >= level * u - w * e && dg >= level * d - w * ad && u' == u + d && e' == e + ad
    ensures t + dg >= level * u' - w * e'
  {
    assert level * (u + d) == level * u + level * d;
    assert w * (e + ad) == w * e + w * ad;
  }

  lemma LevelTerm(g: real, level: real, w: real, d: real, e: real)
    requires w >= 0.0 && g <= level + w && (d > 0.0 ==> g >= level - w) && e == d
    ensures d * g >= level * d - w * Abs(e)
  {
    if d > 0.0 {
      var p := Product(d, g - level + w);
      assert d * (g - level + w) == d * g - level * d + w * d;
    } else {
      var p := Product(-d, level + w - g);
      assert -d * (level + w - g) == d * g - level * d - w * d;
      assert w * -d == -(w * d);
    }
  }

  /** With alphas that sum to zero on both sides the level does not matter. */
  lemma BalancedTilt(g: Vec, a: Vec, b: Vec, level: real, w: real)
    requires Level(g, a, b, level, w) && Sum(a) == 0.0 && Sum(b) == 0.0
    ensures DotTo(Difference(a, b), g, |a|) >= -(w * Distance(a, b, |a|))
  {
    hide LinAlg.Sum, Level;
    LevelShape(g, a, b, level, w);
    LevelTilt(g, a, b, level, w, |a|);
    DifferenceSum(a, b, Difference(a, b));
    ZeroTimes(level, SumTo(Difference(a, b), |a|));
  }

  lemma LevelShape(g: Vec, a: Vec, b: Vec, level: real, w: real)
    requires Level(g, a, b, level, w)
    ensures |g| == |a| == |b| && w >= 0.0
  {
  }

  /** The largest change of a row against its sum and its squares. */
  lemma {:induction false} LargestChange(a: Vec, b: Vec, k: nat) returns (D: real)
    requires |a| == |b| && k <= |a|
    ensures D >= 0.0 && forall c :: 0 <= c < k ==> Abs(b[c] - a[c]) <= D
    ensures Distance(a, b, k) <= k as real * D && SquaresTo(a, b, k) >= D * D
  {
    hide *;
    D := 0.0;
    if k == 0 {
      NothingChanged(a, b);
    } else {
      var E := LargestChange(a, b, k - 1);
      D := Max(E, Abs(b[k - 1] - a[k - 1]));
      LargestStep(a, b, E, D, k - 1);
    }
  }

  lemma NothingChanged(a: Vec, b: Vec)
    ensures Distance(a, b, 0) <= 0 as real * 0.0 && SquaresTo(a, b, 0) >= 0.0 * 0.0
  {
  }

  lemma LargestStep(a: Vec, b: Vec, E: real, D: real, k: nat)
    requires |a| == |b| && k < |a| && E >= 0.0 && D == Max(E, Abs(b[k] - a[k]))
    requires forall c :: 0 <= c < k ==> Abs(b[c] - a[c]) <= E
    requires Distance(a, b, k) <= k as real * E && SquaresTo(a, b, k) >= E * E
    ensures D >= 0.0 && forall c :: 0 <= c < k + 1 ==> Abs(b[c] - a[c]) <= D
    ensures Distance(a, b, k + 1) <= (k + 1) as real * D && SquaresTo(a, b, k + 1) >= D * D
  {
    hide *;
    MaxFacts(E, Abs(b[k] - a[k]), D);
    ChangeSteps(a, b, k);
    LargerCount(k + 1, E, Abs(b[k] - a[k]), D, Distance(a, b, k), Distance(a, b, k + 1));
    LargerSquare(E, Abs(b[k] - a[k]), D, SquaresTo(a, b, k), b[k] - a[k], SquaresTo(a, b, k + 1));
  }

  lemma MaxFacts(x: real, y: real, z: real)
    requires z == Max(x, y)
    ensures z >= x && z >= y
  {
  }

  lemma ChangeSteps(a: Vec, b: Vec, k: nat)
    requires |a| == |b| && k < |a|
    ensures Distance(a, b, k + 1) == Distance(a, b, k) + Abs(b[k] - a[k])
    ensures SquaresTo(a, b, k + 1) == SquaresTo(a, b, k) + SquareOf(b[k] - a[k])
  {
    hide CsSubProblem.SquareOf, LinAlg.Abs;
  }

  lemma LargerCount(k: nat, E: real, e: real, D: real, t: real, t': real)
    requires k > 0 && E <= D && e <= D && t <= (k - 1) as real * E && t' == t + e
    ensures t' <= k as real * D
  {
    assert k as real == (k - 1) as real + 1.0;
    var p := Product((k - 1) as real, D - E);
    assert (k - 1) as real * (D - E) == (k - 1) as real * D - (k - 1) as real * E;
    assert ((k - 1) as real + 1.0) * D == (k - 1) as real * D + D;
  }

  lemma LargerSquare(E: real, e: real, D: real, t: real, d: real, t': real)
    requires e == Abs(d) && D == Max(E, e) && t >= E * E && E >= 0.0 && t' == t + SquareOf(d)
    ensures t' >= D * D
  {
    var p, q := E * E, d * d;
    assert p >= 0.0 && q >= 0.0 && e * e == d * d;
  }

  /** A move that pays is at most |C| gap / QD in every class. */
  lemma MoveSize(g: Vec, N: real, a: Vec, b: Vec, level: real, gap: real, c: nat)
    requires Level(g, a, b, level, gap) && Sum(a) == 0.0 && Sum(b) == 0.0 && c < |a| == |b| == |g| && N >= 0.0
    requires Sum(Pay(g, N, a, b)) <= 0.0
    ensures N * Abs(b[c] - a[c]) <= |a| as real * gap
  {
    hide LinAlg.Sum, LinAlg.SumTo, LinAlg.DotTo, Distance, SquaresTo, Pay, Difference, Level, LinAlg.Abs;
    BalancedTilt(g, a, b, level, gap);
    PayIs(g, N, a, b, |a|);
    SumIs(Pay(g, N, a, b));
    var D := LargestChange(a, b, |a|);
    LevelShape(g, a, b, level, gap);
    Shortest(N, D, |a| as real, gap, Distance(a, b, |a|), SquaresTo(a, b, |a|), Abs(b[c] - a[c]),
             DotTo(Difference(a, b), g, |a|));
  }

  lemma SumIs(v: Vec)
    ensures Sum(v) == SumTo(v, |v|)
  {
  }

  lemma Shortest(N: real, D: real, m: real, gap: real, t: real, q: real, e: real, dot: real)
    requires N >= 0.0 && D >= 0.0 && m >= 0.0 && gap >= 0.0 && t <= m * D && q >= D * D && e <= D
    requires dot >= -(gap * t) && dot + N * q <= 0.0
    ensures N * e <= m * gap
  {
    SquareLe(N, D, m, gap, t, q, dot);
    var p3 := Product(m, gap);
    var p4 := Product(N, D - e);
    assert N * (D - e) == N * D - N * e;
    if D > 0.0 { KinkedParabola.Cancel(m * gap - N * D, D); }
  }

  lemma SquareLe(N: real, D: real, m: real, gap: real, t: real, q: real, dot: real)
    requires N >= 0.0 && gap >= 0.0 && t <= m * D && q >= D * D && dot >= -(gap * t) && dot + N * q <= 0.0
    ensures (m * gap - N * D) * D >= 0.0
  {
    var p1 := Product(gap, m * D - t);
    assert gap * (m * D - t) == (m * gap) * D - gap * t;
    var p2 := Product(N, q - D * D);
    assert N * (q - D * D) == N * q - (N * D) * D;
    assert (m * gap - N * D) * D == (m * gap) * D - (N * D) * D;
  }

  // --------------------------------------------------------- how gradients drift

  /** |x_i.x_j| <= K QD_j for all i and j */
  ghost predicate Coupled(s: Setup, K: real)
    requires Valid(s)
  {
    K >= 0.0 && forall i, j :: 0 <= i < |s.x| && 0 <= j < |s.x| ==>
      Abs(Dot(Dense(s.x[i], s.n), Dense(s.x[j], s.n))) <= K * Norm(s, j)
  }

  /** Every valid setup has such a K. */
  lemma SomeCoupling(s: Setup) returns (K: real)
    requires Valid(s)
    ensures Coupled(s, K)
  {
    hide LinAlg.Dot, LinAlg.Abs, Sparse.Dense, Norm, RowsCoupled;
    var X, D := DenseRows(s.x, s.n), Zeros(|s.x|);
    K := CouplingOf(X, s.n, D);
    forall i, j | 0 <= i < |s.x| && 0 <= j < |s.x|
      ensures Abs(Dot(Dense(s.x[i], s.n), Dense(s.x[j], s.n))) <= K * Norm(s, j)
    {
      NormIs(s, j);
      CoupledPair(X, s.n, D, K, i, j, Norm(s, j));
    }
  }

  lemma NormIs(s: Setup, j: nat)
    requires Valid(s) && j < |s.x|
    ensures Norm(s, j) == Dot(Dense(s.x[j], s.n), Dense(s.x[j], s.n))
  {
    hide LinAlg.Dot, Sparse.Dense;
  }

  lemma CouplingAt(s: Setup, K: real, i: nat, j: nat) returns (q: real)
    requires Valid(s) && Coupled(s, K) && i < |s.x| && j < |s.x|
    ensures ValidRow(s.x[i], s.n) && ValidRow(s.x[j], s.n) && |Dense(s.x[i], s.n)| == |Dense(s.x[j], s.n)|
    ensures q == Dot(Dense(s.x[i], s.n), Dense(s.x[j], s.n)) && K >= 0.0 && Abs(q) <= K * Norm(s, j)
  {
    hide LinAlg.Dot, Norm, LinAlg.Abs, Sparse.Dense;
    q := Dot(Dense(s.x[i], s.n), Dense(s.x[j], s.n));
  }

  /** Changing row i moves the gradients of row j by the change times x_j.x_i. */
  lemma GradMoves(s: Setup, A: seq<Vec>, i: nat, b: Vec, j: nat, c: nat, d: real)
    requires Fits(s, A) && i < |A| && |b| == |s.C| && j < |A| && c < |s.C| && d == b[c] - A[i][c]
    ensures Fits(s, A[i := b]) && |Dense(s.x[j], s.n)| == |Dense(s.x[i], s.n)|
    ensures Grad(s, A[i := b], j, c) - Grad(s, A, j, c) == d * Dot(Dense(s.x[j], s.n), Dense(s.x[i], s.n))
  {
    hide LinAlg.Dot, Sparse.Dense, LinAlg.Comb, LinAlg.Axpy;
    var k, X := CsDrift.Coefs(A, c), DenseRows(s.x, s.n);
    assert CsDrift.Coefs(A[i := b], c) == k[i := k[i] + d];
    CombUpdate(k, X, s.n, |s.x|, i, d);
    DotAxpyR(Dense(s.x[j], s.n), Weight(s, A, c), d, Dense(s.x[i], s.n));
  }

  /** The extremes, class by class, when all classes are active. */
  lemma ExtremeLevel(alpha: Vec, idx: seq<int>, y: int, cap: real, g: Vec, minG: real, gap: real, b: Vec)
    requires Extremal(alpha, idx, |alpha|, y, cap, g, minG, minG + gap) && |b| == |alpha|
    requires forall c :: 0 <= c < |b| ==> b[c] <= Cap(c, y, cap)
    ensures Level(g, alpha, b, minG, gap)
  {
    hide CsSubProblem.Cap;
    GapNonNeg(alpha, idx, |alpha|, y, cap, g, minG, minG + gap);
    forall c | 0 <= c < |alpha| ensures g[c] <= minG + gap && (b[c] > alpha[c] ==> g[c] >= minG - gap) {
      var m := PermOnto(idx, |alpha|, c);
    }
  }

  /** A visit with all classes active moves the alphas of its row by at most |C| gap / QD. */
  lemma VisitMove(s: Setup, p: Snapshot, q: Snapshot, m: Mark<Finding>, c: nat)
    requires Visited(s, p, q, m) && Exact(s, p) && Sound(s, p) && p.act[m.i] == |s.C| && c < |s.C|
    ensures |p.alpha[m.i]| == |q.alpha[m.i]| == |s.C| && m.note.gap >= 0.0
    ensures Norm(s, m.i) * Abs(q.alpha[m.i][c] - p.alpha[m.i][c]) <= |s.C| as real * m.note.gap
  {
    hide *;
    VisitedShape(s, p, q, m);
    VisitSound(s, p, q, m);
    RowsOf(s, p, m.i);
    RowsOf(s, q, m.i);
    var i, f := m.i, m.note;
    var a, b := p.alpha[i], q.alpha[i];
    if Norm(s, i) > 0.0 {
      GapIsFound(s, p, q, m);
      ExtremeLevel(a, p.idx[i], s.y[i], s.C[s.y[i]], Grads(s, p, i), f.minG, f.gap, b);
      LevelShape(Grads(s, p, i), a, b, f.minG, f.gap);
      if b != a {
        ChangedIsSolved(s, p, q, m);
        SolvedPays(s, p, q, i, f);
        MoveSize(Grads(s, p, i), Norm(s, i), a, b, f.minG, f.gap, c);
      } else {
        NotMoved(Norm(s, i), a[c], |s.C| as real, f.gap);
      }
    } else {
      ZeroRowIdle(s, p, q, m);
      NotMoved(Norm(s, i), a[c], |s.C| as real, f.gap);
    }
  }

  lemma ChangedIsSolved(s: Setup, p: Snapshot, q: Snapshot, m: Mark<Finding>)
    requires Visited(s, p, q, m) && Norm(s, m.i) > 0.0 && q.alpha[m.i] != p.alpha[m.i]
    ensures RowVisited(s, p, q, m.i, m.note) && RowSolved(s, p, q, m.i)
  {
    hide Norm, Grads, RowSolved, CsVisit.Absorbed, CsRow.Extremal, CsRow.ShrunkBy, RowOk;
  }

  lemma NotMoved(N: real, x: real, m: real, gap: real)
    requires m >= 0.0 && gap >= 0.0
    ensures N * Abs(x - x) <= m * gap
  {
    var p := Product(m, gap);
  }

  lemma RowsOf(s: Setup, p: Snapshot, i: nat)
    requires Sound(s, p) && i < |s.x|
    ensures Shaped(s, p) && |p.alpha| == |p.idx| == |s.y| == |s.x| && |p.alpha[i]| == |s.C|
    ensures 0 <= s.y[i] < |s.C| && Sum(p.alpha[i]) == 0.0
    ensures forall c :: 0 <= c < |s.C| ==> p.alpha[i][c] <= Cap(c, s.y[i], s.C[s.y[i]])
  {
    hide LinAlg.Sum, CsSubProblem.Cap;
    assert RowOk(s, p, i);
  }

  /** A visit moves the gradients of every other row by at most K |C| gap. */
  lemma VisitShift(s: Setup, p: Snapshot, q: Snapshot, m: Mark<Finding>, K: real, j: nat, c: nat)
    requires Visited(s, p, q, m) && Exact(s, p) && Sound(s, p) && p.act[m.i] == |s.C| && Coupled(s, K)
    requires j < |s.x| && j != m.i && c < |s.C|
    ensures Fits(s, p.alpha) && Fits(s, q.alpha) && q.alpha[j] == p.alpha[j]
    ensures Abs(Grad(s, q.alpha, j, c) - Grad(s, p.alpha, j, c)) <= K * (|s.C| as real * m.note.gap)
  {
    hide *;
    VisitedShape(s, p, q, m);
    ExactFits(s, p);
    VisitMove(s, p, q, m, c);
    OnlyRowIs(s, p, q, m.i);
    GradShift(s, p.alpha, m.i, q.alpha[m.i], j, c, K, |s.C| as real * m.note.gap);
  }

  lemma GradShift(s: Setup, A: seq<Vec>, i: nat, b: Vec, j: nat, c: nat, K: real, v: real)
    requires Fits(s, A) && i < |A| && |b| == |A[i]| == |s.C| && j < |A| && c < |s.C| && Valid(s) && |A| == |s.x|
    requires Coupled(s, K) && Norm(s, i) * Abs(b[c] - A[i][c]) <= v
    ensures Fits(s, A[i := b]) && Abs(Grad(s, A[i := b], j, c) - Grad(s, A, j, c)) <= K * v
  {
    hide *;
    var d := b[c] - A[i][c];
    GradMoves(s, A, i, b, j, c, d);
    var q := CouplingAt(s, K, j, i);
    AbsTimes(d, q, q, Grad(s, A[i := b], j, c) - Grad(s, A, j, c));
    AbsNonNeg(d);
    Chain(Abs(d), Abs(q), K, Norm(s, i), v);
  }

  lemma ExactFits(s: Setup, p: Snapshot)
    requires Exact(s, p)
    ensures Fits(s, p.alpha) && Valid(s) && |p.alpha| == |s.x|
  {
    hide Weight;
  }

  lemma OnlyRowIs(s: Setup, p: Snapshot, q: Snapshot, i: nat)
    requires Shaped(s, p) && Shaped(s, q) && i < |s.x| && OnlyRow(s, p, q, i)
    ensures q.alpha == p.alpha[i := q.alpha[i]]
  {
  }

  // ------------------------------------------------------------------- the pass

  ghost predicate AllExact(s: Setup, h: History<Snapshot, Finding>) {
    forall k :: 0 <= k < |h.points| ==> Exact(s, h.points[k])
  }

  /** w stays exact as long as every change of an alpha is zero or at least 1e-12. */
  lemma ExactStays(s: Setup, p: Snapshot, q: Snapshot, m: Mark<Finding>)
    requires Visited(s, p, q, m) && Exact(s, p) && Fits(s, q.alpha)
    requires forall c :: 0 <= c < |s.C| ==>
               q.alpha[m.i][c] == p.alpha[m.i][c] || Abs(q.alpha[m.i][c] - p.alpha[m.i][c]) >= TINY
    ensures Exact(s, q)
  {
    hide *;
    VisitedShape(s, p, q, m);
    ExactFits(s, p);
    OnlyRowIs(s, p, q, m.i);
    RowLengths(s, p, m.i);
    RowLengths(s, q, m.i);
    ShapedLengths(s, p, q);
    forall c | 0 <= c < |s.C| ensures q.W[c] == Weight(s, q.alpha, c) {
      WeightsFollow(s, p, q, m, c);
    }
    ShowExact(s, q);
  }

  lemma RowLengths(s: Setup, p: Snapshot, i: nat)
    requires Fits(s, p.alpha) && i < |s.x|
    ensures |p.alpha| == |s.x| && |p.alpha[i]| == |s.C| && ValidRow(s.x[i], s.n)
  {
  }

  lemma ShapedLengths(s: Setup, p: Snapshot, q: Snapshot)
    requires Shaped(s, p) && Shaped(s, q)
    ensures |p.W| == |q.W| == |s.C|
  {
  }

  lemma ShowExact(s: Setup, p: Snapshot)
    requires Fits(s, p.alpha) && |p.W| == |s.C| && forall c :: 0 <= c < |s.C| ==> p.W[c] == Weight(s, p.alpha, c)
    ensures Exact(s, p)
  {
    hide Weight;
  }

  lemma WeightsFollow(s: Setup, p: Snapshot, q: Snapshot, m: Mark<Finding>, c: nat)
    requires Visited(s, p, q, m) && Exact(s, p) && Fits(s, q.alpha) && c < |s.C|
    requires q.alpha[m.i][c] == p.alpha[m.i][c] || Abs(q.alpha[m.i][c] - p.alpha[m.i][c]) >= TINY
    ensures |q.W| == |s.C| && q.W[c] == Weight(s, q.alpha, c)
  {
    hide *;
    VisitedShape(s, p, q, m);
    ShapedLengths(s, p, q);
    ExactFits(s, p);
    OnlyRowIs(s, p, q, m.i);
    RowLengths(s, p, m.i);
    RowLengths(s, q, m.i);
    ExactClass(s, p, c);
    var i := m.i;
    if Norm(s, i) > 0.0 {
      var d := q.alpha[i][c] - p.alpha[i][c];
      LargePassed(d);
      AbsorbedClass(s, p, q, m, c, d);
      RowWeight(s, p.alpha, i, q.alpha[i], c, d);
    } else {
      ZeroRowIdle(s, p, q, m);
    }
  }

  lemma ExactClass(s: Setup, p: Snapshot, c: nat)
    requires Exact(s, p) && c < |s.C|
    ensures Fits(s, p.alpha) && |p.W| == |s.C| && p.W[c] == Weight(s, p.alpha, c)
  {
    hide Weight;
  }

  lemma LargePassed(d: real)
    requires d == 0.0 || Abs(d) >= TINY
    ensures Passed(d) == d
  {
  }

  lemma AbsorbedClass(s: Setup, p: Snapshot, q: Snapshot, m: Mark<Finding>, c: nat, d: real)
    requires Visited(s, p, q, m) && Norm(s, m.i) > 0.0 && c < |s.C| == |p.alpha[m.i]| == |q.alpha[m.i]|
    requires d == q.alpha[m.i][c] - p.alpha[m.i][c] && Passed(d) == d
    ensures |p.W| == |q.W| == |s.C| && ValidRow(s.x[m.i], s.n) && |p.W[c]| == |Dense(s.x[m.i], s.n)|
    ensures q.W[c] == Axpy(p.W[c], d, Dense(s.x[m.i], s.n))
  {
    hide RowOk, CsRow.Extremal, CsRow.ShrunkBy, RowSolved, Norm, Sparse.Dense, LinAlg.Axpy, Passed, OnlyRow;
  }

  lemma RowWeight(s: Setup, A: seq<Vec>, i: nat, b: Vec, c: nat, d: real)
    requires Fits(s, A) && i < |A| && |b| == |s.C| && c < |s.C| && d == b[c] - A[i][c]
    ensures Fits(s, A[i := b]) && |Dense(s.x[i], s.n)| == s.n
    ensures Weight(s, A[i := b], c) == Axpy(Weight(s, A, c), d, Dense(s.x[i], s.n))
  {
    hide LinAlg.Comb, LinAlg.Axpy, Sparse.Dense;
    var k, X := CsDrift.Coefs(A, c), DenseRows(s.x, s.n);
    assert CsDrift.Coefs(A[i := b], c) == k[i := k[i] + d];
    CombUpdate(k, X, s.n, |s.x|, i, d);
  }

  /** sum_{j<k} of the gaps found */
  ghost function GapsTo(h: History<Snapshot, Finding>, k: nat): real
    requires k <= |h.marks|
  {
    if k == 0 then 0.0 else GapsTo(h, k - 1) + h.marks[k - 1].note.gap
  }

  /** A pass over everything that starts sound, with all classes active, and keeps w exact. */
  ghost predicate ExactPass(s: Setup, h: History<Snapshot, Finding>) {
    && Runs(Visits(s), h) && VisitsOnce(h, Everything(|s.x|))
    && Sound(s, h.points[0]) && AllActive(s, h.points[0]) && AllExact(s, h)
  }

  /** What holds at visit k of such a pass. */
  lemma VisitFacts(s: Setup, h: History<Snapshot, Finding>, k: nat)
    requires ExactPass(s, h) && k < |h.marks|
    ensures |h.points| == |h.marks| + 1 && Valid(s)
    ensures Visited(s, h.points[k], h.points[k + 1], h.marks[k]) && 0 <= h.marks[k].i < |s.x|
    ensures Sound(s, h.points[k]) && Exact(s, h.points[k]) && Fits(s, h.points[k].alpha)
    ensures |h.points[k].act| == |s.x| && h.points[k].act[h.marks[k].i] == |s.C|
    ensures h.marks[k].note.gap >= 0.0
  {
    PassFacts(s, h);
    PassStaysSound(s, h, k);
    hide *;
    VisitAt(s, h, k);
    var p, q, m := h.points[k], h.points[k + 1], h.marks[k];
    VisitedShape(s, p, q, m);
    ExactAt(s, h, k);
    ExactFits(s, p);
    NotBefore(h, Everything(|s.x|), k);
    SoundShape(s, h.points[0]);
    SoundShape(s, p);
    ActUntouched(s, h, m.i, k);
    ActiveAt(s, h.points[0], m.i);
    GapFound(s, p, q, m);
  }

  lemma PassFacts(s: Setup, h: History<Snapshot, Finding>)
    requires ExactPass(s, h)
    ensures Runs(Visits(s), h) && VisitsOnce(h, Everything(|s.x|)) && |h.points| == |h.marks| + 1
    ensures Sound(s, h.points[0]) && AllActive(s, h.points[0]) && AllExact(s, h)
  {
    hide Visits, VisitsOnce, Sound, AllActive, AllExact;
  }

  lemma ExactAt(s: Setup, h: History<Snapshot, Finding>, k: nat)
    requires AllExact(s, h) && k < |h.points|
    ensures Exact(s, h.points[k])
  {
    hide Exact;
  }

  lemma SoundShape(s: Setup, p: Snapshot)
    requires Sound(s, p)
    ensures Valid(s) && Shaped(s, p) && |p.act| == |p.alpha| == |s.x|
  {
    hide RowOk;
  }

  lemma ActiveAt(s: Setup, p: Snapshot, i: nat)
    requires AllActive(s, p) && i < |s.x|
    ensures |p.act| == |s.x| && p.act[i] == |s.C|
  {
  }

  lemma GapFound(s: Setup, p: Snapshot, q: Snapshot, m: Mark<Finding>)
    requires Visited(s, p, q, m)
    ensures m.note.gap >= 0.0
  {
    hide Norm, Grads, RowSolved, CsVisit.Absorbed, CsRow.Extremal, CsRow.ShrunkBy, RowOk;
    if Norm(s, m.i) > 0.0 {
      GapNonNeg(p.alpha[m.i], p.idx[m.i], p.act[m.i], s.y[m.i], s.C[s.y[m.i]], Grads(s, p, m.i), m.note.minG,
                m.note.minG + m.note.gap);
    }
  }

  lemma {:induction false} PassStaysSound(s: Setup, h: History<Snapshot, Finding>, k: nat)
    requires Runs(Visits(s), h) && Sound(s, h.points[0]) && k < |h.points|
    ensures Sound(s, h.points[k])
  {
    hide *;
    RunsShape(s, h);
    if k > 0 {
      PassStaysSound(s, h, k - 1);
      VisitAt(s, h, k - 1);
      VisitSound(s, h.points[k - 1], h.points[k], h.marks[k - 1]);
    }
  }

  /** Until its visit a row keeps its alphas, and its gradients drift by at most K |C| times the gaps found. */
  lemma {:induction false} GradDrift(s: Setup, h: History<Snapshot, Finding>, K: real, j: nat, c: nat, k: nat)
    requires ExactPass(s, h) && Valid(s) && Coupled(s, K) && j < |s.x| && c < |s.C| && k <= |h.marks| < |h.points|
    requires forall n :: 0 <= n < k ==> h.marks[n].i != j
    ensures Fits(s, h.points[0].alpha) && Fits(s, h.points[k].alpha)
    ensures |h.points[k].alpha| == |h.points[0].alpha| == |s.x|
    ensures h.points[k].alpha[j] == h.points[0].alpha[j]
    ensures Abs(Grad(s, h.points[k].alpha, j, c) - Grad(s, h.points[0].alpha, j, c))
         <= K * (|s.C| as real * GapsTo(h, k))
  {
    hide *;
    PassFacts(s, h);
    ExactAt(s, h, 0);
    ExactFits(s, h.points[0]);
    ExactAt(s, h, k);
    ExactFits(s, h.points[k]);
    if k > 0 {
      GradDrift(s, h, K, j, c, k - 1);
      VisitFacts(s, h, k - 1);
      VisitShift(s, h.points[k - 1], h.points[k], h.marks[k - 1], K, j, c);
      GapsStep(h, k - 1);
      var A0, A1, A2 := h.points[0].alpha, h.points[k - 1].alpha, h.points[k].alpha;
      DriftMore(Grad(s, A0, j, c), Grad(s, A1, j, c), Grad(s, A2, j, c), K, |s.C| as real, GapsTo(h, k - 1),
                h.marks[k - 1].note.gap, GapsTo(h, k));
    } else {
      NoGaps(h);
      NothingDrifts(Grad(s, h.points[0].alpha, j, c), K, |s.C| as real, GapsTo(h, 0));
    }
  }

  lemma NoGaps(h: History<Snapshot, Finding>)
    ensures GapsTo(h, 0) == 0.0
  {
  }

  lemma GapsStep(h: History<Snapshot, Finding>, k: nat)
    requires k < |h.marks|
    ensures GapsTo(h, k + 1) == GapsTo(h, k) + h.marks[k].note.gap
  {
  }

  lemma NothingDrifts(g: real, K: real, m: real, t: real)
    requires t == 0.0
    ensures Abs(g - g) <= K * (m * t)
  {
  }

  lemma DriftMore(g0: real, g1: real, g2: real, K: real, m: real, t: real, gap: real, t': real)
    requires Abs(g1 - g0) <= K * (m * t) && Abs(g2 - g1) <= K * (m * gap) && t' == t + gap
    ensures Abs(g2 - g0) <= K * (m * t')
  {
    assert m * t' == m * t + m * gap;
    Spread(K, m * t, m * gap);
  }

  // ------------------------------------------------------- what is left to gain

  /** sum_{j<k} sum_c |b_jc - a_jc| */
  ghost function RowsDistance(s: Setup, A: seq<Vec>, B: seq<Vec>, k: nat): real
    requires Fits(s, A) && Fits(s, B) && k <= |A|
  {
    if k == 0 then 0.0 else RowsDistance(s, A, B, k - 1) + Distance(A[k - 1], B[k - 1], |s.C|)
  }

  /** No gap of the pass is larger. */
  ghost predicate GapsWithin(h: History<Snapshot, Finding>, largest: real) {
    largest >= 0.0 && forall k :: 0 <= k < |h.marks| ==> h.marks[k].note.gap <= largest
  }

  /** The gain per unit of distance that the start of the pass leaves at most. */
  ghost function Slack(s: Setup, h: History<Snapshot, Finding>, K: real, largest: real): real {
    largest + K * (|s.C| as real * GapsTo(h, |h.marks|))
  }

  lemma {:induction false} GapsGrow(s: Setup, h: History<Snapshot, Finding>, j: nat, k: nat)
    requires ExactPass(s, h) && j <= k <= |h.marks|
    ensures GapsTo(h, j) <= GapsTo(h, k)
  {
    hide *;
    if j < k {
      GapsGrow(s, h, j, k - 1);
      VisitFacts(s, h, k - 1);
      GapsStep(h, k - 1);
    }
  }

  /** The gradients at the start stay within the slack of the level found at the visit. */
  lemma StartLevel(s: Setup, h: History<Snapshot, Finding>, K: real, largest: real, j: nat, k: nat, b: Vec)
    requires ExactPass(s, h) && Valid(s) && Coupled(s, K) && GapsWithin(h, largest) && j < |s.x|
    requires k < |h.marks| < |h.points| && h.marks[k].i == j && (forall n :: 0 <= n < k ==> h.marks[n].i != j)
    requires Norm(s, j) > 0.0 && FeasibleRow(s, j, b) && Fits(s, h.points[0].alpha)
    ensures |h.points[0].alpha[j]| == |b|
    ensures Level(GradRow(s, h.points[0].alpha, j), h.points[0].alpha[j], b, h.marks[k].note.minG,
                  Slack(s, h, K, largest))
  {
    hide *;
    VisitFacts(s, h, k);
    var p, q, m := h.points[k], h.points[k + 1], h.marks[k];
    var A0, f := h.points[0].alpha, m.note;
    VisitedShape(s, p, q, m);
    RowsOf(s, p, j);
    FeasibleCaps(s, j, b);
    GapIsFound(s, p, q, m);
    ExtremeLevel(p.alpha[j], p.idx[j], s.y[j], s.C[s.y[j]], Grads(s, p, j), f.minG, f.gap, b);
    ExactGrads(s, p, j);
    GapsGrow(s, h, k, |h.marks|);
    GapsGrow(s, h, 0, k);
    NoGaps(h);
    CoupledNonNeg(s, K);
    FoundWithin(h, largest, k);
    var D := K * (|s.C| as real * GapsTo(h, k));
    SlackCovers(s, h, K, largest, k, f.gap, D);
    Untouched(s, h, K, j, k);
    forall c | 0 <= c < |s.C|
      ensures Abs(GradRow(s, p.alpha, j)[c] - GradRow(s, A0, j)[c]) <= D
    {
      GradDrift(s, h, K, j, c, k);
    }
    LevelDrifts(GradRow(s, A0, j), GradRow(s, p.alpha, j), p.alpha[j], b, f.minG, f.gap, D, Slack(s, h, K, largest));
  }

  lemma Untouched(s: Setup, h: History<Snapshot, Finding>, K: real, j: nat, k: nat)
    requires ExactPass(s, h) && Valid(s) && Coupled(s, K) && j < |s.x| && k <= |h.marks| < |h.points|
    requires forall n :: 0 <= n < k ==> h.marks[n].i != j
    ensures |h.points[k].alpha| == |h.points[0].alpha| == |s.x| && h.points[k].alpha[j] == h.points[0].alpha[j]
    ensures 0 < |s.C|
  {
    hide ExactPass, Coupled;
    assert 0 <= s.y[j] < |s.C|;
    GradDrift(s, h, K, j, 0, k);
  }

  lemma CoupledNonNeg(s: Setup, K: real)
    requires Valid(s) && Coupled(s, K)
    ensures K >= 0.0
  {
  }

  lemma FoundWithin(h: History<Snapshot, Finding>, largest: real, k: nat)
    requires GapsWithin(h, largest) && k < |h.marks|
    ensures h.marks[k].note.gap <= largest
  {
  }

  lemma FeasibleCaps(s: Setup, j: nat, b: Vec)
    requires Valid(s) && j < |s.x| && FeasibleRow(s, j, b)
    ensures |b| == |s.C| && 0 <= s.y[j] < |s.C| && Sum(b) == 0.0
    ensures forall c :: 0 <= c < |b| ==> b[c] <= Cap(c, s.y[j], s.C[s.y[j]])
  {
    hide LinAlg.Sum, CsSubProblem.Cap;
  }

  lemma SlackCovers(s: Setup, h: History<Snapshot, Finding>, K: real, largest: real, k: nat, gap: real, D: real)
    requires k <= |h.marks| && K >= 0.0 && 0.0 <= GapsTo(h, k) <= GapsTo(h, |h.marks|) && gap <= largest
    requires D == K * (|s.C| as real * GapsTo(h, k))
    ensures D >= 0.0 && gap + D <= Slack(s, h, K, largest)
  {
    hide GapsTo;
    var m, t, u := |s.C| as real, GapsTo(h, k), GapsTo(h, |h.marks|);
    var p := Product(m, t);
    var q := Product(K, m * t);
    var r := Product(m, u - t);
    var v := Product(K, m * (u - t));
    assert m * (u - t) == m * u - m * t;
    assert K * (m * u - m * t) == K * (m * u) - K * (m * t);
  }

  lemma LevelDrifts(g0: Vec, g: Vec, a: Vec, b: Vec, level: real, gap: real, D: real, w: real)
    requires Level(g, a, b, level, gap) && |g0| == |g| && D >= 0.0 && gap + D <= w
    requires forall c :: 0 <= c < |g| ==> Abs(g[c] - g0[c]) <= D
    ensures Level(g0, a, b, level, w)
  {
    forall c | 0 <= c < |a| ensures g0[c] <= level + w && (b[c] > a[c] ==> g0[c] >= level - w) {
      assert Abs(g[c] - g0[c]) <= D;
    }
  }

  /** What can be gained in row j from the start of the pass. */
  lemma StartTilt(s: Setup, h: History<Snapshot, Finding>, K: real, largest: real, j: nat, B: seq<Vec>)
    requires ExactPass(s, h) && Coupled(s, K) && GapsWithin(h, largest) && j < |s.x| && FeasibleAll(s, B)
    requires Fits(s, h.points[0].alpha) && Fits(s, B)
    requires Norm(s, j) == 0.0 ==> Settled(s, h.points[0].alpha, j)
    ensures RowTilt(s, h.points[0].alpha, B, j, |s.C|)
         >= -(Slack(s, h, K, largest) * Distance(h.points[0].alpha[j], B[j], |s.C|))
  {
    hide *;
    PassFacts(s, h);
    var p, A := h.points[0], h.points[0].alpha;
    FitsValid(s, A);
    FitsValid(s, B);
    SoundFeasible(s, p);
    FeasibleAt(s, A, j);
    FeasibleAt(s, B, j);
    FeasibleCaps(s, j, A[j]);
    FeasibleCaps(s, j, B[j]);
    NormNonNeg(s, j);
    if Norm(s, j) == 0.0 {
      ZeroRowIff(s, A, j);
      RowTiltNonNeg(s, A, B, j);
      SlackNonNeg(s, h, K, largest);
      DistanceNonNeg(A[j], B[j], |s.C|);
      var t := Product(Slack(s, h, K, largest), Distance(A[j], B[j], |s.C|));
    } else {
      var k := VisitOf(h, Everything(|s.x|), j);
      StartLevel(s, h, K, largest, j, k, B[j]);
      BalancedTilt(GradRow(s, A, j), A[j], B[j], h.marks[k].note.minG, Slack(s, h, K, largest));
      RowTiltDot(s, A, B, j);
    }
  }

  lemma RowTiltDot(s: Setup, A: seq<Vec>, B: seq<Vec>, j: nat)
    requires Fits(s, A) && Fits(s, B) && j < |A|
    ensures |A[j]| == |B[j]| == |s.C|
    ensures RowTilt(s, A, B, j, |s.C|) == DotTo(Difference(A[j], B[j]), GradRow(s, A, j), |s.C|)
  {
    hide GradRow, Difference;
  }

  lemma FeasibleAt(s: Setup, A: seq<Vec>, j: nat)
    requires FeasibleAll(s, A) && Valid(s) && j < |s.x|
    ensures |A| == |s.x| && FeasibleRow(s, j, A[j])
  {
    hide FeasibleRow;
  }

  lemma SlackNonNeg(s: Setup, h: History<Snapshot, Finding>, K: real, largest: real)
    requires ExactPass(s, h) && Valid(s) && Coupled(s, K) && GapsWithin(h, largest)
    ensures Slack(s, h, K, largest) >= 0.0
  {
    hide ExactPass, Coupled;
    CoupledNonNeg(s, K);
    GapsGrow(s, h, 0, |h.marks|);
    NoGaps(h);
    var p := Product(|s.C| as real, GapsTo(h, |h.marks|));
    var q := Product(K, p);
  }

  lemma {:induction false} TiltAbove(s: Setup, h: History<Snapshot, Finding>, K: real, largest: real, B: seq<Vec>,
                                     k: nat)
    requires ExactPass(s, h) && Valid(s) && Coupled(s, K) && GapsWithin(h, largest) && FeasibleAll(s, B)
    requires Fits(s, h.points[0].alpha) && Fits(s, B) && k <= |s.x| == |h.points[0].alpha| == |B|
    requires forall j :: 0 <= j < |s.x| && Norm(s, j) == 0.0 ==> Settled(s, h.points[0].alpha, j)
    ensures TiltTo(s, h.points[0].alpha, B, k)
         >= -(Slack(s, h, K, largest) * RowsDistance(s, h.points[0].alpha, B, k))
  {
    hide ExactPass, Coupled, GapsWithin, FeasibleAll, Norm, Settled, Slack, RowTilt, Distance;
    PassFacts(s, h);
    if k > 0 {
      TiltAbove(s, h, K, largest, B, k - 1);
      StartTilt(s, h, K, largest, k - 1, B);
      Spread(Slack(s, h, K, largest), RowsDistance(s, h.points[0].alpha, B, k - 1),
             Distance(h.points[0].alpha[k - 1], B[k - 1], |s.C|));
    }
  }

  lemma {:induction false} PassFalls(s: Setup, h: History<Snapshot, Finding>, k: nat)
    requires ExactPass(s, h) && k < |h.points|
    ensures Fits(s, h.points[0].alpha) && Fits(s, h.points[k].alpha)
    ensures Dual(s, h.points[k].alpha) <= Dual(s, h.points[0].alpha)
  {
    hide *;
    PassFacts(s, h);
    ExactAt(s, h, 0);
    ExactFits(s, h.points[0]);
    if k > 0 {
      PassFalls(s, h, k - 1);
      VisitFacts(s, h, k - 1);
      VisitDescends(s, h.points[k - 1], h.points[k], h.marks[k - 1]);
    }
  }

  /**
   After a pass over everything with an exact w and every all-zero row settled, no
   feasible alphas are better than those at its end by more than (the largest gap + K
   |C| times the sum of the gaps) times their distance from the start of the pass.
   */
  lemma PassGap(s: Setup, h: History<Snapshot, Finding>, K: real, largest: real, B: seq<Vec>)
    requires ExactPass(s, h) && Valid(s) && Coupled(s, K) && GapsWithin(h, largest) && FeasibleAll(s, B)
    requires Fits(s, h.points[0].alpha)
    requires forall j :: 0 <= j < |s.x| && Norm(s, j) == 0.0 ==> Settled(s, h.points[0].alpha, j)
    ensures |h.points| == |h.marks| + 1 && Fits(s, B) && Fits(s, h.points[|h.marks|].alpha)
    ensures |h.points[0].alpha| == |s.x|
    ensures Dual(s, B) >= Dual(s, h.points[|h.marks|].alpha)
        - (largest + K * (|s.C| as real * GapsTo(h, |h.marks|))) * RowsDistance(s, h.points[0].alpha, B, |s.x|)
  {
    hide ExactPass, Coupled, GapsWithin, FeasibleAll, Norm, Settled, Dual, TiltTo, RowsDistance, GapsTo;
    PassFacts(s, h);
    FeasibleFits(s, B);
    PassFalls(s, h, |h.marks|);
    TiltAbove(s, h, K, largest, B, |s.x|);
    AboveTangent(s, h.points[0].alpha, B);
  }

  // ------------------------------------------------------------------- the exit

  lemma {:induction false} GapsBound(h: History<Snapshot, Finding>, e: real, k: nat)
    requires GapsWithin(h, e) && k <= |h.marks|
    ensures GapsTo(h, k) <= k as real * e
  {
    if k > 0 {
      GapsBound(h, e, k - 1);
      PassDrift.OneMore(k, e);
    }
  }

  /** The last pass of a run that exits is a pass over everything whose gaps are all within eps or 1e-12. */
  lemma ExitPass(s: Setup, passes: seq<History<Snapshot, Finding>>, eps: real, p: nat)
    requires IsCsRun(s, passes, eps) && p < |passes| && CsExits(passes, eps, p) && AllExact(s, passes[p])
    ensures Valid(s) && ExactPass(s, passes[p]) && GapsWithin(passes[p], Max(eps, TINY))
    ensures |passes[p].points| == |passes[p].marks| + 1 && Fits(s, passes[p].points[0].alpha)
  {
    hide Runs, Visits, Resets, AllExact, VisitsOnce, Sound, Bounded, Drifted, Exact;
    var h := passes[p];
    assert IsPass(s, passes, eps, p);
    RunsShape(s, h);
    var M := SomeBound(s);
    RunSound(s, passes, eps, M, p, 0);
    StartsActive(s, passes, eps, p);
    ExactAt(s, h, 0);
    ExactFits(s, h.points[0]);
  }

  /**
   What an early exit with an exact last pass is worth, when there is no all-zero row or
   one class only: no feasible alphas are better than the result by more than
   (1 + K |C| l) max(eps, 1e-12) times their distance from the start of the last pass.
   */
  lemma ExitGap(s: Setup, passes: seq<History<Snapshot, Finding>>, eps: real, p: nat, K: real, B: seq<Vec>)
    requires IsCsRun(s, passes, eps) && p < |passes| && CsExits(passes, eps, p) && AllExact(s, passes[p])
    requires Valid(s) && Coupled(s, K) && FeasibleAll(s, B)
    requires |s.C| == 1 || forall i :: 0 <= i < |s.x| ==> Norm(s, i) > 0.0
    ensures var h := passes[p];
            && |h.points| == |h.marks| + 1 && Fits(s, B) && Fits(s, h.points[0].alpha) && |h.points[0].alpha| == |s.x|
            && Fits(s, h.points[|h.marks|].alpha)
    ensures var h, e := passes[p], Max(eps, TINY);
            Dual(s, B) >= Dual(s, h.points[|h.marks|].alpha)
              - (e + K * (|s.C| as real * (|h.marks| as real * e))) * RowsDistance(s, h.points[0].alpha, B, |s.x|)
  {
    hide *;
    var h, e := passes[p], Max(eps, TINY);
    ExitPass(s, passes, eps, p);
    FeasibleFits(s, B);
    FitsValid(s, B);
    FitsValid(s, h.points[0].alpha);
    forall j | 0 <= j < |s.x| && Norm(s, j) == 0.0 ensures Settled(s, h.points[0].alpha, j) {
      OneClassSettled(s, h.points[0].alpha, j);
    }
    PassGap(s, h, K, e, B);
    GapsBound(h, e, |h.marks|);
    CoupledNonNeg(s, K);
    RowsDistanceNonNeg(s, h.points[0].alpha, B, |s.x|);
    ExitSlack(K, |s.C| as real, GapsTo(h, |h.marks|), |h.marks| as real * e, e);
    LessLost(Dual(s, B), Dual(s, h.points[|h.marks|].alpha), e + K * (|s.C| as real * GapsTo(h, |h.marks|)),
             e + K * (|s.C| as real * (|h.marks| as real * e)), RowsDistance(s, h.points[0].alpha, B, |s.x|));
  }

  lemma OneClassSettled(s: Setup, A: seq<Vec>, j: nat)
    requires Fits(s, A) && j < |A| && |s.C| == 1
    ensures Settled(s, A, j)
  {
  }

  lemma ExitSlack(K: real, m: real, t: real, u: real, e: real)
    requires K >= 0.0 && m >= 0.0 && t <= u
    ensures e + K * (m * t) <= e + K * (m * u)
  {
    var p := Product(m, u - t);
    assert m * (u - t) == m * u - m * t;
    var q := Product(K, m * u - m * t);
    assert K * (m * u - m * t) == K * (m * u) - K * (m * t);
  }

  lemma {:induction false} RowsDistanceNonNeg(s: Setup, A: seq<Vec>, B: seq<Vec>, k: nat)
    requires Fits(s, A) && Fits(s, B) && k <= |A|
    ensures RowsDistance(s, A, B, k) >= 0.0
  {
    if k > 0 {
      RowsDistanceNonNeg(s, A, B, k - 1);
      DistanceNonNeg(A[k - 1], B[k - 1], |s.C|);
    }
  }
}
