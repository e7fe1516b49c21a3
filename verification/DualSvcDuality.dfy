/**
 What the dual problem of solve_l2r_l1l2_svc is for: its value bounds that of
   min  0.5 |w|^2 + sum_i C_i loss(1 - y_i w.x_i) ,
 with C_i = Cp for the positive labels and Cn for the others and the hinge or its
 square as loss, and at a minimiser of the dual problem the w that the solver returns
 is a minimiser of this one.
 */
module DualSvcDuality {
  import opened LinAlg
  import opened Sparse
  import opened ExtReal
  import opened DualSvcObjective
  import opened DualSvc
  import opened DualSvcOptimal

  // ------------------------------------------------------------- the primal problem

  ghost function SignOf(y: real): real {
    if y > 0.0 then 1.0 else -1.0
  }

  /** 1 - y_i w.x_i */
  ghost function Shortfall(p: Problem, w: Vec, i: nat): real
    requires ValidProblem(p) && |w| == p.n && i < |p.x|
  {
    1.0 - SignOf(p.y[i]) * Dot(X(p)[i], w)
  }

  /** The hinge, or its square, times the penalty. */
  ghost function LossOf(c: real, m: real, l1: bool): real {
    if m <= 0.0 then 0.0 else if l1 then c * m else c * (m * m)
  }

  ghost function LossTo(p: Problem, Cp: real, Cn: real, l1: bool, w: Vec, k: nat): real
    requires ValidProblem(p) && |w| == p.n && k <= |p.x|
  {
    if k == 0 then 0.0 else
      LossTo(p, Cp, Cn, l1, w, k - 1)
        + LossOf(if p.y[k - 1] > 0.0 then Cp else Cn, Shortfall(p, w, k - 1), l1)
  }

  ghost function PrimalValue(p: Problem, Cp: real, Cn: real, l1: bool, w: Vec): real
    requires ValidProblem(p) && |w| == p.n
  {
    0.5 * Dot(w, w) + LossTo(p, Cp, Cn, l1, w, |p.x|)
  }

  // --------------------------------------------------------------- one instance

  /** What instance i adds to the gap between the two values. */
  ghost function TermOf(c: real, l1: bool, D: real, a: real, m: real): real {
    LossOf(c, m, l1) - a * m + 0.5 * (D * (a * a))
  }

  /** The settings of the code for penalty c. */
  ghost predicate Settings(c: real, l1: bool, D: real, u: Ext) {
    if l1 then D == 0.0 && u == Fin(c) else D * c == 0.5 && u == PosInf
  }

  lemma SettingsOf(p: Problem, Cp: real, Cn: real, l1: bool, i: nat)
    requires ValidProblem(p) && Cp > 0.0 && Cn > 0.0 && i < |p.x|
    ensures var s := SetupOf(p, Cp, Cn, l1);
            && s.p == p && |s.y| == |s.diag| == |s.upper| == |p.x|
            && s.y[i] == SignOf(p.y[i]) && Settings(if p.y[i] > 0.0 then Cp else Cn, l1, s.diag[i], s.upper[i])
  {
    var c := if p.y[i] > 0.0 then Cp else Cn;
    assert 0.5 / c * c == 0.5;
  }

  /** No instance makes the gap negative. */
  lemma TermNonNeg(c: real, l1: bool, D: real, u: Ext, a: real, m: real)
    requires c > 0.0 && Settings(c, l1, D, u) && InBox(a, u)
    ensures TermOf(c, l1, D, a, m) >= 0.0
  {
    if m <= 0.0 {
      var p := Product(a, -m);
      assert a * -m == -(a * m);
      var q := Square(a);
      if l1 { ZeroTimes(q); } else { Positive(c, D); var r := Product(D, q); }
    } else if l1 {
      LinearTerm(c, a, m);
      ZeroTimes(a * a);
    } else {
      SquareTerm(c, D, a, m);
      var q := Square(m - D * a);
      var r := Product(c, q);
    }
  }

  lemma ZeroTimes(q: real)
    ensures 0.5 * (0.0 * q) == 0.0
  {
  }

  lemma Positive(c: real, D: real)
    requires c > 0.0 && D * c == 0.5
    ensures D > 0.0
  {
    if D <= 0.0 { var p := Product(-D, c); }
  }

  lemma LinearTerm(c: real, a: real, m: real)
    requires a <= c && m > 0.0
    ensures c * m - a * m == (c - a) * m >= 0.0
    ensures c * m - a * m == 0.0 <==> a == c
  {
    var p := Product(c - a, m);
  }

  lemma SquareTerm(c: real, D: real, a: real, m: real)
    requires D * c == 0.5
    ensures c * (m * m) - a * m + 0.5 * (D * (a * a)) == c * ((m - D * a) * (m - D * a))
  {
    var d := D * a;
    assert c * d == 0.5 * a by { assert c * (D * a) == (D * c) * a; }
    assert c * ((m - d) * (m - d)) == c * (m * m) - 2.0 * ((c * d) * m) + (c * d) * d;
    assert (c * d) * m == 0.5 * (a * m);
    assert (c * d) * d == 0.5 * (a * d) && a * d == D * (a * a);
  }

  /** PG as a function of the gradient. */
  ghost function ProjectedOf(a: real, G: real, u: Ext): real {
    if a == 0.0 then Min(G, 0.0) else if Fin(a) == u then Max(G, 0.0) else G
  }

  /** It makes it zero exactly when its projected gradient is. */
  lemma TermZeroIff(c: real, l1: bool, D: real, u: Ext, a: real, m: real, G: real)
    requires c > 0.0 && Settings(c, l1, D, u) && InBox(a, u) && G == a * D - m
    ensures TermOf(c, l1, D, a, m) == 0.0 <==> ProjectedOf(a, G, u) == 0.0
  {
    if l1 { LinearZeroIff(c, D, a, m, G); } else { SquareZeroIff(c, D, a, m, G); }
  }

  lemma LinearZeroIff(c: real, D: real, a: real, m: real, G: real)
    requires c > 0.0 && D == 0.0 && 0.0 <= a <= c && G == a * D - m
    ensures TermOf(c, true, D, a, m) == 0.0 <==> ProjectedOf(a, G, Fin(c)) == 0.0
  {
    ZeroTimes(a * a);
    assert G == -m;
    if m <= 0.0 {
      var p := Product(a, -m);
      assert a * -m == -(a * m);
    } else {
      LinearTerm(c, a, m);
    }
  }

  lemma SquareZeroIff(c: real, D: real, a: real, m: real, G: real)
    requires c > 0.0 && D * c == 0.5 && a >= 0.0 && G == a * D - m
    ensures TermOf(c, false, D, a, m) == 0.0 <==> ProjectedOf(a, G, PosInf) == 0.0
  {
    Positive(c, D);
    var aD := Product(a, D);
    if m <= 0.0 {
      var p := Product(a, -m);
      assert a * -m == -(a * m);
      var q := Square(a);
      var r := Product(D, q);
    } else {
      SquareTerm(c, D, a, m);
      assert D * a == a * D;
      SquareIsZero(c, m - D * a);
    }
  }

  lemma SquareIsZero(c: real, e: real)
    requires c > 0.0
    ensures c * (e * e) == 0.0 <==> e == 0.0
  {
    if e > 0.0 { var q := Product(e, e); var r := Product(c, q); }
    if e < 0.0 { var q := Product(-e, -e); var r := Product(c, q); assert -e * -e == e * e; }
  }

  // ------------------------------------------------------------------- the gap

  /** sum_{i<k} of what the instances add */
  ghost function TermsTo(s: Setup, p: Problem, Cp: real, Cn: real, l1: bool, a: Vec, w: Vec, k: nat): real
    requires ValidProblem(p) && |w| == p.n && k <= |p.x| && |a| == |s.diag| == |p.x|
  {
    if k == 0 then 0.0 else
      TermsTo(s, p, Cp, Cn, l1, a, w, k - 1)
        + TermOf(if p.y[k - 1] > 0.0 then Cp else Cn, l1, s.diag[k - 1], a[k - 1], Shortfall(p, w, k - 1))
  }

  lemma {:induction false} TermsAre(s: Setup, p: Problem, Cp: real, Cn: real, l1: bool, a: Vec, w: Vec, c: Vec,
                                    V: seq<Vec>, k: nat)
    requires ValidProblem(p) && Cp > 0.0 && Cn > 0.0 && s == SetupOf(p, Cp, Cn, l1) && |a| == |s.y| == |p.x|
    requires |w| == p.n && k <= |p.x| && |s.diag| == |p.x| && V == X(p) && c == Signed(s, a)
    ensures TermsTo(s, p, Cp, Cn, l1, a, w, k)
         == LossTo(p, Cp, Cn, l1, w, k) + SeparableTo(s, a, k) + RowSum(c, V, p.n, w, k)
  {
    hide LinAlg.Dot, Sparse.X, SetupOf, LossOf, DualSvcObjective.Separable, Signed, TermOf, Shortfall, LinAlg.RowSum;
    hide TermsTo, LossTo, SeparableTo;
    if k == 0 {
      NoTerms(s, p, Cp, Cn, l1, a, w, c, V);
    } else {
      TermsAre(s, p, Cp, Cn, l1, a, w, c, V, k - 1);
      TermIs(s, p, Cp, Cn, l1, a, w, c, k - 1);
      TermSteps(s, p, Cp, Cn, l1, a, w, c, V, k - 1);
    }
  }

  lemma NoTerms(s: Setup, p: Problem, Cp: real, Cn: real, l1: bool, a: Vec, w: Vec, c: Vec, V: seq<Vec>)
    requires ValidProblem(p) && |w| == p.n && |a| == |s.diag| == |c| == |p.x| && V == X(p)
    ensures TermsTo(s, p, Cp, Cn, l1, a, w, 0) == 0.0 && LossTo(p, Cp, Cn, l1, w, 0) == 0.0
    ensures SeparableTo(s, a, 0) == 0.0 && RowSum(c, V, p.n, w, 0) == 0.0
  {
  }

  lemma TermSteps(s: Setup, p: Problem, Cp: real, Cn: real, l1: bool, a: Vec, w: Vec, c: Vec, V: seq<Vec>, k: nat)
    requires ValidProblem(p) && |w| == p.n && |a| == |s.diag| == |c| == |p.x| && V == X(p) && k < |p.x|
    ensures var C, m := if p.y[k] > 0.0 then Cp else Cn, Shortfall(p, w, k);
            && TermsTo(s, p, Cp, Cn, l1, a, w, k + 1)
                 == TermsTo(s, p, Cp, Cn, l1, a, w, k) + TermOf(C, l1, s.diag[k], a[k], m)
            && LossTo(p, Cp, Cn, l1, w, k + 1) == LossTo(p, Cp, Cn, l1, w, k) + LossOf(C, m, l1)
            && SeparableTo(s, a, k + 1) == SeparableTo(s, a, k) + Separable(s.diag[k], a[k])
            && RowSum(c, V, p.n, w, k + 1) == RowSum(c, V, p.n, w, k) + c[k] * Dot(V[k], w)
  {
    hide LinAlg.Dot, Sparse.X, LossOf, DualSvcObjective.Separable, TermOf, Shortfall;
  }

  lemma TermIs(s: Setup, p: Problem, Cp: real, Cn: real, l1: bool, a: Vec, w: Vec, c: Vec, i: nat)
    requires ValidProblem(p) && Cp > 0.0 && Cn > 0.0 && s == SetupOf(p, Cp, Cn, l1) && |a| == |s.y| == |p.x|
    requires |w| == p.n && i < |p.x| && |s.diag| == |p.x| && c == Signed(s, a)
    ensures var C := if p.y[i] > 0.0 then Cp else Cn;
            TermOf(C, l1, s.diag[i], a[i], Shortfall(p, w, i))
              == LossOf(C, Shortfall(p, w, i), l1) + Separable(s.diag[i], a[i]) + c[i] * Dot(X(p)[i], w)
  {
    hide LinAlg.Dot, Sparse.X, SetupOf, LossOf;
    SettingsOf(p, Cp, Cn, l1, i);
    TermScalar(a[i], SignOf(p.y[i]), Dot(X(p)[i], w), s.diag[i], c[i], Shortfall(p, w, i));
  }

  lemma TermScalar(a: real, y: real, q: real, D: real, c: real, m: real)
    requires m == 1.0 - y * q && c == y * a
    ensures -(a * m) + 0.5 * (D * (a * a)) == Separable(D, a) + c * q
  {
    assert a * m == a - (y * a) * q;
  }

  /** The two values differ by 0.5 |w - w(a)|^2 and what the instances add. */
  lemma GapIs(s: Setup, p: Problem, Cp: real, Cn: real, l1: bool, a: Vec, w: Vec)
    requires ValidProblem(p) && Cp > 0.0 && Cn > 0.0 && s == SetupOf(p, Cp, Cn, l1) && |a| == |s.y| == |p.x|
    requires |w| == p.n && |s.diag| == |p.x| && s.p == p
    ensures var d := Axpy(w, -1.0, Primal(s, a));
            PrimalValue(p, Cp, Cn, l1, w) + Objective(s, a)
              == 0.5 * Dot(d, d) + TermsTo(s, p, Cp, Cn, l1, a, w, |p.x|)
  {
    hide LinAlg.Dot, Sparse.X, SetupOf, LossTo, SeparableTo, TermsTo, LinAlg.RowSum, LinAlg.Comb, LinAlg.Axpy;
    var u, c := Primal(s, a), Signed(s, a);
    TermsAre(s, p, Cp, Cn, l1, a, w, c, X(p), |p.x|);
    RowSumIsDot(c, X(p), p.n, w, |p.x|);
    SquareAxpy(w, -1.0, u);
    DotSym(w, u);
  }

  lemma {:induction false} TermsNonNeg(s: Setup, p: Problem, Cp: real, Cn: real, l1: bool, a: Vec, w: Vec, j: nat,
                                       k: nat)
    requires ValidProblem(p) && Cp > 0.0 && Cn > 0.0 && s == SetupOf(p, Cp, Cn, l1) && Feasible(s, a) && s.p == p
    requires |w| == p.n && j <= k <= |p.x| == |a| == |s.diag|
    ensures TermsTo(s, p, Cp, Cn, l1, a, w, j) <= TermsTo(s, p, Cp, Cn, l1, a, w, k)
  {
    hide SetupOf, TermOf, Shortfall, DualSvcObjective.InBox, Settings;
    if j < k {
      TermsNonNeg(s, p, Cp, Cn, l1, a, w, j, k - 1);
      SettingsOf(p, Cp, Cn, l1, k - 1);
      TermNonNeg(if p.y[k - 1] > 0.0 then Cp else Cn, l1, s.diag[k - 1], s.upper[k - 1], a[k - 1],
                 Shortfall(p, w, k - 1));
    }
  }

  /** Weak duality: minus the dual objective never exceeds the primal one. */
  lemma WeakDuality(s: Setup, p: Problem, Cp: real, Cn: real, l1: bool, a: Vec, w: Vec)
    requires ValidProblem(p) && Cp > 0.0 && Cn > 0.0 && s == SetupOf(p, Cp, Cn, l1) && Feasible(s, a) && |w| == p.n
    ensures -Objective(s, a) <= PrimalValue(p, Cp, Cn, l1, w)
  {
    hide Objective, PrimalValue, LinAlg.Dot, TermOf, Shortfall, LinAlg.Axpy, Primal;
    GapIs(s, p, Cp, Cn, l1, a, w);
    TermsNonNeg(s, p, Cp, Cn, l1, a, w, 0, |p.x|);
    SquareNonNeg(Axpy(w, -1.0, Primal(s, a)));
  }

  // ---------------------------------------------------------- no gap at a minimum

  lemma {:induction false} AllTermsZero(s: Setup, p: Problem, Cp: real, Cn: real, l1: bool, a: Vec, w: Vec, k: nat)
    requires ValidProblem(p) && |w| == p.n && k <= |p.x| && |a| == |s.diag| == |p.x|
    requires forall i :: 0 <= i < |p.x| ==>
               TermOf(if p.y[i] > 0.0 then Cp else Cn, l1, s.diag[i], a[i], Shortfall(p, w, i)) == 0.0
    ensures TermsTo(s, p, Cp, Cn, l1, a, w, k) == 0.0
  {
    hide TermOf, Shortfall;
    if k > 0 { AllTermsZero(s, p, Cp, Cn, l1, a, w, k - 1); }
  }

  lemma TermProjected(s: Setup, p: Problem, Cp: real, Cn: real, l1: bool, a: Vec, w: Vec, i: nat)
    requires ValidProblem(p) && Cp > 0.0 && Cn > 0.0 && s == SetupOf(p, Cp, Cn, l1) && Feasible(s, a) && s.p == p
    requires w == Primal(s, a) && i < |p.x| == |a| == |s.diag|
    ensures TermOf(if p.y[i] > 0.0 then Cp else Cn, l1, s.diag[i], a[i], Shortfall(p, w, i)) == 0.0 <==>
            Projected(s, a, i) == 0.0
  {
    hide SetupOf, LinAlg.Dot, Sparse.X, Primal, TermOf, DualSvcObjective.InBox, Settings;
    SettingsOf(p, Cp, Cn, l1, i);
    var q, m, G := Dot(X(p)[i], w), Shortfall(p, w, i), Partial(s, a, i);
    assert G == a[i] * s.diag[i] - m by { assert q * s.y[i] == SignOf(p.y[i]) * q; }
    TermZeroIff(if p.y[i] > 0.0 then Cp else Cn, l1, s.diag[i], s.upper[i], a[i], m, G);
  }

  /** The returned w has the value of minus the dual objective if and only if the alphas minimise the dual problem. */
  lemma StrongDuality(s: Setup, p: Problem, Cp: real, Cn: real, l1: bool, a: Vec)
    requires ValidProblem(p) && Cp > 0.0 && Cn > 0.0 && s == SetupOf(p, Cp, Cn, l1) && Feasible(s, a)
    ensures |Primal(s, a)| == p.n
    ensures PrimalValue(p, Cp, Cn, l1, Primal(s, a)) == -Objective(s, a) <==>
            forall b :: Feasible(s, b) ==> Objective(s, b) >= Objective(s, a)
  {
    hide Objective, PrimalValue, TermOf, Shortfall, Projected, LinAlg.Axpy, Primal, LinAlg.Dot, SetupOf;
    var w, l := Primal(s, a), |p.x|;
    OptimalIff(s, a);
    SameVector(w);
    GapIs(s, p, Cp, Cn, l1, a, w);
    if forall i :: 0 <= i < |a| ==> Projected(s, a, i) == 0.0 {
      forall i | 0 <= i < l
        ensures TermOf(if p.y[i] > 0.0 then Cp else Cn, l1, s.diag[i], a[i], Shortfall(p, w, i)) == 0.0
      {
        TermProjected(s, p, Cp, Cn, l1, a, w, i);
      }
      AllTermsZero(s, p, Cp, Cn, l1, a, w, l);
    } else if TermsTo(s, p, Cp, Cn, l1, a, w, l) == 0.0 {
      forall i | 0 <= i < |a| ensures Projected(s, a, i) == 0.0 {
        TermsNonNeg(s, p, Cp, Cn, l1, a, w, 0, i);
        TermsNonNeg(s, p, Cp, Cn, l1, a, w, i, i + 1);
        TermsNonNeg(s, p, Cp, Cn, l1, a, w, i + 1, l);
        TermProjected(s, p, Cp, Cn, l1, a, w, i);
      }
    }
  }

  lemma SameVector(w: Vec)
    ensures Dot(Axpy(w, -1.0, w), Axpy(w, -1.0, w)) == 0.0
  {
    assert Axpy(w, -1.0, w) == Zeros(|w|);
    DotZero(Zeros(|w|));
  }

  /** So the w of a dual minimiser minimises the problem the solver is for. */
  lemma ReturnedIsOptimal(s: Setup, p: Problem, Cp: real, Cn: real, l1: bool, a: Vec, v: Vec)
    requires ValidProblem(p) && Cp > 0.0 && Cn > 0.0 && s == SetupOf(p, Cp, Cn, l1) && Feasible(s, a) && |v| == p.n
    requires forall b :: Feasible(s, b) ==> Objective(s, b) >= Objective(s, a)
    ensures |Primal(s, a)| == p.n && PrimalValue(p, Cp, Cn, l1, Primal(s, a)) <= PrimalValue(p, Cp, Cn, l1, v)
  {
    hide Objective, PrimalValue, Primal;
    StrongDuality(s, p, Cp, Cn, l1, a);
    WeakDuality(s, p, Cp, Cn, l1, a, v);
  }
}
