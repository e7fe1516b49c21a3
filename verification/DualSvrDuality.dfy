/**
 What the dual problem of solve_l2r_l1l2_svr is for: its value bounds that of
   min  0.5 |w|^2 + C sum_i loss(y_i - w.x_i) ,
 where the loss is the part of the error beyond p, or its square; and at a minimiser
 of the dual problem the w that the solver returns is a minimiser of this one.
 */
module DualSvrDuality {
  import opened LinAlg
  import opened Sparse
  import opened ExtReal
  import opened KinkedParabola
  import opened DualSvrObjective
  import opened DualSvr
  import opened DualSvrOptimal

  // ------------------------------------------------------------- the primal problem

  /** y_i - w.x_i */
  ghost function Miss(prob: Problem, w: Vec, i: nat): real
    requires ValidProblem(prob) && |w| == prob.n && i < |prob.x|
  {
    prob.y[i] - Dot(X(prob)[i], w)
  }

  /** C times the part of the error beyond p, or its square. */
  ghost function LossOf(C: real, p: real, l1: bool, r: real): real {
    var e := Abs(r) - p;
    if e <= 0.0 then 0.0 else if l1 then C * e else C * (e * e)
  }

  ghost function LossTo(prob: Problem, C: real, p: real, l1: bool, w: Vec, k: nat): real
    requires ValidProblem(prob) && |w| == prob.n && k <= |prob.x|
  {
    if k == 0 then 0.0 else LossTo(prob, C, p, l1, w, k - 1) + LossOf(C, p, l1, Miss(prob, w, k - 1))
  }

  ghost function PrimalValue(prob: Problem, C: real, p: real, l1: bool, w: Vec): real
    requires ValidProblem(prob) && |w| == prob.n
  {
    0.5 * Dot(w, w) + LossTo(prob, C, p, l1, w, |prob.x|)
  }

  // --------------------------------------------------------------- one instance

  /** What an instance adds to the gap between the two values. */
  ghost function TermOf(C: real, p: real, l1: bool, lambda: real, b: real, r: real): real {
    LossOf(C, p, l1, r) - b * r + p * Abs(b) + 0.5 * (lambda * (b * b))
  }

  /** The settings of the code for penalty C. */
  ghost predicate Settings(C: real, l1: bool, lambda: real, u: Ext) {
    if l1 then lambda == 0.0 && u == Fin(C) else lambda * C == 0.5 && u == PosInf
  }

  lemma SettingsOf(prob: Problem, C: real, p: real, l1: bool)
    requires ValidProblem(prob) && C > 0.0 && p >= 0.0
    ensures var s := SetupOf(prob, C, p, l1); s.prob == prob && s.p == p && Settings(C, l1, s.lambda, s.upper)
  {
    assert 0.5 / C * C == 0.5;
  }

  /** Both signs of b behave alike. */
  lemma Mirror(C: real, p: real, l1: bool, lambda: real, u: Ext, b: real, r: real, G: real)
    ensures TermOf(C, p, l1, lambda, -b, -r) == TermOf(C, p, l1, lambda, b, r)
    ensures InBox(-b, u) <==> InBox(b, u)
    ensures b != 0.0 && InBox(b, u) && (u.PosInf? || (u.Fin? && u.r > 0.0)) ==>
              (Flat(-G, p, -b, u) <==> Flat(G, p, b, u))
  {
    assert Abs(-b) == Abs(b) && Abs(-r) == Abs(r);
    assert -b * -r == b * r && -b * -b == b * b;
  }

  lemma Positive(C: real, lambda: real)
    requires C > 0.0 && lambda * C == 0.5
    ensures lambda > 0.0
  {
    if lambda <= 0.0 { var p := Product(-lambda, C); }
  }

  /** For b >= 0 the term, by how far r lies beyond p. */
  lemma RightTerm(C: real, p: real, l1: bool, lambda: real, b: real, r: real)
    requires b >= 0.0
    ensures TermOf(C, p, l1, lambda, b, r) == LossOf(C, p, l1, r) - b * (r - p) + 0.5 * (lambda * (b * b))
  {
    assert p * b == b * p;
    assert b * (r - p) == b * r - b * p;
  }

  lemma LossNonNeg(C: real, p: real, l1: bool, r: real)
    requires C > 0.0
    ensures LossOf(C, p, l1, r) >= 0.0
  {
    var e := Abs(r) - p;
    if e > 0.0 {
      var q := Product(e, e);
      var s := Product(C, q);
      var t := Product(C, e);
    }
  }

  /** With b > 0 the term is not negative, and zero exactly when b is optimal for the slope lambda b - r. */
  lemma RightZeroIff(C: real, p: real, l1: bool, lambda: real, u: Ext, b: real, r: real, G: real)
    requires C > 0.0 && p >= 0.0 && Settings(C, l1, lambda, u) && InBox(b, u) && b > 0.0 && G == lambda * b - r
    ensures TermOf(C, p, l1, lambda, b, r) >= 0.0
    ensures TermOf(C, p, l1, lambda, b, r) == 0.0 <==> Flat(G, p, b, u)
  {
    hide TermOf, LossOf, Flat;
    RightTerm(C, p, l1, lambda, b, r);
    if r <= p {
      ShortCase(C, p, l1, lambda, u, b, r, G);
    } else {
      LongLoss(C, p, l1, r);
      RightFlat(p, b, u, G);
      if l1 { LinearRight(C, b, r - p, lambda); } else { SquareRight(C, lambda, b, r - p); }
    }
  }

  lemma LongLoss(C: real, p: real, l1: bool, r: real)
    requires r > p >= 0.0
    ensures LossOf(C, p, l1, r) == if l1 then C * (r - p) else C * ((r - p) * (r - p))
  {
  }

  lemma RightFlat(p: real, b: real, u: Ext, G: real)
    requires b > 0.0 && InBox(b, u)
    ensures Flat(G, p, b, u) <==> if u == Fin(b) then G + p <= 0.0 else G + p == 0.0
  {
  }

  lemma ShortCase(C: real, p: real, l1: bool, lambda: real, u: Ext, b: real, r: real, G: real)
    requires C > 0.0 && p >= 0.0 && Settings(C, l1, lambda, u) && InBox(b, u) && b > 0.0 && G == lambda * b - r
    requires r <= p
    ensures LossOf(C, p, l1, r) - b * (r - p) + 0.5 * (lambda * (b * b)) >= 0.0
    ensures LossOf(C, p, l1, r) - b * (r - p) + 0.5 * (lambda * (b * b)) == 0.0 <==> Flat(G, p, b, u)
  {
    hide Flat, LossOf;
    RightFlat(p, b, u, G);
    LossNonNeg(C, p, l1, r);
    ShortRight(lambda, b, p - r, l1, C);
    assert b * (p - r) == -(b * (r - p));
    if l1 {
      ZeroLambda(lambda, b);
      if r == p { EdgeLoss(C, p, l1, b, r); } else { assert b * (r - p) < 0.0; }
    } else {
      assert lambda * (b * b) > 0.0 && G + p > 0.0;
    }
  }

  lemma EdgeLoss(C: real, p: real, l1: bool, b: real, r: real)
    requires r == p >= 0.0
    ensures LossOf(C, p, l1, r) == 0.0 && b * (r - p) == 0.0
  {
  }

  lemma ZeroLambda(lambda: real, b: real)
    requires lambda == 0.0
    ensures lambda * b == 0.0 && lambda * (b * b) == 0.0
  {
  }

  lemma ShortRight(lambda: real, b: real, e: real, l1: bool, C: real)
    requires b > 0.0 && e >= 0.0 && C > 0.0 && (if l1 then lambda == 0.0 else lambda * C == 0.5)
    ensures b * e >= 0.0 && lambda * (b * b) >= 0.0 && lambda * b >= 0.0
    ensures e > 0.0 ==> b * e > 0.0
    ensures !l1 ==> lambda * (b * b) > 0.0 && lambda * b > 0.0
  {
    var p := Product(b, e);
    var q := Product(b, b);
    if !l1 {
      Positive(C, lambda);
      var r := Product(lambda, q);
      var t := Product(lambda, b);
    }
  }

  lemma LinearRight(C: real, b: real, e: real, lambda: real)
    requires 0.0 < b <= C && e > 0.0 && lambda == 0.0
    ensures C * e - b * e + 0.5 * (lambda * (b * b)) >= 0.0 && lambda * b == 0.0
    ensures C * e - b * e + 0.5 * (lambda * (b * b)) == 0.0 <==> b == C
  {
    var p := Product(C - b, e);
    assert (C - b) * e == C * e - b * e;
  }

  lemma SquareRight(C: real, lambda: real, b: real, e: real)
    requires C > 0.0 && lambda * C == 0.5
    ensures C * (e * e) - b * e + 0.5 * (lambda * (b * b)) >= 0.0
    ensures C * (e * e) - b * e + 0.5 * (lambda * (b * b)) == 0.0 <==> e == lambda * b
  {
    var d := lambda * b;
    assert C * d == 0.5 * b by { assert C * (lambda * b) == (lambda * C) * b; }
    var f := e - d;
    assert C * (f * f) == C * (e * e) - 2.0 * ((C * d) * e) + (C * d) * d;
    assert (C * d) * e == 0.5 * (b * e);
    assert (C * d) * d == 0.5 * (b * d) && b * d == lambda * (b * b);
    var q := Square(f);
    var s := Product(C, q);
    if f > 0.0 { var t := Product(f, f); }
    if f < 0.0 { var t := Product(-f, -f); assert -f * -f == f * f; }
  }

  /** At b = 0 it is the loss alone. */
  lemma ZeroTerm(C: real, p: real, l1: bool, lambda: real, r: real)
    requires C > 0.0 && p >= 0.0
    ensures TermOf(C, p, l1, lambda, 0.0, r) == LossOf(C, p, l1, r) >= 0.0
    ensures LossOf(C, p, l1, r) == 0.0 <==> -p <= r <= p
  {
    LossNonNeg(C, p, l1, r);
    var e := Abs(r) - p;
    if e > 0.0 {
      var q := Product(e, e);
      var s := Product(C, q);
      var t := Product(C, e);
    }
  }

  /** No instance makes the gap negative; it adds nothing exactly when its variable is optimal. */
  lemma TermZeroIff(C: real, p: real, l1: bool, lambda: real, u: Ext, b: real, r: real, G: real)
    requires C > 0.0 && p >= 0.0 && Settings(C, l1, lambda, u) && InBox(b, u) && G == lambda * b - r
    ensures TermOf(C, p, l1, lambda, b, r) >= 0.0
    ensures TermOf(C, p, l1, lambda, b, r) == 0.0 <==> Flat(G, p, b, u)
  {
    hide TermOf, LossOf;
    if b > 0.0 {
      RightZeroIff(C, p, l1, lambda, u, b, r, G);
    } else if b < 0.0 {
      Mirror(C, p, l1, lambda, u, b, r, G);
      assert lambda * -b == -(lambda * b);
      RightZeroIff(C, p, l1, lambda, u, -b, -r, -G);
    } else {
      ZeroTerm(C, p, l1, lambda, r);
    }
  }

  // ------------------------------------------------------------------- the gap

  ghost function TermsTo(prob: Problem, C: real, p: real, l1: bool, lambda: real, b: Vec, w: Vec, k: nat): real
    requires ValidProblem(prob) && |w| == prob.n && k <= |prob.x| == |b|
  {
    if k == 0 then 0.0 else
      TermsTo(prob, C, p, l1, lambda, b, w, k - 1) + TermOf(C, p, l1, lambda, b[k - 1], Miss(prob, w, k - 1))
  }

  lemma {:induction false} TermsAre(s: Setup, C: real, l1: bool, b: Vec, w: Vec, V: seq<Vec>, k: nat)
    requires Valid(s) && |b| == |s.prob.x| && |w| == s.prob.n && k <= |b| && V == X(s.prob)
    ensures TermsTo(s.prob, C, s.p, l1, s.lambda, b, w, k)
         == LossTo(s.prob, C, s.p, l1, w, k) + SeparableTo(s, b, k) + RowSum(b, V, s.prob.n, w, k)
  {
    hide LinAlg.Dot, Sparse.X, LossOf, DualSvrObjective.Separable, TermOf;
    if k > 0 {
      TermsAre(s, C, l1, b, w, V, k - 1);
      TermIs(s, C, l1, b[k - 1], s.prob.y[k - 1], Dot(V[k - 1], w), Miss(s.prob, w, k - 1));
    }
  }

  lemma TermIs(s: Setup, C: real, l1: bool, b: real, y: real, q: real, r: real)
    requires r == y - q
    ensures TermOf(C, s.p, l1, s.lambda, b, r) == LossOf(C, s.p, l1, r) + Separable(s, y, b) + b * q
  {
    hide LossOf, LinAlg.Abs;
    assert b * r == b * y - b * q;
  }

  /** The two values differ by 0.5 |w - w(b)|^2 and what the instances add. */
  lemma GapIs(s: Setup, C: real, l1: bool, b: Vec, w: Vec)
    requires Valid(s) && |b| == |s.prob.x| && |w| == s.prob.n
    ensures var d := Axpy(w, -1.0, Primal(s, b));
            PrimalValue(s.prob, C, s.p, l1, w) + Objective(s, b)
              == 0.5 * Dot(d, d) + TermsTo(s.prob, C, s.p, l1, s.lambda, b, w, |b|)
  {
    hide LinAlg.Dot, Sparse.X, LossTo, SeparableTo, TermsTo, LinAlg.RowSum, LinAlg.Comb, LinAlg.Axpy;
    TermsAre(s, C, l1, b, w, X(s.prob), |b|);
    RowSumIsDot(b, X(s.prob), s.prob.n, w, |b|);
    SquareAxpy(w, -1.0, Primal(s, b));
    DotSym(w, Primal(s, b));
  }

  lemma {:induction false} TermsNonNeg(s: Setup, C: real, l1: bool, b: Vec, w: Vec, j: nat, k: nat)
    requires Feasible(s, b) && C > 0.0 && Settings(C, l1, s.lambda, s.upper) && |w| == s.prob.n && j <= k <= |b|
    ensures TermsTo(s.prob, C, s.p, l1, s.lambda, b, w, j) <= TermsTo(s.prob, C, s.p, l1, s.lambda, b, w, k)
  {
    hide TermOf, Miss, KinkedParabola.InBox, Settings, Flat;
    if j < k {
      TermsNonNeg(s, C, l1, b, w, j, k - 1);
      var r := Miss(s.prob, w, k - 1);
      TermZeroIff(C, s.p, l1, s.lambda, s.upper, b[k - 1], r, s.lambda * b[k - 1] - r);
    }
  }

  /** Weak duality: minus the dual objective never exceeds the primal one. */
  lemma WeakDuality(s: Setup, prob: Problem, C: real, p: real, l1: bool, b: Vec, w: Vec)
    requires ValidProblem(prob) && C > 0.0 && p >= 0.0 && s == SetupOf(prob, C, p, l1) && Feasible(s, b)
    requires |w| == prob.n
    ensures -Objective(s, b) <= PrimalValue(prob, C, p, l1, w)
  {
    hide Objective, PrimalValue, LinAlg.Dot, TermOf, Miss, LinAlg.Axpy, Primal, Settings, SetupOf;
    SettingsOf(prob, C, p, l1);
    GapIs(s, C, l1, b, w);
    TermsNonNeg(s, C, l1, b, w, 0, |b|);
    SquareNonNeg(Axpy(w, -1.0, Primal(s, b)));
  }

  // ---------------------------------------------------------- no gap at a minimum

  lemma {:induction false} AllTermsZero(s: Setup, C: real, l1: bool, b: Vec, w: Vec, k: nat)
    requires Valid(s) && |b| == |s.prob.x| && |w| == s.prob.n && k <= |b|
    requires forall i :: 0 <= i < |b| ==> TermOf(C, s.p, l1, s.lambda, b[i], Miss(s.prob, w, i)) == 0.0
    ensures TermsTo(s.prob, C, s.p, l1, s.lambda, b, w, k) == 0.0
  {
    hide TermOf, Miss;
    if k > 0 { AllTermsZero(s, C, l1, b, w, k - 1); }
  }

  lemma TermViolation(s: Setup, C: real, l1: bool, b: Vec, w: Vec, i: nat)
    requires Feasible(s, b) && C > 0.0 && Settings(C, l1, s.lambda, s.upper) && w == Primal(s, b) && i < |b|
    ensures TermOf(C, s.p, l1, s.lambda, b[i], Miss(s.prob, w, i)) == 0.0 <==> Violation(s, b, i) == 0.0
  {
    hide LinAlg.Dot, Sparse.X, Primal, TermOf, KinkedParabola.InBox, Settings;
    var G, r := Partial(s, b, i), Miss(s.prob, w, i);
    assert G == s.lambda * b[i] - r;
    TermZeroIff(C, s.p, l1, s.lambda, s.upper, b[i], r, G);
    hide Partial, Miss;
    assert Violation(s, b, i) == 0.0 <==> Flat(G, s.p, b[i], s.upper);
  }

  /** The returned w has the value of minus the dual objective if and only if the betas minimise the dual problem. */
  lemma StrongDuality(s: Setup, prob: Problem, C: real, p: real, l1: bool, b: Vec)
    requires ValidProblem(prob) && C > 0.0 && p >= 0.0 && s == SetupOf(prob, C, p, l1) && Feasible(s, b)
    ensures |Primal(s, b)| == prob.n
    ensures PrimalValue(prob, C, p, l1, Primal(s, b)) == -Objective(s, b) <==>
            forall c :: Feasible(s, c) ==> Objective(s, c) >= Objective(s, b)
  {
    hide Objective, PrimalValue, TermOf, Miss, Violation, LinAlg.Axpy, Primal, LinAlg.Dot, SetupOf, Settings;
    SettingsOf(prob, C, p, l1);
    var w := Primal(s, b);
    OptimalIff(s, b);
    SameVector(w);
    GapIs(s, C, l1, b, w);
    if forall i :: 0 <= i < |b| ==> Violation(s, b, i) == 0.0 {
      forall i | 0 <= i < |b| ensures TermOf(C, s.p, l1, s.lambda, b[i], Miss(s.prob, w, i)) == 0.0 {
        TermViolation(s, C, l1, b, w, i);
      }
      AllTermsZero(s, C, l1, b, w, |b|);
    } else if TermsTo(s.prob, C, s.p, l1, s.lambda, b, w, |b|) == 0.0 {
      forall i | 0 <= i < |b| ensures Violation(s, b, i) == 0.0 {
        TermsNonNeg(s, C, l1, b, w, 0, i);
        TermsNonNeg(s, C, l1, b, w, i, i + 1);
        TermsNonNeg(s, C, l1, b, w, i + 1, |b|);
        TermViolation(s, C, l1, b, w, i);
      }
    }
  }

  lemma SameVector(w: Vec)
    ensures Dot(Axpy(w, -1.0, w), Axpy(w, -1.0, w)) == 0.0
  {
    assert Axpy(w, -1.0, w) == Zeros(|w|);
    DotZero(Zeros(|w|));
  }

  /** So the w of a dual minimiser minimises the problem the solver is for. */
  lemma ReturnedIsOptimal(s: Setup, prob: Problem, C: real, p: real, l1: bool, b: Vec, v: Vec)
    requires ValidProblem(prob) && C > 0.0 && p >= 0.0 && s == SetupOf(prob, C, p, l1) && Feasible(s, b)
    requires |v| == prob.n && forall c :: Feasible(s, c) ==> Objective(s, c) >= Objective(s, b)
    ensures |Primal(s, b)| == prob.n && PrimalValue(prob, C, p, l1, Primal(s, b)) <= PrimalValue(prob, C, p, l1, v)
  {
    hide Objective, PrimalValue, Primal;
    StrongDuality(s, prob, C, p, l1, b);
    WeakDuality(s, prob, C, p, l1, b, v);
  }
}
