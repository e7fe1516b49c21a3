/**
 The solvers for squared hinge losses are for one problem: TRON's objective is the
 primal value of the dual coordinate descent, and the L1-regularised solver has the same
 loss.  So the value TRON stops at and minus the dual value agree up to TRON's tolerance.
 */
module SamePrimal {
  import opened LinAlg
  import opened Sparse
  import L2SvcObjective
  import Tron
  import L1rObjective
  import L1rL2Svc
  import L1rPrimal
  import DualSvc
  import DualSvcObjective
  import DualSvcOptimal
  import DualSvcDuality

  /** The penalties train() hands out: Cp for the positive labels, Cn for the others. */
  ghost predicate Penalties(p: Problem, C: Vec, Cp: real, Cn: real) {
    && L2SvcObjective.ValidSvc(p, C) && Cp > 0.0 && Cn > 0.0
    && forall i :: 0 <= i < |C| ==> C[i] == if p.y[i] > 0.0 then Cp else Cn
  }

  lemma {:induction false} SameLoss(p: Problem, C: Vec, Cp: real, Cn: real, w: Vec, k: nat)
    requires Penalties(p, C, Cp, Cn) && |w| == p.n && k <= |p.x|
    ensures L2SvcObjective.LossTo(p, C, w, k) == DualSvcDuality.LossTo(p, Cp, Cn, false, w, k)
    ensures L2SvcObjective.LossTo(p, C, w, k) == L1rPrimal.RowLossTo(p, Cp, Cn, w, k)
  {
    hide L2SvcObjective.Hinge, DualSvcDuality.LossOf, L1rObjective.HingeSq, L2SvcObjective.Margin;
    hide DualSvcDuality.Shortfall, L1rPrimal.RowResidual;
    if k > 0 {
      SameLoss(p, C, Cp, Cn, w, k - 1);
      SameTerm(p, C, Cp, Cn, w, k - 1);
    }
  }

  lemma SameTerm(p: Problem, C: Vec, Cp: real, Cn: real, w: Vec, i: nat)
    requires Penalties(p, C, Cp, Cn) && |w| == p.n && i < |p.x|
    ensures var c, h := if p.y[i] > 0.0 then Cp else Cn, L2SvcObjective.Hinge(C[i], L2SvcObjective.Margin(p, w, i));
            && h == DualSvcDuality.LossOf(c, DualSvcDuality.Shortfall(p, w, i), false)
            && h == L1rObjective.HingeSq(c, L1rPrimal.RowResidual(p, w, i))
  {
    hide LinAlg.Dot, Sparse.Dense;
    var m := DualSvcDuality.Shortfall(p, w, i);
    assert m == 1.0 - L2SvcObjective.Margin(p, w, i) == L1rPrimal.RowResidual(p, w, i);
    assert C[i] * m * m == C[i] * (m * m);
  }

  /** f of TRON is the primal value. */
  lemma SameValue(p: Problem, C: Vec, Cp: real, Cn: real, w: Vec)
    requires Penalties(p, C, Cp, Cn) && |w| == p.n
    ensures L2SvcObjective.Objective(p, C, w) == DualSvcDuality.PrimalValue(p, Cp, Cn, false, w)
  {
    hide LinAlg.Dot, L2SvcObjective.LossTo, DualSvcDuality.LossTo;
    SameLoss(p, C, Cp, Cn, w, |p.x|);
  }

  /** The L1-regularised objective has the same loss and the sum of |w_j| for 0.5 |w|^2. */
  lemma SameLossL1(p: Problem, C: Vec, Cp: real, Cn: real, w: Vec)
    requires Penalties(p, C, Cp, Cn) && |w| == p.n
    ensures L1rObjective.Objective(L1rL2Svc.SetupOf(L1rPrimal.ColumnsOf(p), p.y, Cp, Cn), w)
         == L1rObjective.L1To(w, p.n) + L2SvcObjective.Objective(p, C, w) - 0.5 * Dot(w, w)
  {
    hide LinAlg.Dot, L2SvcObjective.LossTo, L1rObjective.Objective, L1rObjective.L1To, L1rPrimal.RowLossTo;
    SameLoss(p, C, Cp, Cn, w, |p.x|);
    L1rPrimal.ObjectiveByRows(p, Cp, Cn, w);
  }

  /** Where TRON converges, its objective is minus the dual minimum up to 0.5 (eps |g0|)^2. */
  lemma SolversAgree(sqrt: real -> real, p: Problem, C: Vec, Cp: real, Cn: real, w: Vec, eps: real, a: Vec)
    requires Penalties(p, C, Cp, Cn) && Tron.NearMinimum(sqrt, p, C, w, eps)
    requires var s := DualSvc.SetupOf(p, Cp, Cn, false);
             && DualSvcOptimal.Feasible(s, a)
             && forall b :: DualSvcOptimal.Feasible(s, b) ==>
                  DualSvcObjective.Objective(s, b) >= DualSvcObjective.Objective(s, a)
    ensures var s, g0 := DualSvc.SetupOf(p, Cp, Cn, false), L2SvcObjective.Gradient(p, C, Zeros(p.n));
            -DualSvcObjective.Objective(s, a) <= L2SvcObjective.Objective(p, C, w)
              <= -DualSvcObjective.Objective(s, a) + 0.5 * (eps * eps * Dot(g0, g0))
  {
    hide LinAlg.Dot, L2SvcObjective.Objective, DualSvcObjective.Objective, DualSvcDuality.PrimalValue;
    hide DualSvcObjective.Primal, L2SvcObjective.Gradient, DualSvc.SetupOf;
    var s := DualSvc.SetupOf(p, Cp, Cn, false);
    DualSvcDuality.StrongDuality(s, p, Cp, Cn, false, a);
    DualSvcDuality.WeakDuality(s, p, Cp, Cn, false, a, w);
    SameValue(p, C, Cp, Cn, w);
    SameValue(p, C, Cp, Cn, DualSvcObjective.Primal(s, a));
  }
}
