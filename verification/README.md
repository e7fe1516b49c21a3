# LIBLINEAR solvers, libelf layout, fp80 conversion and the pipeline viewer: a verified model

This project models four pieces of the repository in Dafny and proves what they
are for.

* The LIBLINEAR solvers (`machine_learning/liblinear/linear.cpp`, `tron.cpp`):
  the Crammer-Singer multi-class solver, the dual coordinate-descent solvers for
  classification and regression, the L1-regularised L2-loss solver with its line
  search, the L2-loss function object with the trust-region Newton method that
  minimises it, and the data preparation around them (transpose, class grouping,
  cross-validation splits).
* The libelf layout engine (`elf_update.c`) and the string reader that recomputes
  the same offsets its own way (`elf_strptr.c`).
* The conversion between 80-bit and 64-bit floats (`fp80.c`, `fpbits.h`).
* The bounded reorder queue of `o3-pipeview.py`.

`dafny verify dfyconfig.toml` checks everything.

## How the program is modelled

* `double` is `real`: all solver results are about exact arithmetic. `HUGE_VAL`
  is a constructor of `ExtReal.Ext`. `sqrt` is a parameter that returns the
  non-negative root (`Tron.IsSqrt`). BLAS calls are plain loops.
* `rand()` is any value: the index it selects is chosen arbitrarily in range, so
  every result holds for every shuffle.
* A row is the sequence of its nodes before the index -1 sentinel; its indices
  lie in 1..n and strictly increase, as `train.c:366` enforces. `Sparse.Dense` is
  the vector a row stands for, and the node loops are proved to be inner product,
  axpy and squared norm of that vector.
* Penalty parameters are positive. Where the code divides by `QD[i]` or `H` and
  that is zero (an all-zero row under L1 loss), the quotient is the IEEE infinity
  of the numerator's sign.
* Arrays the code updates in place are arrays; `Solver_MCSVM_CS`,
  `l2r_l2_svc_fun`, `TRON`, the ELF descriptor and the viewer's state are classes.
* Runs are values. Each coordinate solver returns, as a ghost result, the list of
  its passes; a pass (`RunHistory.History`) is the list of states it went through
  and, between two states, the variable visited and whether it was shrunk. Every
  visit in it is tied to the two states by what the visit does, every pass starts
  where the one before ended, and the last one ends in the result. What is said of
  exits, of visiting everything once and of descent is said of these lists.
* `qsort` is a verified descending sort; Python's `sort` is a verified stable one.
* ELF sizes and offsets are 64-bit words with explicit wrap-around
  (`ElfRound.RoundUpW`); the layout in unbounded arithmetic stands beside it, and
  the two agree whenever the file ends below 2^63 (`off_t` is signed). The test
  `(d & (d-1)) == 0` on a non-zero word is `ElfRound.IsPow2`.
* In `fp80.c` a right shift is a division by a power of two. The shift of a zero
  by more than 63 places, which C leaves undefined, gives zero.
* `train` and `predict` are parameters of cross-validation.

## What is proved, file by file

* `LinAlg`, `Sparse`, `Hessian`, `CombSquare`: vectors, sparse rows, the matrices I + 2
  X'DX that TRON never forms.
* `ConjugateGradient`, `TrustRegionModel`, `Krylov`: orthogonality of all residuals and
  conjugacy of all directions of a run, hence at most n iterations (by Bessel's
  inequality); the step never turns back; how far the model falls; which minimiser of
  the model the step is, said without the recurrences.
* `L2SvcObjective`, `ModelExact`, `L2SvcFun`, `Tron`: the gradient is the gradient and
  the model is exact while no margin crosses one; z, I and sizeI belong to the right
  point at every call; every run terminates and descends, its rounds and regions follow
  from each other, and a converged run is close to the global minimum.
* `Permutation`, `ActiveSet`, `RunHistory`, `PassDrift`: the shuffle, the shrinking pass
  and the runs that all coordinate solvers share; how far slopes drift during a pass.
* `CsSubProblem`, `CsRow`, `CsVisit`, `CsDrift`, `CsRun`, `CsOptimal`, `CsDuality`,
  `CsExit`, `CsGap`, `CrammerSinger`: the water-level solver returns the unique
  minimiser; what holds at every point of every run; how far w drifts from the alphas;
  no gap anywhere if and only if the alphas minimise the whole dual, and then the
  weights minimise the primal problem; when a run can get there at all, and what the
  gaps of a pass leave to be gained.
* `DualSvcObjective`, `DualSvc`, `DualSvcOptimal`, `DualSvcDuality`, `DualSvcExit`,
  `SamePrimal`: each visit goes to the minimiser over the box and runs never climb; all
  projected gradients are zero exactly at a global minimum, and exactly there the primal
  value of the w returned is minus the dual one. It is the value TRON computes. The
  solver stops when they are close to each other, which is not the same: an exit far
  from the minimum, and a bound on the distance from the minimum in terms of the
  projected gradients themselves.
* `KinkedParabola`, `DualSvrObjective`, `DualSvr`, `DualSvrOptimal`, `DualSvrDuality`,
  `DualSvrExit`: the same for regression, where the sum of the violations over a full
  pass is zero exactly when the pass starts at a global minimum, and else bounds, with
  the largest of them, what is left to gain.
* `L1rObjective`, `L1rL2Svc`, `L1rOptimal`, `L1rExit`, `L1rSearch`, `L1rExhausted`,
  `L1rPrimal`: the same for the primal L1-regularised problem, with its line search:
  when it must succeed, what happens when it does not, and the same bound.
* `Transpose`, `GroupClasses`, `CrossValidation`.
* `ElfRound`, `ElfLayout`, `ElfFile`, `ElfFormat`, `ElfStrptr`.
* `Fp80`, `Fp80Value`; `StableSort`, `PipeView`.

## Where the code and its documentation differ

* `fp80.h` calls `fp80_cvfd` completely lossless. The bits survive a round trip,
  but the number does not: every subnormal double comes out at half its value
  (`Fp80Value.ValueKeptIff`), because the normalising loop starts from the
  exponent 0 instead of 1; `fp80_cvtd` makes the opposite mistake.
* `fp80.h` says `fp80_cvtd` always truncates. It does so only in the cases
  `Fp80Value.TruncatesIff` lists, and returns infinity for some values without an
  integer bit that are within range (`Fp80Value.OverflowIff`).
* `fp80_classify` calls one pattern normal that `fp80_isnormal` does not
  (`Fp80.ConsistentIff`).
* `elf_strptr` speaks of the holes that alignment leaves. It agrees with the layout
  pass exactly when every live descriptor starts at the previous live end rounded
  up to its own alignment (`ElfStrptr.AgreesIff`); a section with an empty descriptor
  of larger alignment is laid out otherwise
  (`ElfStrptr.EmptyDescriptorBreaksAgreement`).
* `solve_l2r_l1l2_svc` takes a small spread of projected gradients for convergence.
  On three instances it stops after one pass, for every eps, at an objective of -2
  where -5 is possible (`DualSvcExit.ExitNeedNotBeOptimal`).
* `Solver_MCSVM_CS` skips instances whose row is all zeros, so their alphas stay zero.
  With two classes or more that is never optimal for the dual problem the solver
  states, whatever its exit test says (`CsExit.ZeroRowNeverMinimal`); it does not
  affect w.
* The comment above `solve_l2r_l1l2_svr` (linear.cpp:971) gives the terms in p and
  y with the opposite signs of the code; the model follows the code.
* `solve_l1r_l2_svc` can raise its objective when a line search is exhausted
  (`L1rExhausted.ExhaustedCanRise`, on the first pass of a run); that cannot happen
  while `xj_sq` is at most 0.99 * 2^19 * H (`L1rSearch.TameRunDescends`).
* `solve_l1r_l2_svc` restores its columns by multiplying with the label, not with
  its sign (`L1rL2Svc.RestoreIff`). `train` only hands it the labels +1 and -1
  (linear.cpp:2379-2384, 2397-2403), so the difference never shows.
* The comment in `o3-pipeview.py` asks that instructions be at most `min_threshold`
  places out of order. That is enough and the best bound of its kind
  (`PipeView.BoundedDisorderSorts`, `PipeView.OneMoreIsTooMany`); the exact condition
  is weaker (`PipeView.SortedIff`).

## Model

| member | source | states |
|---|---|---|
| `Sparse.RowDot` | machine_learning/liblinear/linear.cpp:858-864 | the node loop is the inner product of the row's vector with w |
| `Sparse.AddRow` | machine_learning/liblinear/linear.cpp:907-913 | the node loop adds d times the row's vector to w and changes nothing else |
| `Sparse.RowSquare` | machine_learning/liblinear/linear.cpp:833-840 | the node loop is the squared norm of the row's vector |
| `Hessian.HessSymmetric` | machine_learning/liblinear/linear.cpp:285-299 | the operator behind Hv is symmetric |
| `Hessian.HessBounds` | machine_learning/liblinear/linear.cpp:285-299 | it is positive definite with eigenvalues between 1 and 1 + 2 sum C_i x_i.x_i over the active set |
| `ConjugateGradient.ExtendConjugate` | machine_learning/liblinear/tron.cpp:184-214 | one iteration keeps all residuals mutually orthogonal and all directions mutually conjugate, over the whole history |
| `ConjugateGradient.AtMostDimension` | machine_learning/liblinear/tron.cpp:179-215 | at most n non-zero vectors of length n are mutually orthogonal |
| `ConjugateGradient.FewIterations` | machine_learning/liblinear/tron.cpp:179-215 | while the residual is not zero, fewer than n iterations have been made |
| `TrustRegionModel.PredictedReduction` | machine_learning/liblinear/tron.cpp:95-96 | prered, as computed from g, s and r = -g - Hs, is the exact fall of the quadratic model |
| `TrustRegionModel.IterateStep` | machine_learning/liblinear/tron.cpp:184-214 | one iteration keeps r = -g - Hs, r.d = r.r, s.r = 0, s.d >= 0 and the bound on the fall of the model |
| `TrustRegionModel.StepFall` | machine_learning/liblinear/tron.cpp:186-203 | any part t of a full step lowers the model by at least t r.r / 2 |
| `Krylov.IterateIsMinimiser` | machine_learning/liblinear/tron.cpp:179-215 | after k iterations s lies in the space of -g, H(-g), ..., H^(k-1)(-g) and its residual is orthogonal to it |
| `Krylov.MinimiserWins` | machine_learning/liblinear/tron.cpp:179-215 | so the model at s is below that at every point of the space by half the squared distance |
| `Krylov.CombinationInSpace` | machine_learning/liblinear/tron.cpp:179-215 | every combination of those vectors is such a point |
| `Krylov.TruncatedUnique` | machine_learning/liblinear/tron.cpp:160-221 | the first of these minimisers with norm(r) <= 0.1 norm(g), or the point where the line to the next one leaves the region, is one definite point: what trcg returns depends on model and region alone |
| `L2SvcObjective.GradientDot` | machine_learning/liblinear/linear.cpp:259-278 | the vector built from the active rows only has, along every direction, the slope of the full objective |
| `L2SvcObjective.TwoParabolas` | machine_learning/liblinear/linear.cpp:235-278 | f lies between two parabolas with that gradient, of curvature 1 and of an explicit Lipschitz constant, at every pair of points |
| `L2SvcObjective.ActiveBound` | machine_learning/liblinear/linear.cpp:285-299 | no curvature of the model exceeds that Lipschitz constant |
| `L2SvcFun.L2SvcFunction.constructor` | machine_learning/liblinear/linear.cpp:216-226 | fresh z and I of the problem's size |
| `L2SvcFun.L2SvcFunction.Xv` | machine_learning/liblinear/linear.cpp:301-317 | z holds all inner products x_i.v |
| `L2SvcFun.L2SvcFunction.Fun` | machine_learning/liblinear/linear.cpp:235-257 | returns the objective and leaves the margins of w in z |
| `L2SvcFun.L2SvcFunction.Compact` | machine_learning/liblinear/linear.cpp:266-273 | from the margins of w, z is packed in place without overwriting an unread entry; I becomes exactly the ascending list of rows with margin below one |
| `L2SvcFun.L2SvcFunction.Grad` | machine_learning/liblinear/linear.cpp:259-278 | called when z holds the margins of w, returns the gradient and leaves the active set of w in I |
| `L2SvcFun.L2SvcFunction.SubXv` | machine_learning/liblinear/linear.cpp:319-334 | inner products of the rows in I with v |
| `L2SvcFun.L2SvcFunction.SubXTv` | machine_learning/liblinear/linear.cpp:336-352 | the combination of the rows in I with coefficients v |
| `L2SvcFun.L2SvcFunction.Hv` | machine_learning/liblinear/linear.cpp:285-299 | the product with the Hessian of whatever active set I holds, whatever z holds |
| `Tron.BoundaryStep` | machine_learning/liblinear/tron.cpp:194-202 | both formulas give the non-negative root of norm(s + t d) = delta |
| `Tron.TronSolver.ToBoundary` | machine_learning/liblinear/tron.cpp:189-207 | lands exactly on the boundary, keeps r = -g - Hs, and the model has fallen enough; the divisor is never zero |
| `Tron.TronSolver.Iteration` | machine_learning/liblinear/tron.cpp:183-214 | one pass of the loop keeps its invariant or stops on the boundary |
| `Tron.TronSolver.Trcg` | machine_learning/liblinear/tron.cpp:160-221 | terminates within n iterations; r = -g - Hs, norm(s) <= delta; s is on the boundary or norm(r) <= 0.1 norm(g); s is the point of the Krylov path described below, and the model falls by half the smaller of g.g/Bound and delta norm(g) |
| `Tron.StepAlpha` | machine_learning/liblinear/tron.cpp:107-111 | alpha minimises the parabola through f, the slope gs and fnew over all step lengths of a quarter or more, by the curvature times the squared distance; it is 4 when the parabola is not convex |
| `Tron.NewDelta` | machine_learning/liblinear/tron.cpp:113-121 | in each band of actred/prered the new region is the point of that band's interval nearest to alpha times the step length: [delta/4, delta/2] below 0.25, [delta/4, 4 delta] below 0.75, [delta, 4 delta] from there on; for a step to be rejected it is the smaller of half the region and that length |
| `Tron.ActualReduction` | machine_learning/liblinear/tron.cpp:95-100 | the actual reduction misses the predicted one by a second-order term only |
| `ModelExact.ExactReduction` | machine_learning/liblinear/tron.cpp:94-100 | when no margin crosses one between w and w + s the two reductions are equal: Hv is the second derivative of fun |
| `Tron.SmallRegionAccepts` | machine_learning/liblinear/tron.cpp:114-125 | a region below an explicit size always gives an accepted step |
| `Tron.RegionShrinks` | machine_learning/liblinear/tron.cpp:114-115 | each rejected step takes at least one off a non-negative measure, so rejections end |
| `Tron.Gap` | machine_learning/liblinear/tron.cpp:132-134 | no point is better than w by more than half the squared gradient norm |
| `Tron.TronSolver.Trial` | machine_learning/liblinear/tron.cpp:90-121 | w_new is w plus what trcg returned, actred and prered are exact, the region is updated by the rule; I is untouched although z is overwritten |
| `Tron.TronSolver.Step` | machine_learning/liblinear/tron.cpp:90-135 | f, g and the active set still belong to w, whether the step was accepted or not; an accepted step extends the run; the region left is the one the rules give for that step |
| `Tron.TronSolver.Begin` | machine_learning/liblinear/tron.cpp:75-86 | w = 0 with its value, its gradient and active set, the norm of that gradient, and whether it already passes the norm test |
| `Tron.TronSolver.Run` | machine_learning/liblinear/tron.cpp:56-158 | terminates for every data set; every round tried the trcg step of its point for the region the rounds before it left, starting from the norm of the first gradient; every accepted point comes from the one before by a step with sufficient reduction; the norm test holds at no earlier point, and at w exactly when the exit is the converged one, which is within an explicit bound of the global minimum; the exit for tiny reductions names its round; the exits for unbounded f and for no reduction are never taken |
| `Tron.RunDescends` | machine_learning/liblinear/tron.cpp:125-135 | the objective falls strictly from each accepted point to every later one |
| `Tron.FirstRegion` | machine_learning/liblinear/tron.cpp:102-121 | until a step is taken the step length, never above the region, takes the place of the region: a rejected step leaves at most half of it, an accepted one between a quarter and four times of it |
| `Tron.LaterRegion` | machine_learning/liblinear/tron.cpp:113-121 | after that the same of the region the step was tried in |
| `CsSubProblem.SortDescending` | machine_learning/liblinear/linear.cpp:492-499 | descending and a permutation |
| `CsSubProblem.FindLevel` | machine_learning/liblinear/linear.cpp:511-514 | the level, with the number of sorted values above it |
| `CsSubProblem.LevelIsOptimal` | machine_learning/liblinear/linear.cpp:516-522 | for entries clipped at one level, with the right sum, every feasible point costs at least A/2 times its squared distance more |
| `CsSubProblem.LevelIsFeasible` | machine_learning/liblinear/linear.cpp:506-522 | the level the loop finds gives exactly the required sum |
| `CsSubProblem.SolveSubProblem` | machine_learning/liblinear/linear.cpp:501-524 | alpha_new is the global minimiser under the caps with sum 0, or -C when yi was shrunk; entries past the active ones are not touched |
| `CsSubProblem.MinimiserUnique` | machine_learning/liblinear/linear.cpp:501-524 | the minimiser is unique |
| `CsRow.GatherActive` | machine_learning/liblinear/linear.cpp:584-690 | with the inactive classes on their caps, the alphas sum to zero exactly when the active ones sum to the sub-problem's target |
| `CsRow.SomeRoom` | machine_learning/liblinear/linear.cpp:615-626 | some active class is strictly below its cap, so minG is finite |
| `CsRow.Extremes` | machine_learning/liblinear/linear.cpp:615-626 | minG is the smallest gradient among active classes with room, maxG the largest among all active ones; both attained |
| `CsRow.Shrink` | machine_learning/liblinear/linear.cpp:628-649 | exactly the active classes be_shrunk accepts end up behind the new active size; alpha_index stays a permutation, G and y_index follow it |
| `CsRow.ShrinkableIff` | machine_learning/liblinear/linear.cpp:526-534 | a class is shrunk exactly when it is on its cap and its gradient is below that of every active class with room |
| `CsRow.DroppedGap` | machine_learning/liblinear/linear.cpp:651-657 | when at most one class stays active, maxG equals minG |
| `CsVisit.ComputeG` | machine_learning/liblinear/linear.cpp:601-613 | G holds, position by position, the gradients of the active classes |
| `CsVisit.WriteBack` | machine_learning/liblinear/linear.cpp:668-679 | alpha takes the new values; the recorded changes are exactly those of size 1e-12 or more |
| `CsVisit.UpdateW` | machine_learning/liblinear/linear.cpp:681-688 | each class's weights absorb the recorded change times the row |
| `CsVisit.VisitRow` | machine_learning/liblinear/linear.cpp:599-689 | keeps the row invariant; the gap is maxG - minG of the row found; exactly the shrinkable classes are shrunk; the active alphas become the minimiser of the sub-problem, or stay when one class or no gap is left |
| `CsVisit.ZeroGapIff` | machine_learning/liblinear/linear.cpp:615-662 | a row has no gap if and only if its active alphas already solve its sub-problem |
| `CsDrift.VisitWithin` | machine_learning/liblinear/linear.cpp:669-688 | one visit adds at most 1e-12 times the largest feature value to the distance of w from the alphas' combination |
| `CrammerSinger.Solver.constructor` | machine_learning/liblinear/linear.cpp:473-484 | the arrays are allocated with the right sizes and are all different |
| `CrammerSinger.Solver.Visit` | machine_learning/liblinear/linear.cpp:594-690 | the visit changes one instance and the weights only, and does what `CsRun.Visited` says: gap, shrinking, sub-problem and update of w |
| `CrammerSinger.Solver.RunPass` | machine_learning/liblinear/linear.cpp:592-691 | the pass is a history of visits from the old state to the new one that visits every instance active at the start exactly once; what it keeps is what stays active; `stopping` is the largest gap above 1e-12 it found |
| `CrammerSinger.Solver.Init` | machine_learning/liblinear/linear.cpp:558-582 | everything zero and active, index arrays the identity, QD the squared norms |
| `CrammerSinger.Solver.Reactivate` | machine_learning/liblinear/linear.cpp:704-709 | all classes of all instances active again, nothing else changed |
| `CrammerSinger.Solver.Solve` | machine_learning/liblinear/linear.cpp:536-715 | the passes form a run from zero that ends in the final state; each visits everything after a reset and else what the one before kept; an early exit happens exactly after the first pass that started from everything and found no gap of eps or more, 1e-12 aside |
| `CsRun.VisitSound` | machine_learning/liblinear/linear.cpp:594-690 | a visit keeps the alphas of every instance summing to zero, under their caps, on them past the active size, and alpha_index a permutation with y at y_index |
| `CsRun.VisitDrift` | machine_learning/liblinear/linear.cpp:669-688 | a visit adds at most 1e-12 M to the distance of w from the combination of the rows |
| `CsRun.RunSound` | machine_learning/liblinear/linear.cpp:584-714 | both hold at every point of every pass of every run |
| `CsRun.SomeBound` | machine_learning/liblinear/linear.cpp:584-714 | every data set has the bound M these two speak of |
| `CsRun.ExitMeans` | machine_learning/liblinear/linear.cpp:599-703 | at an early exit the last pass visited every instance with all its classes active; unless its row is all zeros, minG and maxG are the extremes of its gradients there and differ by less than eps or by at most 1e-12 |
| `CsRun.ResetsIff` | machine_learning/liblinear/linear.cpp:536-709 | everything is reactivated exactly when all gaps above 1e-12 of the pass are below eps or below max(10 eps, 1) halved once per earlier reset |
| `CsRun.ExitsIff` | machine_learning/liblinear/linear.cpp:698-703 | the early exit happens exactly after a pass from everything whose gaps above 1e-12 are all below eps |
| `CsRun.DroppedIsOptimal` | machine_learning/liblinear/linear.cpp:651-657 | an instance is dropped only when it has no gap |
| `CsRun.NoGapIsOptimal` | machine_learning/liblinear/linear.cpp:615-662 | the gap a visit finds is zero if and only if the row it found already solved its sub-problem |
| `CsOptimal.AboveTangent` | machine_learning/liblinear/linear.cpp:719-734 | the whole dual objective lies above its tangent, the gradients being those of the visits |
| `CsOptimal.NoGapIff` | machine_learning/liblinear/linear.cpp:615-626 | for an instance with all classes active, maxG <= minG says that no class has a larger gradient than one with room |
| `CsOptimal.OptimalIff` | machine_learning/liblinear/linear.cpp:615-662 | with w the combination of the rows, no instance has a gap if and only if the alphas minimise the whole dual problem |
| `CsDuality.GapIs` | machine_learning/liblinear/linear.cpp:433-443 | for all weights and all feasible alphas the value of 0.5 sum_c norm(w_c)^2 + sum_i C max_c (e_ic + w_c.x_i - w_yi.x_i) plus the dual objective is half the squared distance of the weights from those of the alphas, plus (cap - alpha) times (largest - own excess) summed over all instances and classes |
| `CsDuality.WeakDuality` | machine_learning/liblinear/linear.cpp:433-443 | hence minus the dual objective never exceeds that value |
| `CsDuality.StrongDuality` | machine_learning/liblinear/linear.cpp:433-443 | and the weights of the alphas attain it if and only if the alphas minimise the dual problem |
| `CsDuality.ReturnedIsOptimal` | machine_learning/liblinear/linear.cpp:433-443 | in which case they minimise the problem of Crammer and Singer |
| `CsExit.ZeroRowIff` | machine_learning/liblinear/linear.cpp:599 | an instance whose row is all zeros has no gap if and only if there is one class only or its own class is on its cap |
| `CsExit.ZeroRowRun` | machine_learning/liblinear/linear.cpp:584-714 | at every point of every run the alphas of such an instance are zero |
| `CsExit.ZeroRowNeverMinimal` | machine_learning/liblinear/linear.cpp:584-714 | so with such an instance and two classes or more no point of a run is a minimiser of the dual problem |
| `CsExit.ZeroPassIff` | machine_learning/liblinear/linear.cpp:592-703 | with w the combination of the rows, a pass over everything finds only zero gaps and every all-zero row is settled if and only if it starts at a minimiser of the dual problem |
| `CsExit.ExitOptimalIff` | machine_learning/liblinear/linear.cpp:592-703 | in a run: a pass from everything with such a w finds only zero gaps, and there is no all-zero row or one class only, if and only if it starts at a minimiser |
| `CsGap.VisitDescends` | machine_learning/liblinear/linear.cpp:594-690 | with such a w no visit raises the dual objective |
| `CsGap.ExactStays` | machine_learning/liblinear/linear.cpp:668-688 | such a w stays one while every change of an alpha is zero or at least 1e-12 |
| `CsGap.VisitMove` | machine_learning/liblinear/linear.cpp:659-672 | a visit with all classes active moves each alpha by at most the number of classes times the gap over QD |
| `CsGap.SomeCoupling` | machine_learning/liblinear/linear.cpp:570-582 | every data set has a K with x_i.x_j at most K QD_j in size for all i and j |
| `CsGap.PassGap` | machine_learning/liblinear/linear.cpp:592-691 | after a pass over everything with such a w and all-zero rows settled, no feasible alphas are better than the result by more than the largest gap plus K times the number of classes times the sum of the gaps, per unit of distance |
| `CsGap.ExitGap` | machine_learning/liblinear/linear.cpp:698-703 | so an early exit without all-zero rows, or with one class, leaves at most (1 + K |C| l) max(eps, 1e-12) per unit of distance |
| `Permutation.Shuffle` | machine_learning/liblinear/linear.cpp:849-853 | for every rand(), index stays a permutation with the same active set |
| `ActiveSet.Drop` | machine_learning/liblinear/linear.cpp:877-880 | shrinking by swap with `s--` keeps the pass on course |
| `ActiveSet.EndPass` | machine_learning/liblinear/linear.cpp:855-916 | at the end the visited variables are those active at the start, each once |
| `RunHistory.FullIff` | machine_learning/liblinear/linear.cpp:922-926 | active_size == l at the end of a pass if and only if the pass visited everything and shrank nothing |
| `RunHistory.AddPass` | machine_learning/liblinear/linear.cpp:918-934 | the two tests after a pass decide between exit, reset and going on, and with that what the next pass visits and which pass bounds its shrinking |
| `RunHistory.NeverRises` | machine_learning/liblinear/linear.cpp:844-939 | a function no visit raises is not raised from any point of a run to any later one |
| `DualSvcObjective.MatrixForm` | machine_learning/liblinear/linear.cpp:946-957 | the objective through w equals the double sum over Q plus the diagonal |
| `DualSvcObjective.AlongCoordinate` | machine_learning/liblinear/linear.cpp:858-869 | G is the exact partial derivative and QD the exact curvature of the dual objective |
| `DualSvcObjective.ClippedMinimises` | machine_learning/liblinear/linear.cpp:903-906 | the clipped Newton step goes to the minimiser over the box, all-zero rows included |
| `DualSvcObjective.MinimiserIsStep` | machine_learning/liblinear/linear.cpp:903-906 | it lowers the objective by at least QD/2 times the squared change |
| `DualSvc.VisitVariable` | machine_learning/liblinear/linear.cpp:857-915 | shrinks exactly when the test says so, else goes to the box minimiser unless PG is within 1e-12; keeps w = sum y_i alpha_i x_i and the box |
| `DualSvc.RunPass` | machine_learning/liblinear/linear.cpp:846-916 | the pass is a history of visits from the old alpha to the new one that visits every variable active at the start exactly once and shrinks exactly those the test picks out; PGmax and PGmin are the extremes of the projected gradients found |
| `DualSvc.NarrowIff` | machine_learning/liblinear/linear.cpp:922 | the stopping test compares all projected gradients the pass found |
| `DualSvc.FreshKeepsAll` | machine_learning/liblinear/linear.cpp:926-933 | at first and after a reset no variable is shrunk |
| `DualSvc.ShrinkableIff` | machine_learning/liblinear/linear.cpp:871-897 | with finite bounds: a variable at zero is shrunk when its gradient is above PGmax_old, one at its upper bound when it is below PGmin_old, no other |
| `DualSvc.RuleMeans` | machine_learning/liblinear/linear.cpp:871-939 | after a pass that was not followed by a reset, shrunk are exactly the variables at zero whose gradient exceeds all projected gradients kept of that pass, one of which is positive, and those at the upper bound with all signs turned |
| `DualSvc.ProjectedMeans` | machine_learning/liblinear/linear.cpp:866-898 | PG is G, or zero where G points out of the box |
| `DualSvc.NarrowMeans` | machine_learning/liblinear/linear.cpp:922 | the stopping test is that no two projected gradients found and kept differ by more than eps |
| `DualSvc.SetupOf` | machine_learning/liblinear/linear.cpp:799-820 | y is the sign of the label; L1 loss: D = 0 and the bound is Cp for positive labels and Cn for the others; L2 loss: no bound and D = 0.5/Cp or 0.5/Cn |
| `DualSvc.VisitFacts` | machine_learning/liblinear/linear.cpp:903-914 | every visit lowers the objective by at least QD/2 times the squared change |
| `DualSvc.RunDescends` | machine_learning/liblinear/linear.cpp:844-939 | from any point of a run to any later one the objective never rises |
| `DualSvc.ZeroProjectedIff` | machine_learning/liblinear/linear.cpp:871-898 | PG is zero if and only if the variable is at its minimiser over the box |
| `DualSvc.ObjectiveValue` | machine_learning/liblinear/linear.cpp:946-957 | the printed v/2 is the dual objective as the double sum over Q |
| `DualSvc.Solve` | machine_learning/liblinear/linear.cpp:778-963 | the passes form a run from zero to the result, each visiting everything at first and after a reset and else what the one before kept; a pass shrinks exactly what the test picks out with PGmax and PGmin of the pass before, or with infinite bounds at first, after a reset and for an extreme of the wrong sign; w and the box hold; an early exit happens exactly after the first pass that visited all variables, shrank none and found all PG within eps of each other; otherwise 1000 passes were made |
| `DualSvcOptimal.AboveTangent` | machine_learning/liblinear/linear.cpp:747-764 | the dual objective lies above its tangent at every point |
| `DualSvcOptimal.OptimalIff` | machine_learning/liblinear/linear.cpp:747-764 | all projected gradients are zero if and only if the point is a global minimiser over the box |
| `DualSvcDuality.GapIs` | machine_learning/liblinear/linear.cpp:747-764 | for all w and all feasible alphas the value of 0.5 norm(w)^2 + sum_i C_i loss(1 - y_i w.x_i), with C_i = Cp for positive labels and Cn for the others, plus the dual objective is half the squared distance of w from that of the alphas plus one term per instance |
| `DualSvcDuality.WeakDuality` | machine_learning/liblinear/linear.cpp:747-764 | for both losses minus the dual objective never exceeds that value |
| `DualSvcDuality.StrongDuality` | machine_learning/liblinear/linear.cpp:747-764 | the w of the alphas attains it if and only if the alphas minimise the dual problem |
| `DualSvcDuality.ReturnedIsOptimal` | machine_learning/liblinear/linear.cpp:747-764 | in which case it minimises the primal problem |
| `SamePrimal.SameValue` | machine_learning/liblinear/linear.cpp:235-257 | for L2 loss the primal value is the objective TRON minimises |
| `SamePrimal.SameLossL1` | machine_learning/liblinear/linear.cpp:1380-1391 | and the loss is that of the L1-regularised solver |
| `SamePrimal.SolversAgree` | machine_learning/liblinear/linear.cpp:2208-2237 | where TRON converges its objective is minus the dual minimum up to half the square of eps times the norm of the first gradient |
| `DualSvcExit.MoveBound` | machine_learning/liblinear/linear.cpp:903-906 | a visit moves a variable by at most PG over QD |
| `DualSvcExit.SmallIff` | machine_learning/liblinear/linear.cpp:900-922 | all PG found are within eps of zero if and only if PGmin and PGmax are |
| `DualSvcExit.SomeCoupling` | machine_learning/liblinear/linear.cpp:826-842 | every valid problem has a K with x_i.x_j at most K QD_j in size for all i and j, which the next two speak of |
| `DualSvcExit.PassGap` | machine_learning/liblinear/linear.cpp:846-916 | after any full pass no feasible point is better than the result by more than 1e-12 plus K times the sum of the PG found, per unit of distance |
| `DualSvcExit.GoodExit` | machine_learning/liblinear/linear.cpp:922-926 | so an exit with all PG within eps of zero leaves at most 1e-12 + K l eps per unit of distance |
| `DualSvcExit.ZeroPassIff` | machine_learning/liblinear/linear.cpp:846-926 | a pass over everything finds only zeros if and only if it starts at a global minimiser |
| `DualSvcExit.ExitNeedNotBeOptimal` | machine_learning/liblinear/linear.cpp:922-926 | a run from zero that exits after one pass for every eps >= 0 with objective -2, while a feasible point has -5 |
| `KinkedParabola.ClippedTarget` | machine_learning/liblinear/linear.cpp:1127-1139 | the three-case direction followed by clipping is the box minimiser of the one-variable piecewise quadratic |
| `KinkedParabola.NearestFlat` | machine_learning/liblinear/linear.cpp:1078-1124 | the violation is the distance of the slope from the nearest one for which the point would be optimal |
| `KinkedParabola.MoveSize` | machine_learning/liblinear/linear.cpp:1127-1142 | a move that pays at least H times its square is at most the violation over H |
| `DualSvrObjective.AlongCoordinate` | machine_learning/liblinear/linear.cpp:1066-1076 | along one coordinate the dual objective is that piecewise quadratic |
| `DualSvrObjective.ClippedMinimises` | machine_learning/liblinear/linear.cpp:1127-1139 | each update moves beta_i to the minimiser of the dual objective over its box |
| `DualSvr.VisitVariable` | machine_learning/liblinear/linear.cpp:1065-1151 | shrinks exactly when the test says so, else goes to the box minimiser unless the direction is below 1e-12; keeps w = sum beta_i x_i and the box; reports the exact violation |
| `DualSvr.RunPass` | machine_learning/liblinear/linear.cpp:1054-1152 | the pass is a history of visits from the old beta to the new one that visits every variable active at the start exactly once and shrinks exactly those the test picks out; Gnorm1 and Gmax are the sum and the largest of the violations found |
| `DualSvr.FreshKeepsAll` | machine_learning/liblinear/linear.cpp:1166-1168 | at first and after a reset no variable is shrunk |
| `DualSvr.ShrinkableIff` | machine_learning/liblinear/linear.cpp:1078-1119 | a variable at zero is shrunk when the slope is further than Gmax_old inside [-p, p], one at a bound when it points further than Gmax_old outwards, no other |
| `DualSvr.RuleMeans` | machine_learning/liblinear/linear.cpp:1078-1172 | after a pass that was not followed by a reset, shrunk are exactly the variables for which that distance is positive and above every violation of that pass |
| `DualSvr.SetupOf` | machine_learning/liblinear/linear.cpp:1018-1027 | L1 loss: lambda = 0 and the bound is C; L2 loss: lambda = 0.5/C and no bound; data and p as given |
| `DualSvr.RunDescends` | machine_learning/liblinear/linear.cpp:1052-1172 | from any point of a run to any later one the objective never rises |
| `DualSvr.ZeroViolationIff` | machine_learning/liblinear/linear.cpp:1078-1122 | a violation of zero if and only if the variable is at its minimiser over the box |
| `DualSvr.ObjectiveValue` | machine_learning/liblinear/linear.cpp:1179-1191 | the printed value is the dual objective |
| `DualSvr.Solve` | machine_learning/liblinear/linear.cpp:996-1196 | as for classification, with the largest violation of the pass before, or an infinite bound at first and after a reset, deciding what is shrunk; an early exit happens exactly after the first pass that visited all variables, shrank none and whose violations sum to at most eps times those of the first pass of the run |
| `DualSvrOptimal.AboveTangent` | machine_learning/liblinear/linear.cpp:967-982 | the dual objective lies above its tangent, kinks included |
| `DualSvrOptimal.OptimalIff` | machine_learning/liblinear/linear.cpp:1078-1122 | no violation anywhere if and only if the point is a global minimiser over the box |
| `DualSvrDuality.GapIs` | machine_learning/liblinear/linear.cpp:967-982 | for all w and all feasible betas the value of 0.5 norm(w)^2 + C sum_i max(abs(y_i - w.x_i) - p, 0), squared for L2 loss, plus the dual objective is half the squared distance of w from that of the betas plus one term per instance |
| `DualSvrDuality.WeakDuality` | machine_learning/liblinear/linear.cpp:967-982 | for both losses minus the dual objective never exceeds that value |
| `DualSvrDuality.StrongDuality` | machine_learning/liblinear/linear.cpp:967-982 | the w of the betas attains it if and only if the betas minimise the dual problem |
| `DualSvrDuality.ReturnedIsOptimal` | machine_learning/liblinear/linear.cpp:967-982 | in which case it minimises the primal problem |
| `DualSvrExit.ZeroSumIff` | machine_learning/liblinear/linear.cpp:1078-1165 | the violations of a pass over everything sum to zero if and only if it starts at a global minimiser; it then also ends at one |
| `DualSvrExit.MoveBound` | machine_learning/liblinear/linear.cpp:1127-1146 | a visit moves a variable by at most its violation over its curvature |
| `DualSvrExit.SomeCoupling` | machine_learning/liblinear/linear.cpp:1036-1046 | every valid problem has a K with x_i.x_j at most K times the curvature of j in size |
| `DualSvrExit.PassGap` | machine_learning/liblinear/linear.cpp:1060-1153 | after any pass over everything no feasible point is better than its end by more than the largest violation plus K times their sum, per unit of distance from its start |
| `DualSvrExit.ExitGap` | machine_learning/liblinear/linear.cpp:1159-1162 | so an early exit leaves at most (1 + K) eps Gnorm1_init per unit of distance |
| `L1rObjective.ApproximateLoss` | machine_learning/liblinear/linear.cpp:1533 | the cheap bound of the line search is an upper bound of the new loss |
| `L1rObjective.ConvexLoss` | machine_learning/liblinear/linear.cpp:1470-1484 | G_loss is the slope of the loss along the column |
| `L1rObjective.ColumnLoss` | machine_learning/liblinear/linear.cpp:1545-1573 | the loss over the column's own instances changes by as much as the whole loss |
| `L1rL2Svc.Derivatives` | machine_learning/liblinear/linear.cpp:1467-1487 | G_loss and H of the maintained b |
| `L1rL2Svc.SecondOrder` | machine_learning/liblinear/linear.cpp:1467-1484 | until a residual of the column changes sign, the loss along it is the parabola with slope G_loss and second derivative H |
| `L1rL2Svc.SquareIsLargestCurve` | machine_learning/liblinear/linear.cpp:1437-1450 | half of H is at most xj_sq, and equal to it where all residuals of the column are positive |
| `L1rL2Svc.DirectionFalls` | machine_learning/liblinear/linear.cpp:1514-1525 | delta is at most -H d^2, hence negative |
| `L1rL2Svc.CheapTest` | machine_learning/liblinear/linear.cpp:1533-1543 | the cheap test implies the sufficient decrease |
| `L1rL2Svc.LineSearch` | machine_learning/liblinear/linear.cpp:1526-1586 | stops at the first halving with sufficient decrease, whichever test finds it, with b belonging to w + d; gives up after twenty |
| `L1rL2Svc.Recompute` | machine_learning/liblinear/linear.cpp:1590-1607 | b = 1 - sum_j w_j y_i x_ij from scratch |
| `L1rL2Svc.VisitVariable` | machine_learning/liblinear/linear.cpp:1466-1608 | b_i = 1 - sum_j w_j y_i x_ij on all paths; shrinks exactly when the test says so; otherwise moves by the direction after the first sufficient halving or after twenty |
| `L1rL2Svc.SufficientDecrease` | machine_learning/liblinear/linear.cpp:1526-1588 | a step leaving the search by a break lowers the objective by sigma times a negative promise |
| `L1rL2Svc.RunPass` | machine_learning/liblinear/linear.cpp:1455-1609 | the pass is a history of visits from the old w to the new one that visits every weight active at the start exactly once and shrinks exactly those the test picks out; Gnorm1 and Gmax are the sum and the largest of the violations found |
| `L1rL2Svc.FreshKeepsAll` | machine_learning/liblinear/linear.cpp:1622-1625 | at first and after a reset no weight is shrunk |
| `L1rL2Svc.ShrinkableIff` | machine_learning/liblinear/linear.cpp:1489-1505 | a weight is shrunk when it is zero and l (1 - abs(G)) exceeds Gmax_old |
| `L1rL2Svc.RuleMeans` | machine_learning/liblinear/linear.cpp:1489-1632 | after a pass that was not followed by a reset, shrunk are exactly the zero weights for which l (1 - abs(G)) is positive and above every violation of that pass |
| `L1rL2Svc.RunDescends` | machine_learning/liblinear/linear.cpp:1453-1632 | over a run without an exhausted line search the objective never rises |
| `L1rSearch.SteadyFalls` | machine_learning/liblinear/linear.cpp:1526-1586 | k halvings are enough when xj_sq <= 0.99 * 2^k * H |
| `L1rSearch.StopsBy` | machine_learning/liblinear/linear.cpp:1526-1586 | so the search stops at the first such k at the latest |
| `L1rSearch.TameRunDescends` | machine_learning/liblinear/linear.cpp:1453-1632 | a run whose visits all have xj_sq <= 0.99 * 2^19 * H never raises the objective |
| `L1rSearch.SmallColumnsAreTame` | machine_learning/liblinear/linear.cpp:1437-1487 | which holds for every run when all xj_sq are at most 5e-7 |
| `L1rL2Svc.RestoreIff` | machine_learning/liblinear/linear.cpp:1445-1645 | the restoring loop undoes the first one if and only if every label with a non-zero value in the column is 1 or -1 |
| `L1rL2Svc.ObjectiveValue` | machine_learning/liblinear/linear.cpp:1636-1657 | the value printed from the maintained b is the objective of w |
| `L1rL2Svc.Solve` | machine_learning/liblinear/linear.cpp:1397-1664 | the passes form a run from zero to the result, with a consistent b; the largest violation of the pass before over l, or an infinite bound at first and after a reset, decides what is shrunk; an early exit happens exactly after the first pass that visited all weights, shrank none and whose violations sum to at most eps times those of the first pass of the run |
| `L1rExhausted.ExhaustedCanRise` | machine_learning/liblinear/linear.cpp:1528-1607 | the first pass of a run from zero whose second visit exhausts the search and raises the objective |
| `L1rOptimal.AboveTangent` | machine_learning/liblinear/linear.cpp:1380-1391 | the objective lies above its tangent, kinks included |
| `L1rOptimal.OptimalIff` | machine_learning/liblinear/linear.cpp:1489-1509 | no violation anywhere if and only if w is a global minimiser |
| `L1rExit.ZeroSumIff` | machine_learning/liblinear/linear.cpp:1489-1622 | the violations of a pass over everything sum to zero if and only if it starts at a global minimiser |
| `L1rExit.DirectionSize` | machine_learning/liblinear/linear.cpp:1511-1517 | the Newton direction is at most the violation over H |
| `L1rExit.SlopeMoves` | machine_learning/liblinear/linear.cpp:1472-1487 | moving weight j by d moves the slope of weight i by at most 2 d sum_n |x_in| C_n |x_jn|, whichever terms become active |
| `L1rExit.SomeCoupling` | machine_learning/liblinear/linear.cpp:1484-1487 | some K bounds that sum by K H_j at every point, because H is at least 1e-12 |
| `L1rExit.PassGap` | machine_learning/liblinear/linear.cpp:1455-1609 | no weights are better than the start of a pass over everything by more than the largest violation plus K times their sum, per unit of distance, and unless a search was exhausted its end is no worse than its start |
| `L1rExit.ExitGap` | machine_learning/liblinear/linear.cpp:1616-1620 | so an early exit leaves at most (1 + K) eps Gnorm1_init per unit of distance, unless a search of the last pass was exhausted |
| `L1rPrimal.ResidualByRows` | machine_learning/liblinear/linear.cpp:2238-2247 | over the transposed problem, b_i is 1 - y_i w.x_i of the original rows |
| `L1rPrimal.ObjectiveByRows` | machine_learning/liblinear/linear.cpp:2238-2247 | the objective the solver lowers is that of the original problem |
| `Transpose.TransposedEntry` | machine_learning/liblinear/linear.cpp:2084-2095 | entry i of column j is entry j of row i, for all i and j |
| `Transpose.ColumnValid` | machine_learning/liblinear/linear.cpp:2084-2095 | each column lists its rows in strictly ascending order |
| `Transpose.EndIsTotal` | machine_learning/liblinear/linear.cpp:2077-2080 | the columns with their sentinels fill nnz + n slots exactly |
| `Transpose.CountColumns` | machine_learning/liblinear/linear.cpp:2065-2076 | col_ptr[j+1] counts the nodes of column j |
| `Transpose.PlaceColumns` | machine_learning/liblinear/linear.cpp:2077-2078 | col_ptr[j] becomes the start of column j |
| `Transpose.Scatter` | machine_learning/liblinear/linear.cpp:2084-2095 | every column holds exactly its nodes in its own range |
| `Transpose.Transpose` | machine_learning/liblinear/linear.cpp:2049-2102 | every slot is used once: each column's pairs in ascending row order, then one sentinel, without overlap |
| `GroupClasses.Classify` | machine_learning/liblinear/linear.cpp:2116-2141 | labels in first-occurrence order, with each instance's class and the class sizes |
| `GroupClasses.SwapLabels` | machine_learning/liblinear/linear.cpp:2148-2159 | the -1/+1 exception keeps classes and counts consistent |
| `GroupClasses.LabelsByFirstSight` | machine_learning/liblinear/linear.cpp:2116-2141 | the labels found are those of the data, each seen before all later ones |
| `GroupClasses.OrderedIs` | machine_learning/liblinear/linear.cpp:2143-2159 | the labels become 1, -1 when the data has both of these and no other, and else stay as found |
| `GroupClasses.EndIsAll` | machine_learning/liblinear/linear.cpp:2161-2172 | the counts sum to l |
| `GroupClasses.Group` | machine_learning/liblinear/linear.cpp:2106-2179 | perm is a permutation; start[c]..start[c]+count[c] lists exactly the instances of label[c] in original order; the labels are 1, -1 when the data has exactly these two, and else in order of first occurrence |
| `CrossValidation.FoldGrows` | machine_learning/liblinear/linear.cpp:2445-2446 | with at most l folds, no fold is empty |
| `CrossValidation.FoldEnds` | machine_learning/liblinear/linear.cpp:2445-2446 | the folds start at 0 and end at l |
| `CrossValidation.FoldStart` | machine_learning/liblinear/linear.cpp:2445-2446 | the start of fold i is the whole part of i l / nr_fold |
| `CrossValidation.FoldSizes` | machine_learning/liblinear/linear.cpp:2445-2446 | every fold has l / nr_fold instances, rounded down, or one more |
| `CrossValidation.RestIsComplement` | machine_learning/liblinear/linear.cpp:2461-2473 | the two copy loops give exactly the complement of the fold, each instance once and in the order of perm |
| `CrossValidation.RunFold` | machine_learning/liblinear/linear.cpp:2450-2479 | one fold is predicted from a model trained on its complement |
| `CrossValidation.CrossValidate` | machine_learning/liblinear/linear.cpp:2427-2483 | every target is written exactly once, from a model trained on exactly the instances outside its own fold, whose size is l / nr_fold rounded down or up, for every shuffle and fold count |
| `ElfRound.RoundUpExact` | gemfi-dsn2015/ext/libelf/elf_update.c:169-205 | roundup on 64-bit words is the mathematical one while the result is below 2^63 |
| `ElfLayout.CheckAll` | gemfi-dsn2015/ext/libelf/elf_update.c:141-160 | accepts exactly the descriptors that pass all checks, reports the first error, and returns the largest alignment |
| `ElfLayout.PlaceAll` | gemfi-dsn2015/ext/libelf/elf_update.c:162-173 | the offsets and the size the loop computes, with wrap-around |
| `ElfLayout.PlacedExact` | gemfi-dsn2015/ext/libelf/elf_update.c:162-173 | below 2^63 they are those of unbounded arithmetic |
| `ElfLayout.ComputeSectionExtents` | gemfi-dsn2015/ext/libelf/elf_update.c:74-226 | all branches: skipped, clean, rejected, application layout, library layout |
| `ElfLayout.DescriptorAligned` | gemfi-dsn2015/ext/libelf/elf_update.c:136-205 | section offset plus descriptor offset is a multiple of the descriptor's own alignment |
| `ElfLayout.LibraryLayout` | gemfi-dsn2015/ext/libelf/elf_update.c:136-225 | a section starts at the first multiple of its alignment from rc on, its descriptors follow each other at the first multiples of the largest descriptor alignment, inside it, disjoint and aligned in the file, otherwise unchanged; the alignment stored is the largest of its own, or the type's default, and the descriptors', every descriptor's alignment divides it, and rc becomes the end of the section |
| `ElfLayout.ApplicationLayout` | gemfi-dsn2015/ext/libelf/elf_update.c:175-225 | with ELF_F_LAYOUT a section is accepted exactly when no descriptor is aligned more strictly than it, its offset is a multiple of its alignment and its size reaches the end of every descriptor; then only s_size and s_offset are set, and rc becomes its end if that is larger |
| `ElfLayout.Untouched` | gemfi-dsn2015/ext/libelf/elf_update.c:117-124 | sections without file contents change nothing, clean ones only move rc to their end if that is larger |
| `ElfLayout.Refused` | gemfi-dsn2015/ext/libelf/elf_update.c:126-160 | which error an unknown section type and the first bad descriptor give |
| `ElfLayout.DescriptorTests` | gemfi-dsn2015/ext/libelf/elf_update.c:141-160 | the four tests of a descriptor and the error of each |
| `ElfFile.Elf.ComputeAll` | gemfi-dsn2015/ext/libelf/elf_update.c:281-284 | in library layout the sections are chained one behind the other |
| `ElfFile.Elf.ResyncSections` | gemfi-dsn2015/ext/libelf/elf_update.c:266-317 | in library layout no section is moved in the list and the assertion nrc == rc holds |
| `ElfFile.InsertFromIs` | gemfi-dsn2015/ext/libelf/elf_update.c:234-263 | into an ascending list of other sections a section is put so that the list stays ascending, and refused exactly when it overlaps or touches one of them |
| `ElfFile.WithoutIs` | gemfi-dsn2015/ext/libelf/elf_update.c:303-304 | removing a section takes out exactly the first entry of that section |
| `ElfFile.Elf.PlacePhdr` | gemfi-dsn2015/ext/libelf/elf_update.c:408-438 | offset and end of the program header table in both layout modes, and when it is refused, with the signed comparison of off_t |
| `ElfFile.Elf.PlaceShdr` | gemfi-dsn2015/ext/libelf/elf_update.c:448-471 | the same for the section header table |
| `ElfFile.ShowFileLayout` | gemfi-dsn2015/ext/libelf/elf_update.c:408-471 | header, program header table, sections and section header table are ascending and pairwise disjoint, the tables at the first aligned place behind what comes before |
| `ElfFile.StoredIff` | gemfi-dsn2015/ext/libelf/elf_update.c:204-217 | the fields of the file, cut to 32 bits in a 32-bit object, hold the layout, sh_addralign included, if and only if the class is 64-bit or the section header table starts below 2^32 |
| `ElfFile.SmallFileStored` | gemfi-dsn2015/ext/libelf/elf_update.c:448-471 | which is so for every file that ends at 2^32 or before |
| `ElfFile.Elf.ResyncElf` | gemfi-dsn2015/ext/libelf/elf_update.c:320-486 | with all file-occupying sections dirty, success means every section passed its checks, and a file below 2^63 gets the layout above, with the result the end of its last range; e_phoff, e_shoff, sh_offset, sh_size and sh_addralign then hold that layout if and only if the class is 64-bit or the section header table starts below 2^32 |
| `ElfFormat.HeaderSizes` | gemfi-dsn2015/ext/libelf/elf_update.c:400-471 | the header sizes are the sums of the field widths of the ELF format for both classes |
| `ElfFormat.XlateIs` | gemfi-dsn2015/ext/libelf/libelf_data.c:31-77 | which section types have which descriptor type |
| `ElfFormat.FalignIsWidest` | gemfi-dsn2015/ext/libelf/libelf_align.c:95-119 | the default alignment of a descriptor type is that of its widest field |
| `ElfFormat.SampleLayout` | gemfi-dsn2015/ext/libelf/elf_update.c:320-486 | a file with a program header and three sections, all its offsets as numbers |
| `ElfStrptr.Strptr` | gemfi-dsn2015/ext/libelf/elf_strptr.c:42-134 | both loops, as the walk over the descriptors they perform |
| `ElfStrptr.WalkInside` | gemfi-dsn2015/ext/libelf/elf_strptr.c:95-129 | whatever the descriptors say, an address returned lies in the buffer of a byte descriptor that can be aligned, and so can all live ones before it |
| `ElfStrptr.DirectInside` | gemfi-dsn2015/ext/libelf/elf_strptr.c:66-90 | the same with ELF_F_LAYOUT, alignments aside |
| `ElfStrptr.DirectIs` | gemfi-dsn2015/ext/libelf/elf_strptr.c:66-90 | with ELF_F_LAYOUT an offset goes to the first live descriptor whose range covers it, and to none if there is none |
| `ElfStrptr.LayoutIsLaid` | gemfi-dsn2015/ext/libelf/elf_update.c:164-173 | the layout pass leaves a string section in ascending, aligned, disjoint ranges |
| `ElfStrptr.WalkResolves` | gemfi-dsn2015/ext/libelf/elf_strptr.c:95-129 | in a tightly packed section every offset resolves to buf + (o - d_off) in the descriptor whose range contains it, and holes are rejected |
| `ElfStrptr.AgreesIff` | gemfi-dsn2015/ext/libelf/elf_strptr.c:95-129 | reader and layout pass agree on every offset if and only if every live descriptor starts at the previous live end rounded up to its own alignment |
| `ElfStrptr.UniformIsTight` | gemfi-dsn2015/ext/libelf/elf_strptr.c:95-129 | so they agree when all descriptors share one alignment and the non-empty ones have buffers |
| `ElfStrptr.EmptyDescriptorBreaksAgreement` | gemfi-dsn2015/ext/libelf/elf_strptr.c:98-99 | one alignment among the live descriptors alone is not enough: a section for which the layout pass leaves a hole at offset 3 that the reader resolves |
| `Fp80.Normalise` | gemfi-dsn2015/ext/fputils/fp80.c:226-231 | the loop ends with the integer bit set after 1 to 52 shifts |
| `Fp80.CvFd` | gemfi-dsn2015/ext/fputils/fp80.c:204-237 | the conversion from double, bit for bit |
| `Fp80.RoundTripIs` | gemfi-dsn2015/ext/fputils/fp80.c:167-237 | every non-NaN comes back bit-identical, subnormals included, and every NaN as the canonical one of its sign and kind |
| `Fp80.RoundTripIff` | gemfi-dsn2015/ext/fputils/fp80.c:167-237 | exactly which bit patterns come back unchanged |
| `Fp80.NanBecomes` | gemfi-dsn2015/ext/fputils/fp80.c:191-201 | the word each NaN comes back as: one of five |
| `Fp80.NanTo64` | gemfi-dsn2015/ext/fputils/fp80.c:191-201 | every 80-bit NaN becomes a 64-bit NaN of the same sign that is quiet exactly when bit 62 is set |
| `Fp80.NanKept` | gemfi-dsn2015/ext/fputils/fp80.c:191-201 | a NaN keeps sign and quiet or signalling kind, and a second trip changes nothing |
| `Fp80.ClassKept` | gemfi-dsn2015/ext/fputils/fp80.c:72-165 | fp80_cvfd keeps sign and class, subnormals becoming normals, and all predicates agree on the result |
| `Fp80.ConsistentIff` | gemfi-dsn2015/ext/fputils/fp80.c:72-165 | the predicates and fp80_classify agree on every pattern except the integer bit alone with a zero exponent |
| `Fp80Value.SubnormalHalved` | gemfi-dsn2015/ext/fputils/fp80.c:223-236 | every subnormal double is converted to half its value |
| `Fp80Value.ValueKeptIff` | gemfi-dsn2015/ext/fputils/fp80.c:204-237 | the value of a finite double is kept if and only if it is not subnormal |
| `Fp80Value.NormalTruncatesIff` | gemfi-dsn2015/ext/fputils/fp80.c:172-181 | in the normal range the result is the largest double not above the value in magnitude if and only if the integer bit is set |
| `Fp80Value.SmallTruncatesIff` | gemfi-dsn2015/ext/fputils/fp80.c:182-185 | below it, exactly when nothing is left after the shift, or for one pattern of 53 ones |
| `Fp80Value.TruncatesIff` | gemfi-dsn2015/ext/fputils/fp80.c:172-185 | exactly when fp80_cvtd truncates, for all values below the overflow threshold with a defined shift |
| `Fp80Value.OverflowIff` | gemfi-dsn2015/ext/fputils/fp80.c:186-189 | from the threshold on the result is the infinity of the same sign, and exactly when the value really exceeds every finite double |
| `StableSort.SortSorts` | gemfi-dsn2015/util/o3-pipeview.py:154-155 | sorted and a permutation |
| `StableSort.SortStable` | gemfi-dsn2015/util/o3-pipeview.py:154-169 | instructions with equal sequence numbers keep their order |
| `PipeView.Viewer.constructor` | gemfi-dsn2015/util/o3-pipeview.py:53-68 | an empty queue |
| `PipeView.Viewer.PrintInsts` | gemfi-dsn2015/util/o3-pipeview.py:167-188 | the sorted queue is taken off the front down to the threshold, and exactly what passes the filters is printed |
| `PipeView.Viewer.QueueInst` | gemfi-dsn2015/util/o3-pipeview.py:159-164 | at most max_threshold instructions wait after an insert |
| `PipeView.Viewer.ProcessTrace` | gemfi-dsn2015/util/o3-pipeview.py:126-150 | to the end of the file: for a timely trace the printed stream is the filtered stable sort of the trace |
| `PipeView.StreamIsPermutation` | gemfi-dsn2015/util/o3-pipeview.py:159-188 | every arrival leaves the queue exactly once |
| `PipeView.PrintedOnce` | gemfi-dsn2015/util/o3-pipeview.py:171-188 | an instruction is printed as often as it arrived if its number and fetch tick are within the limits that are set and it was retired if only committed ones are wanted, and else not at all |
| `PipeView.PrintedAreWanted` | gemfi-dsn2015/util/o3-pipeview.py:171-188 | every instruction in the printed stream meets the five tests |
| `PipeView.QueueLength` | gemfi-dsn2015/util/o3-pipeview.py:159-188 | the length of the queue after n arrivals, hence when it is printed |
| `PipeView.InOrderIff` | gemfi-dsn2015/util/o3-pipeview.py:159-188 | the stream is sorted, and the stable sort of the trace, if and only if nothing arrives behind its time |
| `PipeView.SortedIff` | gemfi-dsn2015/util/o3-pipeview.py:47-52 | the same as a condition on the trace alone: at each print, every later instruction has at most min_threshold earlier ones above it |
| `PipeView.BoundedDisorderSorts` | gemfi-dsn2015/util/o3-pipeview.py:47-52 | the assumption stated in the script suffices, whatever the filters |
| `PipeView.OneMoreIsTooMany` | gemfi-dsn2015/util/o3-pipeview.py:47-52 | for all thresholds, one place more can come out unsorted |

## Left out

- Logistic-regression solvers (`l2r_lr_fun`, `solve_l2r_lr_dual`, `solve_l1r_lr`): they need exp and log.
- Floating-point rounding in the solvers: `double` is `real`.
- `l2r_l2_svr_fun`: a small variation of the classification function object; TRON is modelled over `l2r_l2_svc_fun`.
- Crammer-Singer objective value: the loop that prints it is not modelled; w is only within a drift bound of the alphas' combination, and CsOptimal.OptimalIff speaks of the exact combination.
- CsRun.RunSound: the rows hold exactly, w only up to 1e-12 M per visit, because changes of alpha below 1e-12 are not passed on to w.
- CsGap.PassGap: speaks of passes during which w stays the exact combination; a change of alpha below 1e-12 that is not passed on to w is covered by the drift bound only.
- L1rL2Svc.RunDescends: says nothing across a visit whose line search was exhausted; such a step is untested and may raise the objective (see L1rSearch for when that cannot happen).
- PipeView.Viewer.ProcessTrace: parsing of trace lines, the skipping of lines before the start, the early stop (its call lacks an argument) and the printed text.
- ElfFile.Elf.ResyncElf: with clean sections or application layout only the single steps are specified, because `_libelf_insert_section` compares a section with other sections but not with the headers.
- `sh_entsize`, the identification bytes and the extended numbering fields of the ELF headers, and the later writing of the file.
- Fp80Value.TruncatesIff: shifts of 64 or more on non-zero values, which C leaves undefined.
- GroupClasses.Group: needs at least one instance, as the code does (`start[0]`); labels are the integers after the cast, and the growing of the label array is a sequence.
- CrossValidation.FoldGrows: `i*l` is unbounded, no 32-bit overflow; cross-validation needs at least one instance and one fold.
- DualSvr.Solve: p >= 0 and C > 0, as the parameter check demands.
- Model files, prediction, parameter checking, command lines, printing and all other parts of the repository.
