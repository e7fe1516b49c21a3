/**
 Solver_MCSVM_CS::solve_sub_problem of linear.cpp.  For one instance it has to
 minimise  sum_r A/2 a_r^2 + B_r a_r  under the caps  a_r <= C (r = yi),
 a_r <= 0 (other r), with the sum of a fixed.  The code sorts the values
 D_r = B_r + A*cap_r in descending order, walks down them to find the water
 level beta, and clips.  The result is proved to be the unique minimiser.
 */
module CsSubProblem {
  import opened LinAlg

  // ------------------------------------------------------- descending sort

  ghost predicate Descending(s: Vec) {
    forall i, j :: 0 <= i < j < |s| ==> s[i] >= s[j]
  }

  function Insert(x: real, s: Vec): (r: Vec)
    requires Descending(s)
    ensures Descending(r)
    ensures multiset(r) == multiset(s) + multiset{x}
    ensures |r| == |s| + 1
  {
    if s == [] || x >= s[0] then [x] + s else
      var r := [s[0]] + Insert(x, s[1..]);
      InsertKeeps(x, s, Insert(x, s[1..]));
      r
  }

  lemma InsertKeeps(x: real, s: Vec, t: Vec)
    requires s != [] && Descending(s) && x < s[0] && Descending(t)
    requires multiset(t) == multiset(s[1..]) + multiset{x} && |t| == |s|
    ensures Descending([s[0]] + t)
    ensures multiset([s[0]] + t) == multiset(s) + multiset{x}
  {
    assert s == [s[0]] + s[1..];
    forall j | 0 <= j < |t| ensures s[0] >= t[j] {
      assert t[j] in multiset(t);
      if t[j] in multiset(s[1..]) {
        var k :| 0 <= k < |s[1..]| && s[1..][k] == t[j];
        assert s[k + 1] == t[j];
      }
    }
  }

  function Sorted(s: Vec): (r: Vec)
    ensures Descending(r) && multiset(r) == multiset(s) && |r| == |s|
  {
    if s == [] then [] else
      assert s == s[..|s| - 1] + [s[|s| - 1]];
      Insert(s[|s| - 1], Sorted(s[..|s| - 1]))
  }

  /** qsort with compare_double: descending order. */
  method SortDescending(D: array<real>)
    modifies D
    ensures Descending(D[..]) && multiset(D[..]) == multiset(old(D[..]))
  {
    var t := Sorted(D[..]);
    for i := 0 to D.Length
      invariant forall j :: 0 <= j < i ==> D[j] == t[j]
    {
      D[i] := t[i];
    }
    assert D[..] == t;
  }

  // ------------------------------------------------------ what is asked for

  function Cap(r: int, yi: int, C: real): real {
    if r == yi then C else 0.0
  }

  /** The sum the active entries must keep: 0, or -C when yi itself is fixed at its cap. */
  ghost function Target(yi: int, C: real, n: nat): real {
    if yi < n then 0.0 else -C
  }

  ghost predicate Feasible(a: Vec, yi: int, C: real) {
    && (forall r :: 0 <= r < |a| ==> a[r] <= Cap(r, yi, C))
    && Sum(a) == Target(yi, C, |a|)
  }

  ghost function CostTerm(A: real, b: real, x: real): real {
    A / 2.0 * (x * x) + b * x
  }

  ghost function CostTo(A: real, B: Vec, a: Vec, k: nat): real
    requires k <= |a| && k <= |B|
  {
    if k == 0 then 0.0 else CostTo(A, B, a, k - 1) + CostTerm(A, B[k - 1], a[k - 1])
  }

  ghost function Cost(A: real, B: Vec, a: Vec): real
    requires |a| == |B|
  {
    CostTo(A, B, a, |a|)
  }

  ghost function SquareOf(x: real): real {
    x * x
  }

  ghost function DistTo(a: Vec, b: Vec, k: nat): real
    requires k <= |a| && k <= |b|
  {
    if k == 0 then 0.0 else DistTo(a, b, k - 1) + SquareOf(a[k - 1] - b[k - 1])
  }

  /** The entry the code writes for level beta. */
  function Clip(A: real, b: real, cap: real, beta: real): real
    requires A > 0.0
  {
    Min(cap, (beta - b) / A)
  }

  ghost predicate AtLevel(A: real, B: Vec, yi: int, C: real, beta: real, a: Vec)
    requires A > 0.0
  {
    |a| == |B| && forall r :: 0 <= r < |a| ==> a[r] == Clip(A, B[r], Cap(r, yi, C), beta)
  }

  // -------------------------------------------------------------- optimality

  lemma TermBelow(A: real, b: real, cap: real, beta: real, x: real)
    requires A > 0.0 && x <= cap
    ensures var z := Clip(A, b, cap, beta);
            CostTerm(A, b, x) >= CostTerm(A, b, z) + beta * (x - z) + A / 2.0 * SquareOf(x - z)
  {
    var z := Clip(A, b, cap, beta);
    var g := A * z + b - beta;
    var t := (beta - b) / A;
    assert A * t == beta - b;
    var q: real := 0.0;
    if z == t {
      assert g == 0.0;
    } else {
      var p := Product(A, t - z);
      assert A * (t - z) == A * t - A * z;
      q := Product(-g, z - x);
      assert (-g) * (z - x) == g * (x - z);
    }
    assert g * (x - z) >= 0.0;
    assert A / 2.0 * (x * x) - A / 2.0 * (z * z) - A / 2.0 * ((x - z) * (x - z)) == (A * z) * (x - z);
    assert g * (x - z) == (A * z) * (x - z) + b * (x - z) - beta * (x - z);
  }

  lemma {:induction false} LevelBelow(A: real, B: Vec, yi: int, C: real, beta: real, a: Vec, x: Vec, k: nat)
    requires A > 0.0 && AtLevel(A, B, yi, C, beta, a) && |x| == |a| && k <= |a|
    requires forall r :: 0 <= r < |x| ==> x[r] <= Cap(r, yi, C)
    ensures CostTo(A, B, x, k) >= CostTo(A, B, a, k) + beta * (SumTo(x, k) - SumTo(a, k)) + A / 2.0 * DistTo(x, a, k)
  {
    hide Clip, Cap, CostTerm, SquareOf;
    if k > 0 {
      LevelBelow(A, B, yi, C, beta, a, x, k - 1);
      TermBelow(A, B[k - 1], Cap(k - 1, yi, C), beta, x[k - 1]);
      Accumulate(beta, SumTo(x, k - 1), SumTo(a, k - 1), x[k - 1], a[k - 1], A / 2.0, DistTo(x, a, k - 1),
                 SquareOf(x[k - 1] - a[k - 1]));
    }
  }

  lemma Accumulate(beta: real, sx: real, sa: real, x: real, a: real, h: real, d: real, q: real)
    ensures beta * ((sx + x) - (sa + a)) + h * (d + q) == beta * (sx - sa) + h * d + beta * (x - a) + h * q
  {
  }

  /** Entries clipped at one common level, with the right sum, are optimal. */
  lemma LevelIsOptimal(A: real, B: Vec, yi: int, C: real, beta: real, a: Vec, x: Vec)
    requires A > 0.0 && AtLevel(A, B, yi, C, beta, a) && |x| == |a|
    requires Feasible(x, yi, C) && Feasible(a, yi, C)
    ensures Cost(A, B, x) >= Cost(A, B, a) + A / 2.0 * DistTo(x, a, |a|)
  {
    hide Clip, Cap, CostTo, DistTo, LinAlg.SumTo;
    LevelBelow(A, B, yi, C, beta, a, x, |a|);
    assert beta * (Sum(x) - Sum(a)) == 0.0;
  }

  lemma {:induction false} DistPositive(a: Vec, b: Vec, k: nat)
    requires k <= |a| && k <= |b|
    ensures DistTo(a, b, k) >= 0.0
    ensures (exists i :: 0 <= i < k && a[i] != b[i]) ==> DistTo(a, b, k) > 0.0
  {
    if k > 0 {
      DistPositive(a, b, k - 1);
      var y := Square(a[k - 1] - b[k - 1]);
    }
  }

  // ---------------------------------------------------------- the water level

  /** sum_{i<k} max(0, s_i - beta) */
  ghost function OverTo(s: Vec, beta: real, k: nat): real
    requires k <= |s|
  {
    if k == 0 then 0.0 else OverTo(s, beta, k - 1) + Max(0.0, s[k - 1] - beta)
  }

  lemma {:induction false} OverRemove(s: Vec, beta: real, i: nat, k: nat)
    requires i < |s| && k <= |s|
    ensures var t := s[..i] + s[i + 1..];
            OverTo(s, beta, k) == if k <= i then OverTo(t, beta, k) else OverTo(t, beta, k - 1) + Max(0.0, s[i] - beta)
  {
    if k > 0 {
      OverRemove(s, beta, i, k - 1);
      var t := s[..i] + s[i + 1..];
      if k - 1 > i { assert t[k - 2] == s[k - 1]; }
    }
  }

  lemma {:induction false} OverCongruent(s: Vec, t: Vec, beta: real, k: nat)
    requires k <= |s| && k <= |t| && forall i :: 0 <= i < k ==> s[i] == t[i]
    ensures OverTo(s, beta, k) == OverTo(t, beta, k)
  {
    if k > 0 { OverCongruent(s, t, beta, k - 1); }
  }

  lemma OverLast(s: Vec, beta: real)
    requires |s| > 0
    ensures var n := |s| - 1; OverTo(s, beta, |s|) == OverTo(s[..n], beta, n) + Max(0.0, s[n] - beta)
  {
    OverCongruent(s, s[..|s| - 1], beta, |s| - 1);
  }

  lemma RemoveOne(t: Vec, i: nat)
    requires i < |t|
    ensures multiset(t[..i] + t[i + 1..]) == multiset(t) - multiset{t[i]}
  {
    assert t == t[..i] + [t[i]] + t[i + 1..];
  }

  /** The sum does not depend on the order: sorting is harmless. */
  lemma {:induction false} OverPermuted(s: Vec, t: Vec, beta: real)
    requires multiset(s) == multiset(t)
    ensures |s| == |t| && OverTo(s, beta, |s|) == OverTo(t, beta, |t|)
    decreases |s|
  {
    hide OverTo, LinAlg.Max;
    assert |multiset(s)| == |multiset(t)|;
    if |s| > 0 {
      var n := |s| - 1;
      var i := FindLast(s, t);
      RemoveOne(s, n);
      assert s[..n] + s[n + 1..] == s[..n];
      RemoveOne(t, i);
      OverPermuted(s[..n], t[..i] + t[i + 1..], beta);
      OverLast(s, beta);
      OverRemove(t, beta, i, |t|);
    } else {
      OverNone(s, t, beta);
    }
  }

  lemma OverNone(s: Vec, t: Vec, beta: real)
    requires |s| == |t| == 0
    ensures OverTo(s, beta, 0) == OverTo(t, beta, 0)
  {
  }

  lemma FindLast(s: Vec, t: Vec) returns (i: nat)
    requires multiset(s) == multiset(t) && |s| > 0
    ensures i < |t| && t[i] == s[|s| - 1]
  {
    assert s[|s| - 1] in multiset(t);
    i :| 0 <= i < |t| && t[i] == s[|s| - 1];
  }

  /** Splitting the sorted values at the level: the first r lie above it, the rest below. */
  lemma {:induction false} OverSplit(T: Vec, beta: real, r: nat, k: nat)
    requires r <= |T| && k <= |T|
    requires forall i :: 0 <= i < r ==> T[i] >= beta
    requires forall i :: r <= i < |T| ==> T[i] <= beta
    ensures OverTo(T, beta, k) == if k <= r then SumTo(T, k) - Times(k, beta) else SumTo(T, r) - Times(r, beta)
  {
    if k > 0 { OverSplit(T, beta, r, k - 1); }
  }

  /** sum_r a_r = sum_r cap_r - (sum_r max(0, D_r - beta)) / A */
  lemma {:induction false} LevelSum(A: real, B: Vec, yi: int, C: real, beta: real, a: Vec, D: Vec, k: nat)
    requires A > 0.0 && AtLevel(A, B, yi, C, beta, a) && |D| == |B| && k <= |a|
    requires forall r :: 0 <= r < |D| ==> D[r] == B[r] + A * Cap(r, yi, C)
    ensures A * SumTo(a, k) == A * (if 0 <= yi < k then C else 0.0) - OverTo(D, beta, k)
  {
    hide LinAlg.Max, LinAlg.Min;
    if k > 0 {
      LevelSum(A, B, yi, C, beta, a, D, k - 1);
      var r := k - 1;
      var cap := Cap(r, yi, C);
      ClipTerm(A, B[r], cap, beta, D[r]);
      AddScaled(A, SumTo(a, r), a[r], if 0 <= yi < r then C else 0.0, cap);
    }
  }

  lemma AddScaled(A: real, s: real, x: real, c: real, cap: real)
    ensures A * (s + x) == A * s + A * x
    ensures A * (c + cap) == A * c + A * cap
  {
  }

  lemma ClipTerm(A: real, b: real, cap: real, beta: real, d: real)
    requires A > 0.0 && d == b + A * cap
    ensures A * Clip(A, b, cap, beta) == A * cap - Max(0.0, d - beta)
  {
    var t := (beta - b) / A;
    assert A * t == beta - b;
    assert A * cap - A * t == A * (cap - t);
    if cap < t { var p := Product(A, t - cap); assert A * (t - cap) == A * t - A * cap; }
      else { var p := Product(A, cap - t); }
  }

  /** The level found by the loop gives exactly the target sum. */
  lemma LevelIsFeasible(A: real, B: Vec, yi: int, C: real, D: Vec, T: Vec, r: nat, beta: real, a: Vec)
    requires A > 0.0 && C >= 0.0 && 0 <= yi
    requires AtLevel(A, B, yi, C, beta, a) && |D| == |B|
    requires forall i :: 0 <= i < |D| ==> D[i] == B[i] + A * Cap(i, yi, C)
    requires multiset(T) == multiset(D) && Descending(T) && 1 <= r <= |T|
    requires Times(r, beta) == SumTo(T, r) - A * C
    requires beta <= T[r - 1] && (r < |T| ==> T[r] <= beta)
    ensures Feasible(a, yi, C)
  {
    hide OverTo, LinAlg.SumTo, LinAlg.Max;
    OverPermuted(D, T, beta);
    OverSplit(T, beta, r, |T|);
    LevelSum(A, B, yi, C, beta, a, D, |a|);
    assert A * Target(yi, C, |a|) == A * (if 0 <= yi < |a| then C else 0.0) - A * C;
    CancelPositive(A, Sum(a), Target(yi, C, |a|));
  }

  lemma CancelPositive(A: real, x: real, y: real)
    requires A > 0.0 && A * x == A * y
    ensures x == y
  {
    assert A * (x - y) == 0.0;
  }

  // ------------------------------------------------------------- the routine

  function Times(r: nat, x: real): real {
    r as real * x
  }

  /** The loop over the sorted values: r is the number of values above the level. */
  method FindLevel(T: array<real>, AC: real) returns (r: nat, beta: real)
    requires T.Length >= 1 && Descending(T[..]) && AC >= 0.0
    ensures 1 <= r <= T.Length
    ensures Times(r, beta) == SumTo(T[..], r) - AC
    ensures beta <= T[r - 1] && (r < T.Length ==> T[r] <= beta)
  {
    hide Times, Descending;
    beta := T[0] - AC;
    r := 1;
    TimesOne(T[0]);
    while r < T.Length && beta < Times(r, T[r])
      invariant 1 <= r <= T.Length
      invariant beta == SumTo(T[..], r) - AC
      invariant beta <= Times(r, T[r - 1])
    {
      OneMore(beta, r, T[r]);
      beta := beta + T[r];
      r := r + 1;
    }
    DivideLe(beta, r, T[r - 1]);
    if r < T.Length { DivideGe(beta, r, T[r]); }
    beta := beta / r as real;
  }

  lemma TimesOne(x: real)
    ensures Times(1, x) == x
  {
  }

  lemma OneMore(beta: real, r: nat, x: real)
    requires beta <= Times(r, x)
    ensures beta + x <= Times(r + 1, x)
  {
    assert (r + 1) as real == r as real + 1.0;
  }

  lemma DivideLe(x: real, r: nat, y: real)
    requires r > 0 && x <= Times(r, y)
    ensures x / r as real <= y && Times(r, x / r as real) == x
  {
    var k, q := r as real, x / r as real;
    assert q * k == x;
    if q > y { var p := Product(q - y, k); }
  }

  lemma DivideGe(x: real, r: nat, y: real)
    requires r > 0 && x >= Times(r, y)
    ensures x / r as real >= y
  {
    var k, q := r as real, x / r as real;
    assert q * k == x;
    if q < y { var p := Product(y - q, k); }
  }

  /** D = B, with A*C added at yi when yi is active. */
  method Raise(A: real, yi: int, C: real, active: nat, B: array<real>) returns (D: array<real>)
    requires 0 <= yi && active <= B.Length
    ensures fresh(D) && D.Length == active
    ensures forall i :: 0 <= i < active ==> D[i] == B[i] + A * Cap(i, yi, C)
  {
    D := new real[active];
    for r := 0 to active
      invariant forall j :: 0 <= j < r ==> D[j] == B[j]
    {
      D[r] := B[r];
    }
    if yi < active {
      D[yi] := D[yi] + A * C;
    }
  }

  method ClipAll(A: real, yi: int, C: real, active: nat, B: array<real>, beta: real, alphaNew: array<real>)
    requires A > 0.0 && active <= B.Length && active <= alphaNew.Length && B != alphaNew
    modifies alphaNew
    ensures AtLevel(A, B[..active], yi, C, beta, alphaNew[..active])
    ensures alphaNew[active..] == old(alphaNew[active..])
  {
    for r := 0 to active
      invariant forall j :: 0 <= j < r ==> alphaNew[j] == Clip(A, B[j], Cap(j, yi, C), beta)
      invariant alphaNew[active..] == old(alphaNew[active..])
    {
      if r == yi {
        alphaNew[r] := Min(C, (beta - B[r]) / A);
      } else {
        alphaNew[r] := Min(0.0, (beta - B[r]) / A);
      }
    }
  }

  /** a is feasible, and every other feasible point costs at least A/2*|x-a|^2 more. */
  ghost predicate Minimiser(A: real, B: Vec, yi: int, C: real, a: Vec) {
    && |a| == |B|
    && Feasible(a, yi, C)
    && forall x: Vec :: |x| == |a| && Feasible(x, yi, C) ==>
        Cost(A, B, x) >= Cost(A, B, a) + A / 2.0 * DistTo(x, a, |a|)
  }

  lemma Solved(A: real, B: Vec, yi: int, C: real, D: Vec, T: Vec, r: nat, beta: real, a: Vec)
    requires A > 0.0 && C >= 0.0 && 0 <= yi
    requires AtLevel(A, B, yi, C, beta, a) && |D| == |B|
    requires forall i :: 0 <= i < |D| ==> D[i] == B[i] + A * Cap(i, yi, C)
    requires multiset(T) == multiset(D) && Descending(T) && 1 <= r <= |T|
    requires Times(r, beta) == SumTo(T, r) - A * C
    requires beta <= T[r - 1] && (r < |T| ==> T[r] <= beta)
    ensures Minimiser(A, B, yi, C, a)
  {
    hide Feasible, Cost, DistTo, Clip, Cap, Descending, LinAlg.SumTo;
    LevelIsFeasible(A, B, yi, C, D, T, r, beta, a);
    forall x: Vec | |x| == |a| && Feasible(x, yi, C)
      ensures Cost(A, B, x) >= Cost(A, B, a) + A / 2.0 * DistTo(x, a, |a|)
    {
      LevelIsOptimal(A, B, yi, C, beta, a, x);
    }
  }

  method SolveSubProblem(A: real, yi: int, C: real, active: nat, B: array<real>, alphaNew: array<real>)
    requires A > 0.0 && C >= 0.0 && 0 <= yi
    requires 1 <= active <= B.Length && active <= alphaNew.Length && B != alphaNew
    modifies alphaNew
    ensures Minimiser(A, B[..active], yi, C, alphaNew[..active])
    ensures alphaNew[active..] == old(alphaNew[active..])
  {
    hide *;
    var D := Raise(A, yi, C, active, B);
    ghost var Bs, Ds := B[..active], D[..];
    SortDescending(D);
    ghost var T := D[..];
    var p := Product(A, C);
    var r, beta := FindLevel(D, A * C);
    ClipAll(A, yi, C, active, B, beta, alphaNew);
    Solved(A, Bs, yi, C, Ds, T, r, beta, alphaNew[..active]);
  }

  /** The minimiser is unique. */
  lemma MinimiserUnique(A: real, B: Vec, yi: int, C: real, a: Vec, x: Vec)
    requires A > 0.0 && |x| == |a| && Minimiser(A, B, yi, C, a)
    requires Feasible(x, yi, C) && Cost(A, B, x) <= Cost(A, B, a)
    ensures x == a
  {
    DistPositive(x, a, |a|);
    var p := Product(A / 2.0, DistTo(x, a, |a|));
    assert forall i :: 0 <= i < |a| ==> x[i] == a[i];
  }
}
