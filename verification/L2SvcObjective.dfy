/**
 The objective of l2r_l2_svc_fun,
   f(w) = 0.5 |w|^2 + sum_i C_i max(0, 1 - y_i w.x_i)^2 ,
 and the vectors that `grad` and `Hv` compute from it.  `Gradient` is defined
 the way the code builds it, from the rows of the active set only; the lemmas
 show it is the derivative of f, with f trapped between two parabolas.
 */
module L2SvcObjective {
  import opened LinAlg
  import opened Sparse
  import opened Hessian

  /** y_i is +1 or -1, as train() writes it, and the weights are not negative. */
  ghost predicate ValidSvc(p: Problem, C: Vec) {
    && ValidProblem(p)
    && |C| == |p.x|
    && (forall i :: 0 <= i < |p.y| ==> p.y[i] == 1.0 || p.y[i] == -1.0)
    && (forall i :: 0 <= i < |C| ==> C[i] >= 0.0)
  }

  ghost function Margin(p: Problem, w: Vec, i: nat): real
    requires ValidProblem(p) && |w| == p.n && i < |p.x|
  {
    p.y[i] * Dot(X(p)[i], w)
  }

  ghost function Hinge(c: real, m: real): real {
    if 1.0 - m > 0.0 then c * (1.0 - m) * (1.0 - m) else 0.0
  }

  ghost function LossTo(p: Problem, C: Vec, w: Vec, k: nat): real
    requires ValidSvc(p, C) && |w| == p.n && k <= |p.x|
  {
    if k == 0 then 0.0 else LossTo(p, C, w, k - 1) + Hinge(C[k - 1], Margin(p, w, k - 1))
  }

  ghost function Objective(p: Problem, C: Vec, w: Vec): real
    requires ValidSvc(p, C) && |w| == p.n
  {
    Dot(w, w) / 2.0 + LossTo(p, C, w, |p.x|)
  }

  /** The instances among the first k whose margin is below one, in ascending order. */
  ghost function ActiveTo(p: Problem, w: Vec, k: nat): (r: seq<int>)
    requires ValidProblem(p) && |w| == p.n && k <= |p.x|
    ensures |r| <= k
    ensures forall j :: 0 <= j < |r| ==> 0 <= r[j] < k
  {
    if k == 0 then []
    else if Margin(p, w, k - 1) < 1.0 then ActiveTo(p, w, k - 1) + [k - 1]
    else ActiveTo(p, w, k - 1)
  }

  ghost function Active(p: Problem, w: Vec): (r: seq<int>)
    requires ValidProblem(p) && |w| == p.n
    ensures |r| <= |p.x|
    ensures forall j :: 0 <= j < |r| ==> 0 <= r[j] < |p.x|
  {
    ActiveTo(p, w, |p.x|)
  }

  ghost function Coef(p: Problem, C: Vec, w: Vec, i: nat): real
    requires ValidSvc(p, C) && |w| == p.n && i < |p.x|
  {
    C[i] * p.y[i] * (Margin(p, w, i) - 1.0)
  }

  /** C_i y_i (m_i - 1) for the same instances: what `grad` packs into z. */
  ghost function CoefTo(p: Problem, C: Vec, w: Vec, k: nat): (r: Vec)
    requires ValidSvc(p, C) && |w| == p.n && k <= |p.x|
    ensures |r| == |ActiveTo(p, w, k)|
  {
    if k == 0 then []
    else if Margin(p, w, k - 1) < 1.0 then
      CoefTo(p, C, w, k - 1) + [Coef(p, C, w, k - 1)]
    else CoefTo(p, C, w, k - 1)
  }

  lemma NoneActive(p: Problem, C: Vec, w: Vec)
    requires ValidSvc(p, C) && |w| == p.n
    ensures ActiveTo(p, w, 0) == [] && CoefTo(p, C, w, 0) == []
  {
    hide Margin, Coef;
  }

  /** The next row is taken up exactly when its margin m is below one. */
  lemma ActiveStep(p: Problem, C: Vec, w: Vec, i: nat, m: real)
    requires ValidSvc(p, C) && |w| == p.n && i < |p.x| && m == Margin(p, w, i)
    ensures m < 1.0 ==>
              && ActiveTo(p, w, i + 1) == ActiveTo(p, w, i) + [i]
              && CoefTo(p, C, w, i + 1) == CoefTo(p, C, w, i) + [Coef(p, C, w, i)]
    ensures m >= 1.0 ==> ActiveTo(p, w, i + 1) == ActiveTo(p, w, i) && CoefTo(p, C, w, i + 1) == CoefTo(p, C, w, i)
  {
    hide Margin, Coef;
  }

  lemma CoefIs(p: Problem, C: Vec, w: Vec, i: nat, m: real, c: real)
    requires ValidSvc(p, C) && |w| == p.n && i < |p.x| && m == Margin(p, w, i) && c == C[i] * p.y[i] * (m - 1.0)
    ensures c == Coef(p, C, w, i)
  {
    hide Margin;
  }

  ghost function Select(p: Problem, I: seq<int>): (r: seq<Vec>)
    requires ValidProblem(p) && forall j :: 0 <= j < |I| ==> 0 <= I[j] < |p.x|
    ensures |r| == |I|
    ensures forall j :: 0 <= j < |I| ==> r[j] == X(p)[I[j]] && |r[j]| == p.n
  {
    seq(|I|, j requires 0 <= j < |I| => X(p)[I[j]])
  }

  ghost function SelectC(C: Vec, I: seq<int>): (r: Vec)
    requires forall j :: 0 <= j < |I| ==> 0 <= I[j] < |C|
    ensures |r| == |I|
    ensures forall j :: 0 <= j < |I| ==> r[j] == C[I[j]]
  {
    seq(|I|, j requires 0 <= j < |I| => C[I[j]])
  }

  ghost function Gradient(p: Problem, C: Vec, w: Vec): (g: Vec)
    requires ValidSvc(p, C) && |w| == p.n
    ensures |g| == p.n
  {
    var I := Active(p, w);
    Axpy(w, 2.0, Comb(CoefTo(p, C, w, |p.x|), Select(p, I), p.n, |I|))
  }

  /** The generalised Hessian at w, over the same active set. */
  ghost function ActiveQuad(p: Problem, C: Vec, I: seq<int>): (q: Quad)
    requires ValidSvc(p, C) && forall j :: 0 <= j < |I| ==> 0 <= I[j] < |p.x|
    ensures Valid(q) && q.n == p.n
  {
    Quad(p.n, Select(p, I), SelectC(C, I))
  }

  // ------------------------------------------- the gradient is the gradient

  lemma {:induction false} CombPrefix(c: Vec, a: real, X: seq<Vec>, v: Vec, n: nat, k: nat)
    requires k <= |c| == |X| && |v| == n
    requires forall i :: 0 <= i < |X| ==> |X[i]| == n
    ensures Comb(c + [a], X + [v], n, k) == Comb(c, X, n, k)
  {
    if k > 0 { CombPrefix(c, a, X, v, n, k - 1); }
  }

  /** The slope of the i-th loss at w, along s. */
  ghost function Slope(p: Problem, C: Vec, w: Vec, s: Vec, i: nat): real
    requires ValidSvc(p, C) && |w| == |s| == p.n && i < |p.x|
  {
    if Margin(p, w, i) < 1.0 then C[i] * (Margin(p, w, i) - 1.0) * Margin(p, s, i) else 0.0
  }

  ghost function SlopeTo(p: Problem, C: Vec, w: Vec, s: Vec, k: nat): real
    requires ValidSvc(p, C) && |w| == |s| == p.n && k <= |p.x|
  {
    if k == 0 then 0.0 else SlopeTo(p, C, w, s, k - 1) + Slope(p, C, w, s, k - 1)
  }

  lemma CombStep(c: Vec, a: real, X: seq<Vec>, v: Vec, n: nat, s: Vec)
    requires |c| == |X| && |v| == |s| == n
    requires forall i :: 0 <= i < |X| ==> |X[i]| == n
    ensures Dot(Comb(c + [a], X + [v], n, |c| + 1), s) == Dot(Comb(c, X, n, |c|), s) + a * Dot(v, s)
  {
    hide LinAlg.DotTo;
    CombPrefix(c, a, X, v, n, |c|);
    DotAxpy(Comb(c, X, n, |c|), a, v, s);
  }

  lemma SlopeOfActive(p: Problem, C: Vec, w: Vec, s: Vec, i: nat)
    requires ValidSvc(p, C) && |w| == |s| == p.n && i < |p.x| && Margin(p, w, i) < 1.0
    ensures Coef(p, C, w, i) * Dot(X(p)[i], s) == Slope(p, C, w, s, i)
  {
    hide LinAlg.DotTo, Sparse.Dense, Sparse.X;
    var m, v := Margin(p, w, i), Dot(X(p)[i], s);
    assert C[i] * p.y[i] * (m - 1.0) * v == C[i] * (m - 1.0) * (p.y[i] * v);
  }

  lemma SlopeOfInactive(p: Problem, C: Vec, w: Vec, s: Vec, i: nat)
    requires ValidSvc(p, C) && |w| == |s| == p.n && i < |p.x| && Margin(p, w, i) >= 1.0
    ensures Slope(p, C, w, s, i) == 0.0
  {
  }

  lemma {:induction false} ActiveCombDot(p: Problem, C: Vec, w: Vec, s: Vec, k: nat)
    requires ValidSvc(p, C) && |w| == |s| == p.n && k <= |p.x|
    ensures var I := ActiveTo(p, w, k);
            Dot(Comb(CoefTo(p, C, w, k), Select(p, I), p.n, |I|), s) == SlopeTo(p, C, w, s, k)
  {
    hide LinAlg.Dot, LinAlg.Comb, Sparse.Dense, Sparse.X, Margin, Coef, Slope;
    if k == 0 {
      EmptyComb(p, s);
    } else {
      ActiveCombDot(p, C, w, s, k - 1);
      if Margin(p, w, k - 1) >= 1.0 {
        SlopeOfInactive(p, C, w, s, k - 1);
      } else {
        var I, c, v := ActiveTo(p, w, k - 1), CoefTo(p, C, w, k - 1), X(p)[k - 1];
        assert Select(p, I + [k - 1]) == Select(p, I) + [v];
        CombStep(c, Coef(p, C, w, k - 1), Select(p, I), v, p.n, s);
        SlopeOfActive(p, C, w, s, k - 1);
      }
    }
  }

  lemma EmptyComb(p: Problem, s: Vec)
    requires ValidProblem(p) && |s| == p.n
    ensures Dot(Comb([], Select(p, []), p.n, 0), s) == 0.0
  {
    DotZero(s);
  }

  lemma GradientDot(p: Problem, C: Vec, w: Vec, s: Vec)
    requires ValidSvc(p, C) && |w| == |s| == p.n
    ensures Dot(Gradient(p, C, w), s) == Dot(w, s) + 2.0 * SlopeTo(p, C, w, s, |p.x|)
  {
    hide LinAlg.Dot, LinAlg.Axpy, LinAlg.Comb, Select, ActiveTo, CoefTo, SlopeTo, Sparse.Dense, Sparse.X;
    var I := Active(p, w);
    var r := Comb(CoefTo(p, C, w, |p.x|), Select(p, I), p.n, |I|);
    ActiveCombDot(p, C, w, s, |p.x|);
    DotAxpy(w, 2.0, r, s);
    assert Gradient(p, C, w) == Axpy(w, 2.0, r);
  }

  /** sum_{i<k} C_i (x_i.s)^2 */
  ghost function SpreadTo(p: Problem, C: Vec, s: Vec, k: nat): real
    requires ValidSvc(p, C) && |s| == p.n && k <= |p.x|
  {
    if k == 0 then 0.0 else SpreadTo(p, C, s, k - 1) + C[k - 1] * (Margin(p, s, k - 1) * Margin(p, s, k - 1))
  }

  lemma HingeBounds(c: real, m: real, t: real)
    requires c >= 0.0
    ensures var slope := if m < 1.0 then c * (m - 1.0) * t else 0.0;
            Hinge(c, m) + 2.0 * slope <= Hinge(c, m + t) <= Hinge(c, m) + 2.0 * slope + c * (t * t)
  {
    var a, b := 1.0 - m, 1.0 - (m + t);
    var tt := Square(t);
    if m < 1.0 {
      assert c * (m - 1.0) * t == -(c * a * t);
      if b <= 0.0 { HingeLeaves(c, a, b, t); } else { HingeStays(c, a, b, t); }
    } else if b > 0.0 {
      HingeEnters(c, a, b, t);
    } else {
      var ct := Product(c, tt);
    }
  }

  lemma HingeStays(c: real, a: real, b: real, t: real)
    requires c >= 0.0 && b == a - t
    ensures c * b * b == c * a * a - 2.0 * (c * a * t) + c * (t * t) && c * (t * t) >= 0.0
  {
    var tt := Square(t);
    var ct := Product(c, tt);
    assert b * b == a * a - 2.0 * (a * t) + t * t;
    assert c * b * b == c * (b * b) && c * a * a == c * (a * a) && c * a * t == c * (a * t);
  }

  lemma HingeLeaves(c: real, a: real, b: real, t: real)
    requires c >= 0.0 && b == a - t && a > 0.0 && b <= 0.0
    ensures c * a * a - 2.0 * (c * a * t) <= 0.0 <= c * a * a - 2.0 * (c * a * t) + c * (t * t)
  {
    HingeStays(c, a, b, t);
    var bb := Square(b);
    var cb := Product(c, bb);
    assert c * b * b == c * (b * b) && c * a * a == c * (a * a) && c * a * t == c * (a * t);
    var p := Product(a, -b);
    var cp := Product(c, a * -b);
    assert a * -b == a * t - a * a;
    var aa := Square(a);
    var ca := Product(c, aa);
    assert c * (a * t - a * a) == c * (a * t) - c * (a * a);
  }

  lemma HingeEnters(c: real, a: real, b: real, t: real)
    requires c >= 0.0 && b == a - t && a <= 0.0 && b > 0.0
    ensures 0.0 <= c * b * b <= c * (t * t)
  {
    var bb := Square(b);
    var cb := Product(c, bb);
    assert c * b * b == c * (b * b);
    var p := Product(b, -a);
    var q := Square(a);
    assert t * t == b * b + 2.0 * (b * -a) + a * a by { assert t == a - b; }
    var cd := Product(c, t * t - b * b);
    assert c * (t * t - b * b) == c * (t * t) - c * (b * b);
  }

  lemma LossTerm(p: Problem, C: Vec, w: Vec, s: Vec, i: nat)
    requires ValidSvc(p, C) && |w| == |s| == p.n && i < |p.x|
    ensures var h, h' := Hinge(C[i], Margin(p, w, i)), Hinge(C[i], Margin(p, Axpy(w, 1.0, s), i));
            h + 2.0 * Slope(p, C, w, s, i) <= h'
              <= h + 2.0 * Slope(p, C, w, s, i) + C[i] * (Margin(p, s, i) * Margin(p, s, i))
  {
    hide LinAlg.DotTo, Sparse.Dense, Sparse.X, Hinge;
    var x := X(p)[i];
    DotAxpyR(x, w, 1.0, s);
    assert p.y[i] * (Dot(x, w) + Dot(x, s)) == p.y[i] * Dot(x, w) + p.y[i] * Dot(x, s);
    HingeBounds(C[i], Margin(p, w, i), Margin(p, s, i));
  }

  lemma {:induction false} LossBounds(p: Problem, C: Vec, w: Vec, s: Vec, k: nat)
    requires ValidSvc(p, C) && |w| == |s| == p.n && k <= |p.x|
    ensures LossTo(p, C, w, k) + 2.0 * SlopeTo(p, C, w, s, k)
         <= LossTo(p, C, Axpy(w, 1.0, s), k)
         <= LossTo(p, C, w, k) + 2.0 * SlopeTo(p, C, w, s, k) + SpreadTo(p, C, s, k)
  {
    hide Margin, Hinge, Slope;
    if k > 0 {
      LossBounds(p, C, w, s, k - 1);
      LossTerm(p, C, w, s, k - 1);
    }
  }

  /** sum_{i<k} C_i |x_i|^2 */
  ghost function EnergyTo(p: Problem, C: Vec, k: nat): real
    requires ValidSvc(p, C) && k <= |p.x|
  {
    if k == 0 then 0.0 else EnergyTo(p, C, k - 1) + C[k - 1] * Dot(X(p)[k - 1], X(p)[k - 1])
  }

  lemma EnergyTerm(c: real, x: Vec)
    requires c >= 0.0
    ensures c * Dot(x, x) >= 0.0
  {
    SquareNonNeg(x);
    var e := Product(c, Dot(x, x));
  }

  lemma {:induction false} EnergyNonNeg(p: Problem, C: Vec, k: nat)
    requires ValidSvc(p, C) && k <= |p.x|
    ensures EnergyTo(p, C, k) >= 0.0
  {
    hide LinAlg.DotTo, Sparse.Dense, Sparse.X;
    if k > 0 {
      EnergyNonNeg(p, C, k - 1);
      EnergyTerm(C[k - 1], X(p)[k - 1]);
    }
  }

  /** A Lipschitz constant of the gradient. */
  ghost function Lip(p: Problem, C: Vec): (r: real)
    requires ValidSvc(p, C)
    ensures r >= 1.0
  {
    EnergyNonNeg(p, C, |p.x|);
    1.0 + 2.0 * EnergyTo(p, C, |p.x|)
  }

  lemma {:induction false} SpreadBound(p: Problem, C: Vec, s: Vec, k: nat)
    requires ValidSvc(p, C) && |s| == p.n && k <= |p.x|
    ensures SpreadTo(p, C, s, k) <= EnergyTo(p, C, k) * Dot(s, s)
  {
    hide LinAlg.DotTo, Sparse.Dense, Sparse.X;
    if k > 0 {
      SpreadBound(p, C, s, k - 1);
      var x, y := X(p)[k - 1], p.y[k - 1];
      CauchySchwarz(x, s);
      SignSquare(y, Dot(x, s));
      GramTerm(C[k - 1], Dot(x, s), Dot(x, x), Dot(s, s), EnergyTo(p, C, k - 1));
      assert C[k - 1] * (Dot(x, s) * Dot(x, s)) == C[k - 1] * Dot(x, s) * Dot(x, s);
    }
  }

  lemma SignSquare(y: real, a: real)
    requires y == 1.0 || y == -1.0
    ensures (y * a) * (y * a) == a * a
  {
  }

  /**
   f(w) + g.s + 0.5|s|^2 <= f(w+s) <= f(w) + g.s + 0.5 Lip |s|^2 :  g is the
   derivative of f at w, and f is strongly convex with a Lipschitz gradient.
   */
  lemma TwoParabolas(p: Problem, C: Vec, w: Vec, s: Vec)
    requires ValidSvc(p, C) && |w| == |s| == p.n
    ensures var f, f', gs := Objective(p, C, w), Objective(p, C, Axpy(w, 1.0, s)), Dot(Gradient(p, C, w), s);
            f + gs + 0.5 * Dot(s, s) <= f' <= f + gs + 0.5 * (Lip(p, C) * Dot(s, s))
  {
    hide LinAlg.DotTo, Sparse.Dense, Sparse.X, LossTo, SlopeTo, SpreadTo, EnergyTo, Gradient;
    var v, k := Axpy(w, 1.0, s), |p.x|;
    SquareAxpy(w, 1.0, s);
    GradientDot(p, C, w, s);
    LossBounds(p, C, w, s, k);
    SpreadBound(p, C, s, k);
    ParabolaBounds(Dot(w, w), Dot(s, s), Dot(w, s), Dot(v, v), LossTo(p, C, w, k), LossTo(p, C, v, k),
                   SlopeTo(p, C, w, s, k), SpreadTo(p, C, s, k), EnergyTo(p, C, k), Dot(Gradient(p, C, w), s));
  }

  lemma ParabolaBounds(ww: real, ss: real, ws: real, vv: real, l: real, l': real, slope: real, spread: real, e: real,
                       gs: real)
    requires vv == ww + 2.0 * 1.0 * ws + 1.0 * 1.0 * ss && gs == ws + 2.0 * slope && spread <= e * ss
    requires l + 2.0 * slope <= l' <= l + 2.0 * slope + spread
    ensures var f, f' := ww / 2.0 + l, vv / 2.0 + l';
            f + gs + 0.5 * ss <= f' <= f + gs + 0.5 * ((1.0 + 2.0 * e) * ss)
  {
    assert (1.0 + 2.0 * e) * ss == ss + 2.0 * (e * ss);
  }

  // ------------------------------------------------------ the Hessian bound

  lemma {:induction false} TracePrefix(q: Quad, q': Quad, k: nat)
    requires Valid(q) && Valid(q') && k <= |q.X| && k <= |q'.X|
    requires forall i :: 0 <= i < k ==> q.X[i] == q'.X[i] && q.c[i] == q'.c[i]
    ensures TraceTo(q', k) == TraceTo(q, k)
  {
    hide LinAlg.Dot;
    if k > 0 { TracePrefix(q, q', k - 1); }
  }

  lemma TraceStep(q: Quad, q': Quad, x: Vec, c: real, k: nat)
    requires Valid(q) && Valid(q') && |x| == q.n && c >= 0.0 && k == |q.X|
    requires q'.X == q.X + [x] && q'.c == q.c + [c]
    ensures |q'.X| == k + 1 && TraceTo(q', k + 1) == TraceTo(q, k) + c * Dot(x, x)
  {
    hide LinAlg.Dot, Hessian.TraceTo;
    TracePrefix(q, q', k);
    TraceUnfold(q', k, x, c);
  }

  lemma TraceUnfold(q: Quad, k: nat, x: Vec, c: real)
    requires Valid(q) && k < |q.X| && q.X[k] == x && q.c[k] == c
    ensures TraceTo(q, k + 1) == TraceTo(q, k) + c * Dot(x, x)
  {
    hide LinAlg.Dot;
  }

  lemma {:induction false} ActiveTrace(p: Problem, C: Vec, w: Vec, k: nat)
    requires ValidSvc(p, C) && |w| == p.n && k <= |p.x|
    ensures var I := ActiveTo(p, w, k); TraceTo(ActiveQuad(p, C, I), |I|) <= EnergyTo(p, C, k)
  {
    hide LinAlg.Dot, Sparse.Dense, Sparse.X, Margin, Hessian.TraceTo, ActiveQuad, Select;
    if k == 0 {
      EmptyTrace(p, C);
    } else {
      ActiveTrace(p, C, w, k - 1);
      var I, x := ActiveTo(p, w, k - 1), X(p)[k - 1];
      EnergyTerm(C[k - 1], x);
      if Margin(p, w, k - 1) < 1.0 { ActiveTraceStep(p, C, I, k - 1); }
    }
  }

  lemma ActiveTraceStep(p: Problem, C: Vec, I: seq<int>, i: nat)
    requires ValidSvc(p, C) && (forall j :: 0 <= j < |I| ==> 0 <= I[j] < |p.x|) && i < |p.x|
    ensures |X(p)| == |p.x| && |ActiveQuad(p, C, I).X| == |I| && |ActiveQuad(p, C, I + [i]).X| == |I| + 1
    ensures TraceTo(ActiveQuad(p, C, I + [i]), |I| + 1)
         == TraceTo(ActiveQuad(p, C, I), |I|) + C[i] * Dot(X(p)[i], X(p)[i])
  {
    hide LinAlg.Dot, Sparse.Dense, Sparse.X, Hessian.TraceTo;
    var q, q' := ActiveQuad(p, C, I), ActiveQuad(p, C, I + [i]);
    assert q'.X == q.X + [X(p)[i]] && q'.c == q.c + [C[i]];
    TraceStep(q, q', X(p)[i], C[i], |I|);
  }

  lemma EmptyTrace(p: Problem, C: Vec)
    requires ValidSvc(p, C)
    ensures TraceTo(ActiveQuad(p, C, []), 0) == 0.0
  {
  }

  /** No curvature of the model exceeds the Lipschitz constant of the objective. */
  lemma ActiveBound(p: Problem, C: Vec, w: Vec)
    requires ValidSvc(p, C) && |w| == p.n
    ensures Bound(ActiveQuad(p, C, Active(p, w))) <= Lip(p, C)
  {
    ActiveTrace(p, C, w, |p.x|);
  }

  lemma {:induction false} LossNonNeg(p: Problem, C: Vec, w: Vec, k: nat)
    requires ValidSvc(p, C) && |w| == p.n && k <= |p.x|
    ensures LossTo(p, C, w, k) >= 0.0
  {
    hide Margin;
    if k > 0 {
      LossNonNeg(p, C, w, k - 1);
      var d := 1.0 - Margin(p, w, k - 1);
      var y := Square(d);
      var e := Product(C[k - 1], y);
      assert C[k - 1] * d * d == C[k - 1] * y;
    }
  }
}
