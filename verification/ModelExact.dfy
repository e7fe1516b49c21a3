/**
 The quadratic model of TRON is the objective itself as long as no margin crosses one:
 Hv multiplies with the second derivative of the function whose gradient grad computes.
 */
module ModelExact {
  import opened LinAlg
  import opened Sparse
  import opened Hessian
  import opened TrustRegionModel
  import opened L2SvcObjective

  /** No instance becomes active or inactive between w and w + s. */
  ghost predicate SameSide(p: Problem, w: Vec, s: Vec)
    requires ValidProblem(p) && |w| == |s| == p.n
  {
    forall i :: 0 <= i < |p.x| ==> (Margin(p, w, i) < 1.0 <==> Margin(p, Axpy(w, 1.0, s), i) < 1.0)
  }

  /** C_i (x_i.s)^2 of an active instance */
  ghost function Bent(p: Problem, C: Vec, w: Vec, s: Vec, i: nat): real
    requires ValidSvc(p, C) && |w| == |s| == p.n && i < |p.x|
  {
    if Margin(p, w, i) < 1.0 then C[i] * (Margin(p, s, i) * Margin(p, s, i)) else 0.0
  }

  ghost function BentTo(p: Problem, C: Vec, w: Vec, s: Vec, k: nat): real
    requires ValidSvc(p, C) && |w| == |s| == p.n && k <= |p.x|
  {
    if k == 0 then 0.0 else BentTo(p, C, w, s, k - 1) + Bent(p, C, w, s, k - 1)
  }

  // -------------------------------------------------------------------- the loss

  lemma TermExact(p: Problem, C: Vec, w: Vec, s: Vec, i: nat)
    requires ValidSvc(p, C) && |w| == |s| == p.n && i < |p.x| && SameSide(p, w, s)
    ensures Hinge(C[i], Margin(p, Axpy(w, 1.0, s), i))
         == Hinge(C[i], Margin(p, w, i)) + 2.0 * Slope(p, C, w, s, i) + Bent(p, C, w, s, i)
  {
    var v := Axpy(w, 1.0, s);
    assert Margin(p, w, i) < 1.0 <==> Margin(p, v, i) < 1.0;
    MarginAdds(p, w, s, i);
    hide Margin, LinAlg.Axpy;
    HingeExact(C[i], Margin(p, w, i), Margin(p, s, i), Margin(p, v, i));
  }

  lemma MarginAdds(p: Problem, w: Vec, s: Vec, i: nat)
    requires ValidProblem(p) && |w| == |s| == p.n && i < |p.x|
    ensures Margin(p, Axpy(w, 1.0, s), i) == Margin(p, w, i) + Margin(p, s, i)
  {
    hide LinAlg.Dot, Sparse.Dense, Sparse.X, LinAlg.Axpy;
    var x := X(p)[i];
    DotAxpyR(x, w, 1.0, s);
    assert p.y[i] * (Dot(x, w) + Dot(x, s)) == p.y[i] * Dot(x, w) + p.y[i] * Dot(x, s);
  }

  lemma HingeExact(c: real, m: real, t: real, m': real)
    requires c >= 0.0 && m' == m + t && (m < 1.0 <==> m' < 1.0)
    ensures Hinge(c, m') == Hinge(c, m) + 2.0 * (if m < 1.0 then c * (m - 1.0) * t else 0.0)
                          + (if m < 1.0 then c * (t * t) else 0.0)
  {
    if m < 1.0 {
      var a, b := 1.0 - m, 1.0 - m';
      HingeStays(c, a, b, t);
      assert c * (m - 1.0) * t == -(c * a * t);
    }
  }

  lemma {:induction false} LossExact(p: Problem, C: Vec, w: Vec, s: Vec, k: nat)
    requires ValidSvc(p, C) && |w| == |s| == p.n && k <= |p.x| && SameSide(p, w, s)
    ensures LossTo(p, C, Axpy(w, 1.0, s), k)
         == LossTo(p, C, w, k) + 2.0 * SlopeTo(p, C, w, s, k) + BentTo(p, C, w, s, k)
  {
    hide Margin, Hinge, Slope, Bent, SameSide, LinAlg.Axpy;
    if k > 0 {
      LossExact(p, C, w, s, k - 1);
      TermExact(p, C, w, s, k - 1);
    }
  }

  // ------------------------------------------------------------------ the matrix

  lemma {:induction false} GramPrefix(q: Quad, q': Quad, s: Vec, k: nat)
    requires Valid(q) && Valid(q') && |s| == q.n == q'.n && k <= |q.X| && k <= |q'.X|
    requires forall i :: 0 <= i < k ==> q.X[i] == q'.X[i] && q.c[i] == q'.c[i]
    ensures GramTo(q', s, s, k) == GramTo(q, s, s, k)
  {
    hide LinAlg.Dot;
    if k > 0 { GramPrefix(q, q', s, k - 1); }
  }

  lemma GramStep(q: Quad, q': Quad, x: Vec, c: real, s: Vec, k: nat)
    requires Valid(q) && Valid(q') && |x| == |s| == q.n == q'.n && k == |q.X|
    requires q'.X == q.X + [x] && q'.c == q.c + [c]
    ensures |q'.X| == k + 1 && GramTo(q', s, s, k + 1) == GramTo(q, s, s, k) + c * Dot(x, s) * Dot(x, s)
  {
    hide LinAlg.Dot;
    GramPrefix(q, q', s, k);
  }

  /** s'Hs without the part of the identity, over the active ones of the first k instances */
  ghost function ActiveGram(p: Problem, C: Vec, w: Vec, s: Vec, k: nat): real
    requires ValidSvc(p, C) && |w| == |s| == p.n && k <= |p.x|
  {
    var I := ActiveTo(p, w, k);
    GramTo(ActiveQuad(p, C, I), s, s, |I|)
  }

  lemma {:induction false} GramIsBent(p: Problem, C: Vec, w: Vec, s: Vec, k: nat)
    requires ValidSvc(p, C) && |w| == |s| == p.n && k <= |p.x|
    ensures ActiveGram(p, C, w, s, k) == BentTo(p, C, w, s, k)
  {
    hide ActiveGram, Bent;
    if k == 0 {
      GramNone(p, C, w, s);
    } else {
      GramIsBent(p, C, w, s, k - 1);
      if Margin(p, w, k - 1) < 1.0 { GramMore(p, C, w, s, k - 1); } else { GramSame(p, C, w, s, k - 1); }
    }
  }

  lemma GramSame(p: Problem, C: Vec, w: Vec, s: Vec, i: nat)
    requires ValidSvc(p, C) && |w| == |s| == p.n && i < |p.x| && Margin(p, w, i) >= 1.0
    ensures ActiveGram(p, C, w, s, i + 1) == ActiveGram(p, C, w, s, i) + Bent(p, C, w, s, i)
  {
    hide LinAlg.Dot, Sparse.Dense, Sparse.X, Margin, Hessian.GramTo, ActiveQuad;
  }

  lemma GramMore(p: Problem, C: Vec, w: Vec, s: Vec, i: nat)
    requires ValidSvc(p, C) && |w| == |s| == p.n && i < |p.x| && Margin(p, w, i) < 1.0
    ensures ActiveGram(p, C, w, s, i + 1) == ActiveGram(p, C, w, s, i) + Bent(p, C, w, s, i)
  {
    hide LinAlg.Dot, Sparse.Dense, Sparse.X, Margin, Bent, Hessian.GramTo, ActiveTo, Select, SelectC;
    var I, v := ActiveTo(p, w, i), X(p)[i];
    ActiveStep(p, C, w, i, Margin(p, w, i));
    assert Select(p, I + [i]) == Select(p, I) + [v];
    assert SelectC(C, I + [i]) == SelectC(C, I) + [C[i]];
    GramStep(ActiveQuad(p, C, I), ActiveQuad(p, C, I + [i]), v, C[i], s, |I|);
    BentIs(p, C, w, s, i);
  }

  lemma GramNone(p: Problem, C: Vec, w: Vec, s: Vec)
    requires ValidSvc(p, C) && |w| == |s| == p.n
    ensures ActiveGram(p, C, w, s, 0) == 0.0
  {
  }

  lemma BentIs(p: Problem, C: Vec, w: Vec, s: Vec, i: nat)
    requires ValidSvc(p, C) && |w| == |s| == p.n && i < |p.x|
    ensures var a := Dot(X(p)[i], s);
            Bent(p, C, w, s, i) == if Margin(p, w, i) < 1.0 then C[i] * a * a else 0.0
  {
    hide LinAlg.Dot, Sparse.Dense, Sparse.X;
    var a := Dot(X(p)[i], s);
    SignSquare(p.y[i], a);
    assert C[i] * (a * a) == C[i] * a * a;
  }

  /** The actual reduction of a step across which no margin crosses one is the predicted one. */
  lemma ExactReduction(p: Problem, C: Vec, w: Vec, s: Vec)
    requires ValidSvc(p, C) && |w| == |s| == p.n && SameSide(p, w, s)
    ensures Objective(p, C, w) - Objective(p, C, Axpy(w, 1.0, s))
         == -Model(ActiveQuad(p, C, Active(p, w)), Gradient(p, C, w), s)
  {
    hide LinAlg.Dot, Sparse.Dense, Sparse.X, LossTo, SlopeTo, BentTo, Gradient, Hessian.HessVec, Hessian.GramTo;
    hide ActiveTo, ActiveQuad, SameSide, LinAlg.Axpy;
    var q, k := ActiveQuad(p, C, Active(p, w)), |p.x|;
    SquareAxpy(w, 1.0, s);
    GradientDot(p, C, w, s);
    LossExact(p, C, w, s, k);
    GramIsBent(p, C, w, s, k);
    QuadSize(p, C, w);
    HessDot(q, s, s);
    DotSym(HessVec(q, s), s);
  }

  lemma QuadSize(p: Problem, C: Vec, w: Vec)
    requires ValidSvc(p, C) && |w| == p.n
    ensures |ActiveQuad(p, C, Active(p, w)).X| == |ActiveTo(p, w, |p.x|)| && Active(p, w) == ActiveTo(p, w, |p.x|)
  {
  }
}
