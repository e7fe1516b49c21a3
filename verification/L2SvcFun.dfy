/**
 l2r_l2_svc_fun of linear.cpp: `fun` leaves the margins in z, `grad` reads them
 there, packs the active part of z in place and records the active set in I,
 and `Hv` multiplies by the Hessian of whatever active set I holds.
 */
module L2SvcFun {
  import opened LinAlg
  import opened Sparse
  import opened Hessian
  import opened L2SvcObjective

  class L2SvcFunction {
    const p: Problem
    const C: Vec
    const z: array<real>
    const I: array<int>
    var sizeI: nat

    ghost predicate Valid()
      reads this
    {
      && ValidSvc(p, C)
      && z.Length == I.Length == |p.x|
      && sizeI <= |p.x|
    }

    /** z holds the margins of w. */
    ghost predicate MarginsOf(w: Vec)
      requires ValidProblem(p) && |w| == p.n && z.Length == |p.x|
      reads z
    {
      forall i :: 0 <= i < |p.x| ==> z[i] == Margin(p, w, i)
    }

    /** I[0..sizeI) is the active set of w. */
    ghost predicate ActiveSetOf(w: Vec)
      requires ValidProblem(p) && |w| == p.n
      reads this, I
    {
      sizeI <= I.Length && I[..sizeI] == Active(p, w)
    }

    /** The entries of I in use are row numbers. */
    ghost predicate Indexed()
      reads this, I
    {
      sizeI <= I.Length && forall j :: 0 <= j < sizeI ==> 0 <= I[j] < |p.x|
    }

    /** The Hessian that Hv multiplies by: that of the active set I holds. */
    ghost function Hess(): (q: Quad)
      requires Valid() && Indexed()
      reads this, I
      ensures Hessian.Valid(q) && q.n == p.n
    {
      ActiveQuad(p, C, I[..sizeI])
    }

    constructor (p: Problem, C: Vec)
      requires ValidSvc(p, C)
      ensures Valid() && this.p == p && this.C == C && fresh(z) && fresh(I)
    {
      this.p := p;
      this.C := C;
      z := new real[|p.x|];
      I := new int[|p.x|];
      sizeI := 0;
    }

    /** Xv of linear.cpp, into z. */
    method Xv(v: array<real>)
      requires Valid() && v.Length == p.n && v != z
      modifies z
      ensures forall i :: 0 <= i < |p.x| ==> z[i] == Dot(X(p)[i], v[..])
    {
      for i := 0 to |p.x|
        invariant forall j :: 0 <= j < i ==> z[j] == Dot(X(p)[j], v[..])
      {
        var d := RowDot(p.x[i], v);
        z[i] := d;
      }
    }

    method Fun(w: array<real>) returns (f: real)
      requires Valid() && w.Length == p.n && w != z
      modifies z
      ensures f == Objective(p, C, w[..])
      ensures MarginsOf(w[..])
    {
      hide LinAlg.Dot, Sparse.Dense, Sparse.X;
      Xv(w);
      f := SquareOf(w);
      f := f / 2.0;
      ghost var v, half := w[..], f;
      for i := 0 to |p.x|
        invariant f == half + LossTo(p, C, v, i)
        invariant forall j :: 0 <= j < i ==> z[j] == Margin(p, v, j)
        invariant forall j :: i <= j < |p.x| ==> z[j] == Dot(X(p)[j], v)
      {
        z[i] := p.y[i] * z[i];
        var d := 1.0 - z[i];
        if d > 0.0 {
          f := f + C[i] * d * d;
        }
        assert z[i] == Margin(p, v, i);
        assert LossTo(p, C, v, i + 1) == LossTo(p, C, v, i) + Hinge(C[i], z[i]);
      }
    }

    /**
     Packs z in place.  The write position sizeI never passes the read position
     i, so no margin is overwritten before it is read.
     */
    method Compact(ghost w: Vec)
      requires Valid() && |w| == p.n && MarginsOf(w)
      modifies z, I, this`sizeI
      ensures Valid() && Indexed() && ActiveSetOf(w)
      ensures z[..sizeI] == CoefTo(p, C, w, |p.x|)
    {
      hide LinAlg.Dot, Sparse.Dense, Sparse.X, Margin, Coef, ActiveTo, CoefTo;
      sizeI := 0;
      NoneActive(p, C, w);
      for i := 0 to |p.x|
        invariant sizeI <= i
        invariant I[..sizeI] == ActiveTo(p, w, i)
        invariant z[..sizeI] == CoefTo(p, C, w, i)
        invariant forall j :: i <= j < |p.x| ==> z[j] == Margin(p, w, j)
      {
        ActiveStep(p, C, w, i, z[i]);
        if z[i] < 1.0 {
          var c := C[i] * p.y[i] * (z[i] - 1.0);
          CoefIs(p, C, w, i, z[i], c);
          z[sizeI] := c;
          I[sizeI] := i;
          sizeI := sizeI + 1;
          assert I[..sizeI] == I[..sizeI - 1] + [i];
          assert z[..sizeI] == z[..sizeI - 1] + [c];
        }
      }
    }

    /** out = sum_{i<sizeI} v_i x_{I_i} */
    method SubXTv(v: array<real>, out: array<real>)
      requires Valid() && sizeI <= v.Length && out.Length == p.n && v != out && out != z
      requires Indexed()
      modifies out
      ensures out[..] == Comb(v[..sizeI], Select(p, I[..sizeI]), p.n, sizeI)
    {
      hide LinAlg.Axpy, Sparse.Dense, Sparse.X;
      Clear(out);
      ghost var c, S := v[..sizeI], Select(p, I[..sizeI]);
      for i := 0 to sizeI
        invariant out[..] == Comb(c, S, p.n, i)
      {
        assert S[i] == Dense(p.x[I[i]], p.n);
        AddRow(out, v[i], p.x[I[i]]);
      }
    }

    method Grad(w: array<real>, g: array<real>)
      requires Valid() && w.Length == g.Length == p.n && w != z && g != z && w != g
      requires MarginsOf(w[..])
      modifies z, I, this`sizeI, g
      ensures Valid() && Indexed() && ActiveSetOf(w[..])
      ensures g[..] == Gradient(p, C, w[..])
    {
      hide LinAlg.Dot, Sparse.Dense, Sparse.X, Margin;
      Compact(w[..]);
      SubXTv(z, g);
      AddTwice(w, g);
    }

    /** wa_i = x_{I_i}.s */
    method SubXv(s: array<real>) returns (wa: array<real>)
      requires Valid() && s.Length == p.n
      requires Indexed()
      ensures fresh(wa) && wa.Length == sizeI
      ensures forall j :: 0 <= j < sizeI ==> wa[j] == Dot(X(p)[I[j]], s[..])
    {
      hide LinAlg.Dot;
      wa := new real[sizeI];
      for i := 0 to sizeI
        invariant forall j :: 0 <= j < i ==> wa[j] == Dot(X(p)[I[j]], s[..])
      {
        var d := RowDot(p.x[I[i]], s);
        wa[i] := d;
      }
    }

    /** wa_i = C_{I_i} wa_i */
    method Weigh(wa: array<real>, ghost v: Vec)
      requires Valid() && wa.Length == sizeI && |v| == p.n
      requires Indexed()
      requires forall j :: 0 <= j < sizeI ==> wa[j] == Dot(X(p)[I[j]], v)
      modifies wa
      ensures wa[..] == WeightedDots(Hess(), v)
    {
      hide LinAlg.Dot, Sparse.X;
      ghost var ds := wa[..];
      for i := 0 to sizeI
        invariant forall j :: 0 <= j < i ==> wa[j] == C[I[j]] * ds[j]
        invariant forall j :: i <= j < sizeI ==> wa[j] == ds[j]
      {
        wa[i] := C[I[i]] * wa[i];
      }
      ghost var r := WeightedDots(Hess(), v);
      forall j | 0 <= j < sizeI ensures wa[j] == r[j] {
        assert ds[j] == Dot(X(p)[I[j]], v);
      }
    }

    method Hv(s: array<real>, Hs: array<real>)
      requires Valid() && s.Length == Hs.Length == p.n && s != Hs && Hs != z
      requires Indexed()
      modifies Hs
      ensures Hs[..] == HessVec(Hess(), s[..])
    {
      hide LinAlg.Dot, Sparse.Dense, Sparse.X;
      var wa := SubXv(s);
      Weigh(wa, s[..]);
      SubXTv(wa, Hs);
      assert wa[..sizeI] == wa[..];
      AddTwice(s, Hs);
    }
  }

  /** g becomes w + 2 g. */
  method AddTwice(w: array<real>, g: array<real>)
    requires w.Length == g.Length && w != g
    modifies g
    ensures g[..] == Axpy(w[..], 2.0, old(g[..]))
  {
    ghost var h := g[..];
    for i := 0 to g.Length
      invariant forall j :: 0 <= j < i ==> g[j] == w[j] + 2.0 * h[j]
      invariant forall j :: i <= j < g.Length ==> g[j] == h[j]
    {
      g[i] := w[i] + 2.0 * g[i];
    }
    assert g[..] == Axpy(w[..], 2.0, h);
  }

  method Clear(a: array<real>)
    modifies a
    ensures a[..] == Zeros(a.Length)
  {
    for i := 0 to a.Length
      invariant forall j :: 0 <= j < i ==> a[j] == 0.0
    {
      a[i] := 0.0;
    }
  }

  method SquareOf(w: array<real>) returns (f: real)
    ensures f == Dot(w[..], w[..])
  {
    f := 0.0;
    for i := 0 to w.Length
      invariant f == DotTo(w[..], w[..], i)
    {
      f := f + w[i] * w[i];
    }
  }
}
