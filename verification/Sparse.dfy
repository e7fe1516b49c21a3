/**
 Training data of linear.h: a row is the sequence of feature nodes that stand
 before its index -1 sentinel.  `Dense` is the vector a row stands for; the two
 node-walking loops of the solvers (an inner product with w and an update of w)
 are proved to be the inner product and the axpy of that vector.
 */
module Sparse {
  import opened LinAlg

  datatype Node = Node(index: int, value: real)

  type Row = seq<Node>

  /** What train.c checks while reading: indices lie in 1..n and strictly increase. */
  ghost predicate ValidRow(x: Row, n: nat) {
    && (forall k :: 0 <= k < |x| ==> 1 <= x[k].index <= n)
    && (forall j, k :: 0 <= j < k < |x| ==> x[j].index < x[k].index)
  }

  /** w with d * x added, node by node, for the first k nodes. */
  ghost function AddNodes(w: Vec, d: real, x: Row, k: nat): (r: Vec)
    requires ValidRow(x, |w|) && k <= |x|
    ensures |r| == |w|
  {
    if k == 0 then w else
      var v := AddNodes(w, d, x, k - 1);
      v[x[k - 1].index - 1 := v[x[k - 1].index - 1] + d * x[k - 1].value]
  }

  ghost function DenseTo(x: Row, n: nat, k: nat): (r: Vec)
    requires ValidRow(x, n) && k <= |x|
    ensures |r| == n
  {
    AddNodes(Zeros(n), 1.0, x, k)
  }

  /** The vector a row stands for. */
  ghost function Dense(x: Row, n: nat): (r: Vec)
    requires ValidRow(x, n)
    ensures |r| == n
  {
    DenseTo(x, n, |x|)
  }

  /** Entries of the dense vector: the value of the node carrying the index, or zero. */
  lemma {:induction false} DenseEntries(x: Row, n: nat, k: nat)
    requires ValidRow(x, n) && k <= |x|
    ensures forall j :: 0 <= j < k ==> DenseTo(x, n, k)[x[j].index - 1] == x[j].value
    ensures forall i :: 0 <= i < n && (forall j :: 0 <= j < k ==> x[j].index != i + 1) ==> DenseTo(x, n, k)[i] == 0.0
  {
    if k > 0 {
      DenseEntries(x, n, k - 1);
      assert DenseTo(x, n, k - 1)[x[k - 1].index - 1] == 0.0;
    }
  }

  lemma DenseAt(x: Row, n: nat, k: nat)
    requires ValidRow(x, n) && k < |x|
    ensures Dense(x, n)[x[k].index - 1] == x[k].value
  {
    DenseEntries(x, n, |x|);
  }

  lemma DenseAbsent(x: Row, n: nat, i: nat)
    requires ValidRow(x, n) && i < n && forall k :: 0 <= k < |x| ==> x[k].index != i + 1
    ensures Dense(x, n)[i] == 0.0
  {
    DenseEntries(x, n, |x|);
  }

  lemma {:induction false} DotToBump(u: Vec, u': Vec, i: nat, c: real, w: Vec, k: nat)
    requires |u| == |u'| == |w| && i < |u| && k <= |u| && u' == u[i := u'[i]] && u'[i] == u[i] + c
    ensures DotTo(u', w, k) == DotTo(u, w, k) + (if i < k then c * w[i] else 0.0)
  {
    if k > 0 {
      DotToBump(u, u', i, c, w, k - 1);
      BumpTerm(u[k - 1], if i == k - 1 then c else 0.0, w[k - 1], u'[k - 1]);
    }
  }

  lemma BumpTerm(u: real, c: real, w: real, u': real)
    requires u' == u + c
    ensures u' * w == u * w + c * w
  {
  }

  /** The sparse inner product of the first k nodes. */
  ghost function RowDotTo(x: Row, w: Vec, k: nat): real
    requires ValidRow(x, |w|) && k <= |x|
  {
    if k == 0 then 0.0 else RowDotTo(x, w, k - 1) + w[x[k - 1].index - 1] * x[k - 1].value
  }

  lemma {:induction false} RowDotIsDot(x: Row, w: Vec, k: nat)
    requires ValidRow(x, |w|) && k <= |x|
    ensures RowDotTo(x, w, k) == Dot(DenseTo(x, |w|, k), w)
  {
    if k == 0 {
      DotZero(w);
    } else {
      RowDotIsDot(x, w, k - 1);
      NodeStep(Zeros(|w|), 1.0, x, k - 1);
      DotToBump(DenseTo(x, |w|, k - 1), DenseTo(x, |w|, k), x[k - 1].index - 1, x[k - 1].value, w, |w|);
    }
  }

  lemma AddNodesStep(w: Vec, d: real, x: Row, k: nat)
    requires ValidRow(x, |w|) && k < |x|
    ensures var v, i := AddNodes(w, d, x, k), x[k].index - 1;
            AddNodes(w, d, x, k + 1) == v[i := v[i] + d * x[k].value]
  {
  }

  lemma {:induction false} AddNodesIsAxpy(w: Vec, d: real, x: Row, k: nat)
    requires ValidRow(x, |w|) && k <= |x|
    ensures AddNodes(w, d, x, k) == Axpy(w, d, DenseTo(x, |w|, k))
  {
    if k == 0 {
      assert AddNodes(w, d, x, k) == Axpy(w, d, DenseTo(x, |w|, k));
    } else {
      AddNodesIsAxpy(w, d, x, k - 1);
      NodeStep(w, d, x, k - 1);
      NodeStep(Zeros(|w|), 1.0, x, k - 1);
      NodeIsEntry(w, d, DenseTo(x, |w|, k - 1), DenseTo(x, |w|, k), AddNodes(w, d, x, k - 1), AddNodes(w, d, x, k),
                  x[k - 1].index - 1, x[k - 1].value);
    }
  }

  lemma NodeIsEntry(w: Vec, d: real, u: Vec, u': Vec, v: Vec, v': Vec, i: nat, e: real)
    requires |w| == |u| == |v| == |u'| == |v'| && i < |w| && v == Axpy(w, d, u)
    requires u' == u[i := u'[i]] && u'[i] == u[i] + e && v' == v[i := v'[i]] && v'[i] == v[i] + d * e
    ensures v' == Axpy(w, d, u')
  {
    forall j | 0 <= j < |w| ensures v'[j] == Axpy(w, d, u')[j] {
      if j == i { EntryGrows(w[i], d, u[i], e, u'[i]); } else { assert u'[j] == u[j] && v'[j] == v[j]; }
    }
  }

  /** One node changes one entry. */
  lemma NodeStep(w: Vec, d: real, x: Row, k: nat)
    requires ValidRow(x, |w|) && k < |x|
    ensures var v, v', i := AddNodes(w, d, x, k), AddNodes(w, d, x, k + 1), x[k].index - 1;
            v' == v[i := v'[i]] && v'[i] == v[i] + d * x[k].value
  {
  }

  ghost function SquareTo(x: Row, k: nat): real
    requires k <= |x|
  {
    if k == 0 then 0.0 else SquareTo(x, k - 1) + x[k - 1].value * x[k - 1].value
  }

  /** The node-wise sum of squares is the squared norm; distinct indices matter here. */
  lemma {:induction false} SquareIsDot(x: Row, n: nat, k: nat)
    requires ValidRow(x, n) && k <= |x|
    ensures SquareTo(x, k) == Dot(DenseTo(x, n, k), DenseTo(x, n, k))
  {
    hide LinAlg.Dot, DenseTo;
    if k == 0 {
      NoSquare(x, n);
    } else {
      SquareIsDot(x, n, k - 1);
      SquareNext(x, n, k - 1);
    }
  }

  lemma NoSquare(x: Row, n: nat)
    requires ValidRow(x, n)
    ensures Dot(DenseTo(x, n, 0), DenseTo(x, n, 0)) == 0.0
  {
    DotZero(Zeros(n));
  }

  lemma SquareNext(x: Row, n: nat, k: nat)
    requires ValidRow(x, n) && k < |x|
    ensures var u, u' := DenseTo(x, n, k), DenseTo(x, n, k + 1);
            Dot(u', u') == Dot(u, u) + x[k].value * x[k].value
  {
    DenseEntries(x, n, k);
    NodeStep(Zeros(n), 1.0, x, k);
    hide LinAlg.Dot;
    SquareBump(DenseTo(x, n, k), DenseTo(x, n, k + 1), x[k].index - 1, x[k].value);
  }

  lemma SquareBump(u: Vec, u': Vec, i: nat, v: real)
    requires |u| == |u'| && i < |u| && u' == u[i := u'[i]] && u[i] == 0.0 && u'[i] == v
    ensures Dot(u', u') == Dot(u, u) + v * v
  {
    hide LinAlg.DotTo;
    DotToBump(u, u', i, v, u', |u|);
    DotSym(u, u');
    DotToBump(u, u', i, v, u, |u|);
    SquareStep(Dot(u, u), Dot(u', u'), v, u'[i], u[i]);
  }

  lemma SquareStep(q: real, q': real, v: real, a: real, b: real)
    requires a == v && b == 0.0 && q' == q + v * b + v * a
    ensures q' == q + v * v
  {
  }

  /** The loop that sums w times value over the nodes. */
  method RowDot(x: Row, w: array<real>) returns (r: real)
    requires ValidRow(x, w.Length)
    ensures r == Dot(Dense(x, w.Length), w[..])
  {
    r := 0.0;
    for k := 0 to |x|
      invariant r == RowDotTo(x, w[..], k)
    {
      r := r + w[x[k].index - 1] * x[k].value;
    }
    RowDotIsDot(x, w[..], |x|);
  }

  /** The loop that adds d times value to w, node by node. */
  method AddRow(w: array<real>, d: real, x: Row)
    requires ValidRow(x, w.Length)
    modifies w
    ensures w[..] == Axpy(old(w[..]), d, Dense(x, w.Length))
  {
    for k := 0 to |x|
      invariant w[..] == AddNodes(old(w[..]), d, x, k)
    {
      ghost var before := w[..];
      w[x[k].index - 1] := w[x[k].index - 1] + d * x[k].value;
      AddNodesStep(old(w[..]), d, x, k);
    }
    AddNodesIsAxpy(old(w[..]), d, x, |x|);
  }

  /** The loop that sums the squares of the values. */
  method RowSquare(x: Row, ghost n: nat) returns (q: real)
    requires ValidRow(x, n)
    ensures q == Dot(Dense(x, n), Dense(x, n)) && q >= 0.0
  {
    q := 0.0;
    for k := 0 to |x|
      invariant q == SquareTo(x, k)
    {
      q := q + x[k].value * x[k].value;
    }
    SquareIsDot(x, n, |x|);
    SquareNonNeg(Dense(x, n));
  }

  /** The rows of a problem as dense vectors. */
  ghost predicate ValidRows(xs: seq<Row>, n: nat) {
    forall i :: 0 <= i < |xs| ==> ValidRow(xs[i], n)
  }

  ghost function DenseRows(xs: seq<Row>, n: nat): (r: seq<Vec>)
    requires ValidRows(xs, n)
    ensures |r| == |xs|
    ensures forall i :: 0 <= i < |xs| ==> r[i] == Dense(xs[i], n) && |r[i]| == n
  {
    seq(|xs|, i requires 0 <= i < |xs| => Dense(xs[i], n))
  }

  /** `problem` of linear.h: l = |x| rows over n features, one target per row. */
  datatype Problem = Problem(n: nat, x: seq<Row>, y: Vec)

  ghost predicate ValidProblem(p: Problem) {
    |p.x| == |p.y| && ValidRows(p.x, p.n)
  }

  ghost function X(p: Problem): (r: seq<Vec>)
    requires ValidProblem(p)
    ensures |r| == |p.x|
    ensures forall i :: 0 <= i < |p.x| ==> r[i] == Dense(p.x[i], p.n) && |r[i]| == p.n
  {
    DenseRows(p.x, p.n)
  }
}
