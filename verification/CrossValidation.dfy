/**
 cross_validation of linear.cpp.  Training and prediction are parameters: `train`
 maps the instances of a sub-problem to a model, `predict` maps a model and an
 instance to a value.  An instance is named by its number.
 */
module CrossValidation {
  import opened Permutation

  function MinInt(a: int, b: int): (r: int)
    ensures r <= a && r <= b && (r == a || r == b)
  {
    if a < b then a else b
  }

  /** r is the whole part of x / n. */
  ghost predicate WholePart(n: nat, x: nat, r: nat) {
    n * r <= x < n * (r + 1)
  }

  /** fold_start[i]: the whole part of i l / folds, so that the folds are as even as they can be. */
  function FoldStart(l: nat, folds: nat, i: nat): (r: nat)
    requires folds > 0
    ensures WholePart(folds, i * l, r)
  {
    Quotient(i * l, folds)
  }

  function Quotient(a: nat, n: nat): (r: nat)
    requires n > 0
    ensures WholePart(n, a, r)
  {
    QuotientFits(a, n);
    a / n
  }

  lemma QuotientFits(a: nat, n: nat)
    requires n > 0
    ensures WholePart(n, a, a / n)
  {
    Remainder(a, n, a / n, a % n);
  }

  lemma Remainder(a: nat, n: nat, q: nat, r: nat)
    requires a == n * q + r && r < n
    ensures WholePart(n, a, q)
  {
    assert n * (q + 1) == n * q + n;
  }

  /** Every fold has l / folds instances or one more. */
  lemma FoldSizes(l: nat, folds: nat, i: nat)
    requires folds > 0
    ensures l / folds <= FoldStart(l, folds, i + 1) - FoldStart(l, folds, i) <= l / folds + 1
  {
    hide FoldStart, WholePart;
    QuotientFits(l, folds);
    NextMultiple(i, l);
    EvenStep(l, folds, i * l, (i + 1) * l, l / folds, FoldStart(l, folds, i), FoldStart(l, folds, i + 1));
  }

  lemma NextMultiple(i: nat, l: nat)
    ensures (i + 1) * l == i * l + l
  {
  }

  lemma EvenStep(l: nat, n: nat, x: nat, y: nat, q: nat, a: nat, b: nat)
    requires n > 0 && WholePart(n, l, q) && WholePart(n, x, a) && WholePart(n, y, b) && y == x + l
    ensures a + q <= b <= a + q + 1
  {
    assert n * (q + 1) == n * q + n && n * (a + 1) == n * a + n && n * (b + 1) == n * b + n;
    assert n * (a + q) == n * a + n * q && n * (a + q + 2) == n * a + n * q + 2 * n;
    Below(n, a + q, b + 1);
    Below(n, b, a + q + 2);
  }

  lemma Below(n: nat, a: nat, b: nat)
    requires n * a < n * b
    ensures a < b
  {
    if a >= b { MulMono(n, b, a); }
  }

  lemma FoldEnds(l: nat, folds: nat)
    requires folds > 0
    ensures FoldStart(l, folds, 0) == 0 && FoldStart(l, folds, folds) == l
  {
    DivExact(folds, l);
  }

  /** With no more folds than instances, every fold is non-empty. */
  lemma FoldGrows(l: nat, folds: nat, i: nat)
    requires 0 < folds <= l
    ensures FoldStart(l, folds, i) < FoldStart(l, folds, i + 1)
  {
    var a, b := i * l, (i + 1) * l;
    assert b == a + l;
    QuotientGrows(a, b, folds);
  }

  lemma QuotientGrows(a: nat, b: nat, n: nat)
    requires n > 0 && b >= a + n
    ensures a / n < b / n
  {
    var q := a / n;
    assert a == n * q + a % n;
    assert b / n >= q + 1 by {
      assert b >= n * (q + 1);
      DivGe(b, n, q + 1);
    }
  }

  lemma DivGe(b: nat, n: nat, q: nat)
    requires n > 0 && b >= n * q
    ensures b / n >= q
  {
    var r := b / n;
    assert b == n * r + b % n;
    if r < q {
      assert n * (r + 1) <= n * q by { MulMono(n, r + 1, q); }
    }
  }

  lemma DivExact(n: nat, q: nat)
    requires n > 0
    ensures n * q / n == q
  {
    DivGe(n * q, n, q);
    var r := n * q / n;
    assert n * q == n * r + n * q % n;
  }

  lemma MulMono(n: nat, a: nat, b: nat)
    requires a <= b
    ensures n * a <= n * b
  {
    assert n * b == n * a + n * (b - a);
  }

  lemma {:induction false} FoldMonotone(l: nat, folds: nat, i: nat, j: nat)
    requires 0 < folds <= l && i <= j
    ensures FoldStart(l, folds, i) <= FoldStart(l, folds, j)
  {
    if i < j {
      FoldMonotone(l, folds, i, j - 1);
      FoldGrows(l, folds, j - 1);
    }
  }

  /** The training instances of a fold, in the order the two copy loops produce. */
  function Rest(perm: seq<int>, begin: nat, end: nat): seq<int>
    requires begin <= end <= |perm|
  {
    perm[..begin] + perm[end..]
  }

  /** They are exactly the complement of the fold, each once, in the order of perm. */
  lemma RestIsComplement(perm: seq<int>, l: nat, begin: nat, end: nat)
    requires IsPerm(perm, l) && begin <= end <= l
    ensures |Rest(perm, begin, end)| == l - (end - begin)
    ensures forall k :: 0 <= k < l - (end - begin) ==>
              Rest(perm, begin, end)[k] == perm[if k < begin then k else k + (end - begin)]
    ensures forall i :: 0 <= i < l ==> (i in Rest(perm, begin, end) <==> i !in perm[begin..end])
    ensures forall a, b :: 0 <= a < b < |Rest(perm, begin, end)| ==>
        Rest(perm, begin, end)[a] != Rest(perm, begin, end)[b]
  {
    var r := Rest(perm, begin, end);
    forall i | 0 <= i < l ensures i in r <==> i !in perm[begin..end] {
      var k := PermOnto(perm, l, i);
      if begin <= k < end {
        assert perm[begin..end][k - begin] == i;
      } else if k < begin {
        assert r[k] == i;
      } else {
        assert r[begin + (k - end)] == i;
      }
    }
  }

  /** The value of instance perm[p]: predicted by the model trained on everything outside its fold. */
  ghost predicate HeldOut<M(!new)>(train: seq<int> -> M, predict: (M, int) -> real, perm: seq<int>, folds: nat, f: nat,
                            p: nat, value: real)
    requires folds > 0 && p < |perm|
  {
    var l := |perm|;
    var begin, end := FoldStart(l, folds, f), FoldStart(l, folds, f + 1);
    && begin <= p < end <= l
    && value == predict(train(Rest(perm, begin, end)), perm[p])
  }

  ghost predicate Predicted<M(!new)>(train: seq<int> -> M, predict: (M, int) -> real, perm: seq<int>, folds: nat,
                              p: nat, value: real)
    requires folds > 0 && p < |perm|
  {
    exists f: nat :: f < folds && HeldOut(train, predict, perm, folds, f, p, value)
  }

  /** Folds 0..f-1 have been handled: their targets are written, each instance once. */
  ghost predicate Done<M(!new)>(train: seq<int> -> M, predict: (M, int) -> real, perm: seq<int>, folds: nat,
                         target: seq<real>, written: seq<int>, upTo: nat)
    requires folds > 0
  {
    && IsPerm(perm, |perm|) && |target| == |perm| && upTo <= |perm|
    && written == perm[..upTo]
    && forall p :: 0 <= p < upTo ==> Predicted(train, predict, perm, folds, p, target[perm[p]])
  }

  /** One fold: the model is trained once, then every instance of the fold is predicted. */
  method RunFold<M(!new)>(train: seq<int> -> M, predict: (M, int) -> real, perm: array<int>, folds: nat, f: nat,
                   target: array<real>, ghost writtenIn: seq<int>)
    returns (ghost written: seq<int>)
    requires 0 < folds <= perm.Length && f < folds
    requires target.Length == perm.Length
    requires Done(train, predict, perm[..], folds, target[..], writtenIn, FoldStart(perm.Length, folds, f))
    modifies target
    ensures FoldStart(perm.Length, folds, f + 1) <= perm.Length
    ensures Done(train, predict, perm[..], folds, target[..], written, FoldStart(perm.Length, folds, f + 1))
  {
    hide FoldStart, WholePart, Done, Rest, IsPerm;
    var l := perm.Length;
    var begin, end := FoldStart(l, folds, f), FoldStart(l, folds, f + 1);
    FoldEnds(l, folds);
    FoldGrows(l, folds, f);
    FoldMonotone(l, folds, f + 1, folds);
    var model := train(Rest(perm[..], begin, end));
    written := writtenIn;
    ghost var pv := perm[..];
    var j := begin;
    while j < end
      invariant begin <= j <= end
      invariant Done(train, predict, pv, folds, target[..], written, j)
    {
      ghost var t0 := target[..];
      DoneEntry(train, predict, pv, folds, t0, written, j, j);
      target[perm[j]] := predict(model, perm[j]);
      written := written + [perm[j]];
      WriteOne(train, predict, pv, folds, f, t0, target[..], written, j);
      j := j + 1;
    }
  }

  lemma DoneEntry<M(!new)>(train: seq<int> -> M, predict: (M, int) -> real, perm: seq<int>, folds: nat,
                           target: seq<real>, written: seq<int>, upTo: nat, j: nat)
    requires folds > 0 && Done(train, predict, perm, folds, target, written, upTo) && j < |perm|
    ensures |target| == |perm| && 0 <= perm[j] < |perm|
  {
    hide Predicted;
  }

  lemma WriteOne<M(!new)>(train: seq<int> -> M, predict: (M, int) -> real, perm: seq<int>, folds: nat, f: nat,
                   t0: seq<real>, t1: seq<real>, written: seq<int>, j: nat)
    requires 0 < folds && f < folds && j < |perm|
    requires |written| > 0 && Done(train, predict, perm, folds, t0, written[..|written| - 1], j)
    requires written[|written| - 1] == perm[j]
    requires FoldStart(|perm|, folds, f) <= j < FoldStart(|perm|, folds, f + 1) <= |perm|
    requires var begin, end := FoldStart(|perm|, folds, f), FoldStart(|perm|, folds, f + 1);
             t1 == t0[perm[j] := predict(train(Rest(perm, begin, end)), perm[j])]
    ensures Done(train, predict, perm, folds, t1, written, j + 1)
  {
    hide FoldStart, WholePart;
    assert written == perm[..j + 1];
    forall p | 0 <= p < j + 1 ensures Predicted(train, predict, perm, folds, p, t1[perm[p]]) {
      if p == j {
        assert HeldOut(train, predict, perm, folds, f, p, t1[perm[p]]);
      } else {
        assert t1[perm[p]] == t0[perm[p]];
        assert Predicted(train, predict, perm, folds, p, t0[perm[p]]);
      }
    }
  }

  /**
   cross_validation for l >= 1 instances and any fold count >= 1.  `perm` is the
   shuffled order; every target is written exactly once, from a model trained on
   exactly the instances outside its own fold.
   */
  method CrossValidate<M(!new)>(l: nat, nrFold: nat, train: seq<int> -> M, predict: (M, int) -> real,
                         target: array<real>)
    returns (folds: nat, perm: array<int>, ghost written: seq<int>)
    requires l >= 1 && nrFold >= 1 && target.Length == l
    modifies target
    ensures folds == MinInt(nrFold, l) > 0 && perm.Length == l && IsPerm(perm[..], l)
    ensures written == perm[..]
    ensures Done(train, predict, perm[..], folds, target[..], written, l)
    ensures forall f: nat :: f < folds ==>
              l / folds <= FoldStart(l, folds, f + 1) - FoldStart(l, folds, f) <= l / folds + 1
  {
    folds := nrFold;
    if folds > l {
      folds := l;
    }
    perm := new int[l];
    for i := 0 to l
      invariant forall k :: 0 <= k < i ==> perm[k] == k
    {
      perm[i] := i;
    }
    Shuffle(perm, l);
    FoldEnds(l, folds);
    hide FoldStart, WholePart, Done, IsPerm, Values;
    written := [];
    ghost var pv := perm[..];
    NothingDone(train, predict, pv, folds, target[..]);
    for f := 0 to folds
      invariant perm[..] == pv && FoldStart(l, folds, f) <= l
      invariant Done(train, predict, pv, folds, target[..], written, FoldStart(l, folds, f))
    {
      written := RunFold(train, predict, perm, folds, f, target, written);
    }
    AllDone(train, predict, pv, folds, target[..], written);
    forall f: nat | f < folds
      ensures l / folds <= FoldStart(l, folds, f + 1) - FoldStart(l, folds, f) <= l / folds + 1
    {
      FoldSizes(l, folds, f);
    }
  }

  lemma NothingDone<M(!new)>(train: seq<int> -> M, predict: (M, int) -> real, perm: seq<int>, folds: nat,
                             target: seq<real>)
    requires folds > 0 && IsPerm(perm, |perm|) && |target| == |perm|
    ensures Done(train, predict, perm, folds, target, [], 0)
  {
  }

  lemma AllDone<M(!new)>(train: seq<int> -> M, predict: (M, int) -> real, perm: seq<int>, folds: nat,
                         target: seq<real>, written: seq<int>)
    requires folds > 0 && Done(train, predict, perm, folds, target, written, |perm|)
    ensures written == perm && IsPerm(perm, |perm|)
  {
  }
}
