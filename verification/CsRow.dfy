/**
 One instance of the Crammer-Singer solver: its dual variables alpha (one per
 class), the permutation alpha_index that keeps the active classes in front,
 the number of active classes and the position of the instance's own class.
 */
module CsRow {
  import opened LinAlg
  import opened Permutation
  import opened CsSubProblem
  import opened ExtReal

  /**
   What holds for an instance between two visits: the alphas sum to zero and
   respect their caps, alpha_index is a permutation, the own class y sits at
   position yix, and every class past the active ones is exactly on its cap.
   */
  ghost predicate RowInv(alpha: Vec, idx: seq<int>, act: int, yix: int, y: int, c: real) {
    && |alpha| == |idx| && IsPerm(idx, |idx|)
    && 0 <= y < |idx| && 0 <= yix < |idx| && idx[yix] == y
    && 1 <= act <= |idx|
    && (forall m :: 0 <= m < |alpha| ==> alpha[m] <= Cap(m, y, c))
    && Sum(alpha) == 0.0
    && (forall m :: act <= m < |idx| ==> alpha[idx[m]] == Cap(idx[m], y, c))
  }

  /** Position and class give the same cap. */
  lemma CapByPosition(idx: seq<int>, yix: int, y: int, c: real, m: int)
    requires IsPerm(idx, |idx|) && 0 <= yix < |idx| && idx[yix] == y && 0 <= m < |idx|
    ensures Cap(m, yix, c) == Cap(idx[m], y, c)
  {
  }

  // ------------------------------------------------- sums over a permutation

  /** sum_{m<k} alpha[idx[m]] */
  ghost function GatherTo(alpha: Vec, idx: seq<int>, k: nat): real
    requires IsPerm(idx, |alpha|) && k <= |alpha|
  {
    if k == 0 then 0.0 else GatherTo(alpha, idx, k - 1) + alpha[idx[k - 1]]
  }

  ghost function Zeroed(alpha: Vec, idx: seq<int>, k: nat): (r: Vec)
    requires IsPerm(idx, |alpha|) && k <= |alpha|
    ensures |r| == |alpha|
    ensures forall j :: 0 <= j < k ==> r[idx[j]] == 0.0
    ensures forall j :: k <= j < |alpha| ==> r[idx[j]] == alpha[idx[j]]
  {
    if k == 0 then alpha else Zeroed(alpha, idx, k - 1)[idx[k - 1] := 0.0]
  }

  lemma {:induction false} ZeroedSum(alpha: Vec, idx: seq<int>, k: nat)
    requires IsPerm(idx, |alpha|) && k <= |alpha|
    ensures Sum(Zeroed(alpha, idx, k)) == Sum(alpha) - GatherTo(alpha, idx, k)
  {
    if k > 0 {
      ZeroedSum(alpha, idx, k - 1);
      SumUpdate(Zeroed(alpha, idx, k - 1), idx[k - 1], 0.0);
    }
  }

  lemma {:induction false} SumZeros(s: Vec, k: nat)
    requires k <= |s| && forall i :: 0 <= i < |s| ==> s[i] == 0.0
    ensures SumTo(s, k) == 0.0
  {
    if k > 0 { SumZeros(s, k - 1); }
  }

  lemma GatherAll(alpha: Vec, idx: seq<int>)
    requires IsPerm(idx, |alpha|)
    ensures GatherTo(alpha, idx, |alpha|) == Sum(alpha)
  {
    var z := Zeroed(alpha, idx, |alpha|);
    ZeroedSum(alpha, idx, |alpha|);
    forall i | 0 <= i < |z| ensures z[i] == 0.0 {
      var k := PermOnto(idx, |alpha|, i);
    }
    SumZeros(z, |z|);
  }

  /** The classes past the active ones contribute c exactly when the own class is among them. */
  lemma {:induction false} GatherTail(alpha: Vec, idx: seq<int>, act: nat, yix: int, y: int, c: real, k: nat)
    requires IsPerm(idx, |alpha|) && act <= k <= |alpha| && 0 <= yix < |idx| && idx[yix] == y
    requires forall m :: act <= m < |idx| ==> alpha[idx[m]] == Cap(idx[m], y, c)
    ensures GatherTo(alpha, idx, k) == GatherTo(alpha, idx, act) + (if act <= yix < k then c else 0.0)
    decreases k
  {
    if k > act {
      GatherTail(alpha, idx, act, yix, y, c, k - 1);
      CapByPosition(idx, yix, y, c, k - 1);
    }
  }

  /** So the active alphas sum to the target of the sub-problem, and this is what keeps the total zero. */
  lemma GatherActive(alpha: Vec, idx: seq<int>, act: nat, yix: int, y: int, c: real)
    requires IsPerm(idx, |alpha|) && act <= |alpha| && 0 <= yix < |idx| && idx[yix] == y
    requires forall m :: act <= m < |idx| ==> alpha[idx[m]] == Cap(idx[m], y, c)
    ensures Sum(alpha) == 0.0 <==> GatherTo(alpha, idx, act) == Target(yix, c, act)
  {
    GatherAll(alpha, idx);
    GatherTail(alpha, idx, act, yix, y, c, |alpha|);
  }

  lemma {:induction false} GatherLower(alpha: Vec, idx: seq<int>, yix: int, c: real, k: nat)
    requires IsPerm(idx, |alpha|) && k <= |alpha|
    requires forall m :: 0 <= m < k ==> alpha[idx[m]] >= Cap(m, yix, c)
    ensures GatherTo(alpha, idx, k) >= if 0 <= yix < k then c else 0.0
  {
    if k > 0 { GatherLower(alpha, idx, yix, c, k - 1); }
  }

  /** Some active alpha is strictly below its cap: minG is finite whenever it is used. */
  lemma SomeRoom(alpha: Vec, idx: seq<int>, act: int, yix: int, y: int, c: real) returns (m: int)
    requires RowInv(alpha, idx, act, yix, y, c) && c > 0.0
    ensures 0 <= m < act && alpha[idx[m]] < Cap(m, yix, c)
  {
    hide LinAlg.Sum;
    GatherActive(alpha, idx, act, yix, y, c);
    if forall m :: 0 <= m < act ==> alpha[idx[m]] >= Cap(m, yix, c) {
      GatherLower(alpha, idx, yix, c, act);
    }
    m :| 0 <= m < act && alpha[idx[m]] < Cap(m, yix, c);
  }

  // -------------------------------------------------------------- the extremes

  /** minG over the active classes with room, and maxG over all active classes. */
  method Extremes(alpha: array<real>, idx: array<int>, act: nat, yix: int, y: int, c: real, G: array<real>)
    returns (minG: real, maxG: real)
    requires alpha.Length == idx.Length <= G.Length && c > 0.0
    requires RowInv(alpha[..], idx[..], act, yix, y, c)
    ensures exists m :: 0 <= m < act && alpha[idx[m]] < Cap(m, yix, c) && G[m] == minG
    ensures forall m :: 0 <= m < act && alpha[idx[m]] < Cap(m, yix, c) ==> minG <= G[m]
    ensures forall m :: 0 <= m < act ==> G[m] <= maxG
    ensures exists m :: 0 <= m < act && G[m] == maxG
  {
    hide LinAlg.Sum;
    var lo, hi := PosInf, NegInf;
    for m := 0 to act
      invariant lo.Fin? ==> exists k :: 0 <= k < m && alpha[idx[k]] < 0.0 && G[k] == lo.r
      invariant lo.Fin? || lo.PosInf?
      invariant forall k :: 0 <= k < m && alpha[idx[k]] < 0.0 ==> lo.Fin? && lo.r <= G[k]
      invariant if m == 0 then hi.NegInf? else hi.Fin? && exists k :: 0 <= k < m && G[k] == hi.r
      invariant forall k :: 0 <= k < m ==> G[k] <= hi.r
    {
      if alpha[idx[m]] < 0.0 && Below(Fin(G[m]), lo) {
        lo := Fin(G[m]);
      }
      if Below(hi, Fin(G[m])) {
        hi := Fin(G[m]);
      }
    }
    if yix < act && alpha[y] < c && Below(Fin(G[yix]), lo) {
      lo := Fin(G[yix]);
    }
    ghost var r := SomeRoom(alpha[..], idx[..], act, yix, y, c);
    minG, maxG := lo.r, hi.r;
  }

  // ----------------------------------------------------------------- shrinking

  /** be_shrunk: on the cap, with a gradient below minG. */
  predicate BeShrunk(m: int, yix: int, a: real, g: real, c: real, minG: real) {
    a == (if m == yix then c else 0.0) && g < minG
  }

  /** The same test, said of a class instead of a position. */
  ghost predicate Shrinkable(alpha: Vec, gv: Vec, y: int, c: real, minG: real, cls: int)
    requires 0 <= cls < |alpha| == |gv|
  {
    alpha[cls] == Cap(cls, y, c) && gv[cls] < minG
  }

  /** G holds, position by position, the gradients gv of the classes. */
  ghost predicate Paired(G: seq<real>, idx: seq<int>, gv: Vec, k: int)
    requires IsPerm(idx, |gv|)
  {
    k <= |gv| && k <= |G| && forall m :: 0 <= m < k ==> G[m] == gv[idx[m]]
  }

  /** What every step of the shrinking loops keeps. */
  ghost predicate ShrinkInv(alpha: Vec, idx: seq<int>, idx0: seq<int>, G: seq<real>, gv: Vec, act0: int, yix: int,
                            y: int) {
    && |alpha| == |gv| == |idx| == |idx0| && IsPerm(idx, |gv|) && 0 <= act0 <= |idx|
    && 0 <= yix < |idx| && idx[yix] == y
    && idx[act0..] == idx0[act0..]
    && Paired(G, idx, gv, act0)
  }

  /** Exchanging positions m and k of alpha_index and of G, and moving y_index along. */
  lemma ExchangeKeeps(alpha: Vec, idx: seq<int>, idx0: seq<int>, G: seq<real>, gv: Vec, act0: int, yix: int, y: int,
                      m: int, k: int)
    requires ShrinkInv(alpha, idx, idx0, G, gv, act0, yix, y) && 0 <= m <= k < act0
    ensures ShrinkInv(alpha, Swapped(idx, m, k), idx0, Swapped(G, m, k), gv, act0, MovedY(yix, m, k), y)
  {
    SwapKeepsPerm(idx, |gv|, m, k);
  }

  function MovedY(yix: int, m: int, k: int): int {
    if yix == k then m else if yix == m then k else yix
  }

  lemma ShrunkTest(alpha: Vec, idx: seq<int>, idx0: seq<int>, G: seq<real>, gv: Vec, act0: int, yix: int, y: int,
                   c: real, minG: real, m: int)
    requires ShrinkInv(alpha, idx, idx0, G, gv, act0, yix, y) && 0 <= m < act0
    ensures m < |idx| && 0 <= idx[m] < |alpha| == |gv| && m < |G|
    ensures BeShrunk(m, yix, alpha[idx[m]], G[m], c, minG) <==> Shrinkable(alpha, gv, y, c, minG, idx[m])
  {
    CapByPosition(idx, yix, y, c, m);
  }

  /** Classes at positions lo..hi-1 all can (or all cannot) be shrunk. */
  ghost predicate AllShrinkable(alpha: Vec, gv: Vec, y: int, c: real, minG: real, idx: seq<int>, lo: int, hi: int,
                                yes: bool)
    requires |alpha| == |gv| && IsPerm(idx, |gv|) && 0 <= lo && hi <= |gv|
  {
    forall k :: lo <= k < hi ==> Shrinkable(alpha, gv, y, c, minG, idx[k]) == yes
  }

  lemma ExchangeSorts(alpha: Vec, gv: Vec, y: int, c: real, minG: real, idx: seq<int>, m: int, k: int, act0: int)
    requires |alpha| == |gv| && 0 <= m < k < act0 <= |gv| && IsPerm(idx, |gv|) && IsPerm(Swapped(idx, m, k), |gv|)
    requires AllShrinkable(alpha, gv, y, c, minG, idx, 0, m, false)
    requires Shrinkable(alpha, gv, y, c, minG, idx[m]) && !Shrinkable(alpha, gv, y, c, minG, idx[k])
    requires AllShrinkable(alpha, gv, y, c, minG, idx, k + 1, act0, true)
    ensures AllShrinkable(alpha, gv, y, c, minG, Swapped(idx, m, k), 0, m + 1, false)
    ensures AllShrinkable(alpha, gv, y, c, minG, Swapped(idx, m, k), k, act0, true)
  {
    hide Shrinkable;
    var t := Swapped(idx, m, k);
    forall j | 0 <= j < m + 1 ensures !Shrinkable(alpha, gv, y, c, minG, t[j]) {
      if j < m { assert t[j] == idx[j]; }
    }
    forall j | k <= j < act0 ensures Shrinkable(alpha, gv, y, c, minG, t[j]) {
      if j > k { assert t[j] == idx[j]; }
    }
  }

  /** Exchanges positions m and k of alpha_index and G, and moves y_index along. */
  method Exchange(idx: array<int>, G: array<real>, yix: int, m: nat, k: nat) returns (yix': int)
    requires m < idx.Length <= G.Length && k < idx.Length
    modifies idx, G
    ensures idx[..] == Swapped(old(idx[..]), m, k) && G[..] == Swapped(old(G[..]), m, k) && yix' == MovedY(yix, m, k)
  {
    Swap(idx, m, k);
    G[m], G[k] := G[k], G[m];
    yix' := yix;
    if yix == k {
      yix' := m;
    } else if yix == m {
      yix' := k;
    }
  }

  /** The inner loop: position m can be shrunk; look from the end for a class that cannot. */
  method FillFromEnd(alpha: array<real>, idx: array<int>, m: nat, actIn: nat, ghost act0: nat, yixIn: int, ghost y: int,
                     c: real, G: array<real>, minG: real,
                     ghost idx0: seq<int>, ghost gv: Vec) returns (act: nat, yix: int)
    requires alpha.Length == idx.Length <= G.Length && alpha != G && m < actIn <= act0
    requires ShrinkInv(alpha[..], idx[..], idx0, G[..], gv, act0, yixIn, y)
    requires AllShrinkable(alpha[..], gv, y, c, minG, idx[..], 0, m, false)
    requires AllShrinkable(alpha[..], gv, y, c, minG, idx[..], m, m + 1, true)
    requires AllShrinkable(alpha[..], gv, y, c, minG, idx[..], actIn, act0, true)
    modifies idx, G
    ensures m <= act < actIn
    ensures ShrinkInv(alpha[..], idx[..], idx0, G[..], gv, act0, yix, y)
    ensures AllShrinkable(alpha[..], gv, y, c, minG, idx[..], 0, if m < act then m + 1 else m, false)
    ensures AllShrinkable(alpha[..], gv, y, c, minG, idx[..], act, act0, true)
  {
    hide Shrinkable, BeShrunk, Cap;
    yix := yixIn;
    act := actIn - 1;
    while act > m
      invariant m <= act < actIn
      invariant idx[..] == old(idx[..]) && G[..] == old(G[..])
      invariant AllShrinkable(alpha[..], gv, y, c, minG, idx[..], act + 1, act0, true)
      decreases act
    {
      ShrunkTest(alpha[..], idx[..], idx0, G[..], gv, act0, yix, y, c, minG, act);
      if !BeShrunk(act, yix, alpha[idx[act]], G[act], c, minG) {
        ExchangeKeeps(alpha[..], idx[..], idx0, G[..], gv, act0, yix, y, m, act);
        ExchangeSorts(alpha[..], gv, y, c, minG, idx[..], m, act, act0);
        yix := Exchange(idx, G, yix, m, act);
        return;
      }
      act := act - 1;
    }
  }

  /**
   The double loop over the active positions.  Exactly the active classes that
   can be shrunk end up behind the new active size.
   */
  method Shrink(alpha: array<real>, idx: array<int>, act0: nat, yix0: int, ghost y: int, c: real, G: array<real>,
                minG: real, ghost gv: Vec)
    returns (act: nat, yix: int)
    requires alpha.Length == idx.Length <= G.Length && alpha != G
    requires ShrinkInv(alpha[..], idx[..], idx[..], G[..], gv, act0, yix0, y)
    modifies idx, G
    ensures act <= act0
    ensures ShrinkInv(alpha[..], idx[..], old(idx[..]), G[..], gv, act0, yix, y)
    ensures AllShrinkable(alpha[..], gv, y, c, minG, idx[..], 0, act, false)
    ensures AllShrinkable(alpha[..], gv, y, c, minG, idx[..], act, act0, true)
  {
    hide Shrinkable, BeShrunk, Cap, Paired;
    act, yix := act0, yix0;
    ghost var idx0 := idx[..];
    var m := 0;
    while m < act
      invariant act <= act0 && m <= act + 1
      invariant ShrinkInv(alpha[..], idx[..], idx0, G[..], gv, act0, yix, y)
      invariant AllShrinkable(alpha[..], gv, y, c, minG, idx[..], 0, if m < act then m else act, false)
      invariant AllShrinkable(alpha[..], gv, y, c, minG, idx[..], act, act0, true)
      decreases act0 - m
    {
      ShrunkTest(alpha[..], idx[..], idx0, G[..], gv, act0, yix, y, c, minG, m);
      if BeShrunk(m, yix, alpha[idx[m]], G[m], c, minG) {
        act, yix := FillFromEnd(alpha, idx, m, act, act0, yix, y, c, G, minG, idx0, gv);
      }
      m := m + 1;
    }
  }

  // ------------------------------------------------- the same, class by class

  /** minG and maxG in terms of the classes at the first act positions. */
  ghost predicate Extremal(alpha: Vec, idx: seq<int>, act: int, y: int, c: real, gv: Vec, minG: real, maxG: real) {
    && |alpha| == |gv| && IsPerm(idx, |gv|) && act <= |gv|
    && (exists m :: 0 <= m < act && alpha[idx[m]] < Cap(idx[m], y, c) && gv[idx[m]] == minG)
    && (forall m :: 0 <= m < act && alpha[idx[m]] < Cap(idx[m], y, c) ==> minG <= gv[idx[m]])
    && (forall m :: 0 <= m < act ==> gv[idx[m]] <= maxG)
    && (exists m :: 0 <= m < act && gv[idx[m]] == maxG)
  }

  /** Of the first act0 classes exactly those that can be shrunk stand behind the new active size. */
  ghost predicate ShrunkBy(alpha: Vec, gv: Vec, y: int, c: real, minG: real, idx0: seq<int>, idx: seq<int>, act0: int,
                           act: int) {
    && |alpha| == |gv| == |idx| == |idx0| && IsPerm(idx0, |gv|) && IsPerm(idx, |gv|)
    && 0 <= act <= act0 <= |idx| && idx[act0..] == idx0[act0..]
    && AllShrinkable(alpha, gv, y, c, minG, idx, 0, act, false)
    && AllShrinkable(alpha, gv, y, c, minG, idx, act, act0, true)
  }

  lemma ShowExtremal(alpha: Vec, idx: seq<int>, act: int, yix: int, y: int, c: real, G: seq<real>, gv: Vec, minG: real,
                     maxG: real)
    requires |alpha| == |gv| == |idx| && IsPerm(idx, |gv|) && 0 <= act <= |gv| && 0 <= yix < |idx| && idx[yix] == y
    requires Paired(G, idx, gv, act)
    requires exists m :: 0 <= m < act && alpha[idx[m]] < Cap(m, yix, c) && G[m] == minG
    requires forall m :: 0 <= m < act && alpha[idx[m]] < Cap(m, yix, c) ==> minG <= G[m]
    requires forall m :: 0 <= m < act ==> G[m] <= maxG
    requires exists m :: 0 <= m < act && G[m] == maxG
    ensures Extremal(alpha, idx, act, y, c, gv, minG, maxG)
  {
    hide CsSubProblem.Cap;
    forall m | 0 <= m < act ensures Cap(m, yix, c) == Cap(idx[m], y, c) { CapByPosition(idx, yix, y, c, m); }
    var m0 :| 0 <= m0 < act && alpha[idx[m0]] < Cap(m0, yix, c) && G[m0] == minG;
    assert alpha[idx[m0]] < Cap(idx[m0], y, c) && gv[idx[m0]] == minG;
    var m1 :| 0 <= m1 < act && G[m1] == maxG;
    assert gv[idx[m1]] == maxG;
  }

  /** A class that was active and cannot be shrunk is still active. */
  lemma StaysActive(alpha: Vec, gv: Vec, y: int, c: real, minG: real, idx0: seq<int>, idx: seq<int>, act0: int,
                    act: int, m: int) returns (k: int)
    requires ShrunkBy(alpha, gv, y, c, minG, idx0, idx, act0, act) && 0 <= m < act0
    requires !Shrinkable(alpha, gv, y, c, minG, idx0[m])
    ensures 0 <= k < act && idx[k] == idx0[m]
  {
    hide CsSubProblem.Cap;
    k := PermOnto(idx, |idx|, idx0[m]);
  }

  /**
   When at most one class stays active, minG and maxG were the same: an instance is dropped only
   when it is optimal.
   */
  lemma DroppedGap(alpha: Vec, gv: Vec, y: int, c: real, minG: real, maxG: real, idx0: seq<int>, idx: seq<int>,
                   act0: int, act: int)
    requires Extremal(alpha, idx0, act0, y, c, gv, minG, maxG) && ShrunkBy(alpha, gv, y, c, minG, idx0, idx, act0, act)
    requires act <= 1
    ensures maxG == minG
  {
    hide CsSubProblem.Cap;
    var lo :| 0 <= lo < act0 && alpha[idx0[lo]] < Cap(idx0[lo], y, c) && gv[idx0[lo]] == minG;
    var hi :| 0 <= hi < act0 && gv[idx0[hi]] == maxG;
    assert minG <= maxG;
    var a := StaysActive(alpha, gv, y, c, minG, idx0, idx, act0, act, lo);
    var b := StaysActive(alpha, gv, y, c, minG, idx0, idx, act0, act, hi);
  }

  /** What be_shrunk tests: the class is on its cap and every active class with room has a larger gradient. */
  lemma ShrinkableIff(alpha: Vec, idx: seq<int>, act: int, y: int, c: real, gv: Vec, minG: real, maxG: real, cls: int)
    requires Extremal(alpha, idx, act, y, c, gv, minG, maxG) && 0 <= cls < |alpha|
    requires alpha[cls] <= Cap(cls, y, c)
    ensures Shrinkable(alpha, gv, y, c, minG, cls) <==>
            && !(alpha[cls] < Cap(cls, y, c))
            && forall m :: 0 <= m < act && alpha[idx[m]] < Cap(idx[m], y, c) ==> gv[cls] < gv[idx[m]]
  {
    hide Cap;
    var m :| 0 <= m < act && alpha[idx[m]] < Cap(idx[m], y, c) && gv[idx[m]] == minG;
  }
}
