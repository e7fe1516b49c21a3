/**
 The list sort of o3-pipeview.py: by sequence number, equal numbers in the order
 they came in, as Python's sort does it.
 */
module StableSort {
  /** One instruction of the trace; `body` stands for what is only printed. */
  datatype Inst = Inst(sn: int, fetch: int, retire: int, body: string)

  ghost predicate Sorted(s: seq<Inst>) {
    forall i, j :: 0 <= i < j < |s| ==> s[i].sn <= s[j].sn
  }

  /** Every entry of p may stand before every entry of q. */
  ghost predicate Before(p: seq<Inst>, q: seq<Inst>) {
    forall i, j :: 0 <= i < |p| && 0 <= j < |q| ==> p[i].sn <= q[j].sn
  }

  /** x behind everything that is not larger. */
  function Insert(x: Inst, s: seq<Inst>): (r: seq<Inst>)
    ensures |r| == |s| + 1
  {
    if s == [] || s[|s| - 1].sn <= x.sn then s + [x]
    else Insert(x, s[..|s| - 1]) + [s[|s| - 1]]
  }

  function Sort(s: seq<Inst>): (r: seq<Inst>)
    ensures |r| == |s|
  {
    if s == [] then [] else Insert(s[|s| - 1], Sort(s[..|s| - 1]))
  }

  /** The entries with one sequence number, in order. */
  ghost function OfSn(s: seq<Inst>, k: int): seq<Inst> {
    if s == [] then [] else
      var t := OfSn(s[..|s| - 1], k);
      if s[|s| - 1].sn == k then t + [s[|s| - 1]] else t
  }

  lemma AppendSorted(t: seq<Inst>, z: Inst)
    requires Sorted(t) && forall e :: e in multiset(t) ==> e.sn <= z.sn
    ensures Sorted(t + [z]) && multiset(t + [z]) == multiset(t) + multiset{z}
  {
    forall i | 0 <= i < |t| ensures t[i].sn <= z.sn { assert t[i] in multiset(t); }
  }

  lemma LastLargest(s: seq<Inst>)
    requires Sorted(s) && s != []
    ensures Sorted(s[..|s| - 1]) && multiset(s) == multiset(s[..|s| - 1]) + multiset{s[|s| - 1]}
    ensures forall e :: e in multiset(s) ==> e.sn <= s[|s| - 1].sn
  {
    assert s == s[..|s| - 1] + [s[|s| - 1]];
  }

  lemma {:induction false} InsertSorted(x: Inst, s: seq<Inst>)
    requires Sorted(s)
    ensures Sorted(Insert(x, s)) && multiset(Insert(x, s)) == multiset(s) + multiset{x}
  {
    hide Sorted;
    if s != [] { LastLargest(s); }
    if s == [] || s[|s| - 1].sn <= x.sn {
      AppendSorted(s, x);
    } else {
      InsertSorted(x, s[..|s| - 1]);
      AppendSorted(Insert(x, s[..|s| - 1]), s[|s| - 1]);
    }
  }

  lemma {:induction false} SortSorts(s: seq<Inst>)
    ensures Sorted(Sort(s)) && multiset(Sort(s)) == multiset(s)
  {
    if s != [] {
      assert s == s[..|s| - 1] + [s[|s| - 1]];
      SortSorts(s[..|s| - 1]);
      InsertSorted(s[|s| - 1], Sort(s[..|s| - 1]));
    }
  }

  lemma {:induction false} OfSnAppend(s: seq<Inst>, x: Inst, k: int)
    ensures OfSn(s + [x], k) == if x.sn == k then OfSn(s, k) + [x] else OfSn(s, k)
  {
    assert (s + [x])[..|s|] == s;
  }

  lemma {:induction false} InsertStable(x: Inst, s: seq<Inst>, k: int)
    requires Sorted(s)
    ensures OfSn(Insert(x, s), k) == OfSn(s + [x], k)
  {
    if s != [] && s[|s| - 1].sn > x.sn {
      var t, z := s[..|s| - 1], s[|s| - 1];
      InsertStable(x, t, k);
      OfSnAppend(Insert(x, t), z, k);
      OfSnAppend(t, x, k);
      OfSnAppend(s, x, k);
      if x.sn == k {
        assert z.sn != k;
      }
    }
  }

  /** The sort is stable. */
  lemma {:induction false} SortStable(s: seq<Inst>, k: int)
    ensures OfSn(Sort(s), k) == OfSn(s, k)
  {
    if s != [] {
      var t, x := s[..|s| - 1], s[|s| - 1];
      SortStable(t, k);
      SortSorts(t);
      InsertStable(x, Sort(t), k);
      OfSnAppend(Sort(t), x, k);
    }
  }

  lemma SortAppend(s: seq<Inst>, x: Inst)
    ensures Sort(s + [x]) == Insert(x, Sort(s))
  {
    assert (s + [x])[..|s|] == s;
  }

  lemma {:induction false} InsertBehind(x: Inst, p: seq<Inst>, s: seq<Inst>)
    requires Before(p, [x])
    ensures Insert(x, p + s) == p + Insert(x, s)
  {
    hide Sorted;
    var u := p + s;
    if s == [] {
      assert u == p;
      if p != [] { assert p[|p| - 1].sn <= [x][0].sn; }
      assert p + Insert(x, []) == p + [x];
    } else {
      var t, z := s[..|s| - 1], s[|s| - 1];
      assert u[..|u| - 1] == p + t;
      if z.sn > x.sn { InsertBehind(x, p, t); }
    }
  }

  /** A sorted part that stands before everything else may be left alone. */
  lemma {:induction false} SortBehind(p: seq<Inst>, q: seq<Inst>)
    requires Sorted(p) && Before(p, q)
    ensures Sort(p + q) == p + Sort(q)
  {
    hide Sort, Insert, Sorted;
    if q == [] {
      assert p + q == p && p + [] == p;
      SortNothing();
      SortIdle(p);
    } else {
      var t, x := q[..|q| - 1], q[|q| - 1];
      assert q == t + [x] && p + q == (p + t) + [x];
      SortBehind(p, t);
      SortAppend(p + t, x);
      SortAppend(t, x);
      forall i | 0 <= i < |p| ensures p[i].sn <= x.sn { assert p[i].sn <= q[|q| - 1].sn; }
      InsertBehind(x, p, Sort(t));
    }
  }

  lemma SortNothing()
    ensures Sort([]) == []
  {
  }

  lemma {:induction false} SortIdle(p: seq<Inst>)
    requires Sorted(p)
    ensures Sort(p) == p
  {
    if p != [] {
      SortIdle(p[..|p| - 1]);
      assert p == p[..|p| - 1] + [p[|p| - 1]];
    }
  }

  // --------------------------------------------------------------- counting

  /** How many entries have a sequence number above y. */
  ghost function Above(s: seq<Inst>, y: int): (n: nat)
    ensures n <= |s|
  {
    if s == [] then 0 else Above(s[..|s| - 1], y) + (if s[|s| - 1].sn > y then 1 else 0)
  }

  lemma AboveAppend(s: seq<Inst>, x: Inst, y: int)
    ensures Above(s + [x], y) == Above(s, y) + (if x.sn > y then 1 else 0)
  {
    assert (s + [x])[..|s|] == s;
  }

  lemma {:induction false} AboveInsert(x: Inst, s: seq<Inst>, y: int)
    ensures Above(Insert(x, s), y) == Above(s, y) + (if x.sn > y then 1 else 0)
  {
    if s == [] || s[|s| - 1].sn <= x.sn {
      AboveAppend(s, x, y);
    } else {
      AboveInsert(x, s[..|s| - 1], y);
      AboveAppend(Insert(x, s[..|s| - 1]), s[|s| - 1], y);
    }
  }

  lemma {:induction false} AboveSort(s: seq<Inst>, y: int)
    ensures Above(Sort(s), y) == Above(s, y)
  {
    if s != [] {
      AboveSort(s[..|s| - 1], y);
      AboveInsert(s[|s| - 1], Sort(s[..|s| - 1]), y);
    }
  }

  lemma {:induction false} AboveGrows(s: seq<Inst>, m: nat, n: nat, y: int)
    requires m <= n <= |s|
    ensures Above(s[..m], y) <= Above(s[..n], y)
  {
    if m < n {
      AboveGrows(s, m, n - 1, y);
      assert s[..n] == s[..n - 1] + [s[n - 1]];
      AboveAppend(s[..n - 1], s[n - 1], y);
    }
  }

  /** In a sorted list the entry with k behind it is above y exactly when more than k entries are. */
  lemma {:induction false} AboveAt(s: seq<Inst>, k: nat, y: int)
    requires Sorted(s) && k < |s|
    ensures s[|s| - 1 - k].sn > y <==> Above(s, y) > k
  {
    var t, z := s[..|s| - 1], s[|s| - 1];
    if z.sn <= y {
      NoneAbove(s, y);
    } else if k > 0 {
      AboveAt(t, k - 1, y);
    }
  }

  lemma {:induction false} NoneAbove(s: seq<Inst>, y: int)
    requires forall i :: 0 <= i < |s| ==> s[i].sn <= y
    ensures Above(s, y) == 0
  {
    if s != [] { NoneAbove(s[..|s| - 1], y); }
  }
}
