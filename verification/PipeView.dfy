/**
 The reorder queue of o3-pipeview.py: instructions arrive roughly in order of
 their sequence numbers; when more than `most` are waiting the queue is sorted
 and printed down to `least`; at the end of the trace it is drained.  The script
 states its assumption in a comment; here is exactly when it suffices.
 */
module PipeView {
  import opened StableSort

  /** max_threshold and min_threshold, 2000 and 1000 in the script; here any two in that order. */
  datatype Limits = Limits(most: nat, least: nat) {
    ghost predicate Fit() { least <= most }
  }

  datatype Filters = Filters(snStart: int, snStop: int, tickStart: int, tickStop: int, onlyCommitted: int)

  /** The tests made on every instruction taken off the queue. */
  predicate Passes(f: Filters, x: Inst) {
    && !(f.snStart > 0 && x.sn < f.snStart)
    && !(f.snStop > 0 && x.sn > f.snStop)
    && !(f.tickStart > 0 && x.fetch < f.tickStart)
    && !(f.tickStop > 0 && x.fetch > f.tickStop)
    && !(f.onlyCommitted != 0 && x.retire == 0)
  }

  ghost function Kept(f: Filters, s: seq<Inst>): seq<Inst> {
    if s == [] then [] else
      Kept(f, s[..|s| - 1]) + (if Passes(f, s[|s| - 1]) then [s[|s| - 1]] else [])
  }

  // ------------------------------------------------------- runs of the queue

  /** What was taken off so far, and what waits. */
  datatype State = State(out: seq<Inst>, queue: seq<Inst>)

  /** print_insts */
  ghost function Flush(st: State, lower: nat): State {
    var s := Sort(st.queue);
    var k := Cut(|s|, lower);
    State(st.out + s[..k], s[k..])
  }

  /** How many of n are taken off. */
  ghost function Cut(n: nat, lower: nat): (k: nat)
    ensures k <= n
  {
    if n > lower then n - lower else 0
  }

  /** queue_inst */
  ghost function Arrive(l: Limits, st: State, x: Inst): State {
    var w := State(st.out, st.queue + [x]);
    if |w.queue| > l.most then Flush(w, l.least) else w
  }

  /** After the first n arrivals. */
  ghost function After(l: Limits, a: seq<Inst>, n: nat): State
    requires n <= |a|
  {
    if n == 0 then State([], []) else Arrive(l, After(l, a, n - 1), a[n - 1])
  }

  /** Everything taken off the queue, end-of-file drain included. */
  ghost function Stream(l: Limits, a: seq<Inst>): seq<Inst> {
    Flush(After(l, a, |a|), 0).out
  }

  class Viewer {
    const limits: Limits
    const filters: Filters
    var queue: seq<Inst>
    var printed: seq<Inst>
    ghost var arrived: seq<Inst>
    ghost var out: seq<Inst>

    ghost predicate Valid()
      reads this
    {
      && limits.Fit()
      && State(out, queue) == After(limits, arrived, |arrived|)
      && printed == Kept(filters, out)
    }

    constructor (limits: Limits, filters: Filters)
      requires limits.Fit()
      ensures Valid() && arrived == [] && this.limits == limits && this.filters == filters
    {
      this.limits, this.filters := limits, filters;
      queue, printed, arrived, out := [], [], [], [];
    }

    /** print_insts: sorts the queue and takes instructions off its front. */
    method PrintInsts(lower: nat)
      requires printed == Kept(filters, out)
      modifies this`queue, this`printed, this`out
      ensures State(out, queue) == Flush(State(old(out), old(queue)), lower)
      ensures printed == Kept(filters, out)
      ensures |queue| == if |old(queue)| > lower then lower else |old(queue)|
    {
      hide *;
      queue := Sort(queue);
      ghost var s, k := queue, 0;
      while |queue| > lower
        invariant 0 <= k <= |s| && queue == s[k..] && out == old(out) + s[..k]
        invariant k > 0 ==> |queue| >= lower
        invariant printed == Kept(filters, out)
      {
        var item := queue[0];
        queue := queue[1..];
        KeptAppend(filters, out, item);
        out := out + [item];
        if Passes(filters, item) {
          printed := printed + [item];
        }
        k := k + 1;
      }
      FlushIs(State(old(out), old(queue)), lower, s, k);
    }

    /** queue_inst: at most max_threshold instructions wait afterwards. */
    method QueueInst(inst: Inst)
      requires Valid()
      modifies this`queue, this`printed, this`out, this`arrived
      ensures Valid() && arrived == old(arrived) + [inst] && |queue| <= limits.most
    {
      hide Flush, Kept, StableSort.Sort;
      AfterPrefix(limits, arrived, inst);
      queue := queue + [inst];
      arrived := arrived + [inst];
      if |queue| > limits.most {
        PrintInsts(limits.least);
      }
    }

    /** The main loop of process_trace up to the end of the file, and the drain. */
    method ProcessTrace(trace: seq<Inst>)
      requires Valid() && arrived == []
      modifies this`queue, this`printed, this`out, this`arrived
      ensures queue == [] && out == Stream(limits, trace) && printed == Kept(filters, Stream(limits, trace))
      ensures forall x :: x in printed ==> Wanted(filters, x)
      ensures Timely(limits, trace) ==> printed == Kept(filters, Sort(trace))
    {
      for n := 0 to |trace|
        invariant Valid() && arrived == trace[..n]
      {
        assert trace[..n + 1] == trace[..n] + [trace[n]];
        QueueInst(trace[n]);
      }
      assert trace[..|trace|] == trace;
      PrintInsts(0);
      SortedIff(limits, trace);
      assert out == Stream(limits, trace);
      PrintedAreWanted(filters, out);
    }
  }

  lemma KeptAppend(f: Filters, s: seq<Inst>, x: Inst)
    ensures Kept(f, s + [x]) == if Passes(f, x) then Kept(f, s) + [x] else Kept(f, s)
  {
    hide Passes;
    assert (s + [x])[..|s|] == s;
  }

  lemma FlushIs(st: State, lower: nat, s: seq<Inst>, k: nat)
    requires s == Sort(st.queue) && k <= |s| && |s| - k <= lower && (k > 0 ==> |s| - k >= lower)
    ensures Flush(st, lower) == State(st.out + s[..k], s[k..])
    ensures |s| == |st.queue|
  {
    hide StableSort.Sort;
  }

  lemma {:induction false} AfterSame(l: Limits, a: seq<Inst>, b: seq<Inst>, n: nat)
    requires n <= |a| && n <= |b| && forall i :: 0 <= i < n ==> a[i] == b[i]
    ensures After(l, a, n) == After(l, b, n)
  {
    hide Arrive;
    if n > 0 { AfterSame(l, a, b, n - 1); }
  }

  lemma AfterPrefix(l: Limits, a: seq<Inst>, x: Inst)
    ensures After(l, a + [x], |a|) == After(l, a, |a|)
  {
    AfterSame(l, a + [x], a, |a|);
  }

  // ---------------------------------------------------- nothing lost, nothing twice

  lemma FlushKeeps(st: State, lower: nat)
    ensures var t := Flush(st, lower);
            multiset(t.out + t.queue) == multiset(st.out + st.queue)
  {
    hide StableSort.Sort, Cut;
    SortSorts(st.queue);
    Rejoin(st.out, Sort(st.queue), Cut(|st.queue|, lower));
    assert multiset(st.out + Sort(st.queue)) == multiset(st.out + st.queue);
  }

  lemma Rejoin(u: seq<Inst>, s: seq<Inst>, k: nat)
    requires k <= |s|
    ensures (u + s[..k]) + s[k..] == u + s
  {
  }

  lemma {:induction false} AfterKeeps(l: Limits, a: seq<Inst>, n: nat)
    requires n <= |a|
    ensures multiset(After(l, a, n).out + After(l, a, n).queue) == multiset(a[..n])
  {
    hide Arrive;
    if n == 0 {
      assert a[..0] == [];
    } else {
      AfterKeeps(l, a, n - 1);
      ArriveKeeps(l, After(l, a, n - 1), a[n - 1], a[..n - 1]);
      assert a[..n] == a[..n - 1] + [a[n - 1]];
    }
  }

  lemma ArriveKeeps(l: Limits, st: State, x: Inst, before: seq<Inst>)
    requires multiset(st.out + st.queue) == multiset(before)
    ensures var t := Arrive(l, st, x); multiset(t.out + t.queue) == multiset(before + [x])
  {
    hide Flush;
    assert st.out + (st.queue + [x]) == (st.out + st.queue) + [x];
    assert multiset((st.out + st.queue) + [x]) == multiset(before) + multiset{x};
    FlushKeeps(State(st.out, st.queue + [x]), l.least);
  }

  /** Every arrival leaves the queue exactly once, in whatever order they came. */
  lemma StreamIsPermutation(l: Limits, a: seq<Inst>)
    ensures multiset(Stream(l, a)) == multiset(a)
  {
    hide After, Flush;
    AfterKeeps(l, a, |a|);
    var st := After(l, a, |a|);
    FlushKeeps(st, 0);
    Drained(st);
    assert a[..|a|] == a;
    assert Flush(st, 0).out + [] == Flush(st, 0).out;
  }

  lemma Drained(st: State)
    ensures Flush(st, 0).queue == [] && Flush(st, 0).out == st.out + Sort(st.queue)
  {
    var s := Sort(st.queue);
    assert s[..|s|] == s;
  }

  /** What passes the filters is printed as often as it arrived. */
  lemma {:induction false} KeptCounts(f: Filters, s: seq<Inst>, x: Inst)
    ensures multiset(Kept(f, s))[x] == if Passes(f, x) then multiset(s)[x] else 0
  {
    hide Kept, Passes;
    if s == [] {
      KeptNothing(f);
    } else {
      var t, z := s[..|s| - 1], s[|s| - 1];
      KeptCounts(f, t, x);
      assert s == t + [z];
      KeptAppend(f, t, z);
      CountAppend(t, z, x);
      CountAppend(Kept(f, t), z, x);
    }
  }

  lemma KeptNothing(f: Filters)
    ensures Kept(f, []) == []
  {
  }

  lemma CountAppend(s: seq<Inst>, z: Inst, x: Inst)
    ensures multiset(s + [z])[x] == multiset(s)[x] + if x == z then 1 else 0
  {
  }

  /** What passes the filters: a bound that is not positive is no bound. */
  ghost predicate Wanted(f: Filters, x: Inst) {
    && (f.snStart <= 0 || f.snStart <= x.sn) && (f.snStop <= 0 || x.sn <= f.snStop)
    && (f.tickStart <= 0 || f.tickStart <= x.fetch) && (f.tickStop <= 0 || x.fetch <= f.tickStop)
    && (f.onlyCommitted == 0 || x.retire != 0)
  }

  lemma {:induction false} PrintedAreWanted(f: Filters, s: seq<Inst>)
    ensures forall x :: x in Kept(f, s) ==> x in s && Wanted(f, x)
  {
    if s != [] { PrintedAreWanted(f, s[..|s| - 1]); }
  }

  lemma PrintedOnce(l: Limits, f: Filters, a: seq<Inst>, x: Inst)
    ensures multiset(Kept(f, Stream(l, a)))[x] == if Wanted(f, x) then multiset(a)[x] else 0
  {
    KeptCounts(f, Stream(l, a), x);
    StreamIsPermutation(l, a);
  }

  lemma {:induction false} KeptSorted(f: Filters, s: seq<Inst>)
    requires Sorted(s)
    ensures Sorted(Kept(f, s)) && Before(Kept(f, s), if s == [] then [] else [s[|s| - 1]])
  {
    if s != [] {
      var t, z := s[..|s| - 1], s[|s| - 1];
      KeptSorted(f, t);
      var k := Kept(f, t);
      forall i | 0 <= i < |k| ensures k[i].sn <= z.sn {
        assert t != [];
        assert k[i].sn <= [t[|t| - 1]][0].sn;
      }
    }
  }

  // -------------------------------------------------------- when it is printed

  /** The arrivals after which the queue is printed down. */
  ghost predicate Batch(l: Limits, n: nat)
    requires l.Fit()
  {
    n > l.most && (n - l.most - 1) % (l.most - l.least + 1) == 0
  }

  lemma {:induction false} QueueLength(l: Limits, a: seq<Inst>, n: nat)
    requires l.Fit() && n <= |a|
    ensures |After(l, a, n).queue| == Waiting(l, n)
  {
    hide StableSort.Sort, Flush, Waiting;
    WaitingStep(l, n);
    if n > 0 {
      QueueLength(l, a, n - 1);
      FlushSize(State(After(l, a, n - 1).out, After(l, a, n - 1).queue + [a[n - 1]]), l.least);
    }
  }

  /** The length of the queue after n arrivals. */
  ghost function Waiting(l: Limits, n: nat): nat
    requires l.Fit()
  {
    if n <= l.most then n else l.least + (n - l.most - 1) % (l.most - l.least + 1)
  }

  lemma WaitingStep(l: Limits, n: nat)
    requires l.Fit()
    ensures n == 0 ==> Waiting(l, n) == 0
    ensures n > 0 ==>
        && Waiting(l, n - 1) <= l.most
        && Waiting(l, n) == if Waiting(l, n - 1) == l.most then l.least else Waiting(l, n - 1) + 1
    ensures n > 0 ==> (Batch(l, n) <==> Waiting(l, n - 1) == l.most)
  {
    if n > l.most + 1 { Cycle(n - l.most - 2, l.most - l.least + 1); }
  }

  /** Counting on in a cycle. */
  lemma Cycle(x: nat, m: nat)
    requires m > 0
    ensures (x + 1) % m == if x % m + 1 == m then 0 else x % m + 1
  {
    var q, r := x / m, x % m;
    assert x == m * q + r;
    if r + 1 == m {
      assert x + 1 == m * (q + 1);
      Residue(x + 1, m, q + 1, 0);
    } else {
      Residue(x + 1, m, q, r + 1);
    }
  }

  lemma Residue(x: nat, m: nat, q: int, r: nat)
    requires r < m && x == m * q + r
    ensures x % m == r
  {
    var p, s := x / m, x % m;
    assert x == m * p + s;
    assert m * (p - q) == m * p - m * q;
    assert p > q ==> m * (p - q) >= m by { if p > q { Steps(m, p - q); } }
    assert m * (q - p) == m * q - m * p;
    assert p < q ==> m * (q - p) >= m by { if p < q { Steps(m, q - p); } }
  }

  lemma Steps(m: nat, k: nat)
    requires k > 0
    ensures m * k >= m
  {
    assert m * k == m * (k - 1) + m;
  }

  // ------------------------------------------------------------ late arrivals

  /** The n-th arrival belongs before something already taken off. */
  ghost predicate Late(l: Limits, a: seq<Inst>, n: nat)
    requires n < |a|
  {
    !Before(After(l, a, n).out, [a[n]])
  }

  ghost predicate NoneLate(l: Limits, a: seq<Inst>, n: nat)
    requires n <= |a|
  {
    forall i :: 0 <= i < n ==> !Late(l, a, i)
  }

  /** In order so far: what is out is sorted, stands before the queue, and together they sort like the arrivals. */
  ghost predicate InOrder(l: Limits, a: seq<Inst>, n: nat)
    requires n <= |a|
  {
    var st := After(l, a, n);
    Sorted(st.out) && Before(st.out, st.queue) && Sort(a[..n]) == st.out + Sort(st.queue)
  }

  lemma BeforeSort(p: seq<Inst>, q: seq<Inst>)
    requires Before(p, q)
    ensures Before(p, Sort(q))
  {
    hide StableSort.Sort;
    SortSorts(q);
    forall i, j | 0 <= i < |p| && 0 <= j < |Sort(q)| ensures p[i].sn <= Sort(q)[j].sn {
      assert Sort(q)[j] in multiset(q);
    }
  }

  lemma FlushInOrder(st: State, lower: nat)
    requires Sorted(st.out) && Before(st.out, st.queue)
    ensures var t := Flush(st, lower);
            && Sorted(t.out) && Before(t.out, t.queue)
            && t.out + Sort(t.queue) == st.out + Sort(st.queue) == t.out + t.queue
  {
    hide StableSort.Sort, StableSort.Sorted, StableSort.Before, Cut;
    SortSorts(st.queue);
    BeforeSort(st.out, st.queue);
    var s, k := Sort(st.queue), Cut(|st.queue|, lower);
    Divide(st.out, s, k);
    SortIdle(s[k..]);
    Rejoin(st.out, s, k);
  }

  lemma Divide(p: seq<Inst>, s: seq<Inst>, k: nat)
    requires Sorted(p) && Sorted(s) && Before(p, s) && k <= |s|
    ensures Sorted(p + s[..k]) && Sorted(s[k..]) && Before(p + s[..k], s[k..])
  {
    var t := p + s[..k];
    forall i, j | 0 <= i < |t| && 0 <= j < |s[k..]| ensures t[i].sn <= s[k..][j].sn {
      assert s[k..][j] == s[k + j];
    }
    forall i, j | 0 <= i < j < |t| ensures t[i].sn <= t[j].sn {
      if j >= |p| { assert t[j] == s[j - |p|]; }
    }
  }

  lemma {:induction false} StaysInOrder(l: Limits, a: seq<Inst>, n: nat)
    requires n <= |a| && NoneLate(l, a, n)
    ensures InOrder(l, a, n)
  {
    hide StableSort.Sort, Arrive, StableSort.Sorted, StableSort.Before;
    if n == 0 {
      EmptyInOrder();
      assert a[..0] == [];
    } else {
      StaysInOrder(l, a, n - 1);
      assert !Late(l, a, n - 1);
      assert a[..n] == a[..n - 1] + [a[n - 1]];
      ArriveInOrder(l, After(l, a, n - 1), a[n - 1], a[..n - 1]);
    }
  }

  lemma EmptyInOrder()
    ensures Sorted([]) && Before([], []) && Sort([]) == []
  {
  }

  /** An arrival that is not late keeps everything in order. */
  lemma ArriveInOrder(l: Limits, st: State, x: Inst, before: seq<Inst>)
    requires Sorted(st.out) && Before(st.out, st.queue) && Sort(before) == st.out + Sort(st.queue)
    requires Before(st.out, [x])
    ensures var t := Arrive(l, st, x);
            Sorted(t.out) && Before(t.out, t.queue) && Sort(before + [x]) == t.out + Sort(t.queue)
  {
    hide StableSort.Sort, StableSort.Sorted, Flush, StableSort.Before, StableSort.Insert;
    SortAppend(before, x);
    InsertBehind(x, st.out, Sort(st.queue));
    SortAppend(st.queue, x);
    BeforeAppend(st.out, st.queue, x);
    FlushInOrder(State(st.out, st.queue + [x]), l.least);
  }

  lemma BeforeAppend(p: seq<Inst>, q: seq<Inst>, x: Inst)
    requires Before(p, q) && Before(p, [x])
    ensures Before(p, q + [x])
  {
    forall i, j | 0 <= i < |p| && 0 <= j < |q + [x]| ensures p[i].sn <= (q + [x])[j].sn {
      if j == |q| { assert p[i].sn <= [x][0].sn; }
    }
  }

  /** What comes out later, as a continuation of what is out at n. */
  lemma {:induction false} OutGrows(l: Limits, a: seq<Inst>, n: nat, m: nat)
    requires n <= m <= |a|
    ensures After(l, a, n).out <= After(l, a, m).out
  {
    hide StableSort.Sort;
    if n < m { OutGrows(l, a, n, m - 1); }
  }

  lemma CancelMultiset(p: multiset<Inst>, q: multiset<Inst>, r: multiset<Inst>)
    requires p + q == p + r
    ensures q == r
  {
    assert q == (p + q) - p;
    assert r == (p + r) - p;
  }

  /** A late arrival stands behind a larger one for good. */
  lemma LateUnsorted(l: Limits, a: seq<Inst>, n: nat)
    requires n < |a| && Late(l, a, n)
    ensures !Sorted(Stream(l, a))
  {
    hide StableSort.Sort, Flush, After;
    var st, x, end := After(l, a, n), a[n], After(l, a, |a|);
    var i :| 0 <= i < |st.out| && st.out[i].sn > x.sn;
    var out := Stream(l, a);
    OutGrows(l, a, n, |a|);
    Drained(end);
    assert out[..|st.out|] == st.out;
    var rest := out[|st.out|..];
    assert out == st.out + rest;
    StreamIsPermutation(l, a);
    AfterKeeps(l, a, n);
    assert a == a[..n] + a[n..];
    assert multiset(out) == multiset(st.out) + multiset(rest);
    assert multiset(st.out + st.queue) == multiset(st.out) + multiset(st.queue);
    assert multiset(a) == multiset(a[..n]) + multiset(a[n..]);
    CancelMultiset(multiset(st.out), multiset(rest), multiset(st.queue) + multiset(a[n..]));
    assert a[n..][0] == x;
    assert x in multiset(rest);
    var j :| 0 <= j < |rest| && rest[j] == x;
    assert out[|st.out| + j] == x && out[i] == st.out[i];
  }

  /** The stream is the sorted trace if and only if nothing arrives late. */
  lemma InOrderIff(l: Limits, a: seq<Inst>)
    ensures NoneLate(l, a, |a|) <==> Stream(l, a) == Sort(a)
    ensures NoneLate(l, a, |a|) <==> Sorted(Stream(l, a))
  {
    hide StableSort.Sort, Flush, After;
    SortSorts(a);
    if NoneLate(l, a, |a|) {
      StaysInOrder(l, a, |a|);
      Drained(After(l, a, |a|));
      assert a[..|a|] == a;
    } else {
      var n :| 0 <= n < |a| && Late(l, a, n);
      LateUnsorted(l, a, n);
    }
  }

  // -------------------------------------------- the same, read off the trace

  /**
   The condition on the trace alone: when the queue is printed after n
   arrivals, every later instruction has at most min_threshold of those n above it.
   */
  ghost predicate Timely(l: Limits, a: seq<Inst>)
    requires l.Fit()
  {
    forall n, i :: 0 <= n <= i < |a| && Batch(l, n) ==> Above(a[..n], a[i].sn) <= l.least
  }

  /** What is out after n arrivals in order: all but the last `least` of the sorted arrivals at the latest batch. */
  lemma {:induction false} LatestBatch(l: Limits, a: seq<Inst>, n: nat) returns (b: nat)
    requires l.Fit() && n <= |a| && NoneLate(l, a, n)
    ensures b <= n && forall k :: b < k <= n ==> !Batch(l, k)
    ensures b == 0 ==> After(l, a, n).out == []
    ensures b > 0 ==> Batch(l, b) && After(l, a, n).out == Sort(a[..b])[..b - l.least]
  {
    hide StableSort.Sort, Flush;
    if n == 0 {
      b := 0;
    } else {
      b := LatestBatch(l, a, n - 1);
      QueueLength(l, a, n - 1);
      QueueLength(l, a, n);
      var st := After(l, a, n);
      WaitingStep(l, n);
      FlushSize(State(After(l, a, n - 1).out, After(l, a, n - 1).queue + [a[n - 1]]), l.least);
      if Batch(l, n) {
        b := n;
        StaysInOrder(l, a, n);
        StaysInOrder(l, a, n - 1);
        assert !Late(l, a, n - 1);
        OutIs(l, a, n);
      }
    }
  }

  lemma FlushSize(st: State, lower: nat)
    ensures |Flush(st, lower).queue| == if |st.queue| > lower then lower else |st.queue|
  {
  }

  lemma OutIs(l: Limits, a: seq<Inst>, n: nat)
    requires n <= |a| && InOrder(l, a, n) && |After(l, a, n).queue| == l.least
    ensures l.least <= n && After(l, a, n).out == Sort(a[..n])[..n - l.least]
  {
    hide StableSort.Sort, After;
    var st := After(l, a, n);
    assert |Sort(a[..n])| == n == |st.out| + |Sort(st.queue)|;
    assert (st.out + Sort(st.queue))[..|st.out|] == st.out;
  }

  /** Of n sorted entries, y may follow the first n - least exactly when at most `least` of them are above y. */
  lemma FollowsIff(s: seq<Inst>, least: nat, x: Inst)
    requires least < |s|
    ensures Before(Sort(s)[..|s| - least], [x]) <==> Above(s, x.sn) <= least
  {
    hide StableSort.Sort, StableSort.Before, StableSort.Sorted, StableSort.Above;
    SortSorts(s);
    AboveSort(s, x.sn);
    AboveAt(Sort(s), least, x.sn);
    BeforeOne(Sort(s), |s| - least, x);
  }

  lemma BeforeOne(t: seq<Inst>, n: nat, x: Inst)
    requires Sorted(t) && 0 < n <= |t|
    ensures Before(t[..n], [x]) <==> t[n - 1].sn <= x.sn
  {
    var p := t[..n];
    if Before(p, [x]) { assert p[n - 1].sn <= [x][0].sn; }
  }

  lemma TimelyIff(l: Limits, a: seq<Inst>)
    requires l.Fit()
    ensures Timely(l, a) <==> NoneLate(l, a, |a|)
  {
    hide StableSort.Sort, After, StableSort.Above, StableSort.Before, NoneLate, Batch;
    if Timely(l, a) {
      TimelyNoneLate(l, a, |a|);
    }
    if NoneLate(l, a, |a|) {
      forall n, i | 0 <= n <= i < |a| && Batch(l, n) ensures Above(a[..n], a[i].sn) <= l.least {
        NoneLateTimely(l, a, n, i);
      }
    }
  }

  lemma NoneLateTimely(l: Limits, a: seq<Inst>, n: nat, i: nat)
    requires l.Fit() && n <= i < |a| && Batch(l, n) && NoneLate(l, a, |a|)
    ensures Above(a[..n], a[i].sn) <= l.least
  {
    hide StableSort.Sort, After, StableSort.Above, StableSort.Before, Batch;
    var b := LatestBatch(l, a, i);
    BatchLarge(l, n);
    BatchLarge(l, b);
    AboveGrows(a, n, b, a[i].sn);
    assert !Late(l, a, i);
    FollowsIff(a[..b], l.least, a[i]);
  }

  lemma BatchLarge(l: Limits, n: nat)
    requires l.Fit() && Batch(l, n)
    ensures n > l.least
  {
  }

  lemma {:induction false} TimelyNoneLate(l: Limits, a: seq<Inst>, n: nat)
    requires l.Fit() && n <= |a| && Timely(l, a)
    ensures NoneLate(l, a, n)
  {
    hide StableSort.Sort, After, StableSort.Above;
    if n > 0 {
      TimelyNoneLate(l, a, n - 1);
      var b := LatestBatch(l, a, n - 1);
      if b > 0 { FollowsIff(a[..b], l.least, a[n - 1]); }
    }
  }

  /** For every trace: it comes out sorted, as the stable sort of the whole trace, exactly when it is timely. */
  lemma SortedIff(l: Limits, a: seq<Inst>)
    requires l.Fit()
    ensures Timely(l, a) <==> Sorted(Stream(l, a))
    ensures Timely(l, a) <==> Stream(l, a) == Sort(a)
  {
    hide *;
    TimelyIff(l, a);
    InOrderIff(l, a);
  }

  /** The script's assumption: nothing is preceded by more than min_threshold larger instructions. */
  ghost predicate BoundedDisorder(l: Limits, a: seq<Inst>) {
    forall i :: 0 <= i < |a| ==> Above(a[..i], a[i].sn) <= l.least
  }

  /** It is enough, whatever the filters. */
  lemma BoundedDisorderSorts(l: Limits, f: Filters, a: seq<Inst>)
    requires l.Fit() && BoundedDisorder(l, a)
    ensures Stream(l, a) == Sort(a)
    ensures Kept(f, Stream(l, a)) == Kept(f, Sort(a)) && Sorted(Kept(f, Sort(a)))
  {
    hide StableSort.Sort, Stream, StableSort.Above, Kept;
    forall n, i | 0 <= n <= i < |a| && Batch(l, n) ensures Above(a[..n], a[i].sn) <= l.least {
      AboveGrows(a, n, i, a[i].sn);
    }
    SortedIff(l, a);
    SortSorts(a);
    KeptSorted(f, Sort(a));
  }

  /** And it is the best bound: for all thresholds one more place out of order can already come out wrong. */
  lemma OneMoreIsTooMany(l: Limits) returns (a: seq<Inst>)
    requires l.Fit()
    ensures forall i :: 0 <= i < |a| ==> Above(a[..i], a[i].sn) <= l.least + 1
    ensures !Sorted(Stream(l, a))
  {
    hide StableSort.Sort, Stream, StableSort.Above;
    var n := l.most + 1;
    var up := seq(n, i => Inst(i, 0, 0, ""));
    var x := Inst(l.most - l.least - 1, 0, 0, "");
    a := up + [x];
    assert a[..n] == up[..n];
    Ascending(up, n, l.most - l.least - 1);
    forall i | 0 <= i < |a| ensures Above(a[..i], a[i].sn) <= l.least + 1 {
      if i < n {
        assert a[..i] == up[..i];
        Ascending(up, i, i);
      }
    }
    TooLate(l, a, n);
  }

  lemma TooLate(l: Limits, a: seq<Inst>, n: nat)
    requires l.Fit() && n == l.most + 1 < |a| && Above(a[..n], a[n].sn) > l.least
    ensures !Sorted(Stream(l, a))
  {
    hide StableSort.Sort, Stream, StableSort.Above, StableSort.Sorted;
    assert Batch(l, n);
    SortedIff(l, a);
  }

  lemma {:induction false} Ascending(s: seq<Inst>, n: nat, y: int)
    requires n <= |s| && y >= -1 && forall i :: 0 <= i < |s| ==> s[i].sn == i
    ensures Above(s[..n], y) == if n - 1 > y then n - 1 - y else 0
  {
    if n > 0 {
      assert s[..n] == s[..n - 1] + [s[n - 1]];
      AboveAppend(s[..n - 1], s[n - 1], y);
      Ascending(s, n - 1, y);
    }
  }
}
