/**
 The pass over an active set that shrinks while it runs, common to all the
 coordinate-descent solvers.  A variable to be shrunk is exchanged with the last
 active one, the active part gets shorter by one and the same position is looked
 at again; any other variable is handled and the position moves on.

 Whatever is shrunk, the pass visits every index that was active at its start
 exactly once, and `index` stays a permutation.
 */
module ActiveSet {
  import opened Permutation

  /** Position s is next; the visited indices fill positions 0..s-1 and active..start-1. */
  ghost predicate Pass(index: seq<int>, n: nat, start: nat, s: nat, active: nat, visited: seq<int>, all: set<int>) {
    && IsPerm(index, n)
    && s <= active <= start <= n
    && Values(index, start) == all
    && (forall p :: 0 <= p < s || active <= p < start ==> index[p] in visited)
    && (forall p :: s <= p < active ==> index[p] !in visited)
    && (forall v :: v in visited ==> v in all)
    && (forall i, j :: 0 <= i < j < |visited| ==> visited[i] != visited[j])
    && |visited| == s + (start - active)
  }

  lemma StartPass(index: seq<int>, n: nat, active: nat)
    requires IsPerm(index, n) && active <= n
    ensures Pass(index, n, active, 0, active, [], Values(index, active))
  {
  }

  /** A visit that keeps the variable active. */
  lemma Keep(index: seq<int>, n: nat, start: nat, s: nat, active: nat, visited: seq<int>, all: set<int>)
    requires Pass(index, n, start, s, active, visited, all) && s < active
    ensures Pass(index, n, start, s + 1, active, visited + [index[s]], all)
    ensures Values(index, s + 1) == Values(index, s) + {index[s]}
  {
  }

  /** A visit that shrinks the variable away. */
  lemma Drop(index: seq<int>, n: nat, start: nat, s: nat, active: nat, visited: seq<int>, all: set<int>)
    requires Pass(index, n, start, s, active, visited, all) && s < active
    ensures Pass(Swapped(index, s, active - 1), n, start, s, active - 1, visited + [index[s]], all)
    ensures Values(Swapped(index, s, active - 1), s) == Values(index, s)
  {
    hide Swapped, Values, IsPerm;
    PassEntry(index, n, start, s, active, visited, all);
    var t := Swapped(index, s, active - 1);
    SwapKeepsPerm(index, n, s, active - 1);
    SwapKeepsValues(index, start, s, active - 1);
    SwapEntries(index, n, s, active - 1, t);
    DropVisited(index, t, n, start, s, active, visited);
    InValues(index, start, s);
    DropSeen(index, s, visited, all);
    SamePrefix(index, t, s);
  }

  lemma SwapEntries(index: seq<int>, n: nat, s: nat, e: nat, t: seq<int>)
    requires IsPerm(index, n) && s <= e < n && t == Swapped(index, s, e)
    ensures |t| == n && t[e] == index[s] && (s < e ==> t[s] == index[e])
    ensures forall p :: 0 <= p < n && p != s && p != e ==> t[p] == index[p]
    ensures forall p :: s < p < n ==> index[p] != index[s]
  {
  }

  lemma InValues(index: seq<int>, k: nat, s: nat)
    requires s < k <= |index|
    ensures index[s] in Values(index, k)
  {
  }

  lemma DropVisited(index: seq<int>, t: seq<int>, n: nat, start: nat, s: nat, active: nat, visited: seq<int>)
    requires s < active <= start <= n == |index| == |t|
    requires t[active - 1] == index[s] && (s < active - 1 ==> t[s] == index[active - 1])
    requires forall p :: 0 <= p < n && p != s && p != active - 1 ==> t[p] == index[p]
    requires forall p :: s < p < n ==> index[p] != index[s]
    requires forall p :: 0 <= p < s || active <= p < start ==> index[p] in visited
    requires forall p :: s <= p < active ==> index[p] !in visited
    ensures forall p :: 0 <= p < s || active - 1 <= p < start ==> t[p] in visited + [index[s]]
    ensures forall p :: s <= p < active - 1 ==> t[p] !in visited + [index[s]]
  {
    var seen := visited + [index[s]];
    assert seen[|visited|] == index[s];
    forall p | 0 <= p < s || active - 1 <= p < start ensures t[p] in seen {
      if p != active - 1 { assert t[p] == index[p] && index[p] in visited; }
    }
    forall p | s <= p < active - 1 ensures t[p] !in seen {
      var q := if p == s then active - 1 else p;
      assert t[p] == index[q] && index[q] !in visited;
    }
  }

  lemma DropSeen(index: seq<int>, s: nat, visited: seq<int>, all: set<int>)
    requires s < |index| && index[s] in all && index[s] !in visited
    requires forall v :: v in visited ==> v in all
    requires forall i, j :: 0 <= i < j < |visited| ==> visited[i] != visited[j]
    ensures var seen := visited + [index[s]];
            && (forall v :: v in seen ==> v in all)
            && (forall i, j :: 0 <= i < j < |seen| ==> seen[i] != seen[j])
  {
  }

  lemma SamePrefix(a: seq<int>, b: seq<int>, k: nat)
    requires k <= |a| && k <= |b| && forall p :: 0 <= p < k ==> a[p] == b[p]
    ensures Values(a, k) == Values(b, k)
  {
    assert a[..k] == b[..k];
  }

  /** The visited indices are those that were active at the start, each once. */
  ghost predicate VisitedAll(visited: seq<int>, all: set<int>) {
    && (forall v :: v in visited <==> v in all)
    && (forall i, j :: 0 <= i < j < |visited| ==> visited[i] != visited[j])
  }

  lemma EndPass(index: seq<int>, n: nat, start: nat, s: nat, active: nat, visited: seq<int>, all: set<int>)
    requires Pass(index, n, start, s, active, visited, all) && s == active
    ensures VisitedAll(visited, all)
  {
    forall v | v in all ensures v in visited {
      var p :| 0 <= p < start && index[p] == v;
    }
  }

  /** When everything is active, `all` is everything. */
  lemma AllActive(index: seq<int>, n: nat)
    requires IsPerm(index, n)
    ensures forall v :: v in Values(index, n) <==> 0 <= v < n
  {
    forall v | 0 <= v < n ensures v in Values(index, n) {
      var k := PermOnto(index, n, v);
    }
  }

  /** The next position of a pass holds an index in range. */
  lemma PassEntry(index: seq<int>, n: nat, start: nat, s: nat, active: nat, visited: seq<int>, all: set<int>)
    requires Pass(index, n, start, s, active, visited, all) && s < active
    ensures |index| == n && start <= n && 0 <= index[s] < n && index[s] !in visited
  {
  }

  lemma PassEnds(index: seq<int>, n: nat, start: nat, s: nat, active: nat, visited: seq<int>, all: set<int>)
    requires Pass(index, n, start, s, active, visited, all) && s == active
    ensures IsPerm(index, n) && VisitedAll(visited, all)
  {
    EndPass(index, n, start, s, active, visited, all);
  }
}
