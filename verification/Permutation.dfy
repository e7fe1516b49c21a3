/**
 Index arrays: every solver keeps its variables in an array that starts as the
 identity and is only ever changed by exchanging two entries.
 */
module Permutation {
  ghost predicate IsPerm(s: seq<int>, n: nat) {
    && |s| == n
    && (forall i :: 0 <= i < n ==> 0 <= s[i] < n)
    && (forall i, j :: 0 <= i < j < n ==> s[i] != s[j])
  }

  /** s with entries i and j exchanged. */
  ghost function Swapped<T>(s: seq<T>, i: nat, j: nat): (r: seq<T>)
    requires i < |s| && j < |s|
    ensures |r| == |s|
  {
    s[i := s[j]][j := s[i]]
  }

  lemma SwapKeepsPerm(s: seq<int>, n: nat, i: nat, j: nat)
    requires IsPerm(s, n) && i < n && j < n
    ensures IsPerm(Swapped(s, i, j), n)
  {
  }

  /** n numbers at most lie in 0..n-1. */
  lemma {:induction false} BoundedSize(a: set<int>, n: nat)
    requires forall x :: x in a ==> 0 <= x < n
    ensures |a| <= n
  {
    if n == 0 {
      assert forall x :: x !in a;
    } else {
      BoundedSize(a - {n - 1}, n - 1);
      assert a <= (a - {n - 1}) + {n - 1};
    }
  }

  /** The values among the first k entries. */
  ghost function Values(s: seq<int>, k: nat): (r: set<int>)
    requires k <= |s|
    ensures forall x :: x in r <==> exists i :: 0 <= i < k && s[i] == x
  {
    set i | 0 <= i < k :: s[i]
  }

  lemma {:induction false} DistinctSize(s: seq<int>, k: nat)
    requires k <= |s| && forall i, j :: 0 <= i < j < |s| ==> s[i] != s[j]
    ensures |Values(s, k)| == k
  {
    if k > 0 {
      DistinctSize(s, k - 1);
      assert Values(s, k) == Values(s, k - 1) + {s[k - 1]};
    }
  }

  /** A permutation reaches every index. */
  lemma PermOnto(s: seq<int>, n: nat, v: int) returns (k: nat)
    requires IsPerm(s, n) && 0 <= v < n
    ensures k < n && s[k] == v
  {
    DistinctSize(s, n);
    var vs := Values(s, n);
    if v !in vs {
      BoundedSize(vs + {v}, n);
    }
    k :| 0 <= k < n && s[k] == v;
  }

  /** Exchanges two entries. */
  method Swap(index: array<int>, i: nat, j: nat)
    requires i < index.Length && j < index.Length
    modifies index
    ensures index[..] == Swapped(old(index[..]), i, j)
  {
    index[i], index[j] := index[j], index[i];
  }

  /** The shuffle before every pass: each active position is exchanged with an arbitrary active one at or behind it. */
  method Shuffle(index: array<int>, active: nat)
    requires active <= index.Length && IsPerm(index[..], index.Length)
    modifies index
    ensures IsPerm(index[..], index.Length)
    ensures index[active..] == old(index[active..])
    ensures Values(index[..], active) == Values(old(index[..]), active)
  {
    for i := 0 to active
      invariant IsPerm(index[..], index.Length)
      invariant index[active..] == old(index[active..])
      invariant Values(index[..], active) == Values(old(index[..]), active)
    {
      var j: int :| i <= j < active;
      ghost var before := index[..];
      Swap(index, i, j);
      SwapKeepsPerm(before, index.Length, i, j);
      SwapKeepsValues(before, active, i, j);
    }
  }

  /** Exchanging two of the first k entries keeps the set of the first k. */
  lemma SwapKeepsValues(s: seq<int>, k: nat, i: nat, j: nat)
    requires i < k <= |s| && j < k
    ensures Values(Swapped(s, i, j), k) == Values(s, k)
  {
    var t := Swapped(s, i, j);
    forall x | x in Values(s, k) ensures x in Values(t, k) {
      var a :| 0 <= a < k && s[a] == x;
      if a == i { assert t[j] == x; } else if a == j { assert t[i] == x; } else { assert t[a] == x; }
    }
    forall x | x in Values(t, k) ensures x in Values(s, k) {
      var a :| 0 <= a < k && t[a] == x;
      if a == i { assert s[j] == x; } else if a == j { assert s[i] == x; } else { assert s[a] == x; }
    }
  }
}
