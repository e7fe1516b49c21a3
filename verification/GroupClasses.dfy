/**
 group_classes of linear.cpp: a stable grouping of the instances by label.
 */
module GroupClasses {
  import opened Permutation

  /** The distinct labels of the first k instances, in order of first occurrence. */
  ghost function LabelsTo(y: seq<int>, k: nat): (r: seq<int>)
    requires k <= |y|
  {
    if k == 0 then []
    else if y[k - 1] in LabelsTo(y, k - 1) then LabelsTo(y, k - 1)
    else LabelsTo(y, k - 1) + [y[k - 1]]
  }

  /** The instances among the first k that carry label v, in ascending order. */
  ghost function MembersTo(y: seq<int>, v: int, k: nat): (r: seq<int>)
    requires k <= |y|
  {
    if k == 0 then []
    else if y[k - 1] == v then MembersTo(y, v, k - 1) + [k - 1]
    else MembersTo(y, v, k - 1)
  }

  ghost function Members(y: seq<int>, v: int): seq<int> {
    MembersTo(y, v, |y|)
  }

  lemma {:induction false} MembersFacts(y: seq<int>, v: int, k: nat)
    requires k <= |y|
    ensures forall a :: 0 <= a < |MembersTo(y, v, k)| ==>
        0 <= MembersTo(y, v, k)[a] < k && y[MembersTo(y, v, k)[a]] == v
    ensures forall a, b :: 0 <= a < b < |MembersTo(y, v, k)| ==> MembersTo(y, v, k)[a] < MembersTo(y, v, k)[b]
    ensures forall i :: 0 <= i < k && y[i] == v ==> i in MembersTo(y, v, k)
    ensures |MembersTo(y, v, k)| <= k
  {
    if k > 0 { MembersFacts(y, v, k - 1); }
  }

  lemma {:induction false} MembersGrow(y: seq<int>, v: int, k: nat)
    requires k <= |y|
    ensures |MembersTo(y, v, k)| <= |Members(y, v)|
    decreases |y| - k
  {
    if k < |y| { MembersGrow(y, v, k + 1); }
  }

  ghost predicate Distinct(s: seq<int>) {
    forall i, j :: 0 <= i < j < |s| ==> s[i] != s[j]
  }

  lemma {:induction false} LabelsFacts(y: seq<int>, k: nat)
    requires k <= |y|
    ensures Distinct(LabelsTo(y, k))
    ensures forall i :: 0 <= i < k ==> y[i] in LabelsTo(y, k)
    ensures forall v :: v in LabelsTo(y, k) ==> |MembersTo(y, v, k)| > 0
    ensures k > 0 ==> |LabelsTo(y, k)| > 0
  {
    if k > 0 {
      LabelsFacts(y, k - 1);
      hide MembersTo;
      var prev, all := LabelsTo(y, k - 1), LabelsTo(y, k);
      forall v | v in all ensures |MembersTo(y, v, k)| > 0 {
        MembersNext(y, v, k - 1);
        if v in prev { assert |MembersTo(y, v, k - 1)| > 0; } else { assert v == y[k - 1]; }
      }
      assert forall v :: v in prev ==> v in all;
    }
  }

  // ------------------------------------------------------------ the first loop

  /** Looks a label up among those seen so far; the position past the end means it is new. */
  method FindLabel(labels: seq<int>, v: int) returns (j: nat)
    ensures j <= |labels| && (j < |labels| ==> labels[j] == v)
    ensures v in labels <==> j < |labels|
  {
    j := 0;
    while j < |labels|
      invariant j <= |labels| && v !in labels[..j]
    {
      if labels[j] == v {
        return;
      }
      j := j + 1;
    }
  }

  /** Each instance's class is the position of its label. */
  ghost predicate Classified(y: seq<int>, labels: seq<int>, dataLabel: seq<int>, k: nat) {
    && k <= |y| && k <= |dataLabel|
    && forall i :: 0 <= i < k ==> 0 <= dataLabel[i] < |labels| && labels[dataLabel[i]] == y[i]
  }

  ghost predicate Counted(y: seq<int>, labels: seq<int>, count: seq<int>, k: nat) {
    && k <= |y| && |count| == |labels|
    && forall c :: 0 <= c < |labels| ==> count[c] == |MembersTo(y, labels[c], k)|
  }

  method Classify(y: seq<int>, dataLabel: array<int>) returns (labels: seq<int>, count: seq<int>)
    requires dataLabel.Length == |y|
    modifies dataLabel
    ensures labels == LabelsTo(y, |y|)
    ensures Classified(y, labels, dataLabel[..], |y|) && Counted(y, labels, count, |y|)
  {
    hide LabelsTo, MembersTo, Classified, Counted;
    labels, count := [], [];
    NothingClassified(y, dataLabel[..]);
    for i := 0 to |y|
      invariant labels == LabelsTo(y, i)
      invariant Classified(y, labels, dataLabel[..], i) && Counted(y, labels, count, i)
    {
      ghost var before := dataLabel[..];
      var j := FindLabel(labels, y[i]);
      CountedLength(y, labels, count, i);
      ClassifyNext(y, labels, before, count, i, j);
      dataLabel[i] := j;
      assert dataLabel[..] == before[i := j];
      if j < |labels| {
        count := count[j := count[j] + 1];
      } else {
        labels := labels + [y[i]];
        count := count + [1];
      }
    }
  }

  lemma NothingClassified(y: seq<int>, dataLabel: seq<int>)
    ensures LabelsTo(y, 0) == [] && Classified(y, [], dataLabel, 0) && Counted(y, [], [], 0)
  {
  }

  lemma CountedLength(y: seq<int>, labels: seq<int>, count: seq<int>, k: nat)
    requires Counted(y, labels, count, k)
    ensures |count| == |labels|
  {
  }

  /** The next instance is of a known class or opens a new one. */
  lemma ClassifyNext(y: seq<int>, labels: seq<int>, dataLabel: seq<int>, count: seq<int>, i: nat, j: nat)
    requires i < |y| == |dataLabel| && labels == LabelsTo(y, i) && j <= |labels| == |count|
    requires Classified(y, labels, dataLabel, i) && Counted(y, labels, count, i)
    requires (j < |labels| ==> labels[j] == y[i]) && (y[i] in labels <==> j < |labels|)
    ensures j < |labels| ==>
              && labels == LabelsTo(y, i + 1) && Classified(y, labels, dataLabel[i := j], i + 1)
              && Counted(y, labels, count[j := count[j] + 1], i + 1)
    ensures j == |labels| ==>
              && labels + [y[i]] == LabelsTo(y, i + 1) && Classified(y, labels + [y[i]], dataLabel[i := j], i + 1)
              && Counted(y, labels + [y[i]], count + [1], i + 1)
  {
    hide Classified, Counted, MembersTo;
    LabelsFacts(y, i);
    if j < |labels| {
      KnownClass(y, labels, dataLabel, count, i, j);
    } else {
      NewClass(y, labels, dataLabel, count, i);
    }
  }

  lemma KnownClass(y: seq<int>, labels: seq<int>, dataLabel: seq<int>, count: seq<int>, i: nat, j: nat)
    requires i < |y| == |dataLabel| && j < |labels| == |count| && labels[j] == y[i] && Distinct(labels)
    requires Classified(y, labels, dataLabel, i) && Counted(y, labels, count, i)
    ensures Classified(y, labels, dataLabel[i := j], i + 1)
    ensures Counted(y, labels, count[j := count[j] + 1], i + 1)
  {
    var counts := count[j := count[j] + 1];
    forall c | 0 <= c < |labels| ensures counts[c] == |MembersTo(y, labels[c], i + 1)| {
      MembersNext(y, labels[c], i);
    }
  }

  lemma NewClass(y: seq<int>, labels: seq<int>, dataLabel: seq<int>, count: seq<int>, i: nat)
    requires i < |y| == |dataLabel| && |labels| == |count| && labels == LabelsTo(y, i) && y[i] !in labels
    requires Classified(y, labels, dataLabel, i) && Counted(y, labels, count, i)
    ensures Classified(y, labels + [y[i]], dataLabel[i := |labels|], i + 1)
    ensures Counted(y, labels + [y[i]], count + [1], i + 1)
  {
    hide LabelsTo;
    NewLabelEmpty(y, y[i], i);
    var all, counts := labels + [y[i]], count + [1];
    forall c | 0 <= c < |all| ensures counts[c] == |MembersTo(y, all[c], i + 1)| {
      MembersNext(y, all[c], i);
      if c < |labels| { assert all[c] == labels[c] && all[c] != y[i]; }
    }
  }

  lemma MembersNext(y: seq<int>, v: int, i: nat)
    requires i < |y|
    ensures |MembersTo(y, v, i + 1)| == |MembersTo(y, v, i)| + if y[i] == v then 1 else 0
  {
  }

  lemma {:induction false} NewLabelEmpty(y: seq<int>, v: int, k: nat)
    requires k <= |y| && v !in LabelsTo(y, k)
    ensures MembersTo(y, v, k) == []
  {
    if k > 0 { NewLabelEmpty(y, v, k - 1); }
  }

  // ------------------------------------------------------------------- the swap

  /** The -1/+1 exception: a two-class problem whose first label is -1 and second +1. */
  predicate MustSwap(labels: seq<int>) {
    |labels| == 2 && labels[0] == -1 && labels[1] == 1
  }

  ghost function Ordered(labels: seq<int>): seq<int> {
    if MustSwap(labels) then [1, -1] else labels
  }

  /** a appears in y, and before b does. */
  ghost predicate SeenBefore(y: seq<int>, a: int, b: int) {
    exists i :: 0 <= i < |y| && y[i] == a && b !in y[..i + 1]
  }

  /** The labels are those of y, each once, in the order in which they first appear. */
  ghost predicate ByFirstSight(y: seq<int>, labels: seq<int>) {
    && (forall v :: v in labels <==> v in y)
    && (forall a, b :: 0 <= a < b < |labels| ==> SeenBefore(y, labels[a], labels[b]))
  }

  lemma {:induction false} LabelsByFirstSight(y: seq<int>, k: nat)
    requires k <= |y|
    ensures ByFirstSight(y[..k], LabelsTo(y, k))
  {
    if k > 0 {
      var before, now, prev, all := y[..k - 1], y[..k], LabelsTo(y, k - 1), LabelsTo(y, k);
      LabelsByFirstSight(y, k - 1);
      assert now == before + [y[k - 1]];
      forall a, b | 0 <= a < b < |all| ensures SeenBefore(now, all[a], all[b]) {
        if b < |prev| {
          assert SeenBefore(before, prev[a], prev[b]);
          StillBefore(before, now, y[k - 1], prev[a], prev[b]);
        } else {
          var v := y[k - 1];
          assert all == prev + [v] && all[b] == v && v !in prev && all[a] == prev[a] && prev[a] in prev;
          NotSeen(before, prev, v);
          NotSeen(before, prev, prev[a]);
          NewIsLater(before, now, v, prev[a], v);
        }
      }
    }
  }

  lemma NotSeen(y: seq<int>, labels: seq<int>, v: int)
    requires ByFirstSight(y, labels)
    ensures v in labels <==> v in y
  {
  }

  lemma StillBefore(y: seq<int>, z: seq<int>, v: int, a: int, b: int)
    requires z == y + [v] && SeenBefore(y, a, b)
    ensures SeenBefore(z, a, b)
  {
    var i :| 0 <= i < |y| && y[i] == a && b !in y[..i + 1];
    assert z[..i + 1] == y[..i + 1] && z[i] == a;
  }

  lemma NewIsLater(y: seq<int>, z: seq<int>, v: int, a: int, b: int)
    requires z == y + [v] && a in y && b !in y
    ensures SeenBefore(z, a, b)
  {
    var i :| 0 <= i < |y| && y[i] == a;
    assert z[..i + 1] == y[..i + 1] && z[i] == a;
  }

  /** Only -1 and +1 occur, and both do. */
  ghost predicate PlusMinus(y: seq<int>) {
    1 in y && -1 in y && forall v :: v in y ==> v == 1 || v == -1
  }

  /** The exchange is made exactly when -1 and +1 are the labels and -1 comes first; +1 is label 0 after it. */
  lemma OrderedIs(y: seq<int>, first: seq<int>)
    requires ByFirstSight(y, first) && Distinct(first)
    ensures PlusMinus(y) ==> Ordered(first) == [1, -1]
    ensures !PlusMinus(y) ==> Ordered(first) == first
  {
    if PlusMinus(y) {
      var a :| 0 <= a < |first| && first[a] == 1;
      var b :| 0 <= b < |first| && first[b] == -1;
      TwoOnly(first, a, b);
    }
    if MustSwap(first) {
      assert 1 in first && -1 in first;
      assert forall v :: v in first ==> v == 1 || v == -1;
    }
  }

  lemma TwoOnly(s: seq<int>, a: nat, b: nat)
    requires a < |s| && b < |s| && s[a] == 1 && s[b] == -1 && Distinct(s) && forall v :: v in s ==> v == 1 || v == -1
    ensures |s| == 2 && (s == [1, -1] || s == [-1, 1])
  {
    OneOfTwo(s, a, b, 0);
    OneOfTwo(s, a, b, 1);
    if |s| > 2 { OneOfTwo(s, a, b, 2); }
  }

  lemma OneOfTwo(s: seq<int>, a: nat, b: nat, i: nat)
    requires a < |s| && b < |s| && s[a] == 1 && s[b] == -1 && Distinct(s) && forall v :: v in s ==> v == 1 || v == -1
    requires i < |s|
    ensures i == a || i == b
  {
    assert s[i] in s;
  }

  method SwapLabels(y: seq<int>, labels0: seq<int>, count0: seq<int>, dataLabel: array<int>) returns (labels: seq<int>,
                    count: seq<int>)
    requires dataLabel.Length == |y|
    requires Classified(y, labels0, dataLabel[..], |y|) && Counted(y, labels0, count0, |y|)
    modifies dataLabel
    ensures labels == Ordered(labels0)
    ensures Classified(y, labels, dataLabel[..], |y|) && Counted(y, labels, count, |y|)
  {
    labels, count := labels0, count0;
    if MustSwap(labels) {
      labels := [labels[1], labels[0]];
      count := [count[1], count[0]];
      ghost var d0 := dataLabel[..];
      for i := 0 to |y|
        invariant forall k :: 0 <= k < i ==> dataLabel[k] == 1 - d0[k]
        invariant forall k :: i <= k < |y| ==> dataLabel[k] == d0[k]
      {
        if dataLabel[i] == 0 {
          dataLabel[i] := 1;
        } else {
          dataLabel[i] := 0;
        }
      }
    }
  }

  // ---------------------------------------------------------------- the scatter

  /** Where class c starts. */
  ghost function Start(y: seq<int>, labels: seq<int>, c: nat): nat
    requires c <= |labels|
  {
    if c == 0 then 0 else Start(y, labels, c - 1) + |Members(y, labels[c - 1])|
  }

  lemma {:induction false} StartMonotone(y: seq<int>, labels: seq<int>, s: nat, t: nat)
    requires s < t <= |labels|
    ensures Start(y, labels, s) + |Members(y, labels[s])| <= Start(y, labels, t)
  {
    if s < t - 1 { StartMonotone(y, labels, s, t - 1); }
  }

  /** Sum over the first c classes of the members among the first k instances. */
  ghost function SizesTo(y: seq<int>, labels: seq<int>, c: nat, k: nat): nat
    requires c <= |labels| && k <= |y|
  {
    if c == 0 then 0 else SizesTo(y, labels, c - 1, k) + |MembersTo(y, labels[c - 1], k)|
  }

  lemma {:induction false} SizesStep(y: seq<int>, labels: seq<int>, c: nat, k: nat, at: nat)
    requires c <= |labels| && k < |y| && Distinct(labels) && at < |labels| && labels[at] == y[k]
    ensures SizesTo(y, labels, c, k + 1) == SizesTo(y, labels, c, k) + (if at < c then 1 else 0)
  {
    if c > 0 { SizesStep(y, labels, c - 1, k, at); }
  }

  lemma {:induction false} SizesAll(y: seq<int>, labels: seq<int>, dataLabel: seq<int>, k: nat)
    requires k <= |y| && Distinct(labels) && Classified(y, labels, dataLabel, |y|)
    ensures SizesTo(y, labels, |labels|, k) == k
  {
    if k > 0 {
      SizesAll(y, labels, dataLabel, k - 1);
      SizesStep(y, labels, |labels|, k - 1, dataLabel[k - 1]);
    } else {
      SizesNone(y, labels, |labels|);
    }
  }

  lemma {:induction false} SizesNone(y: seq<int>, labels: seq<int>, c: nat)
    requires c <= |labels|
    ensures SizesTo(y, labels, c, 0) == 0
  {
    if c > 0 { SizesNone(y, labels, c - 1); }
  }

  lemma {:induction false} StartIsSizes(y: seq<int>, labels: seq<int>, c: nat)
    requires c <= |labels|
    ensures Start(y, labels, c) == SizesTo(y, labels, c, |y|)
  {
    if c > 0 { StartIsSizes(y, labels, c - 1); }
  }

  /** The counts sum to l: the classes tile perm. */
  lemma EndIsAll(y: seq<int>, labels: seq<int>, dataLabel: seq<int>)
    requires Distinct(labels) && Classified(y, labels, dataLabel, |y|)
    ensures Start(y, labels, |labels|) == |y|
  {
    StartIsSizes(y, labels, |labels|);
    SizesAll(y, labels, dataLabel, |y|);
  }

  ghost predicate Holds(perm: seq<int>, start: nat, m: seq<int>) {
    start + |m| <= |perm| && forall a :: 0 <= a < |m| ==> perm[start + a] == m[a]
  }

  /** After k instances every class holds its first members, in order. */
  ghost predicate Placed(y: seq<int>, labels: seq<int>, perm: seq<int>, start: seq<int>, k: nat) {
    && k <= |y| == |perm| && |start| == |labels|
    && (forall c :: 0 <= c < |labels| ==> start[c] == Start(y, labels, c) + |MembersTo(y, labels[c], k)|)
    && (forall c :: 0 <= c < |labels| ==> Holds(perm, Start(y, labels, c), MembersTo(y, labels[c], k)))
  }

  lemma PlaceStart(y: seq<int>, labels: seq<int>, dataLabel: seq<int>, perm: seq<int>, start: seq<int>)
    requires Distinct(labels) && Classified(y, labels, dataLabel, |y|) && |perm| == |y| && |start| == |labels|
    requires forall c :: 0 <= c < |labels| ==> start[c] == Start(y, labels, c)
    ensures Placed(y, labels, perm, start, 0)
  {
    EndIsAll(y, labels, dataLabel);
    forall c | 0 <= c < |labels| ensures Holds(perm, Start(y, labels, c), []) {
      StartMonotone(y, labels, c, |labels|);
    }
  }

  lemma PlaceStep(y: seq<int>, labels: seq<int>, dataLabel: seq<int>, perm: seq<int>, start: seq<int>, i: nat)
    requires i < |y| && Distinct(labels) && Classified(y, labels, dataLabel, |y|) && Placed(y, labels, perm, start, i)
    ensures var c := dataLabel[i];
            && 0 <= c < |start| && 0 <= start[c] < |perm|
            && Placed(y, labels, perm[start[c] := i], start[c := start[c] + 1], i + 1)
  {
    hide Start, Members;
    EndIsAll(y, labels, dataLabel);
    var c := dataLabel[i];
    MembersGrow(y, labels[c], i + 1);
    StartMonotone(y, labels, c, |labels|);
    var perm' := perm[start[c] := i];
    forall t | 0 <= t < |labels| ensures Holds(perm', Start(y, labels, t), MembersTo(y, labels[t], i + 1)) {
      assert Holds(perm, Start(y, labels, t), MembersTo(y, labels[t], i));
      MembersGrow(y, labels[t], i);
      if t < c { StartMonotone(y, labels, t, c); }
      if c < t { StartMonotone(y, labels, c, t); }
    }
  }

  /** start[0] = 0; start[i] = start[i-1]+count[i-1] */
  method Starts(y: seq<int>, labels: seq<int>, count: seq<int>, start: array<int>)
    requires |labels| > 0 && start.Length == |labels| && Counted(y, labels, count, |y|)
    modifies start
    ensures forall c :: 0 <= c < |labels| ==> start[c] == Start(y, labels, c)
  {
    hide Members, Counted, Start;
    start[0] := 0;
    StartStep(y, labels, count);
    for i := 1 to |labels|
      invariant forall c :: 0 <= c < i ==> start[c] == Start(y, labels, c)
    {
      start[i] := start[i - 1] + count[i - 1];
    }
  }

  lemma StartStep(y: seq<int>, labels: seq<int>, count: seq<int>)
    requires Counted(y, labels, count, |y|)
    ensures |count| == |labels| && Start(y, labels, 0) == 0
    ensures forall c :: 0 <= c < |labels| ==> Start(y, labels, c + 1) == Start(y, labels, c) + count[c]
  {
  }

  // ------------------------------------------------------------------ the result

  /** Class c occupies start[c] .. start[c]+count[c] of perm and lists its instances in their original order. */
  ghost predicate Grouped(y: seq<int>, labels: seq<int>, start: seq<int>, count: seq<int>, perm: seq<int>) {
    && |start| == |count| == |labels| && |perm| == |y|
    && (forall c :: 0 <= c < |labels| ==> count[c] == |Members(y, labels[c])| && count[c] > 0)
    && (forall c :: 0 <= c < |labels| ==> 0 <= start[c] && start[c] + count[c] <= |perm|)
    && (forall c :: 0 <= c < |labels| ==> perm[start[c]..start[c] + count[c]] == Members(y, labels[c]))
    && (|labels| > 0 ==> start[0] == 0)
    && (forall c :: 0 < c < |labels| ==> start[c] == start[c - 1] + count[c - 1])
  }

  method Group(y: seq<int>, perm: array<int>) returns (labels: seq<int>, start: array<int>, count: seq<int>)
    requires |y| > 0 && perm.Length == |y|
    modifies perm
    ensures labels == Ordered(LabelsTo(y, |y|)) && Distinct(labels)
    ensures if PlusMinus(y) then labels == [1, -1] else ByFirstSight(y, labels)
    ensures Grouped(y, labels, start[..], count, perm[..])
    ensures IsPerm(perm[..], |y|)
    ensures Start(y, labels, |labels|) == |y|
  {
    hide Start, Members, MembersTo, LabelsTo, Placed, Classified, Counted, Grouped, Permutation.IsPerm;
    hide ByFirstSight, PlusMinus;
    var dataLabel := new int[|y|];
    ghost var first := LabelsTo(y, |y|);
    labels, count := Classify(y, dataLabel);
    LabelOrder(y, first);
    labels, count := SwapLabels(y, labels, count, dataLabel);
    start := new int[|labels|];
    Starts(y, labels, count, start);
    PlaceStart(y, labels, dataLabel[..], perm[..], start[..]);
    for i := 0 to |y|
      invariant Placed(y, labels, perm[..], start[..], i)
      invariant Classified(y, labels, dataLabel[..], |y|)
    {
      PlaceStep(y, labels, dataLabel[..], perm[..], start[..], i);
      ghost var p, s := perm[..], start[..];
      var c := dataLabel[i];
      perm[start[c]] := i;
      start[c] := start[c] + 1;
      assert perm[..] == p[s[c] := i] && start[..] == s[c := s[c] + 1];
    }
    ghost var last := start[..];
    Starts(y, labels, count, start);
    GroupingDone(y, first, labels, dataLabel[..], last, start[..], count, perm[..]);
  }

  lemma LabelOrder(y: seq<int>, first: seq<int>)
    requires first == LabelsTo(y, |y|)
    ensures Distinct(first) && Distinct(Ordered(first)) && (|y| > 0 ==> |Ordered(first)| > 0)
    ensures if PlusMinus(y) then Ordered(first) == [1, -1] else ByFirstSight(y, Ordered(first))
  {
    hide LabelsTo;
    LabelsFacts(y, |y|);
    LabelsByFirstSight(y, |y|);
    assert y[..|y|] == y;
    OrderedIs(y, first);
  }

  lemma GroupingDone(y: seq<int>, first: seq<int>, labels: seq<int>, dataLabel: seq<int>, last: seq<int>,
                     start: seq<int>, count: seq<int>, perm: seq<int>)
    requires |y| > 0 && first == LabelsTo(y, |y|) && labels == Ordered(first) && Distinct(labels)
    requires Placed(y, labels, perm, last, |y|) && Counted(y, labels, count, |y|) && |start| == |labels|
    requires Classified(y, labels, dataLabel, |y|)
    requires forall c :: 0 <= c < |labels| ==> start[c] == Start(y, labels, c)
    ensures Grouped(y, labels, start, count, perm) && IsPerm(perm, |y|) && Start(y, labels, |labels|) == |y|
  {
    hide *;
    EndIsAll(y, labels, dataLabel);
    ShowGrouped(y, first, labels, last, start, count, perm);
    ShowPerm(y, labels, dataLabel, last, perm);
  }

  lemma ShowGrouped(y: seq<int>, first: seq<int>, labels: seq<int>, last: seq<int>, start: seq<int>, count: seq<int>,
                    perm: seq<int>)
    requires |y| > 0 && first == LabelsTo(y, |y|) && labels == Ordered(first) && Distinct(labels)
    requires Placed(y, labels, perm, last, |y|) && Counted(y, labels, count, |y|) && |start| == |labels|
    requires forall c :: 0 <= c < |labels| ==> start[c] == Start(y, labels, c)
    ensures Grouped(y, labels, start, count, perm)
  {
    hide Start, MembersTo, LabelsTo;
    LabelsFacts(y, |y|);
    StartZero(y, labels);
    forall c | 0 <= c < |labels|
      ensures count[c] == |Members(y, labels[c])| && count[c] > 0
      ensures 0 <= start[c] && start[c] + count[c] <= |perm|
      ensures perm[start[c]..start[c] + count[c]] == Members(y, labels[c])
    {
      assert labels[c] in first;
      assert Holds(perm, Start(y, labels, c), MembersTo(y, labels[c], |y|));
    }
    forall c | 0 < c < |labels| ensures start[c] == start[c - 1] + count[c - 1] {
      StartNext(y, labels, c);
    }
  }

  lemma StartZero(y: seq<int>, labels: seq<int>)
    ensures Start(y, labels, 0) == 0
  {
  }

  lemma StartNext(y: seq<int>, labels: seq<int>, c: nat)
    requires 0 < c <= |labels|
    ensures Start(y, labels, c) == Start(y, labels, c - 1) + |Members(y, labels[c - 1])|
  {
  }

  /** Every position belongs to some class. */
  lemma {:induction false} ClassOfPosition(y: seq<int>, labels: seq<int>, p: nat, c: nat) returns (t: nat)
    requires c <= |labels| && p < Start(y, labels, c)
    ensures t < c && Start(y, labels, t) <= p < Start(y, labels, t) + |Members(y, labels[t])|
  {
    if p >= Start(y, labels, c - 1) {
      t := c - 1;
    } else {
      t := ClassOfPosition(y, labels, p, c - 1);
    }
  }

  lemma ShowPerm(y: seq<int>, labels: seq<int>, dataLabel: seq<int>, last: seq<int>, perm: seq<int>)
    requires Distinct(labels) && Classified(y, labels, dataLabel, |y|) && Placed(y, labels, perm, last, |y|)
    ensures IsPerm(perm, |y|)
  {
    hide Start, MembersTo, Classified;
    EndIsAll(y, labels, dataLabel);
    forall p | 0 <= p < |y| ensures 0 <= perm[p] < |y| {
      var t := ClassOfPosition(y, labels, p, |labels|);
      PositionFacts(y, labels, last, perm, p, t);
    }
    forall p, q | 0 <= p < q < |y| ensures perm[p] != perm[q] {
      var s := ClassOfPosition(y, labels, p, |labels|);
      var t := ClassOfPosition(y, labels, q, |labels|);
      PositionFacts(y, labels, last, perm, p, s);
      PositionFacts(y, labels, last, perm, q, t);
      if s == t {
        MembersFacts(y, labels[s], |y|);
        var m := Members(y, labels[s]);
        assert m[p - Start(y, labels, s)] < m[q - Start(y, labels, s)];
      }
    }
  }

  lemma PositionFacts(y: seq<int>, labels: seq<int>, last: seq<int>, perm: seq<int>, p: nat, t: nat)
    requires Placed(y, labels, perm, last, |y|) && t < |labels| && p < |perm|
    requires Start(y, labels, t) <= p < Start(y, labels, t) + |Members(y, labels[t])|
    ensures perm[p] == Members(y, labels[t])[p - Start(y, labels, t)]
    ensures 0 <= perm[p] < |y| && y[perm[p]] == labels[t]
  {
    hide Start, MembersTo;
    assert Holds(perm, Start(y, labels, t), MembersTo(y, labels[t], |y|));
    var a := p - Start(y, labels, t);
    assert perm[Start(y, labels, t) + a] == Members(y, labels[t])[a];
    MembersFacts(y, labels[t], |y|);
  }
}
