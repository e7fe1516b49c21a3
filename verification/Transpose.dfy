/**
 transpose of linear.cpp: from rows to columns in one node array.  Column j
 occupies x_space[Start(j) .. Start(j+1)-1), followed by one slot for the
 index -1 sentinel; the columns tile the array.
 */
module Transpose {
  import opened LinAlg
  import opened Sparse

  /** A scanning position: k nodes into row i, or past the last row. */
  ghost predicate AtNode(xs: seq<Row>, i: nat, k: nat) {
    (i < |xs| && k <= |xs[i]|) || (i == |xs| && k == 0)
  }

  /** Column j as the nodes of rows 0..i-1 and of the first k nodes of row i produce it. */
  ghost function ColTo(xs: seq<Row>, j: nat, i: nat, k: nat): (c: Row)
    requires AtNode(xs, i, k)
    decreases i, k
  {
    if k > 0 then
      ColTo(xs, j, i, k - 1) + (if xs[i][k - 1].index == j + 1 then [Node(i + 1, xs[i][k - 1].value)] else [])
    else if i > 0 then ColTo(xs, j, i - 1, |xs[i - 1]|)
    else []
  }

  ghost function Column(xs: seq<Row>, j: nat): Row {
    ColTo(xs, j, |xs|, 0)
  }

  /** Where column j starts: every column before it takes its nodes and one sentinel. */
  ghost function Start(xs: seq<Row>, j: nat): (r: nat) {
    if j == 0 then 0 else Start(xs, j - 1) + |Column(xs, j - 1)| + 1
  }

  lemma StartStep(xs: seq<Row>, j: nat)
    ensures Start(xs, 0) == 0 && Start(xs, j + 1) == Start(xs, j) + |Column(xs, j)| + 1
  {
  }

  lemma {:induction false} StartMonotone(xs: seq<Row>, s: nat, t: nat)
    requires s < t
    ensures Start(xs, s) + |Column(xs, s)| + 1 <= Start(xs, t)
  {
    if s < t - 1 { StartMonotone(xs, s, t - 1); }
  }

  /** A column only grows while the nodes are scanned. */
  lemma {:induction false} ColGrows(xs: seq<Row>, j: nat, i: nat, k: nat)
    requires AtNode(xs, i, k)
    ensures |ColTo(xs, j, i, k)| <= |Column(xs, j)|
    decreases |xs| - i, if i < |xs| then |xs[i]| - k else 0
  {
    if i < |xs| {
      if k < |xs[i]| {
        ColGrows(xs, j, i, k + 1);
      } else {
        ColGrows(xs, j, i + 1, 0);
      }
    }
  }

  // --------------------------------------------------- what a column contains

  /** Row numbers lie in 1..hi and strictly increase. */
  ghost predicate Ascending(c: Row, hi: int) {
    && (forall a :: 0 <= a < |c| ==> 1 <= c[a].index <= hi)
    && (forall a, b :: 0 <= a < b < |c| ==> c[a].index < c[b].index)
  }

  lemma AscendingMore(c: Row, hi: int, v: Node)
    requires Ascending(c, hi) && 0 <= hi && v.index == hi + 1
    ensures Ascending(c + [v], hi + 1)
  {
  }

  /** While row i is scanned it adds a node at most once, because its indices strictly increase. */
  lemma {:induction false} ColAscending(xs: seq<Row>, n: nat, j: nat, i: nat, k: nat)
    requires ValidRows(xs, n) && AtNode(xs, i, k)
    ensures Ascending(ColTo(xs, j, i, k), if i < |xs| && k > 0 && xs[i][k - 1].index >= j + 1 then i + 1 else i)
    decreases i, k
  {
    hide Ascending;
    if k > 0 {
      assert ValidRow(xs[i], n);
      ColAscending(xs, n, j, i, k - 1);
      if xs[i][k - 1].index == j + 1 {
        AscendingMore(ColTo(xs, j, i, k - 1), i, Node(i + 1, xs[i][k - 1].value));
      } else {
        assert ColTo(xs, j, i, k) == ColTo(xs, j, i, k - 1);
        AscendingLoose(ColTo(xs, j, i, k - 1), i);
      }
    } else if i > 0 {
      ColAscending(xs, n, j, i - 1, |xs[i - 1]|);
      AscendingLoose(ColTo(xs, j, i - 1, |xs[i - 1]|), i - 1);
    } else {
      NothingAscends();
    }
  }

  lemma AscendingLoose(c: Row, hi: int)
    ensures Ascending(c, hi) ==> Ascending(c, hi + 1)
  {
  }

  lemma NothingAscends()
    ensures Ascending([], 0)
  {
  }

  lemma ColumnValid(xs: seq<Row>, n: nat, j: nat)
    requires ValidRows(xs, n)
    ensures ValidRow(Column(xs, j), |xs|)
  {
    ColAscending(xs, n, j, |xs|, 0);
  }

  ghost predicate HasNode(c: Row, index: int, value: real) {
    exists a :: 0 <= a < |c| && c[a] == Node(index, value)
  }

  /** Every node of a row with feature j+1 reaches column j. */
  lemma {:induction false} NodeReaches(xs: seq<Row>, j: nat, i: nat, k: nat, r: nat, t: nat)
    requires AtNode(xs, i, k)
    requires r < |xs| && t < |xs[r]| && xs[r][t].index == j + 1
    requires r < i || (r == i && t < k)
    ensures HasNode(ColTo(xs, j, i, k), r + 1, xs[r][t].value)
    decreases i, k
  {
    var c := ColTo(xs, j, i, k);
    if k > 0 {
      if r == i && t == k - 1 {
        assert c[|c| - 1] == Node(r + 1, xs[r][t].value);
      } else {
        NodeReaches(xs, j, i, k - 1, r, t);
        var c' := ColTo(xs, j, i, k - 1);
        var a :| 0 <= a < |c'| && c'[a] == Node(r + 1, xs[r][t].value);
        assert c[a] == c'[a];
      }
    } else {
      NodeReaches(xs, j, i - 1, |xs[i - 1]|, r, t);
    }
  }

  /** Every node of column j comes from the row it names. */
  lemma {:induction false} NodeComes(xs: seq<Row>, j: nat, i: nat, k: nat, a: nat) returns (t: nat)
    requires AtNode(xs, i, k)
    requires a < |ColTo(xs, j, i, k)|
    ensures var v := ColTo(xs, j, i, k)[a];
            1 <= v.index <= |xs| && t < |xs[v.index - 1]| && xs[v.index - 1][t] == Node(j + 1, v.value)
    decreases i, k
  {
    if k > 0 {
      var c := ColTo(xs, j, i, k - 1);
      if a < |c| {
        t := NodeComes(xs, j, i, k - 1, a);
      } else {
        t := k - 1;
      }
    } else {
      t := NodeComes(xs, j, i - 1, |xs[i - 1]|, a);
    }
  }

  /** The columns are the transpose: entry i of column j is entry j of row i. */
  lemma TransposedEntry(xs: seq<Row>, n: nat, i: nat, j: nat)
    requires ValidRows(xs, n) && i < |xs| && j < n
    ensures ValidRow(Column(xs, j), |xs|)
    ensures Dense(Column(xs, j), |xs|)[i] == Dense(xs[i], n)[j]
  {
    hide Sparse.Dense, ColTo;
    ColumnValid(xs, n, j);
    var c := Column(xs, j);
    if t :| 0 <= t < |xs[i]| && xs[i][t].index == j + 1 {
      NodeReaches(xs, j, |xs|, 0, i, t);
      var a :| 0 <= a < |c| && c[a] == Node(i + 1, xs[i][t].value);
      DenseAt(c, |xs|, a);
      DenseAt(xs[i], n, t);
    } else {
      DenseAbsent(xs[i], n, j);
      forall a | 0 <= a < |c| ensures c[a].index != i + 1 {
        var t := NodeComes(xs, j, |xs|, 0, a);
      }
      DenseAbsent(c, |xs|, i);
    }
  }

  // ---------------------------------------------------------------- the routine

  ghost function NodeCount(xs: seq<Row>, i: nat): nat
    requires i <= |xs|
  {
    if i == 0 then 0 else NodeCount(xs, i - 1) + |xs[i - 1]|
  }

  /** Sum of the column lengths up to column j, while scanning. */
  ghost function LengthsTo(xs: seq<Row>, i: nat, k: nat, j: nat): nat
    requires AtNode(xs, i, k)
  {
    if j == 0 then 0 else LengthsTo(xs, i, k, j - 1) + |ColTo(xs, j - 1, i, k)|
  }

  /** A node adds one to the length of its own column and nothing to the others. */
  lemma {:induction false} LengthsStep(xs: seq<Row>, i: nat, k: nat, j: nat)
    requires i < |xs| && k < |xs[i]| && xs[i][k].index >= 1
    ensures LengthsTo(xs, i, k + 1, j) == LengthsTo(xs, i, k, j) + (if xs[i][k].index <= j then 1 else 0)
  {
    if j > 0 { LengthsStep(xs, i, k, j - 1); }
  }

  lemma {:induction false} LengthsNextRow(xs: seq<Row>, i: nat, j: nat)
    requires i < |xs|
    ensures LengthsTo(xs, i + 1, 0, j) == LengthsTo(xs, i, |xs[i]|, j)
  {
    if j > 0 { LengthsNextRow(xs, i, j - 1); }
  }

  lemma {:induction false} LengthsStart(xs: seq<Row>, j: nat)
    ensures LengthsTo(xs, 0, 0, j) == 0
  {
    if j > 0 { LengthsStart(xs, j - 1); }
  }

  lemma {:induction false} RowLengths(xs: seq<Row>, n: nat, i: nat, k: nat)
    requires ValidRows(xs, n) && i < |xs| && k <= |xs[i]|
    ensures LengthsTo(xs, i, k, n) == LengthsTo(xs, i, 0, n) + k
  {
    if k > 0 {
      RowLengths(xs, n, i, k - 1);
      assert ValidRow(xs[i], n);
      LengthsStep(xs, i, k - 1, n);
    }
  }

  lemma {:induction false} CountIsLengths(xs: seq<Row>, n: nat, i: nat)
    requires ValidRows(xs, n) && i <= |xs|
    ensures NodeCount(xs, i) == LengthsTo(xs, i, 0, n)
  {
    if i == 0 {
      LengthsStart(xs, n);
    } else {
      CountIsLengths(xs, n, i - 1);
      RowLengths(xs, n, i - 1, |xs[i - 1]|);
      LengthsNextRow(xs, i - 1, n);
    }
  }

  lemma {:induction false} StartIsLengths(xs: seq<Row>, j: nat)
    ensures Start(xs, j) == LengthsTo(xs, |xs|, 0, j) + j
  {
    if j > 0 { StartIsLengths(xs, j - 1); }
  }

  /** nnz + n slots are exactly enough. */
  lemma EndIsTotal(xs: seq<Row>, n: nat)
    requires ValidRows(xs, n)
    ensures Start(xs, n) == NodeCount(xs, |xs|) + n
  {
    StartIsLengths(xs, n);
    CountIsLengths(xs, n, |xs|);
  }

  /** The first loop: col_ptr[j+1] counts the nodes of column j. */
  method CountColumns(xs: seq<Row>, n: nat, colPtr: array<int>) returns (nnz: nat)
    requires ValidRows(xs, n) && colPtr.Length == n + 1
    modifies colPtr
    ensures nnz == NodeCount(xs, |xs|)
    ensures colPtr[0] == 0 && forall j :: 0 <= j < n ==> colPtr[j + 1] == |Column(xs, j)|
  {
    for i := 0 to n + 1
      invariant forall j :: 0 <= j < i ==> colPtr[j] == 0
    {
      colPtr[i] := 0;
    }
    nnz := 0;
    for i := 0 to |xs|
      invariant nnz == NodeCount(xs, i)
      invariant colPtr[0] == 0 && forall j :: 0 <= j < n ==> colPtr[j + 1] == |ColTo(xs, j, i, 0)|
    {
      assert ValidRow(xs[i], n);
      for k := 0 to |xs[i]|
        invariant nnz == NodeCount(xs, i) + k
        invariant colPtr[0] == 0 && forall j :: 0 <= j < n ==> colPtr[j + 1] == |ColTo(xs, j, i, k)|
      {
        nnz := nnz + 1;
        colPtr[xs[i][k].index] := colPtr[xs[i][k].index] + 1;
      }
    }
  }

  /** The prefix-sum loop: col_ptr[j] becomes the start of column j. */
  method PlaceColumns(xs: seq<Row>, n: nat, colPtr: array<int>)
    requires colPtr.Length == n + 1
    requires colPtr[0] == 0 && forall j :: 0 <= j < n ==> colPtr[j + 1] == |Column(xs, j)|
    modifies colPtr
    ensures forall j :: 0 <= j <= n ==> colPtr[j] == Start(xs, j)
  {
    hide Column, Start;
    StartStep(xs, 0);
    for i := 1 to n + 1
      invariant forall j :: 0 <= j < i ==> colPtr[j] == Start(xs, j)
      invariant forall j :: i - 1 <= j < n ==> colPtr[j + 1] == |Column(xs, j)|
    {
      StartStep(xs, i - 1);
      colPtr[i] := colPtr[i] + colPtr[i - 1] + 1;
    }
  }

  ghost predicate Holds(xSpace: seq<Node>, start: nat, c: Row) {
    start + |c| <= |xSpace| && forall a :: 0 <= a < |c| ==> xSpace[start + a] == c[a]
  }

  /** Column t of the array holds exactly the nodes scanned so far. */
  ghost predicate Filled(xs: seq<Row>, n: nat, xSpace: seq<Node>, colPtr: seq<int>, i: nat, k: nat)
    requires AtNode(xs, i, k)
  {
    && |colPtr| == n + 1 && |xSpace| == Start(xs, n)
    && (forall t :: 0 <= t < n ==> colPtr[t] == Start(xs, t) + |ColTo(xs, t, i, k)|)
    && (forall t :: 0 <= t < n ==> Start(xs, t) + |ColTo(xs, t, i, k)| < |xSpace|)
    && (forall t :: 0 <= t < n ==> Holds(xSpace, Start(xs, t), ColTo(xs, t, i, k)))
  }

  lemma FillStart(xs: seq<Row>, n: nat, xSpace: seq<Node>, colPtr: seq<int>)
    requires |colPtr| == n + 1 && |xSpace| == Start(xs, n)
    requires forall j :: 0 <= j <= n ==> colPtr[j] == Start(xs, j)
    ensures Filled(xs, n, xSpace, colPtr, 0, 0)
  {
    forall t | 0 <= t < n ensures Start(xs, t) < |xSpace| {
      StartMonotone(xs, t, n);
    }
  }

  /** The next node of a column goes to the first free slot of its own range. */
  lemma FillStep(xs: seq<Row>, n: nat, xSpace: seq<Node>, colPtr: seq<int>, i: nat, k: nat)
    requires i < |xs| && k < |xs[i]| && ValidRows(xs, n) && Filled(xs, n, xSpace, colPtr, i, k)
    ensures var j := xs[i][k].index - 1;
            && 0 <= j < n && 0 <= colPtr[j] < |xSpace|
            && Filled(xs, n, xSpace[colPtr[j] := Node(i + 1, xs[i][k].value)], colPtr[j := colPtr[j] + 1], i, k + 1)
  {
    hide Start, Column, ColTo;
    assert ValidRow(xs[i], n);
    var j := xs[i][k].index - 1;
    var v := Node(i + 1, xs[i][k].value);
    var xSpace' := xSpace[colPtr[j] := v];
    forall t | 0 <= t < n
      ensures ColTo(xs, t, i, k + 1) == ColTo(xs, t, i, k) + (if t == j then [v] else [])
      ensures Start(xs, t) + |ColTo(xs, t, i, k + 1)| < |xSpace|
    {
      ColStep(xs, t, i, k);
      ColGrows(xs, t, i, k + 1);
      StartMonotone(xs, t, n);
    }
    ColGrows(xs, j, i, k + 1);
    forall t | 0 <= t < n ensures Holds(xSpace', Start(xs, t), ColTo(xs, t, i, k + 1)) {
      assert Holds(xSpace, Start(xs, t), ColTo(xs, t, i, k));
      if t != j {
        ColGrows(xs, t, i, k);
        if t < j { StartMonotone(xs, t, j); } else { StartMonotone(xs, j, t); }
      }
    }
  }

  lemma ColStep(xs: seq<Row>, t: nat, i: nat, k: nat)
    requires i < |xs| && k < |xs[i]|
    ensures ColTo(xs, t, i, k + 1) == ColTo(xs, t, i, k)
        + (if xs[i][k].index == t + 1 then [Node(i + 1, xs[i][k].value)] else [])
  {
  }

  lemma FillNextRow(xs: seq<Row>, n: nat, xSpace: seq<Node>, colPtr: seq<int>, i: nat)
    requires i < |xs| && Filled(xs, n, xSpace, colPtr, i, |xs[i]|)
    ensures Filled(xs, n, xSpace, colPtr, i + 1, 0)
  {
    assert forall t :: 0 <= t < n ==> ColTo(xs, t, i + 1, 0) == ColTo(xs, t, i, |xs[i]|);
  }

  /** The scatter loop. */
  method Scatter(xs: seq<Row>, n: nat, xSpace: array<Node>, colPtr: array<int>)
    requires ValidRows(xs, n) && Filled(xs, n, xSpace[..], colPtr[..], 0, 0)
    modifies xSpace, colPtr
    ensures Filled(xs, n, xSpace[..], colPtr[..], |xs|, 0)
  {
    hide Filled;
    for i := 0 to |xs|
      invariant Filled(xs, n, xSpace[..], colPtr[..], i, 0)
    {
      for k := 0 to |xs[i]|
        invariant Filled(xs, n, xSpace[..], colPtr[..], i, k)
      {
        FillStep(xs, n, xSpace[..], colPtr[..], i, k);
        FilledShape(xs, n, xSpace[..], colPtr[..], i, k);
        var ind := xs[i][k].index - 1;
        ghost var a, c := xSpace[..], colPtr[..];
        xSpace[colPtr[ind]] := Node(i + 1, xs[i][k].value);
        colPtr[ind] := colPtr[ind] + 1;
        assert xSpace[..] == a[c[ind] := Node(i + 1, xs[i][k].value)];
        assert colPtr[..] == c[ind := c[ind] + 1];
      }
      FillNextRow(xs, n, xSpace[..], colPtr[..], i);
    }
  }

  lemma FilledShape(xs: seq<Row>, n: nat, xSpace: seq<Node>, colPtr: seq<int>, i: nat, k: nat)
    requires i < |xs| && k <= |xs[i]| && Filled(xs, n, xSpace, colPtr, i, k)
    ensures |colPtr| == n + 1
  {
  }

  /** Every column stands in its own range of the array, with its sentinel right behind it. */
  ghost predicate Transposed(xs: seq<Row>, n: nat, xSpace: seq<Node>) {
    && |xSpace| == Start(xs, n)
    && (forall j :: 0 <= j < n ==> Start(xs, j) + |Column(xs, j)| + 1 <= |xSpace|)
    && (forall j :: 0 <= j < n ==> xSpace[Start(xs, j)..Start(xs, j) + |Column(xs, j)|] == Column(xs, j))
    && (forall j :: 0 <= j < n ==> xSpace[Start(xs, j) + |Column(xs, j)|].index == -1)
  }

  /** The sentinels of the first i columns are in place. */
  ghost predicate Ended(xs: seq<Row>, xSpace: seq<Node>, i: nat) {
    forall j :: 0 <= j < i ==>
      && Start(xs, j) + |Column(xs, j)| < |xSpace|
      && xSpace[Start(xs, j) + |Column(xs, j)|].index == -1
  }

  /** The last loop: the sentinels. */
  method Terminate(xs: seq<Row>, n: nat, xSpace: array<Node>, colPtr: array<int>)
    requires Filled(xs, n, xSpace[..], colPtr[..], |xs|, 0)
    modifies xSpace
    ensures Transposed(xs, n, xSpace[..])
  {
    hide *;
    AtEnd(xs);
    NoneEnded(xs, xSpace[..]);
    for i := 0 to n
      invariant Filled(xs, n, xSpace[..], colPtr[..], |xs|, 0)
      invariant Ended(xs, xSpace[..], i)
    {
      ghost var before := xSpace[..];
      SentinelSlot(xs, n, before, colPtr[..], i);
      var p := colPtr[i];
      xSpace[p] := xSpace[p].(index := -1);
      SentinelAlone(xs, n, before, colPtr[..], i, xSpace[p]);
      assert xSpace[..] == before[p := xSpace[p]];
    }
    AllTransposed(xs, n, xSpace[..], colPtr[..]);
  }

  lemma AtEnd(xs: seq<Row>)
    ensures AtNode(xs, |xs|, 0)
  {
  }

  lemma NoneEnded(xs: seq<Row>, xSpace: seq<Node>)
    ensures Ended(xs, xSpace, 0)
  {
  }

  lemma SentinelSlot(xs: seq<Row>, n: nat, xSpace: seq<Node>, colPtr: seq<int>, i: nat)
    requires i < n && Filled(xs, n, xSpace, colPtr, |xs|, 0)
    ensures |colPtr| == n + 1 && 0 <= colPtr[i] < |xSpace| && colPtr[i] == Start(xs, i) + |Column(xs, i)|
  {
    hide ColTo, Start;
  }

  /** Writing a sentinel disturbs no node and no earlier sentinel. */
  lemma SentinelAlone(xs: seq<Row>, n: nat, xSpace: seq<Node>, colPtr: seq<int>, i: nat, v: Node)
    requires i < n && Filled(xs, n, xSpace, colPtr, |xs|, 0) && Ended(xs, xSpace, i) && v.index == -1
    requires |colPtr| == n + 1 && 0 <= colPtr[i] < |xSpace| && colPtr[i] == Start(xs, i) + |Column(xs, i)|
    ensures Filled(xs, n, xSpace[colPtr[i] := v], colPtr, |xs|, 0)
    ensures Ended(xs, xSpace[colPtr[i] := v], i + 1)
  {
    hide ColTo, Start;
    var xSpace' := xSpace[colPtr[i] := v];
    forall t | 0 <= t < n ensures Holds(xSpace', Start(xs, t), ColTo(xs, t, |xs|, 0)) {
      assert Holds(xSpace, Start(xs, t), ColTo(xs, t, |xs|, 0));
      if t < i { StartMonotone(xs, t, i); }
      if i < t { StartMonotone(xs, i, t); }
    }
    forall j | 0 <= j < i ensures Start(xs, j) + |Column(xs, j)| < colPtr[i] {
      StartMonotone(xs, j, i);
    }
  }

  lemma AllTransposed(xs: seq<Row>, n: nat, xSpace: seq<Node>, colPtr: seq<int>)
    requires Filled(xs, n, xSpace, colPtr, |xs|, 0) && Ended(xs, xSpace, n)
    ensures Transposed(xs, n, xSpace)
  {
    hide ColTo, Start;
    forall j | 0 <= j < n
      ensures Start(xs, j) + |Column(xs, j)| + 1 <= |xSpace|
      ensures xSpace[Start(xs, j)..Start(xs, j) + |Column(xs, j)|] == Column(xs, j)
    {
      StartMonotone(xs, j, n);
      assert Holds(xSpace, Start(xs, j), ColTo(xs, j, |xs|, 0));
    }
  }

  /** transpose; colStart[j] is the offset that prob_col->x[j] points to. */
  method Transpose(xs: seq<Row>, n: nat) returns (xSpace: array<Node>, colStart: array<int>)
    requires ValidRows(xs, n)
    ensures Transposed(xs, n, xSpace[..])
    ensures colStart.Length == n && forall j :: 0 <= j < n ==> colStart[j] == Start(xs, j)
  {
    hide Filled, ColTo, Start, Transposed;
    var colPtr := new int[n + 1];
    var nnz := CountColumns(xs, n, colPtr);
    PlaceColumns(xs, n, colPtr);
    EndIsTotal(xs, n);
    xSpace := new Node[nnz + n](_ => Node(0, 0.0));
    colStart := new int[n];
    for i := 0 to n
      invariant forall j :: 0 <= j < i ==> colStart[j] == Start(xs, j)
      invariant forall j :: 0 <= j <= n ==> colPtr[j] == Start(xs, j)
    {
      colStart[i] := colPtr[i];
    }
    FillStart(xs, n, xSpace[..], colPtr[..]);
    Scatter(xs, n, xSpace, colPtr);
    Terminate(xs, n, xSpace, colPtr);
  }
}
