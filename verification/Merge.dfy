/** `merge_do`: the merge of the rows that contain one light column. */
module Merge {
  import opened Collections
  import opened XorSets
  import opened SortedRows
  import opened SpanningTree
  import opened ColumnWeights
  import opened Elimination
  import opened MergeTree
  import opened MergeMatrix
  import opened HistoryLines

  /** The size of the sum of two rows. */
  ghost function PairSize(rows: seq<Row>, i1: nat, i2: nat): nat
    requires i1 < |rows| && i2 < |rows|
  {
    |SymDiff(SetOf(rows[i1]), SetOf(rows[i2]))|
  }

  method WeighPair(rows: seq<Row>, i1: nat, i2: nat) returns (w: nat)
    requires i1 < |rows| && i2 < |rows| && Proper(rows[i1]) && Proper(rows[i2])
    ensures w == PairSize(rows, i1, i2) == PairSize(rows, i2, i1)
  {
    w := WeightSum(rows[i1].cells, rows[i2].cells);
    assert SymDiff(SetOf(rows[i1]), SetOf(rows[i2])) == SymDiff(SetOf(rows[i2]), SetOf(rows[i1]));
  }

  ghost predicate Proper(r: Row) {
    r.Cells? && Increasing(r.cells)
  }

  ghost predicate AllProper(rows: seq<Row>, ind: seq<nat>) {
    forall k :: 0 <= k < |ind| ==> ind[k] < |rows| && Proper(rows[ind[k]])
  }

  /** The sizes of all pairwise sums of the listed rows. */
  ghost function PairSizes(rows: seq<Row>, ind: seq<nat>): (p: Matrix)
    requires AllProper(rows, ind)
    ensures |p| == |ind| && forall x :: 0 <= x < |ind| ==> |p[x]| == |ind|
    ensures forall x, y {:trigger PairSize(rows, ind[x], ind[y])} ::
              0 <= x < |ind| && 0 <= y < |ind| ==> p[x][y] == PairSize(rows, ind[x], ind[y])
  {
    seq(|ind|, x requires 0 <= x < |ind| => seq(|ind|, y requires 0 <= y < |ind| => PairSize(rows, ind[x], ind[y])))
  }

  method SetPair(a: array2<int>, i: nat, j: nat, w: int)
    requires i < a.Length0 && j < a.Length1 && j < a.Length0 && i < a.Length1
    modifies a
    ensures forall x, y :: 0 <= x < a.Length0 && 0 <= y < a.Length1 ==>
                             a[x, y] == if (x == i && y == j) || (x == j && y == i) then w else old(a[x, y])
  {
    a[i, j] := w;
    a[j, i] := a[i, j];
  }

  /** The entries of `a` for pairs that involve one of the first i listed rows are those of `p`. */
  ghost predicate FilledBelow(a: array2<int>, p: Matrix, n: nat, i: nat)
    requires n <= a.Length0 && n <= a.Length1 && |p| == n && forall x :: 0 <= x < n ==> |p[x]| == n
    reads a
  {
    forall x, y {:trigger a[x, y]} :: 0 <= x < n && 0 <= y < n && x != y && (x < i || y < i) ==> a[x, y] == p[x][y]
  }

  /** Fills the entries for row i and the rows listed after it. */
  method FillFrom(a: array2<int>, rows: seq<Row>, ind: seq<nat>, i: nat, ghost p: Matrix)
    requires AllProper(rows, ind) && p == PairSizes(rows, ind) && i < |ind| <= a.Length0 && |ind| <= a.Length1
    requires FilledBelow(a, p, |ind|, i)
    modifies a
    ensures FilledBelow(a, p, |ind|, i + 1)
  {
    for j := i + 1 to |ind|
      invariant FilledTo(a, p, |ind|, i, j)
    {
      FillOne(a, rows, ind, i, j, p);
    }
    FilledRow(a, p, |ind|, i);
  }

  lemma FilledRow(a: array2<int>, p: Matrix, n: nat, i: nat)
    requires n <= a.Length0 && n <= a.Length1 && |p| == n && forall x :: 0 <= x < n ==> |p[x]| == n
    requires i < n && FilledTo(a, p, n, i, n)
    ensures FilledBelow(a, p, n, i + 1)
  {
    forall x, y | 0 <= x < n && 0 <= y < n && x != y && (x < i + 1 || y < i + 1) ensures a[x, y] == p[x][y] {
      assert x == i ==> y < i || a[i, y] == p[i][y];
      assert y == i ==> x < i || a[x, i] == p[x][i];
    }
  }

  /** In addition the entries of row i for the listed rows before j. */
  ghost predicate FilledTo(a: array2<int>, p: Matrix, n: nat, i: nat, j: nat)
    requires n <= a.Length0 && n <= a.Length1 && |p| == n && forall x :: 0 <= x < n ==> |p[x]| == n
    reads a
  {
    && FilledBelow(a, p, n, i)
    && forall y {:trigger a[i, y]} {:trigger a[y, i]} :: i < y < j && y < n ==> a[i, y] == p[i][y] && a[y, i] == p[y][i]
  }

  method FillOne(a: array2<int>, rows: seq<Row>, ind: seq<nat>, i: nat, j: nat, ghost p: Matrix)
    requires AllProper(rows, ind) && p == PairSizes(rows, ind) && i < j < |ind| <= a.Length0 && |ind| <= a.Length1
    requires FilledTo(a, p, |ind|, i, j)
    modifies a
    ensures FilledTo(a, p, |ind|, i, j + 1)
  {
    var w := WeighPair(rows, ind[i], ind[j]);
    SetPair(a, i, j, w);
  }

  /** Fills `a[i, j]` with the weight of the sum of the i-th and j-th listed rows. */
  method FillRowAddMatrix(a: array2<int>, rows: seq<Row>, ind: seq<nat>, ghost p: Matrix)
    requires AllProper(rows, ind) && p == PairSizes(rows, ind) && |ind| <= a.Length0 && |ind| <= a.Length1
    modifies a
    ensures FilledBelow(a, p, |ind|, |ind|)
  {
    for i := 0 to |ind|
      invariant FilledBelow(a, p, |ind|, i)
    {
      FillFrom(a, rows, ind, i, p);
    }
  }

  /** One addition of a planned sequence. */
  method AddPlanned(mat: FilterMatrix, ghost wt: seq<nat>, ghost e: Elim, ghost ops: seq<Op>, ghost k: nat, dst: nat, src: nat)
    requires WellFormed(e) && RunnableAll(e, ops) && k < |ops| && ops[k] == Add(dst, src)
    requires mat.Valid() && RunnableAll(e, ops[..k]) && mat.Abs() == Run(e, ops[..k]) && Follows(wt, e, ops[..k], mat.wt[..])
    modifies mat`rels, mat.rows, mat.wt
    ensures mat.Valid() && RunnableAll(e, ops[..k + 1]) && mat.Abs() == Run(e, ops[..k + 1])
    ensures Follows(wt, e, ops[..k + 1], mat.wt[..])
  {
    RunPrefix(e, ops, k);
    ghost var mid := mat.wt[..];
    mat.AddRow(dst, src);
    FollowsNext(wt, e, ops, k, mid, mat.wt[..]);
  }

  /** Adds fathers to sons along the tree, last edge first, and returns the history lines. */
  method AddFatherToSons(mat: FilterMatrix, ind: seq<nat>, father: array<nat>, sons: array<nat>, ghost tree: seq<Edge>)
    returns (lines: seq<seq<int>>)
    requires mat.Valid() && |ind| >= 2 && Distinct(ind) && AllLive(mat.Abs(), ind)
    requires |tree| == |ind| - 1 <= father.Length && |tree| <= sons.Length && Grows(tree, |ind|) && EdgesIn(tree, |ind|)
    requires tree == Zip(father[..|tree|], sons[..|tree|]) && father != mat.wt && sons != mat.wt
    modifies mat`rels, mat.rows, mat.wt
    ensures mat.Valid() && RunnableAll(old(mat.Abs()), Additions(ind, tree))
    ensures mat.Abs() == Run(old(mat.Abs()), Additions(ind, tree))
    ensures lines == EdgeLines(ind, tree, |tree|)
    ensures Follows(old(mat.wt[..]), old(mat.Abs()), Additions(ind, tree), mat.wt[..])
  {
    ghost var wt := mat.wt[..];
    ghost var e := mat.Abs();
    ghost var ops := Additions(ind, tree);
    assert RunnableAll(e, ops) by { AdditionsResult(e, ind, tree); }
    lines := [];
    var i := |ind| - 2;
    assert ops[..0] == [];
    FollowsStart(wt, e);
    while i >= 0
      invariant -1 <= i <= |tree| - 1 && mat.Valid()
      invariant RunnableAll(e, ops[..|tree| - 1 - i]) && mat.Abs() == Run(e, ops[..|tree| - 1 - i])
      invariant lines == EdgeLines(ind, tree, |tree| - 1 - i)
      invariant Follows(wt, e, ops[..|tree| - 1 - i], mat.wt[..])
    {
      var s, t := father[i], sons[i];
      assert tree[i] == Edge(s, t);
      AdditionsAt(ind, tree, i);
      EdgeLinesStep(ind, tree, i);
      lines := lines + [MakeLine(i == 0, ind[s], ind[t])];
      AddPlanned(mat, wt, e, ops, |tree| - 1 - i, ind[t], ind[s]);
      i := i - 1;
    }
    assert ops[..|tree|] == ops;
  }

  lemma PairSizeBound(rows: seq<Row>, ncols: nat, i1: nat, i2: nat)
    requires RowsValid(rows, ncols) && i1 < |rows| && i2 < |rows|
    ensures PairSize(rows, i1, i2) <= ncols && PairSize(rows, i1, i2) == PairSize(rows, i2, i1)
  {
    RowWithin(rows, ncols, i1);
    RowWithin(rows, ncols, i2);
    SumWithin(SetOf(rows[i1]), SetOf(rows[i2]), ncols);
  }

  lemma RowWithin(rows: seq<Row>, ncols: nat, i: nat)
    requires RowsValid(rows, ncols) && i < |rows|
    ensures SetOf(rows[i]) <= Indices(ncols)
  {
  }

  lemma SumWithin(a: set<nat>, b: set<nat>, n: nat)
    requires a <= Indices(n) && b <= Indices(n)
    ensures |SymDiff(a, b)| <= n && SymDiff(a, b) == SymDiff(b, a)
  {
    SubsetSize(SymDiff(a, b), Indices(n));
  }

  /** The weight matrix of a merge is symmetric and within the range of an int. */
  lemma PairSizesBounded(rows: seq<Row>, ncols: nat, ind: seq<nat>)
    requires RowsValid(rows, ncols) && AllProper(rows, ind)
    ensures var p := PairSizes(rows, ind);
            forall x, y {:trigger p[x][y]} :: 0 <= x < |ind| && 0 <= y < |ind| ==> p[x][y] == p[y][x] <= ncols
  {
    var p := PairSizes(rows, ind);
    forall x, y | 0 <= x < |ind| && 0 <= y < |ind| ensures p[x][y] == p[y][x] <= ncols {
      PairSizeBound(rows, ncols, ind[x], ind[y]);
    }
  }

  lemma PairSizesAreWeights(rows: seq<Row>, e: Elim, ind: seq<nat>)
    requires WellFormed(e) && AllProper(rows, ind) && e.rows == SetsOf(rows) && AllLive(e, ind)
    ensures PairWeights(PairSizes(rows, ind), e, ind)
  {
    forall x, y | 0 <= x < |ind| && 0 <= y < |ind| && x != y
      ensures PairSizes(rows, ind)[x][y] == |SymDiff(e.rows[ind[x]], e.rows[ind[y]])|
    {
      assert PairSize(rows, ind[x], ind[y]) == |SymDiff(e.rows[ind[x]], e.rows[ind[y]])|;
    }
  }

  /** The spanning tree of `merge_do`: lightest among all spanning trees on the listed rows. */
  method BestTree(rows: seq<Row>, ghost ncols: nat, ind: seq<nat>, start: array<nat>, end: array<nat>, ghost p: Matrix)
    returns (c: int, ghost tree: seq<Edge>)
    requires RowsValid(rows, ncols) && AllProper(rows, ind) && p == PairSizes(rows, ind) && ncols < INT_MAX
    requires 2 <= |ind| <= MERGE_LEVEL_MAX <= start.Length && MERGE_LEVEL_MAX <= end.Length && start != end
    modifies start, end
    ensures tree == Zip(start[..|ind| - 1], end[..|ind| - 1])
    ensures MergeTreeFor(tree, |ind|) && EdgesIn(tree, |ind|) && c == Cost(p, tree)
    ensures forall rival :: IsSpanningTree(rival, |ind|) ==> Cost(p, tree) <= Cost(p, rival)
  {
    var a := new int[MERGE_LEVEL_MAX, MERGE_LEVEL_MAX];
    FillRowAddMatrix(a, rows, ind, p);
    PairSizesBounded(rows, ncols, ind);
    c := MinimalSpanningTree(start, end, |ind|, a);
    tree := Zip(start[..|ind| - 1], end[..|ind| - 1]);
    GrowsEdgesIn(tree, |ind|);
    SameCost(Snapshot(a), p, tree, |ind|);
    forall rival | IsSpanningTree(rival, |ind|) ensures Cost(p, tree) <= Cost(p, rival) {
      SameCost(Snapshot(a), p, rival, |ind|);
    }
  }

  lemma {:induction false} SameCost(w: Matrix, p: Matrix, edges: seq<Edge>, m: nat)
    requires |w| >= m && |p| >= m && forall x :: 0 <= x < m ==> |w[x]| >= m && |p[x]| >= m
    requires forall x, y {:trigger p[x][y]} :: 0 <= x < m && 0 <= y < m && x != y ==> w[x][y] == p[x][y]
    requires EdgesWithin(edges, m)
    ensures Cost(w, edges) == Cost(p, edges)
  {
    if edges != [] {
      SameCost(w, p, edges[1..], m);
      assert Weight(p, edges[0]) == p[edges[0].u][edges[0].v];
    }
  }

  /** Subtracts the sizes of the merged rows from the weight of the tree. */
  method SubtractSizes(c0: int, rows: seq<Row>, ind: seq<nat>, ghost e: Elim) returns (c: int)
    requires WellFormed(e) && AllProper(rows, ind) && e.rows == SetsOf(rows) && AllLive(e, ind)
    ensures c == c0 - Sum(Sizes(e, ind))
  {
    c := c0;
    ghost var g := Sizes(e, ind);
    for k := 0 to |ind|
      invariant c == c0 - Sum(g[..k])
    {
      ElemsSize(rows[ind[k]].cells);
      c := c - |rows[ind[k]].cells|;
      assert g[..k + 1][..k] == g[..k];
    }
    assert g[..|ind|] == g;
  }

  /** No other spanning tree would leave fewer entries in the matrix. */
  ghost predicate LeastFill(e: Elim, ind: seq<nat>, tree: seq<Edge>) {
    && WellFormed(e) && |ind| >= 1 && Distinct(ind) && AllLive(e, ind) && MergeTreeFor(tree, |ind|)
    && forall rival :: MergeTreeFor(rival, |ind|) ==> NoWorse(e, ind, tree, rival)
  }

  ghost predicate NoWorse(e: Elim, ind: seq<nat>, tree: seq<Edge>, rival: seq<Edge>)
    requires WellFormed(e) && |ind| >= 1
  {
    && EdgesIn(tree, |ind|) && EdgesIn(rival, |ind|)
    && RunnableAll(e, MergeOps(ind, tree)) && RunnableAll(e, MergeOps(ind, rival))
    && Total(Run(e, MergeOps(ind, tree)).rows) <= Total(Run(e, MergeOps(ind, rival)).rows)
  }

  lemma LightestFillsLeast(e: Elim, p: Matrix, ind: seq<nat>, tree: seq<Edge>)
    requires WellFormed(e) && |ind| >= 1 && Distinct(ind) && AllLive(e, ind) && PairWeights(p, e, ind)
    requires MergeTreeFor(tree, |ind|)
    requires forall rival :: IsSpanningTree(rival, |ind|) ==> Cost(p, tree) <= Cost(p, rival)
    ensures LeastFill(e, ind, tree)
  {
    forall rival | MergeTreeFor(rival, |ind|) ensures NoWorse(e, ind, tree, rival) {
      GrownIsSpanningTree(rival, |ind|);
      GrowsEdgesIn(tree, |ind|);
      GrowsEdgesIn(rival, |ind|);
      MergeFill(e, p, ind, tree);
      MergeFill(e, p, ind, rival);
    }
  }

  lemma ListedRowsProper(rows: seq<Row>, ncols: nat, e: Elim, col: nat, ind: seq<nat>)
    requires RowsValid(rows, ncols) && WellFormed(e) && e.rows == SetsOf(rows) && e.live == LiveOf(rows)
    requires ListsColumn(e, col, ind)
    ensures AllLive(e, ind) && AllProper(rows, ind)
  {
    forall k | 0 <= k < |ind| ensures ind[k] in e.live {
      assert ind[k] in ind;
    }
  }

  lemma FollowsLast(before: seq<nat>, e: Elim, ops: seq<Op>, op: Op, mid: seq<nat>, after: seq<nat>)
    requires WellFormed(e) && RunnableAll(e, ops) && RunnableAll(e, ops + [op]) && Follows(before, e, ops, mid)
    requires var b, c := Bits(Run(e, ops).rows, mid), Bits(Run(e, ops + [op]).rows, after);
             Exact(b) ==> Exact(c) && Tracked(b, c)
    ensures Follows(before, e, ops + [op], after)
  {
    var all := ops + [op];
    assert all[..|ops|] == ops && all[..|ops| + 1] == all;
    FollowsNext(before, e, all, |ops|, mid, after);
  }

  lemma FollowsOne(before: seq<nat>, e: Elim, op: Op, after: seq<nat>)
    requires WellFormed(e) && RunnableAll(e, [op])
    requires var b, c := Bits(e.rows, before), Bits(Run(e, [op]).rows, after);
             Exact(b) ==> Exact(c) && Tracked(b, c)
    ensures Follows(before, e, [op], after)
  {
    FollowsStart(before, e);
    assert [] + [op] == [op];
    FollowsLast(before, e, [], op, before, after);
  }

  /** A merge of a column held by a single row just removes that row. */
  method MergeSingle(mat: FilterMatrix, ghost col: nat, i: nat) returns (c: int, lines: seq<seq<int>>)
    requires mat.Valid() && ListsColumn(mat.Abs(), col, [i])
    modifies mat`rels, mat.rows, mat.wt
    ensures mat.Valid() && RunnableAll(old(mat.Abs()), MergeOps([i], []))
    ensures mat.Abs() == Run(old(mat.Abs()), MergeOps([i], []))
    ensures lines == MergeLines([i], []) && c == -3
    ensures i < |old(mat.Abs().rows)| && Total(mat.Abs().rows) == Total(old(mat.Abs().rows)) - |old(mat.Abs().rows)[i]|
    ensures Follows(old(mat.wt[..]), old(mat.Abs()), MergeOps([i], []), mat.wt[..])
  {
    ghost var e := mat.Abs();
    ListedRowsProper(mat.rows[..], mat.wt.Length, e, col, [i]);
    assert [i][0] in e.live;
    assert MergeOps([i], []) == [Drop(i)];
    RunnableSingle(e, Drop(i));
    TotalUpdate(e.rows, i, {});
    lines := [[i]];
    ghost var wt := mat.wt[..];
    mat.RemoveRow(i);
    FollowsOne(wt, e, Drop(i), mat.wt[..]);
    c := -3;
  }

  /** The merge of at least two rows. */
  method MergeSeveral(mat: FilterMatrix, ghost col: nat, ind: seq<nat>)
    returns (c: int, lines: seq<seq<int>>, ghost tree: seq<Edge>)
    requires mat.Valid() && ListsColumn(mat.Abs(), col, ind) && 2 <= |ind| <= MERGE_LEVEL_MAX && mat.wt.Length < INT_MAX
    modifies mat`rels, mat.rows, mat.wt
    ensures mat.Valid() && MergeTreeFor(tree, |ind|) && EdgesIn(tree, |ind|)
    ensures RunnableAll(old(mat.Abs()), MergeOps(ind, tree)) && mat.Abs() == Run(old(mat.Abs()), MergeOps(ind, tree))
    ensures lines == MergeLines(ind, tree)
    ensures c == Total(mat.Abs().rows) - Total(old(mat.Abs().rows))
    ensures LeastFill(old(mat.Abs()), ind, tree)
    ensures Follows(old(mat.wt[..]), old(mat.Abs()), MergeOps(ind, tree), mat.wt[..])
  {
    ghost var wt := mat.wt[..];
    ghost var e := mat.Abs();
    ListedRowsProper(mat.rows[..], mat.wt.Length, e, col, ind);
    ghost var p := PairSizes(mat.rows[..], ind);
    PairSizesAreWeights(mat.rows[..], e, ind);
    var start, end := new nat[MERGE_LEVEL_MAX], new nat[MERGE_LEVEL_MAX];
    c, tree := BestTree(mat.rows[..], mat.wt.Length, ind, start, end, p);
    LightestFillsLeast(e, p, ind, tree);
    MergeFill(e, p, ind, tree);
    c := SubtractSizes(c, mat.rows[..], ind, e);
    lines := AddFatherToSons(mat, ind, start, end, tree);
    DropRoot(mat, wt, ind, tree, e);
  }

  /** Removes the root once its sons have absorbed it. */
  method DropRoot(mat: FilterMatrix, ghost wt: seq<nat>, ind: seq<nat>, ghost tree: seq<Edge>, ghost e: Elim)
    requires WellFormed(e) && |ind| >= 1 && Distinct(ind) && AllLive(e, ind) && Grows(tree, |ind|) && EdgesIn(tree, |ind|)
    requires mat.Valid() && RunnableAll(e, Additions(ind, tree)) && mat.Abs() == Run(e, Additions(ind, tree))
    requires Follows(wt, e, Additions(ind, tree), mat.wt[..])
    modifies mat`rels, mat.rows, mat.wt
    ensures mat.Valid() && RunnableAll(e, MergeOps(ind, tree)) && mat.Abs() == Run(e, MergeOps(ind, tree))
    ensures Follows(wt, e, MergeOps(ind, tree), mat.wt[..])
  {
    ghost var mid := mat.Abs();
    assert mid.live == e.live by { AdditionsResult(e, ind, tree); }
    assert ind[0] in mid.live;
    RunnableSingle(mid, Drop(ind[0]));
    RunAppend(e, Additions(ind, tree), [Drop(ind[0])]);
    ghost var before := mat.wt[..];
    mat.RemoveRow(ind[0]);
    FollowsLast(wt, e, Additions(ind, tree), Drop(ind[0]), before, mat.wt[..]);
  }

  /** `merge_do`: merges the rows listed in `ind`, which are those containing column `col`.
      Returns the amount added to the running count of entries and the history lines. */
  method MergeDo(mat: FilterMatrix, ghost col: nat, ind: seq<nat>)
    returns (c: int, lines: seq<seq<int>>, ghost tree: seq<Edge>)
    requires mat.Valid() && ListsColumn(mat.Abs(), col, ind) && |ind| <= MERGE_LEVEL_MAX && mat.wt.Length < INT_MAX
    modifies mat`rels, mat.rows, mat.wt
    ensures mat.Valid() && MergeTreeFor(tree, |ind|) && EdgesIn(tree, |ind|)
    // the matrix: fathers added to sons, root dropped, nothing of the kernel lost
    ensures RunnableAll(old(mat.Abs()), MergeOps(ind, tree)) && LosslessAll(old(mat.Abs()), MergeOps(ind, tree))
    ensures mat.Abs() == Run(old(mat.Abs()), MergeOps(ind, tree))
    // the history: executing its lines is executing the merge
    ensures lines == MergeLines(ind, tree) && LinesOps(lines) == MergeOps(ind, tree)
    // the fill-in: least possible, and reported exactly unless the column had a single row of size other than 3
    ensures |ind| >= 2 ==> LeastFill(old(mat.Abs()), ind, tree)
    ensures c == Total(mat.Abs().rows) - Total(old(mat.Abs().rows))
            <==> |ind| >= 2 || |old(mat.Abs().rows[ind[0]])| == 3
    ensures |ind| == 1 ==> c == -3
    // the weights: exact as long as columns are small, and frozen only when a column has become too large
    ensures Follows(old(mat.wt[..]), old(mat.Abs()), MergeOps(ind, tree), mat.wt[..])
  {
    ghost var e := mat.Abs();
    ListedRowsProper(mat.rows[..], mat.wt.Length, e, col, ind);
    if |ind| == 1 {
      assert ind == [ind[0]];
      tree := [];
      c, lines := MergeSingle(mat, col, ind[0]);
    } else {
      c, lines, tree := MergeSeveral(mat, col, ind);
    }
    MergeLossless(e, col, ind, tree);
    MergeLinesOps(ind, tree);
  }

  /** A single row of one entry: one entry disappears, and `merge_do` returns -3. */
  lemma SingleMiscounted()
    ensures var e := Elim({0}, [{5}], [{0}]);
            && WellFormed(e) && ListsColumn(e, 5, [0]) && RunnableAll(e, MergeOps([0], []))
            && Total(Run(e, MergeOps([0], [])).rows) - Total(e.rows) == -1
  {
    var e := Elim({0}, [{5}], [{0}]);
    assert [0][0] in [0];
    assert MergeOps([0], []) == [Drop(0)];
    RunnableSingle(e, Drop(0));
    TotalUpdate(e.rows, 0, {});
  }
}
