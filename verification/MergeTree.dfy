/** What one merge does to the matrix: every row of a spanning tree but the root gets its father
    added, leaves first, and then the root is dropped. */
module MergeTree {
  import opened Collections
  import opened XorSets
  import opened SpanningTree
  import opened Elimination

  ghost predicate Distinct(ind: seq<nat>) {
    forall i, j :: 0 <= i < j < |ind| ==> ind[i] != ind[j]
  }

  /** Every listed row is live. */
  ghost predicate AllLive(e: Elim, ind: seq<nat>) {
    forall k :: 0 <= k < |ind| ==> ind[k] in e.live
  }

  /** `ind` lists once each the live rows that contain column `col`. */
  ghost predicate ListsColumn(e: Elim, col: nat, ind: seq<nat>)
    requires WellFormed(e)
  {
    && Distinct(ind) && |ind| >= 1
    && (forall i :: i in ind <==> i in e.live && col in e.rows[i])
  }

  /** The row additions of a merge in the order in which they are carried out. */
  function Additions(ind: seq<nat>, tree: seq<Edge>): (ops: seq<Op>)
    requires EdgesIn(tree, |ind|)
    ensures |ops| == |tree|
  {
    seq(|tree|, k requires 0 <= k < |tree| => Addition(ind, tree[|tree| - 1 - k]))
  }

  lemma AdditionsAt(ind: seq<nat>, tree: seq<Edge>, i: nat)
    requires EdgesIn(tree, |ind|) && i < |tree|
    ensures Additions(ind, tree)[|tree| - 1 - i] == Addition(ind, tree[i])
  {
  }

  predicate EdgesIn(tree: seq<Edge>, m: nat) {
    forall k :: 0 <= k < |tree| ==> tree[k].u < m && tree[k].v < m
  }

  function Addition(ind: seq<nat>, e: Edge): Op
    requires e.u < |ind| && e.v < |ind|
  {
    Add(ind[e.v], ind[e.u])
  }

  function MergeOps(ind: seq<nat>, tree: seq<Edge>): seq<Op>
    requires EdgesIn(tree, |ind|) && |ind| >= 1
  {
    Additions(ind, tree) + [Drop(ind[0])]
  }

  /** A tree that attaches every vertex below m to vertex 0. */
  ghost predicate MergeTreeFor(tree: seq<Edge>, m: nat) {
    m >= 1 && |tree| == m - 1 && Grows(tree, m)
  }

  lemma GrowsEdgesIn(tree: seq<Edge>, m: nat)
    requires m >= 1 && Grows(tree, m)
    ensures EdgesIn(tree, m)
  {
    GrownWithin(tree, m);
  }

  lemma GrowsPrefix(tree: seq<Edge>, m: nat, n: nat)
    requires Grows(tree, m) && n <= |tree|
    ensures Grows(tree[..n], m)
  {
    forall i | 0 <= i < n ensures GrowsAt(tree[..n], m, i) {
      assert GrowsAt(tree, m, i);
      assert Reached(tree[..n], i) == Reached(tree, i);
    }
  }

  /** No edge of a growing tree but the last touches the last vertex attached. */
  lemma LastVertexUntouched(tree: seq<Edge>, m: nat, i: nat)
    requires Grows(tree, m) && i < |tree| - 1
    ensures tree[i].v != tree[|tree| - 1].v && tree[i].u != tree[|tree| - 1].v
    ensures tree[|tree| - 1].v != 0 && tree[|tree| - 1].u != tree[|tree| - 1].v
  {
    var n := |tree| - 1;
    assert GrowsAt(tree, m, n) && GrowsAt(tree, m, i);
    assert tree[n].v !in Reached(tree, n);
    assert Reached(tree, i) <= Reached(tree, n);
    assert tree[i].v in Reached(tree, n);
  }

  /** The state after the additions, in terms of the contents the rows had before any of them. */
  ghost predicate Added(e: Elim, r: Elim, ind: seq<nat>, tree: seq<Edge>)
    requires WellFormed(e) && WellFormed(r) && |e.rows| == |r.rows| && EdgesIn(tree, |ind|) && AllLive(e, ind)
  {
    && r.live == e.live
    && (forall k :: 0 <= k < |tree| ==>
                      && r.rows[ind[tree[k].v]] == SymDiff(e.rows[ind[tree[k].v]], e.rows[ind[tree[k].u]])
                      && r.rels[ind[tree[k].v]] == SymDiff(e.rels[ind[tree[k].v]], e.rels[ind[tree[k].u]]))
    && (forall i :: 0 <= i < |e.rows| && !Attached(ind, tree, i) ==> r.rows[i] == e.rows[i] && r.rels[i] == e.rels[i])
  }

  /** Row i is a son in the tree. */
  ghost predicate Attached(ind: seq<nat>, tree: seq<Edge>, i: nat)
    requires EdgesIn(tree, |ind|)
  {
    exists k :: 0 <= k < |tree| && ind[tree[k].v] == i
  }

  /** Because leaves come first, each addition uses the original contents of both rows. */
  lemma AdditionsFirst(ind: seq<nat>, tree: seq<Edge>)
    requires EdgesIn(tree, |ind|) && tree != [] && EdgesIn(tree[..|tree| - 1], |ind|)
    ensures Additions(ind, tree)[0] == Addition(ind, tree[|tree| - 1])
    ensures Additions(ind, tree)[1..] == Additions(ind, tree[..|tree| - 1])
  {
  }

  lemma {:induction false} AdditionsResult(e: Elim, ind: seq<nat>, tree: seq<Edge>)
    requires WellFormed(e) && Distinct(ind) && |ind| >= 1 && Grows(tree, |ind|) && EdgesIn(tree, |ind|)
    requires AllLive(e, ind)
    ensures RunnableAll(e, Additions(ind, tree)) && LosslessAll(e, Additions(ind, tree))
    ensures Added(e, Run(e, Additions(ind, tree)), ind, tree)
    decreases |tree|
  {
    if tree != [] {
      var n := |tree| - 1;
      var last := tree[n];
      var front := tree[..n];
      assert last.u != last.v by {
        assert GrowsAt(tree, |ind|, n);
      }
      var op := Addition(ind, last);
      var mid := Apply(e, op);
      GrowsPrefix(tree, |ind|, n);
      AdditionsResult(mid, ind, front);
      AdditionsFirst(ind, tree);
      AddedFront(e, mid, Run(mid, Additions(ind, front)), ind, tree);
    }
  }

  lemma AddedFront(e: Elim, mid: Elim, r: Elim, ind: seq<nat>, tree: seq<Edge>)
    requires WellFormed(e) && Distinct(ind) && |ind| >= 1 && Grows(tree, |ind|) && EdgesIn(tree, |ind|) && tree != []
    requires AllLive(e, ind)
    requires Runnable(e, Addition(ind, tree[|tree| - 1])) && mid == Apply(e, Addition(ind, tree[|tree| - 1]))
    requires WellFormed(r) && |r.rows| == |mid.rows|
    requires EdgesIn(tree[..|tree| - 1], |ind|) && Added(mid, r, ind, tree[..|tree| - 1])
    ensures Added(e, r, ind, tree)
  {
    var n := |tree| - 1;
    var front := tree[..n];
    var son := ind[tree[n].v];
    forall k | 0 <= k < n
      ensures ind[tree[k].v] != son && ind[tree[k].u] != son && front[k] == tree[k]
    {
      LastVertexUntouched(tree, |ind|, k);
    }
    assert !Attached(ind, front, son);
    forall k | 0 <= k < |tree|
      ensures r.rows[ind[tree[k].v]] == SymDiff(e.rows[ind[tree[k].v]], e.rows[ind[tree[k].u]])
      ensures r.rels[ind[tree[k].v]] == SymDiff(e.rels[ind[tree[k].v]], e.rels[ind[tree[k].u]])
    {
      if k < n {
        assert front[k] == tree[k];
      }
    }
    forall i | 0 <= i < |e.rows| && !Attached(ind, tree, i)
      ensures r.rows[i] == e.rows[i] && r.rels[i] == e.rels[i]
    {
      assert ind[tree[n].v] != i;
      assert !Attached(ind, front, i) by {
        assert forall k :: 0 <= k < n ==> front[k] == tree[k];
      }
    }
  }

  lemma AttachedUnlessRoot(ind: seq<nat>, tree: seq<Edge>, x: nat)
    requires |ind| >= 1 && MergeTreeFor(tree, |ind|) && EdgesIn(tree, |ind|) && 0 < x < |ind|
    ensures exists k :: 0 <= k < |tree| && tree[k].v == x
  {
    ReachedAll(tree, |ind|);
    assert x in Indices(|ind|);
  }

  lemma RootNotAttached(ind: seq<nat>, tree: seq<Edge>)
    requires Distinct(ind) && |ind| >= 1 && Grows(tree, |ind|) && EdgesIn(tree, |ind|)
    ensures !Attached(ind, tree, ind[0])
  {
    forall k | 0 <= k < |tree| ensures ind[tree[k].v] != ind[0] {
      assert GrowsAt(tree, |ind|, k);
      assert 0 in Reached(tree, k);
    }
  }

  /** After the additions only the root still contains the merged column. */
  lemma RootHoldsColumn(e: Elim, r: Elim, col: nat, ind: seq<nat>, tree: seq<Edge>)
    requires WellFormed(e) && ListsColumn(e, col, ind) && MergeTreeFor(tree, |ind|) && EdgesIn(tree, |ind|)
    requires WellFormed(r) && |r.rows| == |e.rows| && AllLive(e, ind) && Added(e, r, ind, tree)
    ensures Private(r, ind[0], col)
  {
    RootNotAttached(ind, tree);
    assert ind[0] in ind;
    forall i | i in r.live && i != ind[0] ensures col !in r.rows[i] {
      if i in ind {
        var x :| 0 <= x < |ind| && ind[x] == i;
        AttachedUnlessRoot(ind, tree, x);
        var k :| 0 <= k < |tree| && tree[k].v == x;
        assert ind[tree[k].u] in ind && ind[tree[k].v] in ind;
        assert r.rows[i] == SymDiff(e.rows[i], e.rows[ind[tree[k].u]]);
      } else {
        assert !Attached(ind, tree, i);
      }
    }
  }

  /** A merge is lossless: it drops a row only when that row alone holds the merged column. */
  lemma MergeLossless(e: Elim, col: nat, ind: seq<nat>, tree: seq<Edge>)
    requires WellFormed(e) && ListsColumn(e, col, ind) && MergeTreeFor(tree, |ind|)
    ensures EdgesIn(tree, |ind|)
    ensures RunnableAll(e, MergeOps(ind, tree)) && LosslessAll(e, MergeOps(ind, tree))
  {
    GrowsEdgesIn(tree, |ind|);
    forall k | 0 <= k < |ind| ensures ind[k] in e.live {
      assert ind[k] in ind;
    }
    AdditionsResult(e, ind, tree);
    var r := Run(e, Additions(ind, tree));
    RootHoldsColumn(e, r, col, ind, tree);
    var drop := [Drop(ind[0])];
    assert Lossless(r, drop[0]);
    RunnableSingle(r, drop[0]);
    RunAppend(e, Additions(ind, tree), drop);
    LosslessAppend(e, Additions(ind, tree), drop);
  }

  lemma RunnableSingle(e: Elim, op: Op)
    requires WellFormed(e) && Runnable(e, op)
    ensures RunnableAll(e, [op]) && Run(e, [op]) == Apply(e, op)
    ensures Lossless(e, op) ==> LosslessAll(e, [op])
  {
    assert [op][1..] == [];
    var r := Apply(e, op);
    assert RunnableAll(r, []);
    assert LosslessAll(r, []);
  }

  // ----- Fill-in -----

  /** The number of non-zero entries of a matrix. */
  ghost function Total(f: seq<set<nat>>): nat {
    if f == [] then 0 else Total(f[..|f| - 1]) + |f[|f| - 1]|
  }

  lemma {:induction false} TotalUpdate(f: seq<set<nat>>, i: nat, s: set<nat>)
    requires i < |f|
    ensures Total(f[i := s]) == Total(f) - |f[i]| + |s|
  {
    var n := |f| - 1;
    if i < n {
      TotalUpdate(f[..n], i, s);
      assert f[i := s][..n] == f[..n][i := s];
    } else {
      assert f[i := s][..n] == f[..n];
    }
  }

  /** The sum of `g` over the positions in `s`. */
  ghost function SumOn(g: seq<int>, s: set<nat>): int {
    if g == [] then 0
    else SumOn(g[..|g| - 1], s) + (if |g| - 1 in s then g[|g| - 1] else 0)
  }

  lemma {:induction false} SumOnAdd(g: seq<int>, s: set<nat>, v: nat)
    requires v !in s
    ensures SumOn(g, s + {v}) == SumOn(g, s) + (if v < |g| then g[v] else 0)
  {
    if g != [] {
      SumOnAdd(g[..|g| - 1], s, v);
    }
  }

  ghost function Sum(g: seq<int>): int {
    if g == [] then 0 else Sum(g[..|g| - 1]) + g[|g| - 1]
  }

  lemma {:induction false} SumOnAll(g: seq<int>, s: set<nat>)
    requires forall v: nat :: v < |g| ==> v in s
    ensures SumOn(g, s) == Sum(g)
  {
    if g != [] {
      SumOnAll(g[..|g| - 1], s);
    }
  }

  /** The row sizes of the listed rows. */
  ghost function Sizes(e: Elim, ind: seq<nat>): (g: seq<int>)
    requires WellFormed(e) && AllLive(e, ind)
    ensures |g| == |ind| && forall k :: 0 <= k < |g| ==> g[k] == |e.rows[ind[k]]|
  {
    seq(|ind|, k requires 0 <= k < |ind| => |e.rows[ind[k]]|)
  }

  /** `w` gives the size of the sum of any two of the listed rows. */
  ghost predicate PairWeights(w: Matrix, e: Elim, ind: seq<nat>)
    requires WellFormed(e) && AllLive(e, ind)
  {
    && |w| >= |ind| && (forall i :: 0 <= i < |ind| ==> |w[i]| >= |ind|)
    && forall x, y :: 0 <= x < |ind| && 0 <= y < |ind| && x != y ==>
                        w[x][y] == |SymDiff(e.rows[ind[x]], e.rows[ind[y]])|
  }

  /** The rows when only the first n edges of the tree have been applied. */
  ghost function Partly(e: Elim, ind: seq<nat>, tree: seq<Edge>, n: nat): (f: seq<set<nat>>)
    requires WellFormed(e) && AllLive(e, ind) && EdgesIn(tree, |ind|) && n <= |tree|
    ensures |f| == |e.rows|
  {
    if n == 0 then e.rows
    else
      var last := tree[n - 1];
      Partly(e, ind, tree, n - 1)[ind[last.v] := SymDiff(e.rows[ind[last.v]], e.rows[ind[last.u]])]
  }

  lemma {:induction false} PartlyUntouched(e: Elim, ind: seq<nat>, tree: seq<Edge>, n: nat, i: nat)
    requires WellFormed(e) && AllLive(e, ind) && EdgesIn(tree, |ind|) && n <= |tree| && i < |e.rows|
    requires forall k :: 0 <= k < n ==> ind[tree[k].v] != i
    ensures Partly(e, ind, tree, n)[i] == e.rows[i]
  {
    if n != 0 {
      PartlyUntouched(e, ind, tree, n - 1, i);
    }
  }

  lemma {:induction false} PartlyTouched(e: Elim, ind: seq<nat>, tree: seq<Edge>, n: nat, k: nat)
    requires WellFormed(e) && AllLive(e, ind) && EdgesIn(tree, |ind|) && k < n <= |tree|
    requires Distinct(ind) && Grows(tree, |ind|)
    ensures Partly(e, ind, tree, n)[ind[tree[k].v]] == SymDiff(e.rows[ind[tree[k].v]], e.rows[ind[tree[k].u]])
  {
    if k < n - 1 {
      PartlyTouched(e, ind, tree, n - 1, k);
      assert GrowsAt(tree, |ind|, n - 1);
      assert tree[k].v in Reached(tree, n - 1);
    }
  }

  lemma PartlyAll(e: Elim, r: Elim, ind: seq<nat>, tree: seq<Edge>)
    requires WellFormed(e) && WellFormed(r) && |e.rows| == |r.rows| && AllLive(e, ind) && EdgesIn(tree, |ind|)
    requires Distinct(ind) && Grows(tree, |ind|) && Added(e, r, ind, tree)
    ensures r.rows == Partly(e, ind, tree, |tree|)
  {
    forall i | 0 <= i < |r.rows| ensures r.rows[i] == Partly(e, ind, tree, |tree|)[i] {
      if Attached(ind, tree, i) {
        var k :| 0 <= k < |tree| && ind[tree[k].v] == i;
        PartlyTouched(e, ind, tree, |tree|, k);
      } else {
        PartlyUntouched(e, ind, tree, |tree|, i);
      }
    }
  }

  lemma PartlyTotalStep(e: Elim, w: Matrix, ind: seq<nat>, tree: seq<Edge>, n: nat)
    requires WellFormed(e) && AllLive(e, ind) && EdgesIn(tree, |ind|) && n < |tree|
    requires Distinct(ind) && Grows(tree, |ind|) && PairWeights(w, e, ind)
    ensures Total(Partly(e, ind, tree, n + 1))
            == Total(Partly(e, ind, tree, n)) + Weight(w, tree[n]) - |e.rows[ind[tree[n].v]]|
  {
    var u, v := e.rows[ind[tree[n].u]], e.rows[ind[tree[n].v]];
    FreshSon(ind, tree, n);
    PartlyUntouched(e, ind, tree, n, ind[tree[n].v]);
    TotalUpdate(Partly(e, ind, tree, n), ind[tree[n].v], SymDiff(v, u));
    assert SymDiff(v, u) == SymDiff(u, v);
  }

  lemma ReachedSum(g: seq<int>, tree: seq<Edge>, n: nat)
    requires n < |tree| && GrowsAt(tree, |g|, n)
    ensures SumOn(g, Reached(tree, n + 1)) == SumOn(g, Reached(tree, n)) + g[tree[n].v]
  {
    ReachedStep(tree, n);
    SumOnAdd(g, Reached(tree, n), tree[n].v);
  }

  lemma CostPrefix(w: Matrix, tree: seq<Edge>, n: nat)
    requires n < |tree|
    ensures Cost(w, tree[..n + 1]) == Cost(w, tree[..n]) + Weight(w, tree[n])
  {
    assert tree[..n + 1] == tree[..n] + [tree[n]];
    CostAppend(w, tree[..n], tree[n]);
  }

  /** What the first n edges change: their weight is gained and the sizes of their sons are lost. */
  ghost predicate PartlyBalanced(e: Elim, w: Matrix, ind: seq<nat>, tree: seq<Edge>, g: seq<int>, n: nat)
    requires WellFormed(e) && AllLive(e, ind) && EdgesIn(tree, |ind|) && n <= |tree|
  {
    Total(Partly(e, ind, tree, n)) == Total(e.rows) + Cost(w, tree[..n]) - SumOn(g, Reached(tree, n)) + SumOn(g, {0})
  }

  lemma PartlyTotalStart(e: Elim, w: Matrix, ind: seq<nat>, tree: seq<Edge>, g: seq<int>)
    requires WellFormed(e) && AllLive(e, ind) && EdgesIn(tree, |ind|)
    ensures PartlyBalanced(e, w, ind, tree, g, 0)
  {
    assert Reached(tree, 0) == {0};
  }

  lemma PartlyTotalNext(e: Elim, w: Matrix, ind: seq<nat>, tree: seq<Edge>, g: seq<int>, n: nat)
    requires WellFormed(e) && AllLive(e, ind) && EdgesIn(tree, |ind|) && n < |tree|
    requires Distinct(ind) && Grows(tree, |ind|) && PairWeights(w, e, ind) && g == Sizes(e, ind)
    requires PartlyBalanced(e, w, ind, tree, g, n)
    ensures PartlyBalanced(e, w, ind, tree, g, n + 1)
  {
    assert GrowsAt(tree, |g|, n);
    PartlyTotalStep(e, w, ind, tree, n);
    ReachedSum(g, tree, n);
    CostPrefix(w, tree, n);
  }

  lemma PartlyTotal(e: Elim, w: Matrix, ind: seq<nat>, tree: seq<Edge>, g: seq<int>)
    requires WellFormed(e) && AllLive(e, ind) && EdgesIn(tree, |ind|)
    requires Distinct(ind) && Grows(tree, |ind|) && PairWeights(w, e, ind) && g == Sizes(e, ind)
    ensures PartlyBalanced(e, w, ind, tree, g, |tree|)
  {
    PartlyTotalStart(e, w, ind, tree, g);
    for n := 0 to |tree|
      invariant PartlyBalanced(e, w, ind, tree, g, n)
    {
      PartlyTotalNext(e, w, ind, tree, g, n);
    }
  }

  lemma FreshSon(ind: seq<nat>, tree: seq<Edge>, n: nat)
    requires Distinct(ind) && Grows(tree, |ind|) && EdgesIn(tree, |ind|) && n < |tree|
    ensures forall k :: 0 <= k < n ==> ind[tree[k].v] != ind[tree[n].v]
    ensures tree[n].u != tree[n].v
  {
    assert GrowsAt(tree, |ind|, n);
    forall k | 0 <= k < n ensures tree[k].v in Reached(tree, n) {
    }
  }

  lemma AdditionsFill(e: Elim, r: Elim, w: Matrix, ind: seq<nat>, tree: seq<Edge>)
    requires WellFormed(e) && WellFormed(r) && |e.rows| == |r.rows| && AllLive(e, ind) && EdgesIn(tree, |ind|)
    requires Distinct(ind) && MergeTreeFor(tree, |ind|) && Added(e, r, ind, tree) && PairWeights(w, e, ind)
    ensures Total(r.rows) == Total(e.rows) + Cost(w, tree) - Sum(Sizes(e, ind)) + |e.rows[ind[0]]|
  {
    var g := Sizes(e, ind);
    PartlyAll(e, r, ind, tree);
    PartlyTotal(e, w, ind, tree, g);
    assert tree[..|tree|] == tree;
    ReachedAll(tree, |ind|);
    SumOnAll(g, Indices(|ind|));
    RootSize(g);
  }

  /** The exact fill-in of a merge: the weight of its tree minus the sizes of the merged rows. */
  lemma MergeFill(e: Elim, w: Matrix, ind: seq<nat>, tree: seq<Edge>)
    requires WellFormed(e) && |ind| >= 1 && Distinct(ind) && AllLive(e, ind) && PairWeights(w, e, ind)
    requires MergeTreeFor(tree, |ind|) && EdgesIn(tree, |ind|)
    ensures RunnableAll(e, MergeOps(ind, tree))
    ensures Total(Run(e, MergeOps(ind, tree)).rows) == Total(e.rows) + Cost(w, tree) - Sum(Sizes(e, ind))
  {
    AdditionsResult(e, ind, tree);
    var mid := Run(e, Additions(ind, tree));
    AdditionsFill(e, mid, w, ind, tree);
    RootNotAttached(ind, tree);
    TotalUpdate(mid.rows, ind[0], {});
    RunnableSingle(mid, Drop(ind[0]));
    RunAppend(e, Additions(ind, tree), [Drop(ind[0])]);
  }

  lemma {:induction false} RootSize(g: seq<int>)
    requires |g| >= 1
    ensures SumOn(g, {0}) == g[0]
  {
    if |g| == 1 {
      assert g[..0] == [];
    } else {
      RootSize(g[..|g| - 1]);
    }
  }
}
