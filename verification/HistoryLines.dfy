/** The meaning of a history line, as written by `merge` and executed by `replay`.  A line
    `i i1 ... ik` adds row i to rows i1 to ik and destroys it; with -(i+1) in place of i the row
    is kept. */
module HistoryLines {
  import opened Collections
  import opened Elimination
  import opened SpanningTree
  import opened MergeTree

  predicate LineOk(line: seq<int>) {
    |line| >= 1 && forall k :: 1 <= k < |line| ==> line[k] >= 0
  }

  predicate LinesOk(lines: seq<seq<int>>) {
    forall k :: 0 <= k < |lines| ==> LineOk(lines[k])
  }

  function Source(head: int): nat {
    if head < 0 then -head - 1 else head
  }

  function AddTo(src: nat, dsts: seq<int>): (ops: seq<Op>)
    requires forall k :: 0 <= k < |dsts| ==> dsts[k] >= 0
    ensures |ops| == |dsts| && forall k :: 0 <= k < |ops| ==> ops[k] == Add(dsts[k], src)
  {
    if dsts == [] then [] else AddTo(src, dsts[..|dsts| - 1]) + [Add(dsts[|dsts| - 1], src)]
  }

  function LineOps(line: seq<int>): seq<Op>
    requires LineOk(line)
  {
    AddTo(Source(line[0]), line[1..]) + (if line[0] < 0 then [] else [Drop(Source(line[0]))])
  }

  function LinesOps(lines: seq<seq<int>>): seq<Op>
    requires LinesOk(lines)
  {
    if lines == [] then [] else LinesOps(lines[..|lines| - 1]) + LineOps(lines[|lines| - 1])
  }

  /** The line that adds `src` to `dst`, and destroys `src` if asked to. */
  function MakeLine(destroy: bool, src: nat, dst: nat): (line: seq<int>)
    ensures LineOk(line) && |line| == 2
  {
    [if destroy then src else -(src as int) - 1, dst]
  }

  lemma MakeLineOps(destroy: bool, src: nat, dst: nat)
    ensures LineOps(MakeLine(destroy, src, dst)) == [Add(dst, src)] + (if destroy then [Drop(src)] else [])
  {
    var line := MakeLine(destroy, src, dst);
    assert line[1..] == [dst];
    assert AddTo(src, [dst]) == [Add(dst, src)];
  }

  /** The line for edge i of the tree; only the first edge, which is printed last, destroys its father. */
  function EdgeLine(ind: seq<nat>, tree: seq<Edge>, i: nat): (line: seq<int>)
    requires EdgesIn(tree, |ind|) && i < |tree|
    ensures LineOk(line) && |line| == 2
  {
    MakeLine(i == 0, ind[tree[i].u], ind[tree[i].v])
  }

  function EdgeLines(ind: seq<nat>, tree: seq<Edge>, n: nat): (lines: seq<seq<int>>)
    requires EdgesIn(tree, |ind|) && n <= |tree|
    ensures |lines| == n && LinesOk(lines) && forall k :: 0 <= k < n ==> |lines[k]| == 2
  {
    seq(n, k requires 0 <= k < n => EdgeLine(ind, tree, |tree| - 1 - k))
  }

  lemma EdgeLinesStep(ind: seq<nat>, tree: seq<Edge>, i: nat)
    requires EdgesIn(tree, |ind|) && i < |tree|
    ensures EdgeLines(ind, tree, |tree| - i) == EdgeLines(ind, tree, |tree| - 1 - i) + [EdgeLine(ind, tree, i)]
  {
  }

  /** The lines of one merge in the order in which they are printed. */
  function MergeLines(ind: seq<nat>, tree: seq<Edge>): (lines: seq<seq<int>>)
    requires EdgesIn(tree, |ind|) && |ind| >= 1
    ensures LinesOk(lines)
  {
    if |ind| == 1 then [[ind[0]]] else EdgeLines(ind, tree, |tree|)
  }

  lemma {:induction false} EdgeLinesOps(ind: seq<nat>, tree: seq<Edge>, n: nat)
    requires EdgesIn(tree, |ind|) && n < |tree|
    ensures LinesOps(EdgeLines(ind, tree, n)) == Additions(ind, tree)[..n]
  {
    if n != 0 {
      EdgeLinesOps(ind, tree, n - 1);
      assert EdgeLines(ind, tree, n)[..n - 1] == EdgeLines(ind, tree, n - 1);
      EdgeLineOps(ind, tree, |tree| - n);
    }
  }

  lemma EdgeLineOps(ind: seq<nat>, tree: seq<Edge>, i: nat)
    requires EdgesIn(tree, |ind|) && i < |tree|
    ensures LineOps(EdgeLine(ind, tree, i))
            == [Addition(ind, tree[i])] + (if i == 0 then [Drop(ind[tree[0].u])] else [])
  {
    MakeLineOps(i == 0, ind[tree[i].u], ind[tree[i].v]);
  }

  /** Executing the printed lines of a merge is executing the merge. */
  lemma MergeLinesOps(ind: seq<nat>, tree: seq<Edge>)
    requires |ind| >= 1 && MergeTreeFor(tree, |ind|) && EdgesIn(tree, |ind|)
    ensures LinesOps(MergeLines(ind, tree)) == MergeOps(ind, tree)
  {
    var lines := MergeLines(ind, tree);
    if |ind| == 1 {
      assert lines[..0] == [];
      assert LineOps([ind[0]]) == [Drop(ind[0])];
      assert LinesOps(lines) == [Drop(ind[0])];
    } else {
      var n := |tree|;
      EdgeLinesOps(ind, tree, n - 1);
      assert lines[..n - 1] == EdgeLines(ind, tree, n - 1);
      EdgeLineOps(ind, tree, 0);
      assert GrowsAt(tree, |ind|, 0);
      assert Additions(ind, tree)[n - 1] == Addition(ind, tree[0]);
      assert Additions(ind, tree) == Additions(ind, tree)[..n - 1] + [Addition(ind, tree[0])];
    }
  }

  lemma {:induction false} LinesOpsAppend(a: seq<seq<int>>, b: seq<seq<int>>)
    requires LinesOk(a) && LinesOk(b)
    ensures LinesOk(a + b) && LinesOps(a + b) == LinesOps(a) + LinesOps(b)
    decreases |b|
  {
    if b == [] {
      assert a + b == a;
    } else {
      var n := |b| - 1;
      LinesOpsAppend(a, b[..n]);
      assert (a + b)[..|a + b| - 1] == a + b[..n] && (a + b)[|a + b| - 1] == b[n];
      Regroup(LinesOps(a), LinesOps(b[..n]), LineOps(b[n]));
    }
  }
}
