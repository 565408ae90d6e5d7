/** Prim's algorithm as used by `merge` to combine the rows that share a column. */
module SpanningTree {
  import opened Collections

  const MERGE_LEVEL_MAX := 32
  const INT_MAX := 0x7fff_ffff

  datatype Edge = Edge(u: nat, v: nat)

  type Matrix = seq<seq<int>>

  /** Weights are given for every pair of vertices below `m` and do not depend on direction. */
  ghost predicate Symmetric(w: Matrix, m: nat) {
    && |w| >= m
    && (forall i :: 0 <= i < m ==> |w[i]| >= m)
    && (forall i, j :: 0 <= i < m && 0 <= j < m && i != j ==> w[i][j] == w[j][i])
  }

  ghost predicate EdgesWithin(edges: seq<Edge>, m: nat) {
    forall k :: 0 <= k < |edges| ==> edges[k].u < m && edges[k].v < m && edges[k].u != edges[k].v
  }

  function Weight(w: Matrix, e: Edge): int {
    if e.u < |w| && e.v < |w[e.u]| then w[e.u][e.v] else 0
  }

  ghost function Cost(w: Matrix, edges: seq<Edge>): int {
    if edges == [] then 0 else Weight(w, edges[0]) + Cost(w, edges[1..])
  }

  ghost predicate Crosses(e: Edge, s: set<nat>) {
    (e.u in s) != (e.v in s)
  }

  ghost predicate Crossed(edges: seq<Edge>, s: set<nat>) {
    exists k :: 0 <= k < |edges| && Crosses(edges[k], s)
  }

  /** Every vertex set that contains `core` but not all vertices has an edge leaving it. */
  ghost predicate Spans(edges: seq<Edge>, core: set<nat>, m: nat) {
    forall s: set<nat> :: core <= s && s < Indices(m) ==> Crossed(edges, s)
  }

  /** A spanning tree on m vertices: connected, with m-1 edges. */
  ghost predicate IsSpanningTree(edges: seq<Edge>, m: nat) {
    m >= 1 && |edges| == m - 1 && EdgesWithin(edges, m) && Spans(edges, {0}, m)
  }

  // ----- Connectivity by cuts is connectivity by walks -----

  ghost predicate Joined(edges: seq<Edge>, a: nat, b: nat) {
    exists k :: 0 <= k < |edges| && (edges[k] == Edge(a, b) || edges[k] == Edge(b, a))
  }

  ghost predicate IsWalk(edges: seq<Edge>, walk: seq<nat>, from: nat, to: nat) {
    && |walk| > 0 && walk[0] == from && walk[|walk| - 1] == to
    && forall i :: 0 < i < |walk| ==> Joined(edges, walk[i - 1], walk[i])
  }

  ghost predicate HasWalk(edges: seq<Edge>, from: nat, to: nat) {
    exists walk :: IsWalk(edges, walk, from, to)
  }

  lemma {:induction false} WalkCrosses(edges: seq<Edge>, walk: seq<nat>, from: nat, to: nat, s: set<nat>)
    requires IsWalk(edges, walk, from, to) && from in s && to !in s
    ensures Crossed(edges, s)
    decreases |walk|
  {
    var last := walk[|walk| - 2];
    if last in s {
      assert Joined(edges, last, walk[|walk| - 1]);
    } else {
      WalkCrosses(edges, walk[..|walk| - 1], from, last, s);
    }
  }

  lemma WalkExtends(edges: seq<Edge>, from: nat, a: nat, b: nat)
    requires HasWalk(edges, from, a) && Joined(edges, a, b)
    ensures HasWalk(edges, from, b)
  {
    var walk :| IsWalk(edges, walk, from, a);
    assert IsWalk(edges, walk + [b], from, b);
  }

  lemma SpansIffWalks(edges: seq<Edge>, m: nat)
    requires m >= 1 && EdgesWithin(edges, m)
    ensures Spans(edges, {0}, m) <==> forall v: nat :: v < m ==> HasWalk(edges, 0, v)
  {
    if forall v: nat :: v < m ==> HasWalk(edges, 0, v) {
      forall s: set<nat> | {0} <= s && s < Indices(m) ensures Crossed(edges, s) {
        var v :| v in Indices(m) && v !in s;
        assert HasWalk(edges, 0, v);
        var walk :| IsWalk(edges, walk, 0, v);
        assert 0 in {0};
        WalkCrosses(edges, walk, 0, v, s);
      }
    }
    if Spans(edges, {0}, m) {
      var s := set v | v in Indices(m) && HasWalk(edges, 0, v);
      assert IsWalk(edges, [0], 0, 0);
      if s < Indices(m) {
        assert Crossed(edges, s);
        var k :| 0 <= k < |edges| && Crosses(edges[k], s);
        var a, b := edges[k].u, edges[k].v;
        if a in s {
          WalkExtends(edges, 0, a, b);
        } else {
          WalkExtends(edges, 0, b, a);
        }
      }
      forall v: nat | v < m ensures HasWalk(edges, 0, v) {
        assert v in s;
      }
    }
  }

  // ----- The exchange step -----

  /** The part of the graph outside `core` that is joined to `t` without passing through `core`. */
  lemma Component(edges: seq<Edge>, core: set<nat>, m: nat, t: nat) returns (c: set<nat>)
    requires EdgesWithin(edges, m) && t < m && t !in core
    ensures t in c && c !! core && c <= Indices(m)
    ensures forall k :: 0 <= k < |edges| && Crosses(edges[k], c) ==> edges[k].u in core || edges[k].v in core
    ensures forall d: set<nat> :: t in d && d < c ==> JoinedAcross(edges, d, c - d)
  {
    c := {t};
    while exists k :: 0 <= k < |edges| && Crosses(edges[k], c) && edges[k].u !in core && edges[k].v !in core
      invariant t in c && c !! core && c <= Indices(m)
      invariant forall d: set<nat> :: t in d && d < c ==> JoinedAcross(edges, d, c - d)
      decreases Indices(m) - c
    {
      var k :| 0 <= k < |edges| && Crosses(edges[k], c) && edges[k].u !in core && edges[k].v !in core;
      var z := if edges[k].u in c then edges[k].v else edges[k].u;
      forall d: set<nat> | t in d && d < c + {z} ensures JoinedAcross(edges, d, c + {z} - d) {
        JoinedGrows(edges, c, k, t, z, d);
      }
      c := c + {z};
    }
  }

  ghost predicate Between(e: Edge, a: set<nat>, b: set<nat>) {
    (e.u in a && e.v in b) || (e.u in b && e.v in a)
  }

  ghost predicate JoinedAcross(edges: seq<Edge>, a: set<nat>, b: set<nat>) {
    exists k :: 0 <= k < |edges| && Between(edges[k], a, b)
  }

  /** Attaching `z` to a connected set by edge k keeps it connected. */
  lemma JoinedGrows(edges: seq<Edge>, c: set<nat>, k: nat, t: nat, z: nat, d: set<nat>)
    requires k < |edges| && Between(edges[k], c, {z}) && z !in c
    requires t in c && t in d && d < c + {z}
    requires forall s: set<nat> :: t in s && s < c ==> JoinedAcross(edges, s, c - s)
    ensures JoinedAcross(edges, d, c + {z} - d)
  {
    if c <= d {
      assert d == c;
      assert Between(edges[k], d, c + {z} - d);
    } else {
      var s := d * c;
      assert JoinedAcross(edges, s, c - s);
      var i :| 0 <= i < |edges| && Between(edges[i], s, c - s);
      assert Between(edges[i], d, c + {z} - d);
    }
  }

  ghost function Without(edges: seq<Edge>, k: nat): seq<Edge>
    requires k < |edges|
  {
    edges[..k] + edges[k + 1..]
  }

  lemma {:induction false} CostWithout(w: Matrix, edges: seq<Edge>, k: nat)
    requires k < |edges|
    ensures Cost(w, edges) == Cost(w, Without(edges, k)) + Weight(w, edges[k])
  {
    if k == 0 {
      assert Without(edges, 0) == edges[1..];
    } else {
      CostWithout(w, edges[1..], k - 1);
      assert Without(edges, k)[1..] == Without(edges[1..], k - 1);
    }
  }

  lemma WithoutKeeps(edges: seq<Edge>, k: nat, i: nat)
    requires k < |edges| && i < |edges| && i != k
    ensures edges[i] in Without(edges, k)
  {
    if i < k {
      assert Without(edges, k)[i] == edges[i];
    } else {
      assert Without(edges, k)[i - 1] == edges[i];
    }
  }

  lemma CrossedBy(edges: seq<Edge>, e: Edge, s: set<nat>)
    requires e in edges && Crosses(e, s)
    ensures Crossed(edges, s)
  {
  }

  /** If `edges` spans from `core`, one edge leaving `core` can be removed so that the rest spans
      from `core` with `t` added. */
  lemma Exchange(edges: seq<Edge>, core: set<nat>, m: nat, t: nat) returns (k: nat)
    requires EdgesWithin(edges, m) && core <= Indices(m) && t < m && t !in core
    requires Spans(edges, core, m)
    ensures k < |edges| && Crosses(edges[k], core)
    ensures Spans(Without(edges, k), core + {t}, m) && EdgesWithin(Without(edges, k), m)
  {
    var c := Component(edges, core, m, t);
    var outside := Indices(m) - c;
    assert Crossed(edges, outside) by { assert t !in outside; }
    k :| 0 <= k < |edges| && Crosses(edges[k], outside);
    assert Crosses(edges[k], c);
    var rest := Without(edges, k);
    forall s: set<nat> | core + {t} <= s && s < Indices(m) ensures Crossed(rest, s) {
      assert Crossed(edges, s);
      var i :| 0 <= i < |edges| && Crosses(edges[i], s);
      if i != k {
        WithoutKeeps(edges, k, i);
        CrossedBy(rest, edges[i], s);
      } else {
        var d := c * s;
        assert d < c;
        assert JoinedAcross(edges, d, c - d);
        var j :| 0 <= j < |edges| && Between(edges[j], d, c - d);
        WithoutKeeps(edges, k, j);
        CrossedBy(rest, edges[j], s);
      }
    }
  }

  // ----- Greedy growth is minimal -----

  /** The vertices reached by the first i edges of a tree grown from vertex 0. */
  ghost function Reached(edges: seq<Edge>, i: nat): set<nat>
    requires i <= |edges|
  {
    {0} + set k | 0 <= k < i :: edges[k].v
  }

  /** Edge i leads from a vertex already reached to a new one. */
  ghost predicate GrowsAt(edges: seq<Edge>, m: nat, i: nat)
    requires i < |edges|
  {
    edges[i].v < m && edges[i].u in Reached(edges, i) && edges[i].v !in Reached(edges, i)
  }

  ghost predicate Grows(edges: seq<Edge>, m: nat) {
    forall i :: 0 <= i < |edges| ==> GrowsAt(edges, m, i)
  }

  /** Edge i is a lightest one among those leaving what was reached before it. */
  ghost predicate LightestAt(w: Matrix, m: nat, edges: seq<Edge>, i: nat)
    requires i < |edges|
  {
    forall a: nat, b: nat :: a in Reached(edges, i) && b < m && b !in Reached(edges, i) ==>
                               Weight(w, edges[i]) <= Weight(w, Edge(a, b))
  }

  lemma ReachedStep(edges: seq<Edge>, i: nat)
    requires i < |edges|
    ensures Reached(edges, i + 1) == Reached(edges, i) + {edges[i].v}
  {
  }

  lemma {:induction false} ReachedBounds(edges: seq<Edge>, m: nat, i: nat)
    requires m >= 1 && Grows(edges, m) && i <= |edges|
    ensures Reached(edges, i) <= Indices(m) && |Reached(edges, i)| == i + 1
  {
    if i == 0 {
      assert Reached(edges, 0) == {0};
    } else {
      ReachedBounds(edges, m, i - 1);
      assert GrowsAt(edges, m, i - 1);
      ReachedStep(edges, i - 1);
    }
  }

  lemma GrownWithin(edges: seq<Edge>, m: nat)
    requires m >= 1 && Grows(edges, m)
    ensures EdgesWithin(edges, m)
  {
    forall k | 0 <= k < |edges|
      ensures edges[k].u < m && edges[k].v < m && edges[k].u != edges[k].v
    {
      ReachedBounds(edges, m, k);
      assert GrowsAt(edges, m, k);
      assert edges[k].u in Indices(m);
    }
  }

  lemma ReachedAll(edges: seq<Edge>, m: nat)
    requires m >= 1 && Grows(edges, m) && |edges| == m - 1
    ensures Reached(edges, m - 1) == Indices(m)
  {
    ReachedBounds(edges, m, m - 1);
    SubsetSize(Reached(edges, m - 1), Indices(m));
  }

  lemma {:induction false} UncrossedKeepsReached(edges: seq<Edge>, m: nat, s: set<nat>, i: nat)
    requires Grows(edges, m) && 0 in s && !Crossed(edges, s) && i <= |edges|
    ensures Reached(edges, i) <= s
  {
    if i != 0 {
      UncrossedKeepsReached(edges, m, s, i - 1);
      assert !Crosses(edges[i - 1], s);
      assert GrowsAt(edges, m, i - 1);
      ReachedStep(edges, i - 1);
    }
  }

  lemma GrownIsSpanningTree(edges: seq<Edge>, m: nat)
    requires m >= 1 && Grows(edges, m) && |edges| == m - 1
    ensures IsSpanningTree(edges, m)
  {
    GrownWithin(edges, m);
    ReachedAll(edges, m);
    forall s: set<nat> | {0} <= s && s < Indices(m) ensures Crossed(edges, s) {
      if !Crossed(edges, s) {
        assert 0 in {0};
        UncrossedKeepsReached(edges, m, s, m - 1);
      }
    }
  }

  lemma LightestCrossing(w: Matrix, m: nat, edges: seq<Edge>, i: nat, e: Edge)
    requires Symmetric(w, m) && i < |edges| && LightestAt(w, m, edges, i)
    requires e.u < m && e.v < m && Crosses(e, Reached(edges, i))
    ensures Weight(w, edges[i]) <= Weight(w, e)
  {
    assert Weight(w, e) == Weight(w, Edge(e.v, e.u));
  }

  /** One greedy step against a rival: the rival can pay for the step with one of its edges. */
  lemma RivalPays(w: Matrix, m: nat, edges: seq<Edge>, i: nat, rival: seq<Edge>) returns (rest: seq<Edge>)
    requires Symmetric(w, m) && m >= 1 && i < |edges| && Grows(edges, m) && LightestAt(w, m, edges, i)
    requires EdgesWithin(rival, m) && Spans(rival, Reached(edges, i), m)
    ensures |rest| == |rival| - 1 && EdgesWithin(rest, m) && Spans(rest, Reached(edges, i + 1), m)
    ensures Weight(w, edges[i]) + Cost(w, rest) <= Cost(w, rival)
  {
    ReachedBounds(edges, m, i);
    assert GrowsAt(edges, m, i);
    var k := Exchange(rival, Reached(edges, i), m, edges[i].v);
    rest := Without(rival, k);
    ReachedStep(edges, i);
    CostWithout(w, rival, k);
    LightestCrossing(w, m, edges, i, rival[k]);
  }

  /** What is left of a greedily grown tree costs no more than any edge set of the same size that
      spans from what has been reached. */
  lemma {:induction false} GreedyRemainder(w: Matrix, m: nat, edges: seq<Edge>, i: nat, rival: seq<Edge>)
    requires Symmetric(w, m) && m >= 1 && i <= |edges| && Grows(edges, m) && EdgesWithin(rival, m)
    requires forall k :: 0 <= k < |edges| ==> LightestAt(w, m, edges, k)
    requires |rival| == |edges| - i && Spans(rival, Reached(edges, i), m)
    ensures Cost(w, edges[i..]) <= Cost(w, rival)
    decreases |edges| - i
  {
    if i < |edges| {
      var rest := RivalPays(w, m, edges, i, rival);
      GreedyRemainder(w, m, edges, i + 1, rest);
      assert edges[i..][1..] == edges[i + 1..];
    }
  }

  /** A greedily grown tree is a minimum spanning tree. */
  lemma GreedyIsMinimal(w: Matrix, m: nat, edges: seq<Edge>)
    requires Symmetric(w, m) && m >= 1 && |edges| == m - 1 && Grows(edges, m)
    requires forall k :: 0 <= k < |edges| ==> LightestAt(w, m, edges, k)
    ensures forall rival :: IsSpanningTree(rival, m) ==> Cost(w, edges) <= Cost(w, rival)
  {
    forall rival | IsSpanningTree(rival, m) ensures Cost(w, edges) <= Cost(w, rival) {
      assert edges[0..] == edges;
      assert Reached(edges, 0) == {0};
      GreedyRemainder(w, m, edges, 0, rival);
    }
  }

  // ----- The algorithm -----

  ghost function Snapshot(a: array2<int>): (w: Matrix)
    reads a
    ensures |w| == a.Length0 && forall i :: 0 <= i < |w| ==> |w[i]| == a.Length1
    ensures forall i, j :: 0 <= i < a.Length0 && 0 <= j < a.Length1 ==> w[i][j] == a[i, j]
  {
    seq(a.Length0, i requires 0 <= i < a.Length0 reads a =>
      seq(a.Length1, j requires 0 <= j < a.Length1 reads a => a[i, j]))
  }

  ghost function Zip(start: seq<nat>, end: seq<nat>): (edges: seq<Edge>)
    requires |start| == |end|
    ensures |edges| == |start| && forall i :: 0 <= i < |edges| ==> edges[i] == Edge(start[i], end[i])
  {
    seq(|start|, i requires 0 <= i < |start| => Edge(start[i], end[i]))
  }

  lemma {:induction false} CostAppend(w: Matrix, edges: seq<Edge>, e: Edge)
    ensures Cost(w, edges + [e]) == Cost(w, edges) + Weight(w, e)
  {
    if edges == [] {
      assert edges + [e] == [e];
      assert [e][1..] == [];
    } else {
      assert (edges + [e])[1..] == edges[1..] + [e];
      CostAppend(w, edges[1..], e);
    }
  }

  /** Positions in `s` and `t` of a lightest edge from a vertex of `s` to a vertex of `t`. */
  method LightestEdge(a: array2<int>, s: array<nat>, n: nat, t: array<nat>, k: nat)
    returns (imin: int, jmin: int, wmin: int)
    requires 0 < n <= s.Length && 0 < k <= t.Length
    requires forall i :: 0 <= i < n ==> s[i] < a.Length0
    requires forall j :: 0 <= j < k ==> t[j] < a.Length1
    requires forall i, j :: 0 <= i < n && 0 <= j < k ==> a[s[i], t[j]] < INT_MAX
    ensures 0 <= imin < n && 0 <= jmin < k && wmin == a[s[imin], t[jmin]]
    ensures forall i, j :: 0 <= i < n && 0 <= j < k ==> wmin <= a[s[i], t[j]]
  {
    wmin, imin, jmin := INT_MAX, -1, -1;
    for i := 0 to n
      invariant imin == -1 ==> wmin == INT_MAX && i == 0
      invariant imin != -1 ==> 0 <= imin < n && 0 <= jmin < k && wmin == a[s[imin], t[jmin]]
      invariant forall x, y :: 0 <= x < i && 0 <= y < k ==> wmin <= a[s[x], t[y]]
    {
      for j := 0 to k
        invariant imin == -1 ==> wmin == INT_MAX && i == 0 && j == 0
        invariant imin != -1 ==> 0 <= imin < n && 0 <= jmin < k && wmin == a[s[imin], t[jmin]]
        invariant forall x, y :: 0 <= x < i && 0 <= y < k ==> wmin <= a[s[x], t[y]]
        invariant forall y :: 0 <= y < j ==> wmin <= a[s[i], t[y]]
      {
        if a[s[i], t[j]] < wmin {
          imin, jmin, wmin := i, j, a[s[i], t[j]];
        }
      }
    }
  }

  /** `s` lists the vertices of the tree and `t` the others, each once. */
  ghost predicate Listed(edges: seq<Edge>, m: nat, s: seq<nat>, t: seq<nat>) {
    && (forall v: nat :: v in Reached(edges, |edges|) <==> v in s)
    && (forall v: nat :: v in t <==> v < m && v !in Reached(edges, |edges|))
    && (forall i, j :: 0 <= i < j < |t| ==> t[i] != t[j])
  }

  lemma ReachedPrefix(edges: seq<Edge>, e: Edge, k: nat)
    requires k <= |edges|
    ensures Reached(edges + [e], k) == Reached(edges, k)
  {
    assert forall i :: 0 <= i < k ==> (edges + [e])[i] == edges[i];
  }

  lemma ListedStart(m: nat, t: seq<nat>)
    requires m >= 1 && |t| == m - 1 && forall j :: 0 <= j < |t| ==> t[j] == j + 1
    ensures Listed([], m, [0], t)
  {
    forall v: nat | v < m && v != 0 ensures v in t {
      assert t[v - 1] == v;
    }
  }

  /** Moving `t[j]` into the tree: it is appended to `s`, and the last of `t` takes its place. */
  lemma ListedStep(edges: seq<Edge>, m: nat, s: seq<nat>, t: seq<nat>, u: nat, j: nat)
    requires Listed(edges, m, s, t) && j < |t|
    ensures Listed(edges + [Edge(u, t[j])], m, s + [t[j]], t[j := t[|t| - 1]][..|t| - 1])
  {
    var grown := edges + [Edge(u, t[j])];
    var rest := t[j := t[|t| - 1]][..|t| - 1];
    ReachedStep(grown, |edges|);
    ReachedPrefix(edges, Edge(u, t[j]), |edges|);
    forall v: nat | v in t && v != t[j] ensures v in rest {
      var i :| 0 <= i < |t| && t[i] == v;
      assert rest[if i == |t| - 1 then j else i] == v;
    }
    forall v: nat | v in rest ensures v in t && v != t[j] {
      var i :| 0 <= i < |rest| && rest[i] == v;
    }
  }

  ghost predicate Greedy(w: Matrix, m: nat, edges: seq<Edge>) {
    Grows(edges, m) && forall k :: 0 <= k < |edges| ==> LightestAt(w, m, edges, k)
  }

  lemma GreedyStep(w: Matrix, m: nat, edges: seq<Edge>, e: Edge)
    requires Greedy(w, m, edges)
    requires e.v < m && e.u in Reached(edges, |edges|) && e.v !in Reached(edges, |edges|)
    requires forall a: nat, b: nat :: a in Reached(edges, |edges|) && b < m && b !in Reached(edges, |edges|) ==>
                                        Weight(w, e) <= Weight(w, Edge(a, b))
    ensures Greedy(w, m, edges + [e])
  {
    var grown := edges + [e];
    forall k | 0 <= k < |grown| ensures GrowsAt(grown, m, k) && LightestAt(w, m, grown, k) {
      ReachedPrefix(edges, e, k);
      if k < |edges| {
        assert GrowsAt(edges, m, k) && LightestAt(w, m, edges, k);
      }
    }
  }

  /** The lightest of the listed edges extends a greedy tree. */
  lemma AttachLightest(w: Matrix, m: nat, edges: seq<Edge>, s: seq<nat>, t: seq<nat>, x: nat, y: nat)
    requires Greedy(w, m, edges) && Listed(edges, m, s, t) && x < |s| && y < |t|
    requires forall i, j :: 0 <= i < |s| && 0 <= j < |t| ==> Weight(w, Edge(s[x], t[y])) <= Weight(w, Edge(s[i], t[j]))
    ensures Greedy(w, m, edges + [Edge(s[x], t[y])])
  {
    assert s[x] in s && t[y] in t;
    forall a: nat, b: nat | a in Reached(edges, |edges|) && b < m && b !in Reached(edges, |edges|)
      ensures Weight(w, Edge(s[x], t[y])) <= Weight(w, Edge(a, b))
    {
      assert a in s && b in t;
    }
    GreedyStep(w, m, edges, Edge(s[x], t[y]));
  }

  lemma ListedBounds(w: Matrix, m: nat, edges: seq<Edge>, s: seq<nat>, t: seq<nat>)
    requires m >= 1 && Greedy(w, m, edges) && Listed(edges, m, s, t)
    ensures forall i :: 0 <= i < |s| ==> s[i] < m
    ensures forall j :: 0 <= j < |t| ==> t[j] < m
    ensures forall i, j :: 0 <= i < |s| && 0 <= j < |t| ==> s[i] != t[j]
  {
    ReachedBounds(edges, m, |edges|);
    forall i | 0 <= i < |s| ensures s[i] in Indices(m) && s[i] in Reached(edges, |edges|) {
      assert s[i] in s;
    }
    forall j | 0 <= j < |t| ensures t[j] < m && t[j] !in Reached(edges, |edges|) {
      assert t[j] in t;
    }
  }

  /** The scan of one round: a lightest edge out of the tree, which extends a greedy tree. */
  method NextEdge(a: array2<int>, m: nat, s: array<nat>, n: nat, t: array<nat>, k: nat, ghost edges: seq<Edge>)
    returns (imin: int, jmin: int, wmin: int)
    requires 0 < n <= s.Length && 0 < k <= t.Length && 1 <= m <= a.Length0 && m <= a.Length1
    requires forall i, j :: 0 <= i < m && 0 <= j < m && i != j ==> a[i, j] < INT_MAX
    requires Greedy(Snapshot(a), m, edges) && Listed(edges, m, s[..n], t[..k])
    ensures 0 <= imin < n && 0 <= jmin < k && s[imin] < m && t[jmin] < m
    ensures wmin == Weight(Snapshot(a), Edge(s[imin], t[jmin]))
    ensures Greedy(Snapshot(a), m, edges + [Edge(s[imin], t[jmin])])
  {
    ghost var mat := Snapshot(a);
    ListedBounds(mat, m, edges, s[..n], t[..k]);
    assert forall i :: 0 <= i < n ==> s[i] == s[..n][i];
    assert forall j :: 0 <= j < k ==> t[j] == t[..k][j];
    imin, jmin, wmin := LightestEdge(a, s, n, t, k);
    AttachLightest(mat, m, edges, s[..n], t[..k], imin, jmin);
  }

  /** Appends `t[j]` to the first n entries of `s`; the last of the first k entries of `t` takes its place. */
  method MoveVertex(s: array<nat>, n: nat, t: array<nat>, k: nat, j: nat, ghost m: nat, ghost edges: seq<Edge>, ghost u: nat)
    requires s != t && n < s.Length && j < k <= t.Length
    requires Listed(edges, m, s[..n], t[..k])
    modifies s, t
    ensures Listed(edges + [Edge(u, old(t[j]))], m, s[..n + 1], t[..k - 1])
  {
    ListedStep(edges, m, s[..n], t[..k], u, j);
    ghost var grown, rest := s[..n] + [t[j]], t[..k][j := t[k - 1]][..k - 1];
    s[n] := t[j];
    t[j] := t[k - 1];
    assert s[..n + 1] == grown && t[..k - 1] == rest;
  }

  method RecordEdge(start: array<nat>, end: array<nat>, i: nat, from: nat, to: nat)
    requires start != end && i < start.Length && i < end.Length
    modifies start, end
    ensures Zip(start[..i + 1], end[..i + 1]) == old(Zip(start[..i], end[..i])) + [Edge(from, to)]
  {
    start[i] := from;
    end[i] := to;
  }

  /** The vertices reached, {0} at first, and those not reached. */
  method InitialSets(m: nat) returns (s: array<nat>, t: array<nat>)
    requires 2 <= m <= MERGE_LEVEL_MAX
    ensures fresh(s) && fresh(t) && s != t && s.Length == t.Length == MERGE_LEVEL_MAX && Listed([], m, s[..1], t[..m - 1])
  {
    s, t := new nat[MERGE_LEVEL_MAX], new nat[MERGE_LEVEL_MAX];
    s[0] := 0;
    for i := 1 to m
      invariant s[0] == 0
      invariant forall j :: 0 <= j < i - 1 ==> t[j] == j + 1
    {
      t[i - 1] := i;
    }
    ListedStart(m, t[..m - 1]);
    assert s[..1] == [0];
  }

  /** Stores in `start` and `end` the edges of a minimum spanning tree in the order in which they
      are attached to vertex 0, and returns its weight. */
  method MinimalSpanningTree(start: array<nat>, end: array<nat>, m: nat, a: array2<int>) returns (w: int)
    requires 2 <= m <= MERGE_LEVEL_MAX
    requires start.Length >= m && end.Length >= m && start != end
    requires a.Length0 >= m && a.Length1 >= m
    requires forall i, j :: 0 <= i < m && 0 <= j < m && i != j ==> a[i, j] == a[j, i] < INT_MAX
    modifies start, end
    ensures var tree := Zip(start[..m - 1], end[..m - 1]);
            && Grows(tree, m) && IsSpanningTree(tree, m) && w == Cost(Snapshot(a), tree)
    ensures forall rival :: IsSpanningTree(rival, m) ==> w <= Cost(Snapshot(a), rival)
  {
    var s, t := InitialSets(m);
    var n, k := 1, m - 1;
    w := 0;
    ghost var mat := Snapshot(a);
    ghost var edges: seq<Edge> := [];
    while k != 0
      invariant n + k == m && n >= 1
      invariant |edges| == n - 1 && edges == Zip(start[..n - 1], end[..n - 1])
      invariant Listed(edges, m, s[..n], t[..k]) && Greedy(mat, m, edges)
      invariant w == Cost(mat, edges)
      decreases k
    {
      var imin, jmin, wmin := NextEdge(a, m, s, n, t, k, edges);
      var from, to := s[imin], t[jmin];
      CostAppend(mat, edges, Edge(from, to));
      w := w + wmin;
      MoveVertex(s, n, t, k, jmin, m, edges, from);
      RecordEdge(start, end, n - 1, from, to);
      edges := edges + [Edge(from, to)];
      n := n + 1;
      k := k - 1;
    }
    GrownIsSpanningTree(edges, m);
    GreedyIsMinimal(mat, m, edges);
  }
}
