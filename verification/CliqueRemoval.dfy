/** Clique removal proper: the threads share out the rows, each keeps its heaviest components, and
    the heaviest of all are deleted one by one until the excess reaches the target. */
module CliqueRemoval {
  import opened Collections
  import opened XorSets
  import opened PurgeGraph
  import opened PurgeMatrix
  import opened Cliques
  import opened Heaviest

  // ----- Deleting one component -----

  lemma ClosedUnion(r: Relations, live: set<nat>, a: set<nat>, b: set<nat>)
    requires Closed(r, live, a) && Closed(r, live, b)
    ensures Closed(r, live, a + b)
  {
  }

  /** Distinct linking columns inside a deleted set are all gone. */
  lemma LinkingColumnsGone(m: Matrix, base: set<nat>, i0: nat, buf: seq<nat>, cols: seq<nat>, before: Snapshot)
    requires m.Valid() && m.Live() == before.live - CellSet(buf) && m.Rel() == before.rel && before.live <= base
    requires CellSet(buf) <= before.live && Found(before.rel, base, i0, buf, cols)
    requires before.WeightsOk() && before.col0 == m.col0 && before.col1 == m.col1 && |before.wt| == |m.columnWeights|
    requires Positive(m.columnWeights) <= Positive(before.wt)
    ensures |Positive(m.columnWeights)| <= |Positive(before.wt)| - (|buf| - 1)
  {
    var gone := CellSet(cols);
    forall h | h in gone ensures h in Positive(before.wt) && h !in Positive(m.columnWeights) {
      var x :| 0 <= x < |cols| && cols[x] == h;
      assert LinksWithin(before.rel, base, cols[x], CellSet(buf));
      var a: nat, b: nat :| Links(before.rel, base, h, a, b) && a in CellSet(buf) && b in CellSet(buf);
      LinkGone(m, base, buf, before, h, a, b);
    }
    DistinctBound(cols, gone);
    SubsetSize(Positive(m.columnWeights), Positive(before.wt) - gone);
  }

  /** The parts of a matrix that the count of deleted columns depends on. */
  datatype Snapshot = Snapshot(rel: Relations, live: set<nat>, wt: seq<nat>, col0: nat, col1: nat) {
    ghost predicate WeightsOk() {
      && rel.sat == Saturated(wt) && WeightsExact(rel, live, wt, col0, col1)
      && forall i, h :: 0 <= i < |rel.f| && h in rel.f[i] ==> col0 <= h < col1 && h < |wt|
    }
  }

  ghost function SnapshotOf(m: Matrix): Snapshot
    reads m
  {
    Snapshot(m.Rel(), m.Live(), m.columnWeights, m.col0, m.col1)
  }

  lemma LinkGone(m: Matrix, base: set<nat>, buf: seq<nat>, before: Snapshot, h: nat, a: nat, b: nat)
    requires m.Valid() && m.Live() == before.live - CellSet(buf) && m.Rel() == before.rel && before.live <= base
    requires CellSet(buf) <= before.live && before.WeightsOk() && before.col0 == m.col0 && before.col1 == m.col1
    requires |before.wt| == |m.columnWeights|
    requires Links(before.rel, base, h, a, b) && a in CellSet(buf) && b in CellSet(buf)
    ensures h in Positive(before.wt) && h !in Positive(m.columnWeights)
  {
    var r := before.rel;
    assert a in Holders(r.f, base, h);
    assert a in Holders(r.f, before.live, h);
    assert Holders(r.f, m.Live(), h) <= Holders(r.f, base, h);
    assert Holders(r.f, m.Live(), h) == {};
    assert h in r.f[a];
    assert before.wt[h] != 0;
    assert m.columnWeights[h] == 0;
  }

  /** Deletes the component of i0, found again after other components have gone: it is still the
      component of the graph the sums were computed for.  The excess drops by at most one. */
  method DeleteConnectedComponent(m: Matrix, ghost base: set<nat>, sum2: seq<nat>, i0: nat, ghost c: set<nat>)
    requires Searchable(m, base, sum2) && i0 in m.Live()
    requires IsComponent(m.Rel(), base, c, i0) && forall b :: b in c ==> i0 <= b
    modifies m`rows, m`columnWeights, m`remainingRows, m`remainingColumns
    ensures Searchable(m, base, sum2) && m.Rel() == old(m.Rel()) && |m.rows| == old(|m.rows|)
    ensures c <= old(m.Live()) && m.Live() == old(m.Live()) - c
    ensures m.Excess() >= old(m.Excess()) - 1
  {
    var size, w, buf, cols := ConnectedComponent(m, base, sum2, i0, _ => 0.0);
    assert size > 0;
    ComponentUnique(m.Rel(), base, c, CellSet(buf), i0);
    ghost var before := SnapshotOf(m);
    DeleteRows(m, before, buf);
    assert buf[..|buf|] == buf;
    LinkingColumnsGone(m, base, i0, buf, cols, before);
    ClosedUnion(m.Rel(), base, base - before.live, c);
    assert base - m.Live() == (base - before.live) + c;
  }

  lemma PrefixMore(buf: seq<nat>, k: nat)
    requires AllDifferent(buf) && k < |buf|
    ensures CellSet(buf[..k + 1]) == CellSet(buf[..k]) + {buf[k]}
    ensures buf[k] in CellSet(buf) && buf[k] !in CellSet(buf[..k])
  {
    assert buf[..k + 1] == buf[..k] + [buf[k]];
  }

  /** The first k listed rows are gone, and nothing else. */
  ghost predicate RowsGone(m: Matrix, before: Snapshot, nrows: nat, remaining: nat, buf: seq<nat>, k: nat)
    requires k <= |buf|
    reads m
  {
    && m.Valid() && m.Rel() == before.rel && m.Live() == before.live - CellSet(buf[..k])
    && |m.rows| == nrows && m.remainingRows == remaining - k
    && Positive(m.columnWeights) <= Positive(before.wt) && |m.columnWeights| == |before.wt|
  }

  method DeleteNext(m: Matrix, ghost before: Snapshot, ghost nrows: nat, ghost remaining: nat, buf: seq<nat>, k: nat)
    requires AllDifferent(buf) && CellSet(buf) <= before.live && k < |buf| && RowsGone(m, before, nrows, remaining, buf, k)
    modifies m`rows, m`columnWeights, m`remainingRows, m`remainingColumns
    ensures RowsGone(m, before, nrows, remaining, buf, k + 1)
  {
    PrefixMore(buf, k);
    m.DeleteRow(buf[k]);
  }

  method DeleteRows(m: Matrix, ghost before: Snapshot, buf: seq<nat>)
    requires m.Valid() && AllDifferent(buf) && CellSet(buf) <= m.Live() && before == SnapshotOf(m)
    modifies m`rows, m`columnWeights, m`remainingRows, m`remainingColumns
    ensures RowsGone(m, before, old(|m.rows|), old(m.remainingRows), buf, |buf|)
  {
    assert CellSet(buf[..0]) == {};
    ghost var nrows, remaining := |m.rows|, m.remainingRows;
    for k := 0 to |buf|
      invariant RowsGone(m, before, nrows, remaining, buf, k)
    {
      DeleteNext(m, before, nrows, remaining, buf, k);
    }
  }

  // ----- Putting the threads' lists together -----

  /** x is listed, or `max` heavier components are. */
  ghost predicate ListedOrBeaten(x: Component, all: seq<Component>, max: nat) {
    x in all || exists q: seq<Component> :: Beats(q, x, all, max)
  }

  ghost predicate Beats(q: seq<Component>, x: Component, all: seq<Component>, max: nat) {
    |q| == max && Ascending(q) && LighterThanAll(x, q) && forall k {:trigger q[k]} :: 0 <= k < |q| ==> q[k] in all
  }

  /** What the list holds once the first k threads have been taken into account. */
  ghost predicate Gathered(g: Graph, all: seq<Component>, max: nat, k: nat, nthreads: nat, n: nat) {
    && Ascending(all)
    && (forall j {:trigger all[j]} :: 0 <= j < |all| ==> IsHead(g, all[j]) && Owned(all[j].i, k, nthreads, n))
    && forall x :: IsHead(g, x) && Owned(x.i, k, nthreads, n) ==> ListedOrBeaten(x, all, max)
  }

  /** Row i belongs to one of the first k threads. */
  ghost predicate Owned(i: nat, k: nat, nthreads: nat, n: nat) {
    exists t: nat :: t < k && i in RowsOf(t, nthreads, n)
  }

  lemma GatheredMore(g: Graph, all: seq<Component>, max: nat, k: nat, nthreads: nat, n: nat, q: seq<Component>, all': seq<Component>)
    requires Gathered(g, all, max, k, nthreads, n) && Selected(g, q, max, RowsOf(k, nthreads, n))
    requires Ascending(all') && forall x :: x in all' <==> x in all || x in q
    ensures Gathered(g, all', max, k + 1, nthreads, n)
  {
    forall j | 0 <= j < |all'| ensures IsHead(g, all'[j]) && Owned(all'[j].i, k + 1, nthreads, n) {
      assert all'[j] in all';
    }
    forall x | IsHead(g, x) && Owned(x.i, k + 1, nthreads, n) ensures ListedOrBeaten(x, all', max) {
      if Owned(x.i, k, nthreads, n) {
        assert ListedOrBeaten(x, all, max);
        if x !in all {
          var p: seq<Component> :| Beats(p, x, all, max);
          assert Beats(p, x, all', max);
        }
      } else if x !in q {
        assert Beats(q, x, all', max);
      }
    }
  }

  lemma OwnedApart(g: Graph, all: seq<Component>, max: nat, k: nat, nthreads: nat, n: nat, x: Component)
    requires Gathered(g, all, max, k, nthreads, n) && k < nthreads && x.i in RowsOf(k, nthreads, n)
    ensures forall j :: 0 <= j < |all| ==> all[j].i != x.i
  {
    forall j | 0 <= j < |all| ensures all[j].i != x.i {
      assert Owned(all[j].i, k, nthreads, n);
      var t: nat :| t < k && all[j].i in RowsOf(t, nthreads, n);
      RowsShared(nthreads, n, all[j].i);
    }
  }

  /** Adds the list of thread k. */
  method AddList(ghost g: Graph, all: seq<Component>, ghost max: nat, ghost k: nat, ghost nthreads: nat, ghost n: nat, q: seq<Component>)
    returns (all': seq<Component>)
    requires k < nthreads && Gathered(g, all, max, k, nthreads, n) && Selected(g, q, max, RowsOf(k, nthreads, n))
    ensures Gathered(g, all', max, k + 1, nthreads, n)
  {
    all' := all;
    for j := 0 to |q|
      invariant Ascending(all') && forall x :: x in all' <==> x in all || x in q[..j]
    {
      OwnedApart(g, all, max, k, nthreads, n, q[j]);
      forall l | 0 <= l < |all'| ensures all'[l].i != q[j].i {
        assert all'[l] in all';
        if all'[l] !in all {
          var p :| 0 <= p < j && q[p] == all'[l];
          assert Less(q[p], q[j]);
          HeadsApart(g, q[p], q[j]);
        }
      }
      assert q[..j + 1] == q[..j] + [q[j]];
      all' := Insert(all', q[j]);
    }
    assert q[..|q|] == q;
    GatheredMore(g, all, max, k, nthreads, n, q, all');
  }

  lemma HeadsApart(g: Graph, x: Component, y: Component)
    requires IsHead(g, x) && IsHead(g, y) && x != y
    ensures x.i != y.i
  {
    if x.i == y.i {
      HeadUnique(g, x, y);
    }
  }

  /** All threads select; their lists are concatenated and sorted. */
  method Gather(m: Matrix, sum2: seq<nat>, f: nat -> real, max: nat, nthreads: nat) returns (all: seq<Component>)
    requires Searchable(m, m.Live(), sum2) && max > 0 && nthreads > 0
    ensures Gathered(GraphOf(m, f), all, max, nthreads, nthreads, |m.rows|)
  {
    all := [];
    for k := 0 to nthreads
      invariant Gathered(GraphOf(m, f), all, max, k, nthreads, |m.rows|)
    {
      var q: seq<Component>;
      if nthreads == 1 {
        q := Fragment(m, sum2, f, max, 0, |m.rows|, |m.rows|);
      } else {
        q := Fragment(m, sum2, f, max, BATCH_SIZE * k, BATCH_SIZE * (k + 1), BATCH_SIZE * nthreads);
      }
      all := AddList(GraphOf(m, f), all, max, k, nthreads, |m.rows|, q);
    }
  }

  // ----- Deleting the heaviest -----

  /** Row i is in the component that x stands for. */
  ghost predicate Member(g: Graph, x: Component, i: nat) {
    exists c: set<nat> :: Weighs(g, c, x) && i in c
  }

  ghost predicate MemberOfSome(g: Graph, s: seq<Component>, i: nat) {
    exists k :: 0 <= k < |s| && Member(g, s[k], i)
  }

  /** Exactly the components in s have been deleted. */
  ghost predicate ExactlyGone(g: Graph, live: set<nat>, s: seq<Component>) {
    forall i: nat :: i in live <==> i in g.base && !MemberOfSome(g, s, i)
  }

  /** Different components have no row in common. */
  lemma MembersApart(g: Graph, x: Component, y: Component, i: nat)
    requires Member(g, x, i) && Member(g, y, i)
    ensures x == y
  {
    var a: set<nat> :| Weighs(g, a, x) && i in a;
    var b: set<nat> :| Weighs(g, b, y) && i in b;
    ComponentOfMember(g.r, g.base, a, x.i, i);
    ComponentOfMember(g.r, g.base, b, y.i, i);
    ComponentUnique(g.r, g.base, a, b, i);
    assert x.i in a && y.i in b;
  }

  lemma {:induction false} SmallestOf(c: set<nat>) returns (i: nat)
    requires c != {}
    ensures i in c && forall b :: b in c ==> i <= b
    decreases |c|
  {
    i :| i in c;
    var below := set b | b in c && b < i;
    if below != {} {
      SubsetSize(below, c - {i});
      ghost var was := i;
      i := SmallestOf(below);
      assert forall b :: b in c && b < was ==> b in below;
    } else {
      assert forall b :: b in c && b < i ==> b in below;
    }
  }

  /** The components partition the rows. */
  lemma EveryRowInOneComponent(g: Graph, i: nat)
    requires i in g.base
    ensures exists x :: IsHead(g, x) && Member(g, x, i)
    ensures forall x, y :: Member(g, x, i) && Member(g, y, i) ==> x == y
  {
    var c := ComponentExists(g.r, g.base, i);
    var j := SmallestOf(c);
    ComponentOfMember(g.r, g.base, c, i, j);
    var x := Component(j, TotalWeight(g.rw, c, |g.rw|));
    assert Weighs(g, c, x);
    assert Member(g, x, i);
    forall x, y | Member(g, x, i) && Member(g, y, i) ensures x == y {
      MembersApart(g, x, y, i);
    }
  }

  /** The first row of a component that is still to be deleted is live. */
  lemma NextStillLive(g: Graph, live: set<nat>, all: seq<Component>, n: nat) returns (c: set<nat>)
    requires Ascending(all) && 0 < n <= |all| && IsHead(g, all[n - 1]) && ExactlyGone(g, live, all[n..])
    ensures all[n - 1].i in live && Weighs(g, c, all[n - 1])
  {
    var x := all[n - 1];
    c :| Weighs(g, c, x);
    assert Member(g, x, x.i);
    forall k | 0 <= k < |all[n..]| ensures all[n..][k] != x {
      assert Less(x, all[n + k]);
    }
    if MemberOfSome(g, all[n..], x.i) {
      var k :| 0 <= k < |all[n..]| && Member(g, all[n..][k], x.i);
      MembersApart(g, x, all[n..][k], x.i);
    }
  }

  lemma OneMoreGone(g: Graph, live: set<nat>, all: seq<Component>, n: nat, c: set<nat>)
    requires 0 < n <= |all| && Weighs(g, c, all[n - 1]) && ExactlyGone(g, live, all[n..])
    ensures ExactlyGone(g, live - c, all[n - 1..])
  {
    var x, s := all[n - 1], all[n..];
    var s' := all[n - 1..];
    assert s' == [x] + s;
    forall i: nat ensures MemberOfSome(g, s', i) <==> i in c || MemberOfSome(g, s, i) {
      if MemberOfSome(g, s, i) {
        var k :| 0 <= k < |s| && Member(g, s[k], i);
        assert s'[k + 1] == s[k];
      }
      if i in c {
        assert Member(g, s'[0], i);
      }
      if MemberOfSome(g, s', i) {
        var k :| 0 <= k < |s'| && Member(g, s'[k], i);
        if k == 0 {
          var d: set<nat> :| Weighs(g, d, x) && i in d;
          ComponentUnique(g.r, g.base, c, d, x.i);
        } else {
          assert s'[k] == s[k - 1];
        }
      }
    }
  }

  /** What clique removal has done: components were deleted, of those listed the heaviest first. */
  ghost predicate Removed(g: Graph, live: set<nat>, all: seq<Component>, deleted: nat, max: nat, nthreads: nat, n: nat) {
    && Gathered(g, all, max, nthreads, nthreads, n) && deleted <= |all|
    && ExactlyGone(g, live, all[|all| - deleted..])
  }

  /** The first k deletions have been done. */
  ghost predicate AfterDeletions(g: Graph, all: seq<Component>, k: nat, live: set<nat>) {
    k <= |all| && ExactlyGone(g, live, all[|all| - k..])
  }

  lemma AfterUnique(g: Graph, all: seq<Component>, k: nat, a: set<nat>, b: set<nat>)
    requires AfterDeletions(g, all, k, a) && AfterDeletions(g, all, k, b)
    ensures a == b
  {
  }

  /** Before each of the deletions the excess was above the target. */
  ghost predicate StoppedInTime(g: Graph, all: seq<Component>, deleted: nat, target: int) {
    forall k: nat, live: set<nat> {:trigger AfterDeletions(g, all, k, live)} ::
      k < deleted && AfterDeletions(g, all, k, live) ==> ExcessOf(g.r, live) > target
  }

  lemma InTimeMore(g: Graph, all: seq<Component>, deleted: nat, target: int, live: set<nat>)
    requires StoppedInTime(g, all, deleted, target) && AfterDeletions(g, all, deleted, live) && ExcessOf(g.r, live) > target
    ensures StoppedInTime(g, all, deleted + 1, target)
  {
    forall k: nat, l: set<nat> {:trigger AfterDeletions(g, all, k, l)} | k < deleted + 1 && AfterDeletions(g, all, k, l)
      ensures ExcessOf(g.r, l) > target
    {
      if k == deleted {
        AfterUnique(g, all, k, l, live);
      }
    }
  }

  /** There is a component to list as long as there are rows. */
  lemma SomethingListed(g: Graph, all: seq<Component>, max: nat, nthreads: nat, n: nat)
    requires Gathered(g, all, max, nthreads, nthreads, n) && nthreads > 0 && max > 0
    requires g.base != {} && forall i :: i in g.base ==> i < n
    ensures all != []
  {
    var i :| i in g.base;
    var c := ComponentExists(g.r, g.base, i);
    var j := SmallestOf(c);
    ComponentOfMember(g.r, g.base, c, i, j);
    var x := Component(j, TotalWeight(g.rw, c, |g.rw|));
    assert Weighs(g, c, x);
    RowsShared(nthreads, n, j);
    assert Owned(j, nthreads, nthreads, n);
    if x !in all {
      var q: seq<Component> :| Beats(q, x, all, max);
      assert q[0] in all;
    }
  }

  /** The components from position n of the list on have been deleted. */
  ghost predicate Midway(m: Matrix, g: Graph, sum2: seq<nat>, all: seq<Component>, n: nat, nrows: nat)
    reads m
  {
    && n <= |all| && Searchable(m, g.base, sum2) && m.Rel() == g.r && |m.rows| == nrows
    && ExactlyGone(g, m.Live(), all[n..])
  }

  /** Deletes the heaviest component still listed. */
  method DeleteHeaviest(m: Matrix, ghost g: Graph, sum2: seq<nat>, queue: seq<Component>, ghost all: seq<Component>, ghost nrows: nat)
    requires Midway(m, g, sum2, all, |queue|, nrows) && queue != [] && queue <= all
    requires Ascending(all) && IsHead(g, queue[|queue| - 1])
    modifies m`rows, m`columnWeights, m`remainingRows, m`remainingColumns
    ensures Midway(m, g, sum2, all, |queue| - 1, nrows)
    ensures m.Excess() >= old(m.Excess()) - 1
  {
    ghost var live := m.Live();
    ghost var c := NextStillLive(g, live, all, |queue|);
    DeleteConnectedComponent(m, g.base, sum2, queue[|queue| - 1].i, c);
    OneMoreGone(g, live, all, |queue|, c);
  }

  lemma InTime(m: Matrix, g: Graph, sum2: seq<nat>, all: seq<Component>, n: nat, deleted: nat, target: int, nrows: nat)
    requires Midway(m, g, sum2, all, n, nrows) && n + deleted == |all| && m.Excess() > target
    requires StoppedInTime(g, all, deleted, target)
    ensures StoppedInTime(g, all, deleted + 1, target)
  {
    m.ExcessMeaning();
    InTimeMore(g, all, deleted, target, m.Live());
  }

  method CliqueRemovalCore(m: Matrix, sum2: seq<nat>, f: nat -> real, target: int, max: nat, nthreads: nat)
    returns (deleted: nat, ghost all: seq<Component>)
    requires Searchable(m, m.Live(), sum2) && max > 0 && nthreads > 0 && m.Excess() >= target
    modifies m`rows, m`columnWeights, m`remainingRows, m`remainingColumns
    ensures m.Valid() && m.Rel() == old(m.Rel()) && |m.rows| == old(|m.rows|)
    ensures Removed(old(GraphOf(m, f)), m.Live(), all, deleted, max, nthreads, |m.rows|)
    ensures m.Excess() >= target && StoppedInTime(old(GraphOf(m, f)), all, deleted, target)
    ensures m.Excess() > target ==> deleted == |all|
    ensures deleted >= old(m.Excess()) - m.Excess()
  {
    ghost var g, nrows := GraphOf(m, f), |m.rows|;
    var queue := Gather(m, sum2, f, max, nthreads);
    all, deleted := queue, 0;
    assert Midway(m, g, sum2, all, |all|, nrows);
    while m.Excess() > target && queue != []
      invariant Midway(m, g, sum2, all, |queue|, nrows)
      invariant Gathered(g, all, max, nthreads, nthreads, nrows)
      invariant deleted + |queue| == |all| && queue <= all
      invariant m.Excess() >= target && deleted >= old(m.Excess()) - m.Excess()
      invariant StoppedInTime(g, all, deleted, target)
      decreases |queue|
    {
      assert queue[|queue| - 1] == all[|queue| - 1];
      InTime(m, g, sum2, all, |queue|, deleted, target, nrows);
      DeleteHeaviest(m, g, sum2, queue, all, nrows);
      queue, deleted := queue[..|queue| - 1], deleted + 1;
    }
  }

  /** As long as no more than `max` components were deleted, they are the heaviest of all: the choice
      does not depend on the number of threads. */
  lemma HeaviestDeleted(g: Graph, live: set<nat>, all: seq<Component>, deleted: nat, max: nat, nthreads: nat, n: nat,
                        p: nat, y: Component)
    requires Removed(g, live, all, deleted, max, nthreads, n) && deleted <= max && nthreads > 0
    requires |all| - deleted <= p < |all|
    requires IsHead(g, y) && y.i < n && forall j :: |all| - deleted <= j < |all| ==> all[j] != y
    ensures y.w < all[p].w || (y.w == all[p].w && y.i < all[p].i)
  {
    assert ListedOrBeaten(y, all, max) by {
      RowsShared(nthreads, n, y.i);
      assert Owned(y.i, nthreads, nthreads, n);
    }
    LighterThanTail(all, |all| - deleted, p, y, max);
  }

  lemma LighterThanTail(all: seq<Component>, s: nat, p: nat, y: Component, max: nat)
    requires Ascending(all) && s <= p < |all| <= s + max
    requires ListedOrBeaten(y, all, max) && forall j :: s <= j < |all| ==> all[j] != y
    ensures Less(y, all[p])
  {
    if y !in all && !Less(y, all[p]) {
      var q: seq<Component> :| Beats(q, y, all, max);
      Crowded(all, p, q);
    }
  }

  /** Components that are all heavier than `all[p]` come after it in the list. */
  lemma {:induction false} Crowded(all: seq<Component>, p: nat, q: seq<Component>)
    requires Ascending(all) && p < |all| && Ascending(q)
    requires forall k {:trigger q[k]} :: 0 <= k < |q| ==> q[k] in all && Less(all[p], q[k])
    ensures |q| <= |all| - 1 - p
    decreases |q|
  {
    if q != [] {
      var j :| 0 <= j < |all| && all[j] == q[0];
      assert p < j;
      forall k {:trigger q[1..][k]} | 0 <= k < |q[1..]| ensures q[1..][k] in all && Less(all[j], q[1..][k]) {
        assert q[1..][k] == q[k + 1];
      }
      Crowded(all, j, q[1..]);
    }
  }

  /** What clique removal leaves of the rows of g: all, if the excess is at most the target; otherwise whole
      components are gone, the heaviest listed first, until the excess is at the target or no listed
      component is left, and something is gone. */
  ghost predicate CliquesGone(g: Graph, live: set<nat>, target: int, nthreads: nat, n: nat, all: seq<Component>, deleted: nat, max: nat) {
    if ExcessOf(g.r, g.base) <= target then live == g.base && deleted == 0
    else
      && max == ExcessOf(g.r, g.base) - target + (if nthreads == 1 then (ExcessOf(g.r, g.base) - target) / 4 else 0)
      && Removed(g, live, all, deleted, max, nthreads, n) && StoppedInTime(g, all, deleted, target)
      && ExcessOf(g.r, live) >= target && (ExcessOf(g.r, live) > target ==> deleted == |all|)
      && live <= g.base && (g.base != {} ==> live != g.base)
  }

  /** When the excess is too large, rows go. */
  lemma RowsGo(g: Graph, live: set<nat>, target: int, nthreads: nat, n: nat, all: seq<Component>, deleted: nat, max: nat)
    requires Removed(g, live, all, deleted, max, nthreads, n) && nthreads > 0 && max > 0
    requires g.base != {} && forall i :: i in g.base ==> i < n
    requires ExcessOf(g.r, g.base) > target && (ExcessOf(g.r, live) > target ==> deleted == |all|)
    ensures live != g.base
  {
    SomethingListed(g, all, max, nthreads, n);
    if ExcessOf(g.r, live) > target {
      var x := all[|all| - 1];
      var c: set<nat> :| Weighs(g, c, x);
      assert Member(g, x, x.i);
      assert MemberOfSome(g, all, x.i);
      assert all[0..] == all;
      assert x.i in g.base && x.i !in live;
    }
  }

  /** Removes the heaviest components until the excess is at the target; never goes below it. */
  method RemoveCliques(m: Matrix, f: nat -> real, target: int, nthreads: nat) returns (ghost all: seq<Component>, deleted: nat, max: nat)
    requires m.Valid() && nthreads > 0
    modifies m`rows, m`columnWeights, m`remainingRows, m`remainingColumns
    ensures m.Valid() && m.Rel() == old(m.Rel()) && |m.rows| == old(|m.rows|) && m.Live() <= old(m.Live())
    ensures old(m.Excess()) <= target ==> unchanged(m) && deleted == 0
    ensures old(m.Excess()) > target ==> m.Excess() >= target
    ensures CliquesGone(old(GraphOf(m, f)), m.Live(), target, nthreads, |m.rows|, all, deleted, max)
  {
    all, deleted, max := [], 0, 0;
    ghost var g := GraphOf(m, f);
    m.ExcessMeaning();
    if m.Excess() <= target {
      return;
    }
    max := m.Excess() - target;
    if nthreads == 1 {
      max := max + max / 4;
    }
    var sum2 := ComputeSum2(m);
    assert m.Live() - m.Live() == {};
    deleted, all := CliqueRemovalCore(m, sum2, f, target, max, nthreads);
    m.ExcessMeaning();
    if g.base != {} {
      RowsGo(g, m.Live(), target, nthreads, |m.rows|, all, deleted, max);
    }
  }
}
