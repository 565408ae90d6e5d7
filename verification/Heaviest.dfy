/** Which components clique removal selects: every thread keeps the heaviest ones among the rows it
    visits, and together the threads visit every row once. */
module Heaviest {
  import opened PurgeGraph
  import opened PurgeMatrix
  import opened Cliques

  /** Rows are handed to the threads in runs of this length. */
  const BATCH_SIZE: nat := 1024

  /** A component, known by its smallest row, and its weight. */
  datatype Component = Component(i: nat, w: real)

  /** Components are ordered by weight, equal weights by smallest row. */
  predicate Less(a: Component, b: Component) {
    a.w < b.w || (a.w == b.w && a.i < b.i)
  }

  ghost predicate Ascending(q: seq<Component>) {
    forall i, j :: 0 <= i < j < |q| ==> Less(q[i], q[j])
  }

  /** The relations and rows the sums were computed for, and the weight of every row. */
  datatype Graph = Graph(r: Relations, base: set<nat>, rw: seq<real>)

  ghost function TotalWeight(rw: seq<real>, c: set<nat>, n: nat): real
    requires n <= |rw|
  {
    if n == 0 then 0.0 else TotalWeight(rw, c, n - 1) + (if n - 1 in c then rw[n - 1] else 0.0)
  }

  ghost predicate FirstOf(g: Graph, c: set<nat>, i: nat) {
    IsComponent(g.r, g.base, c, i) && forall b :: b in c ==> i <= b
  }

  ghost predicate Weighs(g: Graph, c: set<nat>, x: Component) {
    FirstOf(g, c, x.i) && x.w == TotalWeight(g.rw, c, |g.rw|)
  }

  /** x is one of the components. */
  ghost predicate IsHead(g: Graph, x: Component) {
    exists c: set<nat> :: Weighs(g, c, x)
  }

  lemma HeadUnique(g: Graph, x: Component, y: Component)
    requires IsHead(g, x) && IsHead(g, y) && x.i == y.i
    ensures x == y
  {
    var a: set<nat> :| Weighs(g, a, x);
    var b: set<nat> :| Weighs(g, b, y);
    ComponentUnique(g.r, g.base, a, b, x.i);
  }

  // ----- The weight does not depend on the order in which the rows are found -----

  ghost function RowWeights(rows: seq<Row>, wt: seq<nat>, f: nat -> real): (rw: seq<real>)
    ensures |rw| == |rows|
  {
    seq(|rows|, i requires 0 <= i < |rows| => if rows[i].Active? then CellsWeight(f, wt, rows[i].cells, |rows[i].cells|) else 0.0)
  }

  lemma {:induction false} TotalWeightMore(rw: seq<real>, c: set<nat>, x: nat, n: nat)
    requires n <= |rw| && x !in c
    ensures TotalWeight(rw, c + {x}, n) == TotalWeight(rw, c, n) + (if x < n then rw[x] else 0.0)
  {
    if n > 0 {
      TotalWeightMore(rw, c, x, n - 1);
    }
  }

  lemma {:induction false} TotalWeightNone(rw: seq<real>, n: nat)
    requires n <= |rw|
    ensures TotalWeight(rw, {}, n) == 0.0
  {
    if n > 0 {
      TotalWeightNone(rw, n - 1);
    }
  }

  lemma {:induction false} WeightOfRows(f: nat -> real, wt: seq<nat>, rows: seq<Row>, buf: seq<nat>, k: nat)
    requires AllActive(rows, buf) && AllDifferent(buf) && k <= |buf|
    ensures RowsWeight(f, wt, rows, buf, k) == TotalWeight(RowWeights(rows, wt, f), CellSet(buf[..k]), |rows|)
  {
    var rw := RowWeights(rows, wt, f);
    if k == 0 {
      TotalWeightNone(rw, |rows|);
      assert CellSet(buf[..0]) == {};
    } else {
      WeightOfRows(f, wt, rows, buf, k - 1);
      assert buf[..k] == buf[..k - 1] + [buf[k - 1]];
      assert CellSet(buf[..k]) == CellSet(buf[..k - 1]) + {buf[k - 1]};
      TotalWeightMore(rw, CellSet(buf[..k - 1]), buf[k - 1], |rows|);
    }
  }

  /** The graph that a matrix has just before components are selected. */
  ghost function GraphOf(m: Matrix, f: nat -> real): Graph
    reads m
  {
    Graph(m.Rel(), m.Live(), RowWeights(m.rows, m.columnWeights, f))
  }

  /** Looks for a component whose smallest row is i. */
  method HeadAt(m: Matrix, sum2: seq<nat>, i: nat, f: nat -> real) returns (first: bool, x: Component)
    requires Searchable(m, m.Live(), sum2) && i in m.Live()
    ensures first ==> x.i == i && IsHead(GraphOf(m, f), x)
    ensures forall y :: IsHead(GraphOf(m, f), y) && y.i == i ==> first
  {
    ghost var g := GraphOf(m, f);
    var size, w, buf, cols := ConnectedComponent(m, m.Live(), sum2, i, f);
    first, x := size > 0, Component(i, w);
    if first {
      WeightOfRows(f, m.columnWeights, m.rows, buf, |buf|);
      assert buf[..|buf|] == buf;
      assert Weighs(g, CellSet(buf), x);
    }
    forall y | IsHead(g, y) && y.i == i ensures first {
      var c: set<nat> :| Weighs(g, c, y);
      assert IsComponent(g.r, g.base, c, i);
    }
  }

  // ----- Keeping the heaviest -----

  /** q lists in ascending order components with smallest row in `rows`; one that is missing is
      lighter than everything in q, which is full. */
  ghost predicate Selected(g: Graph, q: seq<Component>, max: nat, rows: set<nat>) {
    && Ascending(q) && |q| <= max
    && (forall k {:trigger q[k]} :: 0 <= k < |q| ==> IsHead(g, q[k]) && q[k].i in rows)
    && forall x :: IsHead(g, x) && x.i in rows ==> x in q || (|q| == max && LighterThanAll(x, q))
  }

  ghost predicate LighterThanAll(x: Component, q: seq<Component>) {
    forall k {:trigger q[k]} :: 0 <= k < |q| ==> Less(x, q[k])
  }

  /** Inserts a component at its place. */
  method Insert(q: seq<Component>, x: Component) returns (q': seq<Component>)
    requires Ascending(q) && forall k :: 0 <= k < |q| ==> q[k].i != x.i
    ensures Ascending(q') && |q'| == |q| + 1
    ensures forall y :: y in q' <==> y in q || y == x
  {
    var p := |q|;
    while p > 0 && Less(x, q[p - 1])
      invariant 0 <= p <= |q| && forall k :: p <= k < |q| ==> Less(x, q[k])
    {
      p := p - 1;
    }
    q' := q[..p] + [x] + q[p..];
    InsertedAt(q, x, p, q');
  }

  lemma InsertedAt(q: seq<Component>, x: Component, p: nat, q': seq<Component>)
    requires Ascending(q) && p <= |q| && (p > 0 ==> Less(q[p - 1], x)) && forall k :: p <= k < |q| ==> Less(x, q[k])
    requires q' == q[..p] + [x] + q[p..]
    ensures Ascending(q') && forall y :: y in q' <==> y in q || y == x
  {
    forall i, j | 0 <= i < j < |q'| ensures Less(q'[i], q'[j]) {
      assert p > 0 && i < p ==> i == p - 1 || Less(q[i], q[p - 1]);
    }
    assert q == q[..p] + q[p..];
  }

  /** Keeps x if there is room, or in place of the lightest one unless x weighs less. */
  method Consider(ghost g: Graph, q: seq<Component>, x: Component, max: nat, ghost rows: set<nat>) returns (q': seq<Component>)
    requires Selected(g, q, max, rows) && max > 0 && IsHead(g, x) && forall i :: i in rows ==> i < x.i
    ensures Selected(g, q', max, rows + {x.i})
  {
    if |q| < max {
      q' := Insert(q, x);
      SelectedRoom(g, q, x, max, rows, q');
    } else if x.w < q[0].w {
      q' := q;
      SelectedLight(g, q, x, max, rows);
    } else {
      q' := Insert(q[1..], x);
      SelectedSwap(g, q, x, max, rows, q');
    }
  }

  lemma SelectedRoom(g: Graph, q: seq<Component>, x: Component, max: nat, rows: set<nat>, q': seq<Component>)
    requires Selected(g, q, max, rows) && |q| < max && IsHead(g, x)
    requires Ascending(q') && |q'| == |q| + 1 && forall y :: y in q' <==> y in q || y == x
    ensures Selected(g, q', max, rows + {x.i})
  {
    forall k | 0 <= k < |q'| ensures IsHead(g, q'[k]) && q'[k].i in rows + {x.i} {
      assert q'[k] in q';
    }
    forall y | IsHead(g, y) && y.i in rows + {x.i} ensures y in q' {
      if y.i == x.i {
        HeadUnique(g, x, y);
      }
    }
  }

  lemma SelectedLight(g: Graph, q: seq<Component>, x: Component, max: nat, rows: set<nat>)
    requires Selected(g, q, max, rows) && |q| == max > 0 && IsHead(g, x) && x.w < q[0].w
    ensures Selected(g, q, max, rows + {x.i})
  {
    assert LighterThanAll(x, q);
    forall y | IsHead(g, y) && y.i in rows + {x.i} ensures y in q || LighterThanAll(y, q) {
      if y.i == x.i {
        HeadUnique(g, x, y);
      }
    }
  }

  lemma SelectedSwap(g: Graph, q: seq<Component>, x: Component, max: nat, rows: set<nat>, q': seq<Component>)
    requires Selected(g, q, max, rows) && |q| == max > 0 && IsHead(g, x) && q[0].w <= x.w && q[0].i < x.i
    requires Ascending(q') && |q'| == |q| && forall y :: y in q' <==> y in q[1..] || y == x
    ensures Selected(g, q', max, rows + {x.i})
  {
    forall k | 0 <= k < |q'| ensures IsHead(g, q'[k]) && q'[k].i in rows + {x.i} && Less(q[0], q'[k]) {
      assert q'[k] in q';
    }
    forall y | IsHead(g, y) && y.i in rows + {x.i} ensures y in q' || LighterThanAll(y, q') {
      if y.i == x.i {
        HeadUnique(g, x, y);
      } else if y !in q[1..] {
        assert y == q[0] || Less(y, q[0]);
        assert LighterThanAll(y, q');
      }
    }
  }

  // ----- The rows of one thread -----

  ghost predicate InStripe(i0: nat, i1: nat, stride: nat, t: nat, i: nat) {
    i0 + t * stride <= i < i1 + t * stride
  }

  ghost predicate InSomeStripe(i0: nat, i1: nat, stride: nat, i: nat) {
    exists t: nat :: InStripe(i0, i1, stride, t, i)
  }

  ghost function Stripes(i0: nat, i1: nat, stride: nat, n: nat): set<nat> {
    set i: nat {:trigger InSomeStripe(i0, i1, stride, i)} | i < n && InSomeStripe(i0, i1, stride, i)
  }

  /** The rows of a thread before row i. */
  ghost function Before(rows: set<nat>, i: nat): set<nat> {
    set x | x in rows && x < i
  }

  lemma SelectedSkip(g: Graph, q: seq<Component>, max: nat, rows: set<nat>, i: nat)
    requires Selected(g, q, max, rows) && forall x :: IsHead(g, x) ==> x.i != i
    ensures Selected(g, q, max, rows + {i})
  {
  }

  lemma HeadLive(g: Graph, x: Component)
    requires IsHead(g, x)
    ensures x.i in g.base
  {
  }

  /** Visits row i. */
  method VisitRow(m: Matrix, sum2: seq<nat>, f: nat -> real, max: nat, q: seq<Component>, i: nat, ghost rows: set<nat>)
    returns (q': seq<Component>)
    requires Searchable(m, m.Live(), sum2) && max > 0 && i < |m.rows|
    requires Selected(GraphOf(m, f), q, max, rows) && forall x :: x in rows ==> x < i
    ensures Selected(GraphOf(m, f), q', max, rows + {i})
  {
    ghost var g := GraphOf(m, f);
    q' := q;
    if m.rows[i].Active? {
      var first, x := HeadAt(m, sum2, i, f);
      if first {
        q' := Consider(g, q, x, max, rows);
      } else {
        SelectedSkip(g, q, max, rows, i);
      }
    } else {
      forall x | IsHead(g, x) ensures x.i != i {
        HeadLive(g, x);
      }
      SelectedSkip(g, q, max, rows, i);
    }
  }

  /** No row between two runs belongs to the thread. */
  lemma NextStripe(i0: nat, i1: nat, stride: nat, n: nat, t: nat)
    requires i0 <= i1 <= i0 + stride
    ensures Before(Stripes(i0, i1, stride, n), i0 + (t + 1) * stride) == Before(Stripes(i0, i1, stride, n), i1 + t * stride)
  {
    forall i: nat | i1 + t * stride <= i < i0 + (t + 1) * stride ensures !InSomeStripe(i0, i1, stride, i) {
      forall u: nat ensures !InStripe(i0, i1, stride, u, i) {
        BetweenStripes(i0, i1, stride, t, i, u);
      }
    }
    Stripe(t, stride);
  }

  lemma Stripe(t: nat, stride: nat)
    ensures (t + 1) * stride == t * stride + stride
  {
  }

  lemma BetweenStripes(i0: nat, i1: nat, stride: nat, t: nat, i: nat, u: nat)
    requires i1 + t * stride <= i < i0 + (t + 1) * stride
    ensures !InStripe(i0, i1, stride, u, i)
  {
    assert u <= t ==> u * stride <= t * stride;
    assert u > t ==> (t + 1) * stride <= u * stride;
  }

  lemma FirstStripe(i0: nat, i1: nat, stride: nat, n: nat)
    ensures Before(Stripes(i0, i1, stride, n), i0) == {}
  {
    forall i: nat, u: nat | i < i0 ensures !InStripe(i0, i1, stride, u, i) {
      assert u * stride >= 0;
    }
  }

  lemma AllBefore(rows: set<nat>, n: nat, i: nat)
    requires n <= i && forall x :: x in rows ==> x < n
    ensures Before(rows, i) == rows
  {
  }

  /** One run of rows [lo, hi) of a thread. */
  method VisitRun(m: Matrix, sum2: seq<nat>, f: nat -> real, max: nat, q: seq<Component>, lo: nat, hi: nat, ghost rows: set<nat>)
    returns (q': seq<Component>)
    requires Searchable(m, m.Live(), sum2) && max > 0 && hi <= |m.rows|
    requires forall i :: lo <= i < hi ==> i in rows
    requires Selected(GraphOf(m, f), q, max, Before(rows, lo))
    ensures Selected(GraphOf(m, f), q', max, Before(rows, if lo <= hi then hi else lo))
  {
    q' := q;
    var i := lo;
    while i < hi
      invariant lo <= i && (lo <= hi ==> i <= hi) && (hi < lo ==> i == lo)
      invariant Selected(GraphOf(m, f), q', max, Before(rows, i))
    {
      q' := VisitRow(m, sum2, f, max, q', i, Before(rows, i));
      assert Before(rows, i + 1) == Before(rows, i) + {i};
      i := i + 1;
    }
  }

  /** One thread: runs [i0, i1), [i0 + stride, i1 + stride), and so on. */
  method Fragment(m: Matrix, sum2: seq<nat>, f: nat -> real, max: nat, i0: nat, i1: nat, stride: nat) returns (q: seq<Component>)
    requires Searchable(m, m.Live(), sum2) && max > 0 && i0 <= i1 <= i0 + stride && (stride == 0 ==> |m.rows| == 0)
    ensures Selected(GraphOf(m, f), q, max, Stripes(i0, i1, stride, |m.rows|))
  {
    ghost var rows, g := Stripes(i0, i1, stride, |m.rows|), GraphOf(m, f);
    q := [];
    FirstStripe(i0, i1, stride, |m.rows|);
    var lo, hi := i0, i1;
    ghost var t := 0;
    while lo < |m.rows|
      invariant lo == i0 + t * stride && t >= 0 && (lo < |m.rows| ==> hi == i1 + t * stride)
      invariant Selected(g, q, max, Before(rows, lo))
      decreases |m.rows| - lo
    {
      hi := if hi <= |m.rows| then hi else |m.rows|;
      forall i | lo <= i < hi ensures i in rows {
        assert InStripe(i0, i1, stride, t, i);
      }
      q := VisitRun(m, sum2, f, max, q, lo, hi, rows);
      NextStripe(i0, i1, stride, |m.rows|, t);
      if hi < i1 + t * stride {
        AllBefore(rows, |m.rows|, hi);
        AllBefore(rows, |m.rows|, i1 + t * stride);
      }
      assert (t + 1) * stride == t * stride + stride;
      lo, hi, t := lo + stride, hi + stride, t + 1;
    }
    AllBefore(rows, |m.rows|, lo);
  }

  /** The rows that thread k of nthreads visits. */
  ghost function RowsOf(k: nat, nthreads: nat, n: nat): set<nat> {
    if nthreads == 1 then Stripes(0, n, n, n)
    else Stripes(BATCH_SIZE * k, BATCH_SIZE * (k + 1), BATCH_SIZE * nthreads, n)
  }

  /** Every row is visited by exactly one thread. */
  lemma RowsShared(nthreads: nat, n: nat, i: nat)
    requires nthreads > 0 && i < n
    ensures exists k :: 0 <= k < nthreads && i in RowsOf(k, nthreads, n)
    ensures forall k, l :: 0 <= k < nthreads && 0 <= l < nthreads && i in RowsOf(k, nthreads, n) && i in RowsOf(l, nthreads, n) ==> k == l
  {
    if nthreads == 1 {
      assert InStripe(0, n, n, 0, i);
      assert i in RowsOf(0, nthreads, n);
    } else {
      var b := i / BATCH_SIZE;
      var k, t := b % nthreads, b / nthreads;
      StripeIffRun(nthreads, i, k, t);
      assert b == k + t * nthreads;
      assert i in RowsOf(k, nthreads, n);
      forall l | 0 <= l < nthreads && i in RowsOf(l, nthreads, n) ensures l == k {
        var u: nat :| InStripe(BATCH_SIZE * l, BATCH_SIZE * (l + 1), BATCH_SIZE * nthreads, u, i);
        StripeIffRun(nthreads, i, l, u);
        RemainderUnique(nthreads, k, t, l, u);
      }
    }
  }

  lemma StripeIffRun(nthreads: nat, i: nat, k: nat, t: nat)
    ensures InStripe(BATCH_SIZE * k, BATCH_SIZE * (k + 1), BATCH_SIZE * nthreads, t, i) <==> i / BATCH_SIZE == k + t * nthreads
  {
    var s := t * nthreads;
    assert t * (BATCH_SIZE * nthreads) == BATCH_SIZE * s;
  }

  lemma RemainderUnique(n: nat, k: nat, t: nat, l: nat, u: nat)
    requires k < n && l < n && k + t * n == l + u * n
    ensures k == l
  {
    assert t < u ==> (t + 1) * n <= u * n;
    assert u < t ==> (u + 1) * n <= t * n;
  }
}
