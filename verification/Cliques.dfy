/** Clique removal: connected components of relations linked by columns of weight two are found,
    ranked by a weight, and deleted until the excess has come down to a target. */
module Cliques {
  import opened Collections
  import opened XorSets
  import opened PurgeGraph
  import opened PurgeMatrix

  /** From this many rows on the search switches to a set for membership tests. */
  const QUADRATIC_ABORT := 10

  // ----- Row sums of weight-two columns -----

  ghost function SumBelow(s: set<nat>, n: nat): nat {
    if n == 0 then 0 else SumBelow(s, n - 1) + (if n - 1 in s then n - 1 else 0)
  }

  lemma {:induction false} SumBelowPair(a: nat, b: nat, n: nat)
    requires a != b
    ensures SumBelow({a, b}, n) == (if a < n then a else 0) + (if b < n then b else 0)
  {
    if n > 0 {
      SumBelowPair(a, b, n - 1);
    }
  }

  /** `sum2[h]` is the sum of the two row numbers for a column of weight two and zero for others. */
  ghost predicate Sum2Ok(r: Relations, live: set<nat>, sum2: seq<nat>) {
    && (forall h: nat, a: nat, b: nat :: Links(r, live, h, a, b) ==> h < |sum2| && sum2[h] == a + b)
    && (forall h :: 0 <= h < |sum2| && sum2[h] != 0 ==> LinksSome(r, live, h))
  }

  ghost predicate LinksSome(r: Relations, live: set<nat>, h: nat) {
    exists a: nat, b: nat :: Links(r, live, h, a, b)
  }

  lemma PairOfTwo(s: set<nat>) returns (a: nat, b: nat)
    requires |s| == 2
    ensures a != b && s == {a, b}
  {
    a :| a in s;
    assert |s - {a}| == 1;
    b :| b in s - {a};
    SubsetSize({a, b}, s);
  }

  /** The rows below n that have column h. */
  ghost function HoldersBelow(m: Matrix, h: nat, n: nat): nat
    reads m
  {
    SumBelow(Holders(m.contents, m.Live(), h), n)
  }

  lemma SumsAreOk(m: Matrix, sum2: seq<nat>)
    requires m.Valid() && |sum2| == |m.columnWeights|
    requires forall h :: 0 <= h < |sum2| ==> sum2[h] == if m.columnWeights[h] == 2 then HoldersBelow(m, h, |m.rows|) else 0
    ensures Sum2Ok(m.Rel(), m.Live(), sum2)
  {
    var r, live := m.Rel(), m.Live();
    forall h: nat, a: nat, b: nat | Links(r, live, h, a, b) ensures h < |sum2| && sum2[h] == a + b {
      assert a in Holders(r.f, live, h) && b in Holders(r.f, live, h);
      assert h in m.contents[a];
      assert m.columnWeights[h] == 2;
      SumBelowPair(a, b, |m.rows|);
    }
    forall h | 0 <= h < |sum2| && sum2[h] != 0 ensures LinksSome(r, live, h) {
      SomeHolder(Holders(r.f, live, h), |m.rows|);
      assert exists i :: i in Holders(r.f, live, h);
      var i :| i in Holders(r.f, live, h);
      assert h in m.contents[i];
      var a, b := PairOfTwo(Holders(r.f, live, h));
      assert Links(r, live, h, a, b);
    }
  }

  lemma {:induction false} SomeHolder(s: set<nat>, n: nat)
    ensures SumBelow(s, n) != 0 ==> exists i :: i in s
  {
    if n > 0 {
      SomeHolder(s, n - 1);
    }
  }

  /** Adds row i to the sums of its columns of weight two. */
  method AddRowToSums(m: Matrix, i: nat, sums: seq<nat>) returns (sum2: seq<nat>)
    requires m.Valid() && i < |m.rows| && |sums| == |m.columnWeights|
    requires forall h {:trigger sums[h]} :: 0 <= h < |sums| ==> sums[h] == if m.columnWeights[h] == 2 then HoldersBelow(m, h, i) else 0
    ensures |sum2| == |sums|
    ensures forall h {:trigger sum2[h]} :: 0 <= h < |sum2| ==> sum2[h] == if m.columnWeights[h] == 2 then HoldersBelow(m, h, i + 1) else 0
  {
    sum2 := sums;
    if m.rows[i].Active? {
      m.CellsWeighted(i);
      var cells := m.rows[i].cells;
      assert forall x :: 0 <= x < |cells| ==> cells[x] in cells;
      for k := 0 to |cells|
        invariant |sum2| == |sums|
        invariant forall h {:trigger sum2[h]} :: 0 <= h < |sum2| ==>
                    sum2[h] == sums[h] + (if m.columnWeights[h] == 2 && h in cells[..k] then i else 0)
      {
        assert cells[..k + 1] == cells[..k] + [cells[k]];
        assert cells[k] !in cells[..k];
        if m.columnWeights[cells[k]] == 2 {
          sum2 := sum2[cells[k] := sum2[cells[k]] + i];
        }
      }
      assert cells[..|cells|] == cells;
      forall h: nat ensures i in Holders(m.contents, m.Live(), h) <==> h in cells {
        assert h in CellSet(cells) <==> h in m.contents[i];
      }
    }
  }

  method ComputeSum2(m: Matrix) returns (sum2: seq<nat>)
    requires m.Valid()
    ensures |sum2| == |m.columnWeights| && Sum2Ok(m.Rel(), m.Live(), sum2)
  {
    sum2 := seq(|m.columnWeights|, _ => 0);
    for i := 0 to |m.rows|
      invariant |sum2| == |m.columnWeights|
      invariant forall h {:trigger sum2[h]} :: 0 <= h < |sum2| ==> sum2[h] == if m.columnWeights[h] == 2 then HoldersBelow(m, h, i) else 0
    {
      sum2 := AddRowToSums(m, i, sum2);
    }
    SumsAreOk(m, sum2);
  }

  // ----- Searching one component -----

  /** Some whole components of the graph on `base` have been deleted since the sums were computed. */
  ghost predicate Searchable(m: Matrix, base: set<nat>, sum2: seq<nat>)
    reads m
  {
    && m.Valid() && m.Live() <= base && Closed(m.Rel(), base, base - m.Live())
    && |sum2| == |m.columnWeights| && Sum2Ok(m.Rel(), base, sum2)
  }

  /** The test made on each cell finds exactly the links of the original graph. */
  lemma LinkTest(m: Matrix, base: set<nat>, sum2: seq<nat>, i: nat, h: nat)
    requires Searchable(m, base, sum2) && i in m.Live() && h in m.rows[i].cells
    ensures h < |m.columnWeights|
    ensures m.columnWeights[h] == 2 && sum2[h] != 0 ==> i <= sum2[h] && Links(m.Rel(), base, h, i, sum2[h] - i) && sum2[h] - i in m.Live()
    ensures !(m.columnWeights[h] == 2 && sum2[h] != 0) ==> forall b: nat :: !Links(m.Rel(), base, h, i, b)
  {
    m.CellsWeighted(i);
    var r := m.Rel();
    assert h in CellSet(m.rows[i].cells);
    if m.columnWeights[h] == 2 && sum2[h] != 0 {
      assert LinksSome(r, base, h);
      var a: nat, b: nat :| Links(r, base, h, a, b);
      assert i in Holders(r.f, base, h);
      assert {a, b} == {b, a};
      assert Links(r, base, h, i, sum2[h] - i);
      assert base - (base - m.Live()) == m.Live();
      LinksSurvive(r, base, base - m.Live(), h, i, sum2[h] - i);
      assert sum2[h] - i in Holders(r.f, base, h);
    } else {
      assert base - (base - m.Live()) == m.Live();
      forall b: nat ensures !Links(r, base, h, i, b) {
        if Links(r, base, h, i, b) {
          LinksSurvive(r, base, base - m.Live(), h, i, b);
        }
      }
    }
  }

  /** The rows found so far: linked together, with one linking column for each row but the first. */
  ghost predicate Found(r: Relations, base: set<nat>, i0: nat, buf: seq<nat>, cols: seq<nat>) {
    && |buf| >= 1 && buf[0] == i0 && AllDifferent(buf) && CellSet(buf) <= base
    && (forall x :: 0 <= x < |buf| ==> i0 <= buf[x])
    && ConnectedFrom(r, base, CellSet(buf), i0)
    && |cols| == |buf| - 1 && AllDifferent(cols)
    && (forall x :: 0 <= x < |cols| ==> LinksWithin(r, base, cols[x], CellSet(buf)))
  }

  ghost predicate LinksWithin(r: Relations, base: set<nat>, h: nat, c: set<nat>) {
    exists a: nat, b: nat :: Links(r, base, h, a, b) && a in c && b in c
  }

  lemma FoundFirst(r: Relations, base: set<nat>, i0: nat)
    requires i0 in base
    ensures Found(r, base, i0, [i0], [])
  {
    assert CellSet([i0]) == {i0};
  }

  lemma FoundMore(r: Relations, base: set<nat>, i0: nat, buf: seq<nat>, cols: seq<nat>, i: nat, h: nat, b: nat)
    requires Found(r, base, i0, buf, cols) && i in buf && b !in buf && b >= i0 && b in base && Links(r, base, h, i, b)
    ensures Found(r, base, i0, buf + [b], cols + [h])
  {
    var c := CellSet(buf);
    assert CellSet(buf + [b]) == c + {b};
    forall d: set<nat> | i0 in d && d < c + {b} ensures LinkedAcross(r, base, d, c + {b} - d) {
      ConnectedGrows(r, base, c, i0, i, b, h, d);
    }
    ColumnsMore(r, base, c, cols, i, h, b);
  }

  /** The new linking column differs from the earlier ones, whose two rows were both known. */
  lemma ColumnsMore(r: Relations, base: set<nat>, c: set<nat>, cols: seq<nat>, i: nat, h: nat, b: nat)
    requires AllDifferent(cols) && forall x :: 0 <= x < |cols| ==> LinksWithin(r, base, cols[x], c)
    requires i in c && b !in c && Links(r, base, h, i, b)
    ensures AllDifferent(cols + [h])
    ensures forall x :: 0 <= x < |cols + [h]| ==> LinksWithin(r, base, (cols + [h])[x], c + {b})
  {
    forall x | 0 <= x < |cols| ensures cols[x] != h && LinksWithin(r, base, cols[x], c + {b}) {
      assert LinksWithin(r, base, cols[x], c);
      var p: nat, q: nat :| Links(r, base, cols[x], p, q) && p in c && q in c;
      assert b !in {p, q};
    }
  }

  lemma ConnectedGrows(r: Relations, base: set<nat>, c: set<nat>, i0: nat, i: nat, b: nat, h: nat, d: set<nat>)
    requires ConnectedFrom(r, base, c, i0) && i in c && b !in c && Links(r, base, h, i, b)
    requires i0 in d && d < c + {b}
    ensures LinkedAcross(r, base, d, c + {b} - d)
  {
    assert Linked(r, base, i, b);
    if c <= d {
      assert b in c + {b} - d;
    } else {
      var e := d * c;
      assert LinkedAcross(r, base, e, c - e);
      var x, y :| x in e && y in c - e && Linked(r, base, x, y);
      assert x in d && y in c + {b} - d;
    }
  }

  /** Every link of row i through one of its first k cells leads to a row already found. */
  ghost predicate Explored(r: Relations, base: set<nat>, i: nat, cells: seq<nat>, k: nat, buf: seq<nat>)
    requires k <= |cells|
  {
    forall h: nat, b: nat :: h in cells[..k] && Links(r, base, h, i, b) ==> b in buf
  }

  /** The component of i0 has a row before i0. */
  ghost predicate NotFirst(r: Relations, base: set<nat>, i0: nat) {
    forall c: set<nat> :: IsComponent(r, base, c, i0) ==> exists b :: b in c && b < i0
  }

  lemma SmallerFound(r: Relations, base: set<nat>, i0: nat, buf: seq<nat>, cols: seq<nat>, i: nat, h: nat, b: nat)
    requires Found(r, base, i0, buf, cols) && i in buf && b < i0 && Links(r, base, h, i, b)
    ensures NotFirst(r, base, i0)
  {
    forall c: set<nat> | IsComponent(r, base, c, i0) ensures b in c {
      ConnectedInClosed(r, base, CellSet(buf), i0, c);
      assert i in CellSet(buf);
      assert Linked(r, base, i, b);
    }
  }

  lemma ExploredStep(r: Relations, base: set<nat>, i: nat, cells: seq<nat>, k: nat, buf: seq<nat>, buf': seq<nat>)
    requires k < |cells| && Explored(r, base, i, cells, k, buf) && (forall x :: x in buf ==> x in buf')
    requires forall b: nat :: Links(r, base, cells[k], i, b) ==> b in buf'
    ensures Explored(r, base, i, cells, k + 1, buf')
  {
    assert cells[..k + 1] == cells[..k] + [cells[k]];
  }

  lemma PartnerUnique(r: Relations, base: set<nat>, h: nat, i: nat, a: nat, b: nat)
    requires Links(r, base, h, i, a) && Links(r, base, h, i, b)
    ensures a == b
  {
    assert a in {i, b};
  }

  /** The sum of f over the weights of the first k cells. */
  ghost function CellsWeight(f: nat -> real, wt: seq<nat>, cells: seq<nat>, k: nat): real
    requires k <= |cells|
  {
    if k == 0 then 0.0 else CellsWeight(f, wt, cells, k - 1) + f(WeightOr0(wt, cells[k - 1]))
  }

  /** The weight of the first k rows found. */
  ghost function RowsWeight(f: nat -> real, wt: seq<nat>, rows: seq<Row>, buf: seq<nat>, k: nat): real
    requires k <= |buf| && forall x :: 0 <= x < |buf| ==> buf[x] < |rows| && rows[buf[x]].Active?
  {
    if k == 0 then 0.0
    else
      var cells := rows[buf[k - 1]].cells;
      RowsWeight(f, wt, rows, buf, k - 1) + CellsWeight(f, wt, cells, |cells|)
  }

  ghost predicate AllActive(rows: seq<Row>, buf: seq<nat>) {
    forall x :: 0 <= x < |buf| ==> buf[x] < |rows| && rows[buf[x]].Active?
  }

  lemma {:induction false} RowsWeightPrefix(f: nat -> real, wt: seq<nat>, rows: seq<Row>, buf: seq<nat>, more: seq<nat>, k: nat)
    requires AllActive(rows, more) && buf <= more && k <= |buf|
    ensures RowsWeight(f, wt, rows, buf, k) == RowsWeight(f, wt, rows, more, k)
  {
    if k > 0 {
      RowsWeightPrefix(f, wt, rows, buf, more, k - 1);
    }
  }

  /** One cell of a row under search: its partner row, if the column links two rows. */
  method Partner(m: Matrix, ghost base: set<nat>, sum2: seq<nat>, i: nat, h: nat) returns (linked: bool, i1: nat)
    requires Searchable(m, base, sum2) && i in m.Live() && h in m.rows[i].cells
    ensures linked ==> Links(m.Rel(), base, h, i, i1) && i1 in m.Live()
    ensures forall b: nat :: Links(m.Rel(), base, h, i, b) ==> linked && b == i1
  {
    LinkTest(m, base, sum2, i, h);
    linked := m.columnWeights[h] == 2 && sum2[h] != 0;
    i1 := if linked then sum2[h] - i else 0;
    forall b: nat | Links(m.Rel(), base, h, i, b) ensures linked && b == i1 {
      PartnerUnique(m.Rel(), base, h, i, b, i1);
    }
  }

  /** What holds of a search while row i is explored, after k of its cells. */
  ghost predicate Exploring(m: Matrix, base: set<nat>, i0: nat, i: nat, k: nat, buf: seq<nat>, cols: seq<nat>)
    reads m
  {
    && m.Valid() && i in m.Live() && i in buf && k <= |m.rows[i].cells|
    && Found(m.Rel(), base, i0, buf, cols) && CellSet(buf) <= m.Live()
    && Explored(m.Rel(), base, i, m.rows[i].cells, k, buf)
  }

  /** A cell has been dealt with once its partner, if it has one, is among the rows found. */
  lemma CellDone(m: Matrix, base: set<nat>, i0: nat, i: nat, k: nat, buf: seq<nat>, cols: seq<nat>, linked: bool, i1: nat)
    requires Exploring(m, base, i0, i, k, buf, cols) && m.Live() <= base && k < |m.rows[i].cells|
    requires linked ==> Links(m.Rel(), base, m.rows[i].cells[k], i, i1) && i1 in m.Live() && i0 <= i1
    requires forall b: nat :: Links(m.Rel(), base, m.rows[i].cells[k], i, b) ==> linked && b == i1
    ensures linked && i1 !in buf ==> Exploring(m, base, i0, i, k + 1, buf + [i1], cols + [m.rows[i].cells[k]])
    ensures !(linked && i1 !in buf) ==> Exploring(m, base, i0, i, k + 1, buf, cols)
  {
    var r, cells := m.Rel(), m.rows[i].cells;
    if linked && i1 !in buf {
      FoundMore(r, base, i0, buf, cols, i, cells[k], i1);
      ExploredStep(r, base, i, cells, k, buf, buf + [i1]);
      assert CellSet(buf + [i1]) == CellSet(buf) + {i1};
    } else {
      ExploredStep(r, base, i, cells, k, buf, buf);
    }
  }

  datatype Verdict = Complete | Smaller | TooLong

  /** Explores row i, testing membership in the list of rows found; gives up on long components. */
  method ExploreWithVector(m: Matrix, ghost base: set<nat>, sum2: seq<nat>, i0: nat, i: nat, buf: seq<nat>, ghost cols: seq<nat>, f: nat -> real)
    returns (v: Verdict, buf': seq<nat>, ghost cols': seq<nat>, w: real)
    requires Searchable(m, base, sum2) && Exploring(m, base, i0, i, 0, buf, cols)
    ensures v.Smaller? ==> NotFirst(m.Rel(), base, i0)
    ensures v.Complete? ==> Exploring(m, base, i0, i, |m.rows[i].cells|, buf', cols') && buf <= buf'
    ensures v.Complete? ==> w == CellsWeight(f, m.columnWeights, m.rows[i].cells, |m.rows[i].cells|)
  {
    m.CellsWeighted(i);
    var cells := m.rows[i].cells;
    v, buf', cols', w := Complete, buf, cols, 0.0;
    for k := 0 to |cells|
      invariant Exploring(m, base, i0, i, k, buf', cols')
      invariant buf <= buf' && v.Complete? && w == CellsWeight(f, m.columnWeights, cells, k)
    {
      assert cells[k] in cells;
      w := w + f(m.columnWeights[cells[k]]);
      var linked, i1 := Partner(m, base, sum2, i, cells[k]);
      if linked {
        if i1 < i0 {
          SmallerFound(m.Rel(), base, i0, buf', cols', i, cells[k], i1);
          v := Smaller;
          return;
        }
        if |buf'| >= QUADRATIC_ABORT {
          v := TooLong;
          return;
        }
      }
      CellDone(m, base, i0, i, k, buf', cols', linked, i1);
      if linked && i1 !in buf' {
        buf', cols' := buf' + [i1], cols' + [cells[k]];
      }
    }
  }

  /** Explores row i, testing membership in a set of the rows found. */
  method ExploreWithSet(m: Matrix, ghost base: set<nat>, sum2: seq<nat>, i0: nat, i: nat, buf: seq<nat>, H: set<nat>, ghost cols: seq<nat>, f: nat -> real)
    returns (v: Verdict, buf': seq<nat>, H': set<nat>, ghost cols': seq<nat>, w: real)
    requires Searchable(m, base, sum2) && Exploring(m, base, i0, i, 0, buf, cols) && H == CellSet(buf)
    ensures !v.TooLong? && (v.Smaller? ==> NotFirst(m.Rel(), base, i0))
    ensures v.Complete? ==> Exploring(m, base, i0, i, |m.rows[i].cells|, buf', cols') && buf <= buf' && H' == CellSet(buf')
    ensures v.Complete? ==> w == CellsWeight(f, m.columnWeights, m.rows[i].cells, |m.rows[i].cells|)
  {
    m.CellsWeighted(i);
    var cells := m.rows[i].cells;
    v, buf', H', cols', w := Complete, buf, H, cols, 0.0;
    for k := 0 to |cells|
      invariant Exploring(m, base, i0, i, k, buf', cols')
      invariant H' == CellSet(buf')
      invariant buf <= buf' && v.Complete? && w == CellsWeight(f, m.columnWeights, cells, k)
    {
      assert cells[k] in cells;
      w := w + f(m.columnWeights[cells[k]]);
      ghost var before := buf';
      v, buf', H', cols' := ExploreCell(m, base, sum2, i0, i, k, buf', H', cols');
      if v.Smaller? {
        return;
      }
      assert buf <= before <= buf';
    }
  }

  /** One cell of the row. */
  method ExploreCell(m: Matrix, ghost base: set<nat>, sum2: seq<nat>, i0: nat, i: nat, k: nat, buf: seq<nat>, H: set<nat>, ghost cols: seq<nat>)
    returns (v: Verdict, buf': seq<nat>, H': set<nat>, ghost cols': seq<nat>)
    requires Searchable(m, base, sum2) && Exploring(m, base, i0, i, k, buf, cols) && k < |m.rows[i].cells| && H == CellSet(buf)
    ensures v.Smaller? || v.Complete?
    ensures v.Smaller? ==> NotFirst(m.Rel(), base, i0)
    ensures v.Complete? ==> Exploring(m, base, i0, i, k + 1, buf', cols') && buf <= buf' && H' == CellSet(buf')
  {
    v, buf', H', cols' := Complete, buf, H, cols;
    var h := m.rows[i].cells[k];
    var linked, i1 := Partner(m, base, sum2, i, h);
    if linked && i1 < i0 {
      SmallerFound(m.Rel(), base, i0, buf, cols, i, h, i1);
      v := Smaller;
      return;
    }
    CellDone(m, base, i0, i, k, buf, cols, linked, i1);
    if linked && i1 !in H {
      buf', H', cols' := buf + [i1], H + {i1}, cols + [h];
    }
  }

  /** Rows found by a search, of which the first k have been explored. */
  ghost predicate Searching(m: Matrix, base: set<nat>, i0: nat, k: nat, buf: seq<nat>, cols: seq<nat>)
    reads m
  {
    && m.Valid() && k <= |buf| && Found(m.Rel(), base, i0, buf, cols) && CellSet(buf) <= m.Live()
    && forall x :: 0 <= x < k ==> RowExplored(m, base, buf[x], buf)
  }

  ghost predicate RowExplored(m: Matrix, base: set<nat>, i: nat, buf: seq<nat>)
    reads m
  {
    i in m.Live() && Explored(m.Rel(), base, i, m.rows[i].cells, |m.rows[i].cells|, buf)
  }

  lemma SearchStart(m: Matrix, base: set<nat>, i0: nat)
    requires m.Valid() && i0 in m.Live() && m.Live() <= base
    ensures Searching(m, base, i0, 0, [i0], [])
  {
    FoundFirst(m.Rel(), base, i0);
    assert CellSet([i0]) == {i0};
  }

  lemma SearchRow(m: Matrix, base: set<nat>, i0: nat, k: nat, buf: seq<nat>, cols: seq<nat>)
    requires Searching(m, base, i0, k, buf, cols) && k < |buf|
    ensures Exploring(m, base, i0, buf[k], 0, buf, cols)
  {
    assert buf[k] in CellSet(buf);
  }

  lemma SearchNext(m: Matrix, base: set<nat>, i0: nat, k: nat, buf: seq<nat>, cols: seq<nat>, buf': seq<nat>, cols': seq<nat>)
    requires Searching(m, base, i0, k, buf, cols) && k < |buf| && buf <= buf' && buf[k] in m.Live()
    requires Exploring(m, base, i0, buf[k], |m.rows[buf[k]].cells|, buf', cols')
    ensures Searching(m, base, i0, k + 1, buf', cols')
  {
    forall x | 0 <= x <= k ensures RowExplored(m, base, buf'[x], buf') {
      assert buf'[x] == buf[x];
      if x < k {
        assert RowExplored(m, base, buf[x], buf);
        assert forall y :: y in buf ==> y in buf';
      }
    }
  }

  /** Once all rows found have been explored they are a component. */
  lemma SearchEnd(m: Matrix, base: set<nat>, i0: nat, buf: seq<nat>, cols: seq<nat>)
    requires Searching(m, base, i0, |buf|, buf, cols)
    ensures IsComponent(m.Rel(), base, CellSet(buf), i0)
  {
    var r := m.Rel();
    forall a, b: nat | a in CellSet(buf) && Linked(r, base, a, b) ensures b in CellSet(buf) {
      var h :| Links(r, base, h, a, b);
      var x :| 0 <= x < |buf| && buf[x] == a;
      assert RowExplored(m, base, buf[x], buf);
      m.CellsWeighted(a);
      assert a in Holders(r.f, base, h);
      var cells := m.rows[a].cells;
      assert h in CellSet(cells) && cells[..|cells|] == cells;
    }
  }

  lemma {:induction false} DistinctBound(buf: seq<nat>, s: set<nat>)
    requires AllDifferent(buf) && CellSet(buf) <= s
    ensures |buf| <= |s| && |CellSet(buf)| == |buf|
    decreases |buf|
  {
    if buf != [] {
      var n := |buf| - 1;
      DistinctBound(buf[..n], s);
      assert CellSet(buf) == CellSet(buf[..n]) + {buf[n]};
      assert buf[n] !in buf[..n];
      SubsetSize(CellSet(buf), s);
    }
  }

  /** What a search reports: nothing if the component has a row before i0, else the component. */
  ghost predicate Reported(m: Matrix, base: set<nat>, i0: nat, size: nat, buf: seq<nat>, cols: seq<nat>)
    reads m
  {
    if size == 0 then NotFirst(m.Rel(), base, i0)
    else
      && size == |buf| && Found(m.Rel(), base, i0, buf, cols) && CellSet(buf) <= m.Live()
      && IsComponent(m.Rel(), base, CellSet(buf), i0)
  }

  method ComponentWithSet(m: Matrix, ghost base: set<nat>, sum2: seq<nat>, i0: nat, f: nat -> real)
    returns (size: nat, w: real, buf: seq<nat>, ghost cols: seq<nat>)
    requires Searchable(m, base, sum2) && i0 in m.Live()
    ensures Reported(m, base, i0, size, buf, cols)
    ensures size > 0 ==> AllActive(m.rows, buf) && w == RowsWeight(f, m.columnWeights, m.rows, buf, |buf|)
  {
    buf, cols, w := [i0], [], 0.0;
    var H, k := {i0}, 0;
    SearchStart(m, base, i0);
    assert CellSet(buf) == {i0};
    while k < |buf|
      invariant Searching(m, base, i0, k, buf, cols)
      invariant H == CellSet(buf) && 0 <= k <= |buf|
      invariant AllActive(m.rows, buf) && w == RowsWeight(f, m.columnWeights, m.rows, buf, k)
      decreases |base| - k
    {
      DistinctBound(buf, base);
      SearchRow(m, base, i0, k, buf, cols);
      var v, buf', H', cols', dw := ExploreWithSet(m, base, sum2, i0, buf[k], buf, H, cols, f);
      if v.Smaller? {
        size := 0;
        return;
      }
      SearchNext(m, base, i0, k, buf, cols, buf', cols');
      WeightNext(f, m, buf, buf', k);
      buf, H, cols, w, k := buf', H', cols', w + dw, k + 1;
    }
    SearchEnd(m, base, i0, buf, cols);
    size := |buf|;
  }

  lemma WeightNext(f: nat -> real, m: Matrix, buf: seq<nat>, buf': seq<nat>, k: nat)
    requires m.Valid() && CellSet(buf') <= m.Live() && buf <= buf' && k < |buf| && AllActive(m.rows, buf)
    ensures AllActive(m.rows, buf')
    ensures RowsWeight(f, m.columnWeights, m.rows, buf', k + 1)
            == RowsWeight(f, m.columnWeights, m.rows, buf, k)
               + CellsWeight(f, m.columnWeights, m.rows[buf[k]].cells, |m.rows[buf[k]].cells|)
  {
    forall x | 0 <= x < |buf'| ensures buf'[x] < |m.rows| && m.rows[buf'[x]].Active? {
      assert buf'[x] in CellSet(buf');
    }
    RowsWeightPrefix(f, m.columnWeights, m.rows, buf, buf', k);
  }

  /** Finds the component of row i0, or reports that it was found from an earlier row. */
  method ConnectedComponent(m: Matrix, ghost base: set<nat>, sum2: seq<nat>, i0: nat, f: nat -> real)
    returns (size: nat, w: real, buf: seq<nat>, ghost cols: seq<nat>)
    requires Searchable(m, base, sum2) && i0 in m.Live()
    ensures Reported(m, base, i0, size, buf, cols)
    ensures size > 0 ==> AllActive(m.rows, buf) && w == RowsWeight(f, m.columnWeights, m.rows, buf, |buf|)
  {
    buf, cols, w := [i0], [], 0.0;
    var k := 0;
    SearchStart(m, base, i0);
    while k < |buf|
      invariant Searching(m, base, i0, k, buf, cols)
      invariant 0 <= k <= |buf|
      invariant AllActive(m.rows, buf) && w == RowsWeight(f, m.columnWeights, m.rows, buf, k)
      decreases |base| - k
    {
      DistinctBound(buf, base);
      SearchRow(m, base, i0, k, buf, cols);
      var v, buf', cols', dw := ExploreWithVector(m, base, sum2, i0, buf[k], buf, cols, f);
      if v.Smaller? {
        size := 0;
        return;
      }
      if v.TooLong? {
        size, w, buf, cols := ComponentWithSet(m, base, sum2, i0, f);
        return;
      }
      SearchNext(m, base, i0, k, buf, cols, buf', cols');
      WeightNext(f, m, buf, buf', k);
      buf, cols, w, k := buf', cols', w + dw, k + 1;
    }
    SearchEnd(m, base, i0, buf, cols);
    size := |buf|;
  }

  /** Every row has a component, and a search from it reports something exactly when it is the
      smallest row of that component, which is then what is reported. */
  lemma ReportedIffFirst(m: Matrix, base: set<nat>, i0: nat, size: nat, buf: seq<nat>, cols: seq<nat>) returns (c: set<nat>)
    requires Reported(m, base, i0, size, buf, cols) && i0 in base
    ensures IsComponent(m.Rel(), base, c, i0)
    ensures size > 0 <==> forall b :: b in c ==> i0 <= b
    ensures size > 0 ==> CellSet(buf) == c && size == |c|
  {
    c := ComponentExists(m.Rel(), base, i0);
    if size > 0 {
      ComponentUnique(m.Rel(), base, c, CellSet(buf), i0);
      DistinctBound(buf, c);
    }
  }
}
