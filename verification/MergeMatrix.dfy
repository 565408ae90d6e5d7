/** The matrix of `merge`: rows, saturating weights, and the operations that change them. */
module MergeMatrix {
  import opened XorSets
  import opened SortedRows
  import opened SpanningTree
  import opened ColumnWeights
  import opened Elimination

  datatype Row = Null | Cells(cells: seq<nat>)

  ghost function SetOf(r: Row): set<nat> {
    if r.Null? then {} else Elems(r.cells)
  }

  ghost function SetsOf(rows: seq<Row>): (f: seq<set<nat>>)
    ensures |f| == |rows| && forall i :: 0 <= i < |f| ==> f[i] == SetOf(rows[i])
  {
    seq(|rows|, i requires 0 <= i < |rows| => SetOf(rows[i]))
  }

  ghost function LiveOf(rows: seq<Row>): set<nat> {
    set i: nat | 0 <= i < |rows| && rows[i].Cells?
  }

  ghost predicate RowsValid(rows: seq<Row>, ncols: nat) {
    forall i :: 0 <= i < |rows| && rows[i].Cells? ==>
                  Increasing(rows[i].cells) && forall x :: x in rows[i].cells ==> x < ncols
  }

  lemma SetsOfUpdate(rows: seq<Row>, i: nat, r: Row)
    requires i < |rows|
    ensures SetsOf(rows[i := r]) == SetsOf(rows)[i := SetOf(r)]
  {
  }

  lemma RowTraceStep(i: nat, cells: seq<nat>, t: nat)
    requires t < |cells|
    ensures RowTrace(i, cells[..t + 1])[..t] == RowTrace(i, cells[..t])
    ensures RowTrace(i, cells[..t + 1])[t] == Entry(i, cells[t])
  {
  }

  lemma TogglesStep(b: Bits, i: nat, cells: seq<nat>, t: nat)
    requires t < |cells| && i < |b.rows| && forall x :: x in cells ==> x < |b.wt|
    ensures Toggleable(b, RowTrace(i, cells[..t])) && Toggleable(b, RowTrace(i, cells[..t + 1]))
    ensures Toggles(b, RowTrace(i, cells[..t + 1])) == Toggle(Toggles(b, RowTrace(i, cells[..t])), Entry(i, cells[t]))
  {
    assert forall k :: 0 <= k < |cells| ==> cells[k] in cells;
    RowTraceStep(i, cells, t);
  }

  /** While row i is being changed, its current value is its old one with the cells seen so far toggled. */
  ghost predicate Midway(before: Bits, wt: seq<nat>, i: nat, cells: seq<nat>, t: nat)
    requires i < |before.rows| && t <= |cells| && forall x :: x in cells ==> x < |before.wt|
  {
    && Toggleable(before, RowTrace(i, cells[..t]))
    && Toggles(before, RowTrace(i, cells[..t]))
       == Bits(before.rows[i := SymDiff(before.rows[i], Elems(cells[..t]))], wt)
  }

  lemma MidwayStart(before: Bits, i: nat, cells: seq<nat>)
    requires i < |before.rows| && forall x :: x in cells ==> x < |before.wt|
    ensures Midway(before, before.wt, i, cells, 0)
  {
    assert RowTrace(i, cells[..0]) == [];
    assert SymDiff(before.rows[i], Elems(cells[..0])) == before.rows[i];
  }

  lemma MidwayStep(before: Bits, wt: seq<nat>, i: nat, cells: seq<nat>, t: nat)
    requires i < |before.rows| && t < |cells| && Increasing(cells) && forall x :: x in cells ==> x < |before.wt|
    requires Midway(before, wt, i, cells, t)
    ensures |wt| == |before.wt| && cells[t] < |wt|
    ensures var w := wt[cells[t]];
            Midway(before, wt[cells[t] := if cells[t] in before.rows[i] then Decreased(w) else Increased(w)], i, cells, t + 1)
  {
    TogglesStep(before, i, cells, t);
    ElemsStep(cells, t);
    FreshInPrefix(cells, t);
    var mid := SymDiff(before.rows[i], Elems(cells[..t]));
    assert cells[t] in mid <==> cells[t] in before.rows[i];
    assert SymDiff(mid, {cells[t]}) == SymDiff(before.rows[i], Elems(cells[..t + 1]));
  }

  /** State of the addition loop after t1 cells of `a` and t2 cells of `b`. */
  ghost predicate Adding(before: Bits, wt: seq<nat>, i1: nat, sum: seq<nat>,
                         a: seq<nat>, t1: nat, b: seq<nat>, t2: nat)
  {
    && Increasing(a) && Increasing(b) && (forall x :: x in b ==> x < |before.wt|)
    && i1 < |before.rows| && before.rows[i1] == Elems(a)
    && InStep(a, t1, b, t2) && IsSum(sum, a[..t1], b[..t2])
    && |wt| == |before.wt| && Midway(before, wt, i1, b, t2)
  }

  // ----- Weights and sequences of row operations -----

  /** Column j is in at most MERGE_LEVEL_MAX rows before each operation and after the last. */
  ghost predicate CountsSmall(e: Elim, ops: seq<Op>, j: nat)
    requires WellFormed(e) && RunnableAll(e, ops)
    decreases |ops|
  {
    && |Column(e.rows, j)| <= MERGE_LEVEL_MAX
    && (ops == [] || CountsSmall(Apply(e, ops[0]), ops[1..], j))
  }

  /** If small weights were exact before the operations they are afterwards, no frozen weight has been changed,
      and a weight has been frozen exactly if its column has been too large at some time. */
  ghost predicate Follows(before: seq<nat>, e: Elim, ops: seq<Op>, after: seq<nat>)
    requires WellFormed(e) && RunnableAll(e, ops)
  {
    Exact(Bits(e.rows, before)) ==>
      && |after| == |before| && Exact(Bits(Run(e, ops).rows, after))
      && forall j {:trigger after[j]} :: 0 <= j < |before| ==>
           if before[j] > MERGE_LEVEL_MAX then after[j] == before[j]
           else after[j] <= MERGE_LEVEL_MAX <==> CountsSmall(e, ops, j)
  }

  lemma FollowsStart(wt: seq<nat>, e: Elim)
    requires WellFormed(e)
    ensures Follows(wt, e, [], wt)
  {
  }

  lemma {:induction false} CountsSmallNext(e: Elim, ops: seq<Op>, k: nat, j: nat)
    requires WellFormed(e) && RunnableAll(e, ops) && k < |ops|
    ensures RunnableAll(e, ops[..k]) && RunnableAll(e, ops[..k + 1])
    ensures CountsSmall(e, ops[..k + 1], j)
            <==> CountsSmall(e, ops[..k], j) && |Column(Run(e, ops[..k + 1]).rows, j)| <= MERGE_LEVEL_MAX
    decreases |ops|
  {
    RunPrefix(e, ops, k);
    if k == 0 {
      assert ops[..1][1..] == [] && ops[..0] == [];
    } else {
      CountsSmallNext(Apply(e, ops[0]), ops[1..], k - 1, j);
      assert ops[..k][1..] == ops[1..][..k - 1] && ops[..k + 1][1..] == ops[1..][..k];
    }
  }

  lemma FollowsNext(before: seq<nat>, e: Elim, ops: seq<Op>, k: nat, mid: seq<nat>, after: seq<nat>)
    requires WellFormed(e) && RunnableAll(e, ops) && k < |ops|
    requires RunnableAll(e, ops[..k]) && RunnableAll(e, ops[..k + 1]) && Follows(before, e, ops[..k], mid)
    requires var b, c := Bits(Run(e, ops[..k]).rows, mid), Bits(Run(e, ops[..k + 1]).rows, after);
             Exact(b) ==> Exact(c) && Tracked(b, c)
    ensures Follows(before, e, ops[..k + 1], after)
  {
    forall j {:trigger after[j]} | 0 <= j < |before|
      ensures CountsSmall(e, ops[..k + 1], j)
              <==> CountsSmall(e, ops[..k], j) && |Column(Run(e, ops[..k + 1]).rows, j)| <= MERGE_LEVEL_MAX
    {
      CountsSmallNext(e, ops, k, j);
    }
  }

  class FilterMatrix {
    const rows: array<Row>
    const wt: array<nat>
    /** The original relations combined in each row: known to `replay`, not to `merge`. */
    ghost var rels: seq<set<nat>>

    constructor (rows: array<Row>, wt: array<nat>, ghost rels: seq<set<nat>>)
      ensures this.rows == rows && this.wt == wt && this.rels == rels
    {
      this.rows := rows;
      this.wt := wt;
      this.rels := rels;
    }

    ghost predicate Valid()
      reads this, rows, wt
    {
      |rels| == rows.Length && RowsValid(rows[..], wt.Length)
    }

    ghost function State(): Bits
      reads rows, wt
    {
      Bits(SetsOf(rows[..]), wt[..])
    }

    ghost function Abs(): (e: Elim)
      requires Valid()
      reads this, rows, wt
      ensures WellFormed(e)
    {
      Elim(LiveOf(rows[..]), SetsOf(rows[..]), rels)
    }

    /** Weights that were exact before one entry of column j disappears are exact after it. */
    method DecreaseWeight(j: nat)
      requires j < wt.Length
      modifies wt
      ensures wt[..] == old(wt[..])[j := Decreased(old(wt[j]))]
      ensures ForgetsEntry(old(wt[..]), wt[..], j)
    {
      DecreasedForgets(wt[..], j);
      if wt[j] <= MERGE_LEVEL_MAX {
        wt[j] := (wt[j] + 255) % 256;
      }
    }

    /** Weights that were exact before one entry of column j appears are exact after it. */
    method IncreaseWeight(j: nat)
      requires j < wt.Length
      modifies wt
      ensures wt[..] == old(wt[..])[j := Increased(old(wt[j]))]
      ensures CountsEntry(old(wt[..]), wt[..], j)
    {
      IncreasedCounts(wt[..], j);
      if wt[j] <= MERGE_LEVEL_MAX {
        wt[j] := wt[j] + 1;
      }
    }

    /** Both rows have the next column: it cancels. */
    method CancelCell(ghost before: Bits, ghost i1: nat, sum: seq<nat>, a: seq<nat>, t1: nat, b: seq<nat>, t2: nat)
      requires Adding(before, wt[..], i1, sum, a, t1, b, t2)
      requires t1 < |a| && t2 < |b| && a[t1] == b[t2]
      modifies wt
      ensures Adding(before, wt[..], i1, sum, a, t1 + 1, b, t2 + 1)
    {
      assert a[t1] in Elems(a);
      MidwayStep(before, wt[..], i1, b, t2);
      SumCancel(sum, a, t1, b, t2);
      DecreaseWeight(a[t1]);
    }

    /** Only the added row has the next column: it appears in the sum. */
    method NewCell(ghost before: Bits, ghost i1: nat, sum: seq<nat>, a: seq<nat>, t1: nat, b: seq<nat>, t2: nat)
      returns (r: seq<nat>)
      requires Adding(before, wt[..], i1, sum, a, t1, b, t2)
      requires t2 < |b| && (t1 < |a| ==> b[t2] < a[t1])
      modifies wt
      ensures Adding(before, wt[..], i1, r, a, t1, b, t2 + 1)
    {
      NotYet(a, t1, b, t2);
      MidwayStep(before, wt[..], i1, b, t2);
      SumSymmetric(sum, a[..t1], b[..t2]);
      KeepIsSum(sum, b, t2, a, t1);
      SumSymmetric(sum + [b[t2]], b[..t2 + 1], a[..t1]);
      IncreaseWeight(b[t2]);
      r := sum + [b[t2]];
    }

    /** The addition loop of `add_row`, which keeps the weights in step with the new row. */
    method SumWithWeights(i1: nat, a: seq<nat>, b: seq<nat>) returns (sum: seq<nat>)
      requires Increasing(a) && Increasing(b) && forall x :: x in b ==> x < wt.Length
      requires i1 < rows.Length && SetsOf(rows[..])[i1] == Elems(a)
      modifies wt
      ensures IsSum(sum, a, b) && Midway(old(State()), wt[..], i1, b, |b|)
    {
      ghost var before := State();
      MidwayStart(before, i1, b);
      sum := [];
      var t1, t2 := 0, 0;
      while t1 < |a| && t2 < |b|
        invariant t1 <= |a| && t2 <= |b|
        invariant Adding(before, wt[..], i1, sum, a, t1, b, t2)
        decreases |a| + |b| - t1 - t2
      {
        if a[t1] == b[t2] {
          CancelCell(before, i1, sum, a, t1, b, t2);
          t1, t2 := t1 + 1, t2 + 1;
        } else if a[t1] < b[t2] {
          sum := Keep(sum, a, t1, b, t2);
          t1 := t1 + 1;
        } else {
          sum := NewCell(before, i1, sum, a, t1, b, t2);
          t2 := t2 + 1;
        }
      }
      while t1 < |a|
        invariant t1 <= |a| && t2 <= |b| && (t1 < |a| ==> t2 == |b|)
        invariant Adding(before, wt[..], i1, sum, a, t1, b, t2)
      {
        sum := Keep(sum, a, t1, b, t2);
        t1 := t1 + 1;
      }
      while t2 < |b|
        invariant t1 == |a| && t2 <= |b|
        invariant Adding(before, wt[..], i1, sum, a, t1, b, t2)
      {
        sum := NewCell(before, i1, sum, a, t1, b, t2);
        t2 := t2 + 1;
      }
      assert a[..t1] == a && b[..t2] == b;
    }

    /** Adds row i2 to row i1. */
    method AddRow(i1: nat, i2: nat)
      requires Valid() && i1 < rows.Length && i2 < rows.Length && i1 != i2
      requires rows[i1].Cells? && rows[i2].Cells?
      modifies this`rels, rows, wt
      ensures Valid() && Abs() == Apply(old(Abs()), Add(i1, i2))
      ensures rows[i1].Cells? && forall i :: 0 <= i < rows.Length && i != i1 ==> rows[i] == old(rows[i])
      ensures forall x :: x in old(rows[i2].cells) ==> x < wt.Length
      ensures Toggleable(old(State()), RowTrace(i1, old(rows[i2].cells)))
      ensures State() == Toggles(old(State()), RowTrace(i1, old(rows[i2].cells)))
      ensures old(Exact(State())) ==> Exact(State()) && Tracked(old(State()), State())
    {
      ghost var before := State();
      var a, b := rows[i1].cells, rows[i2].cells;
      var sum := SumWithWeights(i1, a, b);
      assert b[..|b|] == b;
      SetsOfUpdate(rows[..], i1, Cells(sum));
      assert forall x :: x in sum ==> x in Elems(sum);
      rows[i1] := Cells(sum);
      rels := rels[i1 := SymDiff(rels[i1], rels[i2])];
      assert State().rows == before.rows[i1 := SymDiff(before.rows[i1], Elems(b))];
      assert LiveOf(rows[..]) == old(LiveOf(rows[..]));
      if Exact(before) {
        TogglesExact(before, RowTrace(i1, b));
        RowTraceTracked(before, i1, b);
      }
    }

    /** Removes row i from the matrix. */
    method RemoveRow(i: nat)
      requires Valid() && i < rows.Length && rows[i].Cells?
      modifies this`rels, rows, wt
      ensures Valid() && Abs() == Apply(old(Abs()), Drop(i))
      ensures rows[..] == old(rows[..])[i := Null]
      ensures Toggleable(old(State()), RowTrace(i, old(rows[i].cells)))
      ensures State() == Toggles(old(State()), RowTrace(i, old(rows[i].cells)))
      ensures old(Exact(State())) ==> Exact(State()) && Tracked(old(State()), State())
    {
      ghost var before := State();
      var cells := rows[i].cells;
      MidwayStart(before, i, cells);
      for k := 0 to |cells|
        invariant rows[..] == old(rows[..]) && rels == old(rels)
        invariant Midway(before, wt[..], i, cells, k)
      {
        assert cells[k] in Elems(cells);
        MidwayStep(before, wt[..], i, cells, k);
        DecreaseWeight(cells[k]);
      }
      assert cells[..|cells|] == cells;
      assert SymDiff(Elems(cells), Elems(cells)) == {};
      SetsOfUpdate(rows[..], i, Null);
      rows[i] := Null;
      rels := rels[i := {}];
      assert State().rows == before.rows[i := {}];
      assert LiveOf(rows[..]) == old(LiveOf(rows[..])) - {i};
      if Exact(before) {
        TogglesExact(before, RowTrace(i, cells));
        RowTraceTracked(before, i, cells);
      }
    }
  }

  lemma NotYet(a: seq<nat>, t1: nat, b: seq<nat>, t2: nat)
    requires Increasing(a) && InStep(a, t1, b, t2) && t2 < |b| && (t1 < |a| ==> b[t2] < a[t1])
    ensures b[t2] !in Elems(a)
  {
  }
}
