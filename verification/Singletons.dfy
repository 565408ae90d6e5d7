/** Singleton removal: relations with a column that no other relation has are deleted until none
    is left.  Threads visit the rows in an order that the scheduler chooses. */
module Singletons {
  import opened Collections
  import opened PurgeGraph
  import opened PurgeMatrix

  /** What removal may do between two states: only relations outside every singleton-free subset
      are gone, and the excess has not dropped. */
  ghost predicate Spared(r: Relations, before: set<nat>, after: set<nat>) {
    after <= before && forall s: set<nat> :: s <= before && NoSingletons(r, s) ==> s <= after
  }

  /** Row i has a cell of weight one. */
  method HasLoneCell(m: Matrix, i: nat) returns (b: bool)
    requires m.Valid() && i in m.Live()
    ensures b <==> HasSingleton(m.Rel(), m.Live(), i)
  {
    m.CellsWeighted(i);
    var cells := m.rows[i].cells;
    var k := 0;
    assert forall x :: 0 <= x < |cells| ==> cells[x] in cells;
    while k < |cells| && m.columnWeights[cells[k]] != 1
      invariant 0 <= k <= |cells|
      invariant forall x :: 0 <= x < k ==> cells[x] < |m.columnWeights| && m.columnWeights[cells[x]] != 1
    {
      k := k + 1;
    }
    b := k < |cells|;
    LoneCellIffSingleton(m, i);
    assert b ==> cells[k] in cells;
  }

  lemma LoneCellIffSingleton(m: Matrix, i: nat)
    requires m.Valid() && i in m.Live()
    ensures HasSingleton(m.Rel(), m.Live(), i)
            <==> exists h :: h in m.rows[i].cells && h < |m.columnWeights| && m.columnWeights[h] == 1
  {
    m.CellsWeighted(i);
    var r := m.Rel();
    forall h | h in m.rows[i].cells && h < |m.columnWeights| && m.columnWeights[h] == 1
      ensures HasSingleton(r, m.Live(), i)
    {
      assert h in CellSet(m.rows[i].cells);
    }
    if HasSingleton(r, m.Live(), i) {
      var h :| h in r.f[i] && h !in r.sat && Weight(r, m.Live(), h) == 1;
      assert h in CellSet(m.rows[i].cells);
      assert m.columnWeights[h] == 1;
    }
  }

  /** Deleting a row with a singleton removes at least one column with it. */
  method DeleteSingleton(m: Matrix, i: nat)
    requires m.Valid() && i in m.Live() && HasSingleton(m.Rel(), m.Live(), i)
    modifies m`rows, m`columnWeights, m`remainingRows, m`remainingColumns
    ensures m.Valid() && m.Rel() == old(m.Rel()) && m.Live() == old(m.Live()) - {i} && |m.rows| == old(|m.rows|)
    ensures m.Excess() >= old(m.Excess())
    ensures Spared(m.Rel(), old(m.Live()), m.Live())
  {
    ghost var r, live, wt := m.Rel(), m.Live(), m.columnWeights;
    ghost var h :| h in r.f[i] && h !in r.sat && Weight(r, live, h) == 1;
    assert h in Positive(wt) by {
      m.CellsWeighted(i);
      assert h in CellSet(m.rows[i].cells);
    }
    m.DeleteRow(i);
    assert h !in Positive(m.columnWeights) by {
      HoldersRemove(r, live, i, h);
      EmptyColumnGone(m, h);
    }
    SubsetSize(Positive(m.columnWeights), Positive(wt) - {h});
    SparedStep(r, live, i);
  }

  lemma SparedStep(r: Relations, live: set<nat>, i: nat)
    requires HasSingleton(r, live, i)
    ensures Spared(r, live, live - {i})
  {
    forall s: set<nat> | s <= live && NoSingletons(r, s) ensures i !in s {
      SingletonOutsideCore(r, live, i, s);
    }
  }

  /** A column of interest that no live row has any more is not counted. */
  lemma EmptyColumnGone(m: Matrix, h: nat)
    requires m.Valid() && m.col0 <= h < m.col1 && h !in m.Rel().sat && Weight(m.Rel(), m.Live(), h) == 0
    ensures h !in Positive(m.columnWeights)
  {
  }

  /** Each row is visited. */
  ghost predicate Visits(order: seq<nat>, n: nat) {
    (forall k :: 0 <= k < |order| ==> order[k] < n) && forall i :: 0 <= i < n ==> i in order
  }

  /** One pass over the rows in the given order; returns how many were deleted. */
  method OneSingletonRemoval(m: Matrix, order: seq<nat>) returns (removed: nat)
    requires m.Valid() && Visits(order, |m.rows|)
    modifies m`rows, m`columnWeights, m`remainingRows, m`remainingColumns
    ensures m.Valid() && m.Rel() == old(m.Rel()) && |m.rows| == old(|m.rows|)
    ensures Spared(m.Rel(), old(m.Live()), m.Live())
    ensures m.Excess() >= old(m.Excess())
    ensures removed == old(m.remainingRows) - m.remainingRows
    ensures removed == 0 ==> m.Live() == old(m.Live()) && NoSingletons(m.Rel(), m.Live())
    ensures removed == 0 ==> m.remainingColumns == old(m.remainingColumns)
  {
    var rowsBefore := m.remainingRows;
    ghost var live := m.Live();
    for k := 0 to |order|
      invariant m.Valid() && m.Rel() == old(m.Rel()) && |m.rows| == old(|m.rows|)
      invariant Spared(m.Rel(), live, m.Live()) && m.Excess() >= old(m.Excess())
      invariant m.remainingRows <= rowsBefore
      invariant m.remainingRows == rowsBefore ==>
                  m.Live() == live && m.remainingColumns == old(m.remainingColumns) && forall x :: 0 <= x < k ==> order[x] in live ==> !HasSingleton(m.Rel(), live, order[x])
    {
      var i := order[k];
      if m.rows[i].Active? {
        var lone := HasLoneCell(m, i);
        if lone {
          DeleteSingleton(m, i);
        }
      }
    }
    removed := rowsBefore - m.remainingRows;
    if removed == 0 {
      forall i | i in m.Live() ensures !HasSingleton(m.Rel(), m.Live(), i) {
        assert i in order;
      }
    }
  }

  lemma SparedTransitive(r: Relations, a: set<nat>, b: set<nat>, c: set<nat>)
    requires Spared(r, a, b) && Spared(r, b, c)
    ensures Spared(r, a, c)
  {
  }

  /** Passes until one of them deletes nothing; `schedule(n)` is the order of pass n.  Whatever the
      orders, what is left is the largest subset without singletons. */
  method SingletonRemoval(m: Matrix, schedule: nat -> seq<nat>) returns (excess: int)
    requires m.Valid() && forall n: nat :: Visits(schedule(n), |m.rows|)
    modifies m`rows, m`columnWeights, m`remainingRows, m`remainingColumns
    ensures m.Valid() && m.Rel() == old(m.Rel()) && |m.rows| == old(|m.rows|)
    ensures IsCore(m.Rel(), old(m.Live()), m.Live())
    ensures excess == m.Excess() >= old(m.Excess())
  {
    ghost var start := m.Live();
    var iter := 0;
    while true
      invariant m.Valid() && m.Rel() == old(m.Rel()) && |m.rows| == old(|m.rows|)
      invariant Spared(m.Rel(), start, m.Live()) && m.Excess() >= old(m.Excess())
      decreases m.remainingRows
    {
      ghost var live := m.Live();
      excess := m.Excess();
      var removed := OneSingletonRemoval(m, schedule(iter));
      SparedTransitive(m.Rel(), start, live, m.Live());
      iter := iter + 1;
      if removed == 0 {
        break;
      }
    }
  }
}
