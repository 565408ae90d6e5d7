/** `compute_R`: the transpose of the light part of the matrix, built by threads that take slots
    with atomic decrements of shared pointers. */
module Transpose {
  import opened SortedRows
  import opened SpanningTree
  import opened ColumnWeights
  import opened MergeMatrix
  import opened MergeTree

  /** The columns that take part in a pass. */
  predicate Light(wt: seq<nat>, cwmax: nat, j: nat) {
    j < |wt| && 0 < wt[j] <= cwmax
  }

  /** How many light columns there are in [j0, j). */
  function Rank(wt: seq<nat>, cwmax: nat, j0: nat, j: nat): nat
    decreases j
  {
    if j <= j0 then 0 else Rank(wt, cwmax, j0, j - 1) + (if Light(wt, cwmax, j - 1) then 1 else 0)
  }

  /** The total weight of the light columns in [j0, j): where the slot range of column j begins. */
  function Base(wt: seq<nat>, cwmax: nat, j0: nat, j: nat): nat
    decreases j
  {
    if j <= j0 then 0 else Base(wt, cwmax, j0, j - 1) + (if Light(wt, cwmax, j - 1) then wt[j - 1] else 0)
  }

  lemma {:induction false} Monotone(wt: seq<nat>, cwmax: nat, j0: nat, i: nat, j: nat)
    requires i <= j
    ensures Rank(wt, cwmax, j0, i) <= Rank(wt, cwmax, j0, j)
    ensures Base(wt, cwmax, j0, i) <= Base(wt, cwmax, j0, j)
    decreases j
  {
    if i < j {
      Monotone(wt, cwmax, j0, i, j - 1);
    }
  }

  /** Distinct light columns have distinct numbers and disjoint slot ranges. */
  lemma Apart(wt: seq<nat>, cwmax: nat, j0: nat, i: nat, j: nat)
    requires j0 <= i < j && Light(wt, cwmax, i)
    ensures Rank(wt, cwmax, j0, i) < Rank(wt, cwmax, j0, j)
    ensures Base(wt, cwmax, j0, i + 1) <= Base(wt, cwmax, j0, j)
  {
    Monotone(wt, cwmax, j0, i + 1, j);
  }

  /** The numbering is that of increasing columns, and each pointer is at the end of its range. */
  ghost predicate Numbered(wt: seq<nat>, cwmax: nat, j0: nat, upto: nat, Rp: seq<nat>, Rq: seq<nat>, Rqinv: seq<nat>) {
    && |Rq| >= |wt| && |Rp| > |wt| && |Rqinv| >= |wt|
    && forall j {:trigger Light(wt, cwmax, j)} :: j0 <= j < upto && Light(wt, cwmax, j) ==>
                   && Rq[j] == Rank(wt, cwmax, j0, j) < |wt|
                   && Rqinv[Rq[j]] == j
                   && Rp[Rq[j]] == Base(wt, cwmax, j0, j + 1)
  }

  lemma {:induction false} RankBound(wt: seq<nat>, cwmax: nat, j0: nat, j: nat)
    ensures Rank(wt, cwmax, j0, j) <= if j <= j0 then 0 else j - j0
    decreases j
  {
    if j > j0 {
      RankBound(wt, cwmax, j0, j - 1);
    }
  }

  /** Boundaries of the consecutive column ranges that a static schedule gives to the threads. */
  ghost predicate Cuts(cut: seq<nat>, j0: nat, ncols: nat) {
    && |cut| >= 2 && cut[0] == j0 && cut[|cut| - 1] == ncols
    && forall t :: 0 <= t < |cut| - 1 ==> cut[t] <= cut[t + 1]
  }

  lemma {:induction false} CutsOrdered(cut: seq<nat>, j0: nat, ncols: nat, t: nat)
    requires Cuts(cut, j0, ncols) && t < |cut|
    ensures j0 <= cut[t] <= ncols
  {
    if t > 0 {
      CutsOrdered(cut, j0, ncols, t - 1);
      assert cut[t - 1] <= cut[t];
    }
    CutBelowLast(cut, j0, ncols, t);
  }

  lemma {:induction false} CutBelowLast(cut: seq<nat>, j0: nat, ncols: nat, t: nat)
    requires Cuts(cut, j0, ncols) && t < |cut|
    ensures cut[t] <= ncols
    decreases |cut| - t
  {
    if t < |cut| - 1 {
      assert cut[t] <= cut[t + 1];
      CutBelowLast(cut, j0, ncols, t + 1);
    }
  }

  /** First loop of one thread: the number and total weight of the light columns in its range. */
  method CountRange(wt: seq<nat>, cwmax: nat, j0: nat, lo: nat, hi: nat) returns (n: nat, nz: nat)
    requires j0 <= lo <= hi <= |wt|
    ensures n == Rank(wt, cwmax, j0, hi) - Rank(wt, cwmax, j0, lo)
    ensures nz == Base(wt, cwmax, j0, hi) - Base(wt, cwmax, j0, lo)
  {
    n, nz := 0, 0;
    for j := lo to hi
      invariant n == Rank(wt, cwmax, j0, j) - Rank(wt, cwmax, j0, lo)
      invariant nz == Base(wt, cwmax, j0, j) - Base(wt, cwmax, j0, lo)
    {
      var w := wt[j];
      if 0 < w <= cwmax {
        nz := nz + w;
        n := n + 1;
      }
    }
  }

  lemma NumberedSkip(wt: seq<nat>, cwmax: nat, j0: nat, j: nat, Rp: seq<nat>, Rq: seq<nat>, Rqinv: seq<nat>)
    requires Numbered(wt, cwmax, j0, j, Rp, Rq, Rqinv) && !Light(wt, cwmax, j)
    ensures Numbered(wt, cwmax, j0, j + 1, Rp, Rq, Rqinv)
  {
  }

  lemma NumberedStep(wt: seq<nat>, cwmax: nat, j0: nat, j: nat, Rp: seq<nat>, Rq: seq<nat>, Rqinv: seq<nat>)
    requires Numbered(wt, cwmax, j0, j, Rp, Rq, Rqinv) && j0 <= j && Light(wt, cwmax, j)
    ensures var n := Rank(wt, cwmax, j0, j);
            && n <= j
            && Numbered(wt, cwmax, j0, j + 1, Rp[n := Base(wt, cwmax, j0, j) + wt[j]], Rq[j := n], Rqinv[n := j])
  {
    RankBound(wt, cwmax, j0, j);
    forall i | j0 <= i < j && Light(wt, cwmax, i) ensures Rank(wt, cwmax, j0, i) < Rank(wt, cwmax, j0, j) {
      Apart(wt, cwmax, j0, i, j);
    }
  }

  method NumberOne(j: nat, n: nat, nz: nat, Rp: array<nat>, Rq: array<nat>, Rqinv: array<nat>)
    requires j < Rq.Length && n < Rqinv.Length && n < Rp.Length && Rp != Rq && Rp != Rqinv && Rq != Rqinv
    modifies Rp, Rq, Rqinv
    ensures Rp[..] == old(Rp[..])[n := nz] && Rq[..] == old(Rq[..])[j := n] && Rqinv[..] == old(Rqinv[..])[n := j]
  {
    Rq[j] := n;
    Rqinv[n] := j;
    Rp[n] := nz;
  }

  method NumberIfLight(wt: seq<nat>, cwmax: nat, ghost j0: nat, j: nat, n: nat, nz: nat,
                       Rp: array<nat>, Rq: array<nat>, Rqinv: array<nat>, ghost slot: nat)
    returns (n': nat, nz': nat)
    requires slot < Rp.Length && Rank(wt, cwmax, j0, j + 1) <= slot
    requires j0 <= j < |wt| && Rp != Rq && Rp != Rqinv && Rq != Rqinv
    requires n == Rank(wt, cwmax, j0, j) && nz == Base(wt, cwmax, j0, j)
    requires Numbered(wt, cwmax, j0, j, Rp[..], Rq[..], Rqinv[..])
    modifies Rp, Rq, Rqinv
    ensures n' == Rank(wt, cwmax, j0, j + 1) && nz' == Base(wt, cwmax, j0, j + 1)
    ensures Numbered(wt, cwmax, j0, j + 1, Rp[..], Rq[..], Rqinv[..])
    ensures Rp[slot] == old(Rp[slot])
  {
    if 0 < wt[j] <= cwmax {
      NumberedStep(wt, cwmax, j0, j, Rp[..], Rq[..], Rqinv[..]);
      n', nz' := n + 1, nz + wt[j];
      NumberOne(j, n, nz', Rp, Rq, Rqinv);
    } else {
      NumberedSkip(wt, cwmax, j0, j, Rp[..], Rq[..], Rqinv[..]);
      n', nz' := n, nz;
    }
  }

  /** Second loop of one thread: numbers the light columns of its range from the prefix sums. */
  method NumberRange(wt: seq<nat>, cwmax: nat, j0: nat, lo: nat, hi: nat, n0: nat, nz0: nat,
                     Rp: array<nat>, Rq: array<nat>, Rqinv: array<nat>, ghost slot: nat)
    requires j0 <= lo <= hi <= |wt| && Rp != Rq && Rp != Rqinv && Rq != Rqinv
    requires n0 == Rank(wt, cwmax, j0, lo) && nz0 == Base(wt, cwmax, j0, lo)
    requires Numbered(wt, cwmax, j0, lo, Rp[..], Rq[..], Rqinv[..])
    requires slot < Rp.Length && Rank(wt, cwmax, j0, hi) <= slot
    modifies Rp, Rq, Rqinv
    ensures Numbered(wt, cwmax, j0, hi, Rp[..], Rq[..], Rqinv[..])
    ensures Rp[slot] == old(Rp[slot])
  {
    var n, nz := n0, nz0;
    for j := lo to hi
      invariant n == Rank(wt, cwmax, j0, j) && nz == Base(wt, cwmax, j0, j)
      invariant Numbered(wt, cwmax, j0, j, Rp[..], Rq[..], Rqinv[..])
      invariant Rp[slot] == old(Rp[slot])
    {
      Monotone(wt, cwmax, j0, j + 1, hi);
      n, nz := NumberIfLight(wt, cwmax, j0, j, n, nz, Rp, Rq, Rqinv, slot);
    }
  }

  /** Both loops with the prefix sums in between, for any split of the columns over threads. */
  method NumberColumns(wt: seq<nat>, cwmax: nat, j0: nat, cut: seq<nat>,
                       Rp: array<nat>, Rq: array<nat>, Rqinv: array<nat>)
    returns (Rn: nat)
    requires Cuts(cut, j0, |wt|) && j0 <= |wt|
    requires Rp != Rq && Rp != Rqinv && Rq != Rqinv
    requires Rp.Length > |wt| && Rq.Length >= |wt| && Rqinv.Length >= |wt|
    modifies Rp, Rq, Rqinv
    ensures Rn == Rank(wt, cwmax, j0, |wt|) <= |wt|
    ensures Numbered(wt, cwmax, j0, |wt|, Rp[..], Rq[..], Rqinv[..])
    ensures Rp[Rn] == Base(wt, cwmax, j0, |wt|)
  {
    var ns, nzs: seq<nat> := [0], [0];
    for t := 0 to |cut| - 1
      invariant |ns| == |nzs| == t + 1
      invariant forall u {:trigger ns[u]} {:trigger nzs[u]} :: 0 <= u <= t ==>
                  ns[u] == Rank(wt, cwmax, j0, cut[u]) && nzs[u] == Base(wt, cwmax, j0, cut[u])
    {
      CutsOrdered(cut, j0, |wt|, t);
      CutsOrdered(cut, j0, |wt|, t + 1);
      var n, nz := CountRange(wt, cwmax, j0, cut[t], cut[t + 1]);
      ns, nzs := ns + [ns[t] + n], nzs + [nzs[t] + nz];
    }
    Rn := ns[|cut| - 1];
    RankBound(wt, cwmax, j0, |wt|);
    Rp[Rn] := nzs[|cut| - 1];
    for t := 0 to |cut| - 1
      invariant Numbered(wt, cwmax, j0, cut[t], Rp[..], Rq[..], Rqinv[..])
      invariant Rp[Rn] == Base(wt, cwmax, j0, |wt|)
    {
      CutsOrdered(cut, j0, |wt|, t);
      CutsOrdered(cut, j0, |wt|, t + 1);
      Monotone(wt, cwmax, j0, cut[t + 1], |wt|);
      NumberRange(wt, cwmax, j0, cut[t], cut[t + 1], ns[t], nzs[t], Rp, Rq, Rqinv, Rn);
    }
  }

  // ----- Dispatching the entries -----

  /** The entries to dispatch, in the order in which the threads happen to take their slots. */
  ghost predicate ListsEntries(rows: seq<set<nat>>, wt: seq<nat>, cwmax: nat, j0: nat, todo: seq<Entry>) {
    && (forall x, y :: 0 <= x < y < |todo| ==> todo[x] != todo[y])
    && (forall e :: e in todo <==> e.row < |rows| && e.col in rows[e.row] && j0 <= e.col < |wt| && wt[e.col] <= cwmax)
  }

  /** Every row has been scanned from its last cell down to where `left` says, and the entries to
      dispatch among those cells are in `todo`. */
  ghost predicate Scanned(rows: seq<Row>, wt: seq<nat>, cwmax: nat, j0: nat, left: seq<nat>, todo: seq<Entry>) {
    && |left| == |rows|
    && (forall x, y :: 0 <= x < y < |todo| ==> todo[x] != todo[y])
    && (forall i :: 0 <= i < |rows| ==> left[i] <= Length(rows[i]))
    && (forall e :: e in todo <==> e.row < |rows| && e.col in Tail(rows[e.row], left[e.row]) && j0 <= e.col < |wt| && wt[e.col] <= cwmax)
  }

  function Length(r: Row): nat {
    if r.Null? then 0 else |r.cells|
  }

  /** The columns of the cells from position k on. */
  ghost function Tail(r: Row, k: nat): set<nat> {
    if r.Null? || k > |r.cells| then {} else set x | x in r.cells[k..]
  }

  lemma TailStep(r: Row, k: nat)
    requires r.Cells? && k < |r.cells| && Increasing(r.cells)
    ensures Tail(r, k) == Tail(r, k + 1) + {r.cells[k]} && r.cells[k] !in Tail(r, k + 1)
  {
    assert r.cells[k..] == [r.cells[k]] + r.cells[k + 1..];
  }

  /** Below a column under j0 there are only such columns. */
  lemma TailBelow(r: Row, k: nat, j0: nat)
    requires r.Cells? && k < |r.cells| && Increasing(r.cells) && r.cells[k] < j0
    ensures forall x :: x in Tail(r, 0) && x >= j0 ==> x in Tail(r, k + 1)
  {
    forall x | x in Tail(r, 0) && x >= j0 ensures x in Tail(r, k + 1) {
      var y :| 0 <= y < |r.cells| && r.cells[y] == x;
      assert r.cells[k + 1..][y - k - 1] == x;
    }
  }

  lemma TailWithin(r: Row, k: nat)
    ensures Tail(r, k) <= Tail(r, 0)
  {
    forall x | x in Tail(r, k) ensures x in Tail(r, 0) {
      assert x in r.cells;
      assert r.cells[0..] == r.cells;
    }
  }

  /** The scan of row i stops: the cell before position left[i] is of a column under j0. */
  lemma ScanStops(rows: seq<Row>, wt: seq<nat>, cwmax: nat, j0: nat, left: seq<nat>, todo: seq<Entry>, i: nat)
    requires Scanned(rows, wt, cwmax, j0, left, todo) && i < |rows| && RowsValid(rows, |wt|)
    requires left[i] > 0 && rows[i].cells[left[i] - 1] < j0
    ensures Scanned(rows, wt, cwmax, j0, left[i := 0], todo)
  {
    TailBelow(rows[i], left[i] - 1, j0);
    TailWithin(rows[i], left[i]);
    forall e: Entry ensures e in todo <==> e.row < |rows| && e.col in Tail(rows[e.row], left[i := 0][e.row]) && j0 <= e.col < |wt| && wt[e.col] <= cwmax {
    }
  }

  /** The scan of row i passes a cell, which is dispatched if its column is light. */
  lemma ScanPasses(rows: seq<Row>, wt: seq<nat>, cwmax: nat, j0: nat, left: seq<nat>, todo: seq<Entry>, i: nat)
    requires Scanned(rows, wt, cwmax, j0, left, todo) && i < |rows| && RowsValid(rows, |wt|)
    requires left[i] > 0 && rows[i].cells[left[i] - 1] >= j0
    ensures var j := rows[i].cells[left[i] - 1];
            && j < |wt|
            && Scanned(rows, wt, cwmax, j0, left[i := left[i] - 1], if wt[j] <= cwmax then todo + [Entry(i, j)] else todo)
  {
    var j := rows[i].cells[left[i] - 1];
    assert j in rows[i].cells;
    TailStep(rows[i], left[i] - 1);
    assert Entry(i, j) !in todo;
  }

  /** Each row has had as many turns as it has cells, or is finished. */
  ghost predicate Turns(rows: seq<Row>, left: seq<nat>, done: seq<nat>) {
    |left| == |rows| && forall i :: 0 <= i < |rows| ==> left[i] == 0 || multiset(done)[i] + left[i] <= Length(rows[i])
  }

  lemma TurnsStep(rows: seq<Row>, left: seq<nat>, done: seq<nat>, i: nat, k: nat)
    requires Turns(rows, left, done) && i < |rows| && (k == 0 || k < left[i])
    ensures Turns(rows, left[i := k], done + [i])
  {
  }

  /** The scan of row i advances by one cell, if it is not finished. */
  method ScanCell(rows: seq<Row>, wt: seq<nat>, cwmax: nat, j0: nat, left: seq<nat>, todo: seq<Entry>, i: nat)
    returns (k: nat, todo': seq<Entry>)
    requires RowsValid(rows, |wt|) && i < |rows| && Scanned(rows, wt, cwmax, j0, left, todo)
    ensures Scanned(rows, wt, cwmax, j0, left[i := k], todo') && (k == 0 || k < left[i])
  {
    k, todo' := 0, todo;
    if left[i] == 0 {
      assert left[i := 0] == left;
      return;
    }
    assert left[i] <= Length(rows[i]);
    var j := rows[i].cells[left[i] - 1];
    if j < j0 {
      ScanStops(rows, wt, cwmax, j0, left, todo, i);
    } else {
      ScanPasses(rows, wt, cwmax, j0, left, todo, i);
      k := left[i] - 1;
      if wt[j] <= cwmax {
        todo' := todo + [Entry(i, j)];
      }
    }
  }

  function Lengths(rows: seq<Row>): (left: seq<nat>)
    ensures |left| == |rows| && forall i :: 0 <= i < |left| ==> left[i] == Length(rows[i])
  {
    seq(|rows|, i requires 0 <= i < |rows| => Length(rows[i]))
  }

  lemma NothingScanned(rows: seq<Row>, wt: seq<nat>, cwmax: nat, j0: nat)
    ensures Scanned(rows, wt, cwmax, j0, Lengths(rows), []) && Turns(rows, Lengths(rows), [])
  {
  }

  lemma AllTurns(rows: seq<Row>, left: seq<nat>, turns: seq<nat>)
    requires Turns(rows, left, turns) && forall i :: 0 <= i < |rows| ==> multiset(turns)[i] >= Length(rows[i])
    ensures forall i :: 0 <= i < |rows| ==> left[i] == 0
  {
  }

  /** The scans of all rows, advancing in the order given by `turns`, one cell at a time. */
  method ScanRows(rows: seq<Row>, wt: seq<nat>, cwmax: nat, j0: nat, turns: seq<nat>) returns (todo: seq<Entry>)
    requires RowsValid(rows, |wt|) && forall s :: 0 <= s < |turns| ==> turns[s] < |rows|
    requires forall i :: 0 <= i < |rows| ==> multiset(turns)[i] >= Length(rows[i])
    ensures ListsEntries(SetsOf(rows), wt, cwmax, j0, todo)
  {
    var left: seq<nat> := Lengths(rows);
    todo := [];
    NothingScanned(rows, wt, cwmax, j0);
    for s := 0 to |turns|
      invariant Scanned(rows, wt, cwmax, j0, left, todo)
      invariant Turns(rows, left, turns[..s])
    {
      var k;
      k, todo := ScanCell(rows, wt, cwmax, j0, left, todo, turns[s]);
      TurnsStep(rows, left, turns[..s], turns[s], k);
      assert turns[..s + 1] == turns[..s] + [turns[s]];
      left := left[turns[s] := k];
    }
    assert turns[..|turns|] == turns;
    AllTurns(rows, left, turns);
    AllScanned(rows, wt, cwmax, j0, left, todo);
  }

  lemma AllScanned(rows: seq<Row>, wt: seq<nat>, cwmax: nat, j0: nat, left: seq<nat>, todo: seq<Entry>)
    requires Scanned(rows, wt, cwmax, j0, left, todo) && forall i :: 0 <= i < |rows| ==> left[i] == 0
    ensures ListsEntries(SetsOf(rows), wt, cwmax, j0, todo)
  {
    forall i | 0 <= i < |rows| ensures Tail(rows[i], left[i]) == SetsOf(rows)[i] {
      if rows[i].Cells? {
        assert rows[i].cells[0..] == rows[i].cells;
      }
    }
  }

  /** The rows dispatched to column j, first come first. */
  ghost function Taken(todo: seq<Entry>, j: nat): seq<nat> {
    if todo == [] then []
    else
      var n := |todo| - 1;
      Taken(todo[..n], j) + (if todo[n].col == j then [todo[n].row] else [])
  }

  lemma {:induction false} TakenRows(todo: seq<Entry>, j: nat)
    requires forall x, y :: 0 <= x < y < |todo| ==> todo[x] != todo[y]
    ensures Distinct(Taken(todo, j))
    ensures forall i :: i in Taken(todo, j) <==> Entry(i, j) in todo
  {
    if todo != [] {
      var n := |todo| - 1;
      TakenRows(todo[..n], j);
      assert todo == todo[..n] + [todo[n]];
      assert todo[n] !in todo[..n];
      var t := Taken(todo[..n], j);
      if todo[n].col == j {
        assert todo[n].row !in t;
        forall x | 0 <= x < |t| ensures t[x] != todo[n].row {
          assert t[x] in t;
        }
      }
    }
  }

  lemma TakenStep(todo: seq<Entry>, n: nat, j: nat)
    requires n < |todo|
    ensures Taken(todo[..n + 1], j) == Taken(todo[..n], j) + (if todo[n].col == j then [todo[n].row] else [])
  {
    assert todo[..n + 1][..n] == todo[..n];
  }

  lemma {:induction false} TakenGrows(todo: seq<Entry>, n: nat, j: nat)
    requires n <= |todo|
    ensures |Taken(todo[..n], j)| <= |Taken(todo, j)|
    decreases |todo| - n
  {
    if n == |todo| {
      assert todo[..n] == todo;
    } else {
      TakenStep(todo, n, j);
      TakenGrows(todo, n + 1, j);
    }
  }

  /** A light column with an exact weight is dispatched to as often as its weight says. */
  lemma TakenCount(rows: seq<set<nat>>, wt: seq<nat>, cwmax: nat, j0: nat, todo: seq<Entry>, j: nat)
    requires ListsEntries(rows, wt, cwmax, j0, todo) && Exact(Bits(rows, wt)) && cwmax <= MERGE_LEVEL_MAX
    requires j0 <= j && Light(wt, cwmax, j)
    ensures |Taken(todo, j)| == wt[j] && Distinct(Taken(todo, j))
    ensures forall i: nat :: i in Taken(todo, j) <==> i in Column(rows, j)
  {
    TakenRows(todo, j);
    var t := Taken(todo, j);
    forall i: nat ensures i in t <==> i in Column(rows, j) {
      assert Entry(i, j) in todo <==> i in t;
    }
    DistinctSize(t, Column(rows, j));
  }

  lemma {:induction false} DistinctSize(t: seq<nat>, s: set<nat>)
    requires Distinct(t) && forall i :: i in t <==> i in s
    ensures |t| == |s|
    decreases |t|
  {
    if t == [] {
      assert s == {};
    } else {
      var n := |t| - 1;
      assert t == t[..n] + [t[n]];
      assert t[n] in s;
      DistinctSize(t[..n], s - {t[n]});
    }
  }

  /** After n entries: each pointer has moved back once per entry of its column, and the slots it
      has passed hold the rows of those entries. */
  ghost predicate Dispatched(wt: seq<nat>, cwmax: nat, j0: nat, todo: seq<Entry>, n: nat,
                             Rp: seq<nat>, Rq: seq<nat>, Ri: seq<nat>)
    requires n <= |todo|
  {
    forall j {:trigger Light(wt, cwmax, j)} :: j0 <= j && Light(wt, cwmax, j) ==> ColumnDispatched(wt, cwmax, j0, todo[..n], j, Rp, Rq, Ri)
  }

  ghost predicate ColumnDispatched(wt: seq<nat>, cwmax: nat, j0: nat, done: seq<Entry>, j: nat,
                                   Rp: seq<nat>, Rq: seq<nat>, Ri: seq<nat>)
    requires Light(wt, cwmax, j)
  {
    var t, end := Taken(done, j), Base(wt, cwmax, j0, j + 1);
    && |t| <= wt[j] && j0 <= j && end <= |Ri|
    && j < |Rq| && Rq[j] == Rank(wt, cwmax, j0, j) < |Rp| && Rp[Rq[j]] == end - |t|
    && forall x {:trigger t[x]} :: 0 <= x < |t| ==> Ri[end - 1 - x] == t[x]
  }

  /** Taking a slot for a column leaves the ranges of all others alone. */
  lemma DispatchOther(wt: seq<nat>, cwmax: nat, j0: nat, todo: seq<Entry>, n: nat, j: nat,
                      Rp: seq<nat>, Rq: seq<nat>, Ri: seq<nat>, p: nat)
    requires n < |todo| && j0 <= j && Light(wt, cwmax, j) && j != todo[n].col
    requires j0 <= todo[n].col && Light(wt, cwmax, todo[n].col)
    requires ColumnDispatched(wt, cwmax, j0, todo[..n], j, Rp, Rq, Ri)
    requires todo[n].col < |Rq| && Rq[todo[n].col] == Rank(wt, cwmax, j0, todo[n].col) < |Rp|
    requires Base(wt, cwmax, j0, todo[n].col) <= p < Base(wt, cwmax, j0, todo[n].col + 1) && p < |Ri|
    ensures ColumnDispatched(wt, cwmax, j0, todo[..n + 1], j, Rp[Rq[todo[n].col] := p], Rq, Ri[p := todo[n].row])
  {
    TakenStep(todo, n, j);
    var col := todo[n].col;
    if j < col {
      Apart(wt, cwmax, j0, j, col);
    } else {
      Apart(wt, cwmax, j0, col, j);
    }
  }

  lemma DispatchSame(wt: seq<nat>, cwmax: nat, j0: nat, todo: seq<Entry>, n: nat,
                     Rp: seq<nat>, Rq: seq<nat>, Ri: seq<nat>)
    requires n < |todo| && j0 <= todo[n].col && Light(wt, cwmax, todo[n].col)
    requires ColumnDispatched(wt, cwmax, j0, todo[..n], todo[n].col, Rp, Rq, Ri)
    requires |Taken(todo[..n + 1], todo[n].col)| <= wt[todo[n].col]
    ensures var id := Rq[todo[n].col];
            && id < |Rp| && Base(wt, cwmax, j0, todo[n].col) < Rp[id] <= Base(wt, cwmax, j0, todo[n].col + 1) <= |Ri|
            && ColumnDispatched(wt, cwmax, j0, todo[..n + 1], todo[n].col, Rp[id := Rp[id] - 1], Rq, Ri[Rp[id] - 1 := todo[n].row])
  {
    TakenStep(todo, n, todo[n].col);
  }

  lemma DispatchStep(rows: seq<set<nat>>, wt: seq<nat>, cwmax: nat, j0: nat, todo: seq<Entry>, n: nat,
                     Rp: seq<nat>, Rq: seq<nat>, Ri: seq<nat>)
    requires ListsEntries(rows, wt, cwmax, j0, todo) && Exact(Bits(rows, wt)) && cwmax <= MERGE_LEVEL_MAX && n < |todo|
    requires Dispatched(wt, cwmax, j0, todo, n, Rp, Rq, Ri)
    ensures todo[n].col < |Rq| && Rq[todo[n].col] < |Rp| && 0 < Rp[Rq[todo[n].col]] <= |Ri|
    ensures Rq[todo[n].col] < Rank(wt, cwmax, j0, |wt|)
    ensures var id := Rq[todo[n].col]; var p := Rp[id] - 1;
            Dispatched(wt, cwmax, j0, todo, n + 1, Rp[id := p], Rq, Ri[p := todo[n].row])
  {
    var col := todo[n].col;
    LightEntry(rows, wt, cwmax, j0, todo, n);
    assert ColumnDispatched(wt, cwmax, j0, todo[..n], col, Rp, Rq, Ri);
    assert |Taken(todo[..n + 1], col)| <= wt[col] by {
      TakenCount(rows, wt, cwmax, j0, todo, col);
      TakenGrows(todo, n + 1, col);
    }
    Apart(wt, cwmax, j0, col, |wt|);
    DispatchSame(wt, cwmax, j0, todo, n, Rp, Rq, Ri);
    forall j | j0 <= j && Light(wt, cwmax, j) && j != col
      ensures ColumnDispatched(wt, cwmax, j0, todo[..n + 1], j, Rp[Rq[col] := Rp[Rq[col]] - 1], Rq, Ri[Rp[Rq[col]] - 1 := todo[n].row])
    {
      DispatchOther(wt, cwmax, j0, todo, n, j, Rp, Rq, Ri, Rp[Rq[col]] - 1);
    }
  }

  lemma LightEntry(rows: seq<set<nat>>, wt: seq<nat>, cwmax: nat, j0: nat, todo: seq<Entry>, n: nat)
    requires ListsEntries(rows, wt, cwmax, j0, todo) && Exact(Bits(rows, wt)) && cwmax <= MERGE_LEVEL_MAX && n < |todo|
    ensures j0 <= todo[n].col && Light(wt, cwmax, todo[n].col)
  {
    assert todo[n] in todo;
    assert todo[n].row in Column(rows, todo[n].col);
  }

  /** The atomic decrement and the write to the slot it yields. */
  method TakeSlot(Rp: array<nat>, Ri: array<nat>, id: nat, row: nat)
    requires Rp != Ri && id < Rp.Length && 0 < Rp[id] <= Ri.Length
    modifies Rp, Ri
    ensures Rp[..] == old(Rp[..])[id := old(Rp[id]) - 1] && Ri[..] == old(Ri[..])[old(Rp[id]) - 1 := row]
  {
    Rp[id] := Rp[id] - 1;
    Ri[Rp[id]] := row;
  }

  /** Dispatches the entries in any order of the atomic decrements. */
  method Dispatch(ghost rows: seq<set<nat>>, ghost wt: seq<nat>, ghost cwmax: nat, ghost j0: nat, todo: seq<Entry>,
                  Rp: array<nat>, Rq: array<nat>, Ri: array<nat>)
    requires Rp != Rq && Rp != Ri && Rq != Ri
    requires ListsEntries(rows, wt, cwmax, j0, todo) && Exact(Bits(rows, wt)) && cwmax <= MERGE_LEVEL_MAX
    requires Dispatched(wt, cwmax, j0, todo, 0, Rp[..], Rq[..], Ri[..])
    modifies Rp, Ri
    ensures Dispatched(wt, cwmax, j0, todo, |todo|, Rp[..], Rq[..], Ri[..])
    ensures forall x :: Rank(wt, cwmax, j0, |wt|) <= x < Rp.Length ==> Rp[x] == old(Rp[x])
  {
    for n := 0 to |todo|
      invariant Dispatched(wt, cwmax, j0, todo, n, Rp[..], Rq[..], Ri[..])
      invariant forall x :: Rank(wt, cwmax, j0, |wt|) <= x < Rp.Length ==> Rp[x] == old(Rp[x])
    {
      DispatchStep(rows, wt, cwmax, j0, todo, n, Rp[..], Rq[..], Ri[..]);
      TakeSlot(Rp, Ri, Rq[todo[n].col], todo[n].row);
    }
  }

  // ----- The finished transpose -----

  /** Slice `id` lists the rows that contain column `Rqinv[id]`, each once. */
  ghost predicate SliceOk(rows: seq<set<nat>>, wt: seq<nat>, cwmax: nat, j0: nat, id: nat,
                          Rp: seq<nat>, Ri: seq<nat>, Rqinv: seq<nat>)
    requires id + 1 < |Rp| && id < |Rqinv|
  {
    && j0 <= Rqinv[id] < |wt| && 0 < wt[Rqinv[id]] <= cwmax
    && Rp[id] <= Rp[id + 1] <= |Ri|
    && var ind := Ri[Rp[id]..Rp[id + 1]];
       && Distinct(ind) && |ind| == wt[Rqinv[id]]
       && forall i: nat :: i in ind <==> i in Column(rows, Rqinv[id])
  }

  lemma {:induction false} RankOnto(wt: seq<nat>, cwmax: nat, j0: nat, upto: nat, id: nat) returns (j: nat)
    requires id < Rank(wt, cwmax, j0, upto)
    ensures j0 <= j < upto && Light(wt, cwmax, j) && Rank(wt, cwmax, j0, j) == id
    decreases upto
  {
    if Light(wt, cwmax, upto - 1) && Rank(wt, cwmax, j0, upto - 1) == id {
      j := upto - 1;
    } else {
      j := RankOnto(wt, cwmax, j0, upto - 1, id);
    }
  }

  lemma {:induction false} SameRankSameBase(wt: seq<nat>, cwmax: nat, j0: nat, i: nat, j: nat)
    requires i <= j && Rank(wt, cwmax, j0, i) == Rank(wt, cwmax, j0, j)
    ensures Base(wt, cwmax, j0, i) == Base(wt, cwmax, j0, j)
    decreases j
  {
    if i < j {
      Monotone(wt, cwmax, j0, i, j - 1);
      Monotone(wt, cwmax, j0, j - 1, j);
      SameRankSameBase(wt, cwmax, j0, i, j - 1);
    }
  }

  /** Where the slice after that of column j begins. */
  lemma NextPointer(rows: seq<set<nat>>, wt: seq<nat>, cwmax: nat, j0: nat, todo: seq<Entry>, j: nat,
                    Rp: seq<nat>, Rq: seq<nat>, Ri: seq<nat>)
    requires ListsEntries(rows, wt, cwmax, j0, todo) && Exact(Bits(rows, wt)) && cwmax <= MERGE_LEVEL_MAX
    requires Dispatched(wt, cwmax, j0, todo, |todo|, Rp, Rq, Ri) && j0 <= j && Light(wt, cwmax, j)
    requires Rank(wt, cwmax, j0, |wt|) < |Rp| && Rp[Rank(wt, cwmax, j0, |wt|)] == Base(wt, cwmax, j0, |wt|)
    ensures Rank(wt, cwmax, j0, j) + 1 < |Rp| && Rp[Rank(wt, cwmax, j0, j) + 1] == Base(wt, cwmax, j0, j + 1)
  {
    var id := Rank(wt, cwmax, j0, j);
    Apart(wt, cwmax, j0, j, |wt|);
    if id + 1 == Rank(wt, cwmax, j0, |wt|) {
      SameRankSameBase(wt, cwmax, j0, j + 1, |wt|);
    } else {
      var next := RankOnto(wt, cwmax, j0, |wt|, id + 1);
      if next <= j {
        Monotone(wt, cwmax, j0, next, j);
      }
      SameRankSameBase(wt, cwmax, j0, j + 1, next);
      PointerAtBase(rows, wt, cwmax, j0, todo, next, Rp, Rq, Ri);
    }
  }

  lemma PointerAtBase(rows: seq<set<nat>>, wt: seq<nat>, cwmax: nat, j0: nat, todo: seq<Entry>, j: nat,
                      Rp: seq<nat>, Rq: seq<nat>, Ri: seq<nat>)
    requires ListsEntries(rows, wt, cwmax, j0, todo) && Exact(Bits(rows, wt)) && cwmax <= MERGE_LEVEL_MAX
    requires Dispatched(wt, cwmax, j0, todo, |todo|, Rp, Rq, Ri) && j0 <= j && Light(wt, cwmax, j)
    ensures Rank(wt, cwmax, j0, j) < |Rp| && Rp[Rank(wt, cwmax, j0, j)] == Base(wt, cwmax, j0, j)
  {
    assert todo[..|todo|] == todo;
    assert ColumnDispatched(wt, cwmax, j0, todo, j, Rp, Rq, Ri);
    TakenCount(rows, wt, cwmax, j0, todo, j);
  }

  lemma FinishedSlice(rows: seq<set<nat>>, wt: seq<nat>, cwmax: nat, j0: nat, todo: seq<Entry>, id: nat,
                      Rp: seq<nat>, Rq: seq<nat>, Ri: seq<nat>, Rqinv: seq<nat>)
    requires ListsEntries(rows, wt, cwmax, j0, todo) && Exact(Bits(rows, wt)) && cwmax <= MERGE_LEVEL_MAX
    requires Dispatched(wt, cwmax, j0, todo, |todo|, Rp, Rq, Ri)
    requires Rank(wt, cwmax, j0, |wt|) < |Rp| && Rp[Rank(wt, cwmax, j0, |wt|)] == Base(wt, cwmax, j0, |wt|)
    requires forall j {:trigger Light(wt, cwmax, j)} :: j0 <= j && Light(wt, cwmax, j) ==>
               Rank(wt, cwmax, j0, j) < |Rqinv| && Rqinv[Rank(wt, cwmax, j0, j)] == j
    requires id < Rank(wt, cwmax, j0, |wt|)
    ensures id + 1 < |Rp| && id < |Rqinv| && SliceOk(rows, wt, cwmax, j0, id, Rp, Ri, Rqinv)
  {
    var j := RankOnto(wt, cwmax, j0, |wt|, id);
    PointerAtBase(rows, wt, cwmax, j0, todo, j, Rp, Rq, Ri);
    NextPointer(rows, wt, cwmax, j0, todo, j, Rp, Rq, Ri);
    SliceListing(rows, wt, cwmax, j0, todo, j, Rp, Rq, Ri);
  }

  lemma SliceListing(rows: seq<set<nat>>, wt: seq<nat>, cwmax: nat, j0: nat, todo: seq<Entry>, j: nat, Rp: seq<nat>, Rq: seq<nat>, Ri: seq<nat>)
    requires ListsEntries(rows, wt, cwmax, j0, todo) && Exact(Bits(rows, wt)) && cwmax <= MERGE_LEVEL_MAX
    requires Dispatched(wt, cwmax, j0, todo, |todo|, Rp, Rq, Ri) && j0 <= j && Light(wt, cwmax, j)
    ensures Base(wt, cwmax, j0, j) <= Base(wt, cwmax, j0, j + 1) <= |Ri|
    ensures var ind := Ri[Base(wt, cwmax, j0, j)..Base(wt, cwmax, j0, j + 1)];
            Distinct(ind) && |ind| == wt[j] && forall i: nat :: i in ind <==> i in Column(rows, j)
  {
    assert todo[..|todo|] == todo;
    assert ColumnDispatched(wt, cwmax, j0, todo, j, Rp, Rq, Ri);
    TakenCount(rows, wt, cwmax, j0, todo, j);
    ReversedListing(Taken(todo, j), Ri[Base(wt, cwmax, j0, j)..Base(wt, cwmax, j0, j + 1)], Column(rows, j));
  }

  lemma ReversedListing(t: seq<nat>, r: seq<nat>, s: set<nat>)
    requires |r| == |t| && forall x {:trigger t[x]} :: 0 <= x < |t| ==> r[|t| - 1 - x] == t[x]
    requires Distinct(t) && forall i: nat :: i in t <==> i in s
    ensures Distinct(r) && forall i: nat :: i in r <==> i in s
  {
    forall x | 0 <= x < |r| ensures r[x] == t[|t| - 1 - x] {
      assert r[|t| - 1 - (|t| - 1 - x)] == t[|t| - 1 - x];
    }
    forall i: nat ensures i in r <==> i in t {
      if i in t {
        var x :| 0 <= x < |t| && t[x] == i;
        assert r[|t| - 1 - x] == i;
      }
      if i in r {
        var x :| 0 <= x < |r| && r[x] == i;
        assert t[|t| - 1 - x] == i;
      }
    }
  }

  /** The lists that are built: slice `id` of Ri, from Rp[id] to Rp[id + 1], is for column Rqinv[id]. */
  datatype Lists = Lists(cwmax: nat, j0: nat, Rn: nat, Rp: seq<nat>, Ri: seq<nat>, Rqinv: seq<nat>)

  /** Every slice lists its column, and every light column has a slice. */
  ghost predicate ListsOk(rows: seq<set<nat>>, wt: seq<nat>, l: Lists) {
    && l.Rn < |l.Rp| && l.Rn <= |l.Rqinv|
    && (forall id :: 0 <= id < l.Rn ==> SliceOk(rows, wt, l.cwmax, l.j0, id, l.Rp, l.Ri, l.Rqinv))
    && (forall j :: l.j0 <= j < |wt| && 0 < wt[j] <= l.cwmax ==> j in l.Rqinv[..l.Rn])
  }

  /** Builds the transpose of the columns j >= j0 of weight 1 to cwmax, for any split of the
      columns over threads and any order in which the scans of the rows advance. */
  method ComputeR(rows: seq<Row>, wt: seq<nat>, cwmax: nat, j0: nat, cut: seq<nat>, turns: seq<nat>,
                  Rp: array<nat>, Rq: array<nat>, Rqinv: array<nat>)
    returns (Rn: nat, Ri: array<nat>)
    requires Cuts(cut, j0, |wt|) && j0 <= |wt| && Rp != Rq && Rp != Rqinv && Rq != Rqinv
    requires Rp.Length > |wt| && Rq.Length >= |wt| && Rqinv.Length >= |wt|
    requires RowsValid(rows, |wt|) && Exact(Bits(SetsOf(rows), wt)) && cwmax <= MERGE_LEVEL_MAX
    requires forall s :: 0 <= s < |turns| ==> turns[s] < |rows|
    requires forall i :: 0 <= i < |rows| ==> multiset(turns)[i] >= Length(rows[i])
    modifies Rp, Rq, Rqinv
    ensures ListsOk(SetsOf(rows), wt, Lists(cwmax, j0, Rn, Rp[..], Ri[..], Rqinv[..]))
  {
    Rn := NumberColumns(wt, cwmax, j0, cut, Rp, Rq, Rqinv);
    ghost var inv, f := Rqinv[..], SetsOf(rows);
    var todo := ScanRows(rows, wt, cwmax, j0, turns);
    Ri := new nat[Rp[Rn]];
    assert Dispatched(wt, cwmax, j0, todo, 0, Rp[..], Rq[..], Ri[..]) by {
      NothingDispatched(wt, cwmax, j0, todo, Rp[..], Rq[..], Rqinv[..], Ri[..]);
    }
    Dispatch(f, wt, cwmax, j0, todo, Rp, Rq, Ri);
    forall j | j0 <= j && Light(wt, cwmax, j)
      ensures Rank(wt, cwmax, j0, j) < Rn && inv[Rank(wt, cwmax, j0, j)] == j
    {
      Apart(wt, cwmax, j0, j, |wt|);
    }
    forall id | 0 <= id < Rn ensures SliceOk(f, wt, cwmax, j0, id, Rp[..], Ri[..], Rqinv[..]) {
      FinishedSlice(f, wt, cwmax, j0, todo, id, Rp[..], Rq[..], Ri[..], inv);
    }
    forall j | j0 <= j < |wt| && 0 < wt[j] <= cwmax ensures j in Rqinv[..Rn] {
      assert Light(wt, cwmax, j);
      assert Rqinv[..Rn][Rank(wt, cwmax, j0, j)] == j;
    }
  }

  lemma NothingDispatched(wt: seq<nat>, cwmax: nat, j0: nat, todo: seq<Entry>, Rp: seq<nat>, Rq: seq<nat>, Rqinv: seq<nat>, Ri: seq<nat>)
    requires Numbered(wt, cwmax, j0, |wt|, Rp, Rq, Rqinv) && |Ri| == Base(wt, cwmax, j0, |wt|)
    ensures Dispatched(wt, cwmax, j0, todo, 0, Rp, Rq, Ri)
  {
    forall j | j0 <= j && Light(wt, cwmax, j) ensures ColumnDispatched(wt, cwmax, j0, todo[..0], j, Rp, Rq, Ri) {
      Monotone(wt, cwmax, j0, j + 1, |wt|);
    }
  }
}
