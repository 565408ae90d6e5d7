/** The relation matrix of `purge`: rows that can be deleted and one-byte saturating column weights. */
module PurgeMatrix {
  import opened XorSets
  import opened PurgeGraph

  /** Weights are one byte; the largest value means "that many or more" and is never changed. */
  const OVERWEIGHT := 255

  datatype Row = Deleted | Active(cells: seq<nat>)

  ghost function CellSet(cells: seq<nat>): set<nat> {
    set h | h in cells
  }

  ghost predicate AllDifferent(s: seq<nat>) {
    forall i, j :: 0 <= i < j < |s| ==> s[i] != s[j]
  }

  ghost function Positive(wt: seq<nat>): set<nat> {
    set h: nat | 0 <= h < |wt| && wt[h] > 0
  }

  ghost function Saturated(wt: seq<nat>): set<nat> {
    set h: nat | 0 <= h < |wt| && wt[h] == OVERWEIGHT
  }

  /** Columns that were counted but are outside the range of interest. */
  ghost function Outside(wt: seq<nat>, col0: nat, col1: nat): set<nat> {
    set h: nat | 0 <= h < |wt| && wt[h] > 0 && !(col0 <= h < col1)
  }

  ghost function RelationsOf(contents: seq<set<nat>>, wt: seq<nat>, col0: nat, col1: nat): Relations {
    Relations(contents, Saturated(wt), Outside(wt, col0, col1))
  }

  ghost function LiveRows(rows: seq<Row>): set<nat> {
    set i: nat | 0 <= i < |rows| && rows[i].Active?
  }

  /** The rows hold what was loaded, restricted to the columns of interest. */
  ghost predicate RowsMatch(rows: seq<Row>, contents: seq<set<nat>>, col0: nat, col1: nat, ncols: nat) {
    && |rows| == |contents|
    && (forall i :: 0 <= i < |rows| && rows[i].Active? ==> AllDifferent(rows[i].cells) && CellSet(rows[i].cells) == contents[i])
    && (forall i, h :: 0 <= i < |rows| && h in contents[i] ==> col0 <= h < col1 && h < ncols)
  }

  /** Unsaturated weights of columns of interest are exact. */
  ghost predicate WeightsExact(r: Relations, live: set<nat>, wt: seq<nat>, col0: nat, col1: nat) {
    forall h {:trigger wt[h]} :: col0 <= h < col1 && h < |wt| && wt[h] < OVERWEIGHT ==> wt[h] == Weight(r, live, h)
  }

  /** The weights after the first k cells of a row have been taken away. */
  ghost predicate TakenAway(before: seq<nat>, after: seq<nat>, cells: seq<nat>, k: nat)
    requires k <= |cells|
  {
    && |after| == |before|
    && forall h {:trigger after[h]} :: 0 <= h < |before| ==>
         after[h] + (if h in cells[..k] && before[h] < OVERWEIGHT then 1 else 0) == before[h]
  }

  /** The columns among the first k cells that had weight one. */
  ghost function Killed(before: seq<nat>, cells: seq<nat>, k: nat): set<nat>
    requires k <= |cells|
  {
    set h | h in cells[..k] && h < |before| && before[h] == 1
  }

  lemma KilledStep(before: seq<nat>, cells: seq<nat>, k: nat)
    requires k < |cells| && cells[k] < |before| && AllDifferent(cells)
    ensures |Killed(before, cells, k + 1)| == |Killed(before, cells, k)| + (if before[cells[k]] == 1 then 1 else 0)
  {
    assert cells[..k + 1] == cells[..k] + [cells[k]];
    assert cells[k] !in cells[..k];
    if before[cells[k]] == 1 {
      assert Killed(before, cells, k + 1) == Killed(before, cells, k) + {cells[k]};
    } else {
      assert Killed(before, cells, k + 1) == Killed(before, cells, k);
    }
  }

  lemma TakenAwayStep(before: seq<nat>, after: seq<nat>, cells: seq<nat>, k: nat)
    requires k < |cells| && cells[k] < |before| && AllDifferent(cells) && TakenAway(before, after, cells, k)
    requires before[cells[k]] > 0
    ensures after[cells[k]] == before[cells[k]]
    ensures TakenAway(before, if before[cells[k]] < OVERWEIGHT then after[cells[k] := after[cells[k]] - 1] else after, cells, k + 1)
  {
    assert cells[..k + 1] == cells[..k] + [cells[k]];
    assert cells[k] !in cells[..k];
  }

  lemma PositiveAfter(before: seq<nat>, after: seq<nat>, cells: seq<nat>)
    requires TakenAway(before, after, cells, |cells|) && forall h :: h in cells ==> h < |before| && before[h] > 0
    ensures Positive(after) == Positive(before) - Killed(before, cells, |cells|)
    ensures |Positive(after)| == |Positive(before)| - |Killed(before, cells, |cells|)|
    ensures Saturated(after) == Saturated(before)
  {
    assert cells[..|cells|] == cells;
    assert Killed(before, cells, |cells|) <= Positive(before);
  }

  lemma ExactAfter(r: Relations, live: set<nat>, i: nat, before: seq<nat>, after: seq<nat>, cells: seq<nat>, col0: nat, col1: nat)
    requires i in live && i < |r.f| && CellSet(cells) == r.f[i]
    requires WeightsExact(r, live, before, col0, col1) && TakenAway(before, after, cells, |cells|)
    ensures WeightsExact(r, live - {i}, after, col0, col1)
  {
    assert cells[..|cells|] == cells;
    forall h | col0 <= h < col1 && h < |after| && after[h] < OVERWEIGHT ensures after[h] == Weight(r, live - {i}, h) {
      assert before[h] < OVERWEIGHT;
      HoldersRemove(r, live, i, h);
      assert h in r.f[i] <==> h in cells;
    }
  }

  ghost predicate Consistent(rows: seq<Row>, contents: seq<set<nat>>, wt: seq<nat>, nrows: nat, ncols: nat, col0: nat, col1: nat) {
    && RowsMatch(rows, contents, col0, col1, |wt|)
    && (forall h :: 0 <= h < |wt| ==> wt[h] <= OVERWEIGHT)
    && WeightsExact(RelationsOf(contents, wt, col0, col1), LiveRows(rows), wt, col0, col1)
    && nrows == |LiveRows(rows)| && ncols == |Positive(wt)|
  }

  lemma OutsideAfter(rows: seq<Row>, contents: seq<set<nat>>, wt: seq<nat>, col0: nat, col1: nat, i: nat, after: seq<nat>)
    requires RowsMatch(rows, contents, col0, col1, |wt|) && i in LiveRows(rows)
    requires TakenAway(wt, after, rows[i].cells, |rows[i].cells|)
    ensures Outside(after, col0, col1) == Outside(wt, col0, col1)
  {
    var cells := rows[i].cells;
    assert forall h :: h in cells ==> h in CellSet(cells);
    assert cells[..|cells|] == cells;
  }

  lemma DeleteConsistent(rows: seq<Row>, contents: seq<set<nat>>, wt: seq<nat>, nrows: nat, ncols: nat, col0: nat, col1: nat,
                         i: nat, after: seq<nat>)
    requires Consistent(rows, contents, wt, nrows, ncols, col0, col1) && i in LiveRows(rows)
    requires TakenAway(wt, after, rows[i].cells, |rows[i].cells|)
    requires forall h :: h in rows[i].cells ==> h < |wt| && wt[h] > 0
    ensures Outside(after, col0, col1) == Outside(wt, col0, col1)
    ensures nrows >= 1 && ncols >= |Killed(wt, rows[i].cells, |rows[i].cells|)|
    ensures LiveRows(rows[i := Deleted]) == LiveRows(rows) - {i} && Saturated(after) == Saturated(wt)
    ensures Positive(after) <= Positive(wt)
    ensures Consistent(rows[i := Deleted], contents, after, nrows - 1, ncols - |Killed(wt, rows[i].cells, |rows[i].cells|)|, col0, col1)
  {
    var cells := rows[i].cells;
    OutsideAfter(rows, contents, wt, col0, col1, i, after);
    PositiveAfter(wt, after, cells);
    ExactAfter(RelationsOf(contents, wt, col0, col1), LiveRows(rows), i, wt, after, cells, col0, col1);
    assert LiveRows(rows[i := Deleted]) == LiveRows(rows) - {i};
  }

  lemma PositiveColumns(rows: seq<Row>, contents: seq<set<nat>>, wt: seq<nat>, nrows: nat, ncols: nat, col0: nat, col1: nat)
    requires Consistent(rows, contents, wt, nrows, ncols, col0, col1)
    ensures Positive(wt) == Columns(RelationsOf(contents, wt, col0, col1), LiveRows(rows))
  {
    var r, live := RelationsOf(contents, wt, col0, col1), LiveRows(rows);
    forall h: nat ensures h in Positive(wt) <==> h in Columns(r, live) {
      if h < |wt| && col0 <= h < col1 && wt[h] < OVERWEIGHT {
        assert wt[h] == |Holders(contents, live, h)|;
        if wt[h] > 0 {
          var i :| i in Holders(contents, live, h);
        }
        forall i | i in live && h in contents[i] ensures i in Holders(contents, live, h) {
        }
      }
    }
  }

  /** In how many of the loaded relations column h occurs. */
  ghost function TimesLoaded(loaded: seq<set<nat>>, h: nat): nat {
    if loaded == [] then 0
    else TimesLoaded(loaded[..|loaded| - 1], h) + (if h in loaded[|loaded| - 1] then 1 else 0)
  }

  /** Weights are one byte, no column weighs more than the relations loaded with it, and as long as no
      row has been deleted a weight is their number or 255. */
  ghost predicate HistoryOk(loaded: seq<set<nat>>, wt: seq<nat>, nrows: nat) {
    && nrows <= |loaded|
    && (forall h {:trigger wt[h]} :: 0 <= h < |wt| ==> wt[h] <= 255 && wt[h] <= TimesLoaded(loaded, h))
    && (nrows == |loaded| ==> forall h {:trigger TimesLoaded(loaded, h)} ::
          WeightOr0(wt, h) == if TimesLoaded(loaded, h) <= 255 then TimesLoaded(loaded, h) else 255)
  }

  lemma HistoryLoad(loaded: seq<set<nat>>, wt: seq<nat>, nrows: nat, primes: seq<nat>, after: seq<nat>)
    requires HistoryOk(loaded, wt, nrows) && Counted(wt, after, primes, |primes|)
    ensures HistoryOk(loaded + [CellSet(primes)], after, nrows + 1)
  {
    var more := loaded + [CellSet(primes)];
    assert primes[..|primes|] == primes;
    forall h: nat ensures TimesLoaded(more, h) == TimesLoaded(loaded, h) + (if h in primes then 1 else 0) {
      assert more[..|loaded|] == loaded;
    }
    assert forall h: nat :: h >= |after| ==> h !in primes;
  }

  lemma HistoryDelete(loaded: seq<set<nat>>, wt: seq<nat>, nrows: nat, after: seq<nat>, cells: seq<nat>)
    requires HistoryOk(loaded, wt, nrows) && nrows >= 1 && TakenAway(wt, after, cells, |cells|)
    ensures HistoryOk(loaded, after, nrows - 1)
  {
    assert forall h {:trigger after[h]} :: 0 <= h < |after| ==> after[h] <= wt[h];
  }

  class Matrix {
    const col0: nat
    const col1: nat
    var rows: seq<Row>
    var columnWeights: seq<nat>
    var remainingRows: nat
    var remainingColumns: nat
    /** The columns of interest of each relation, as loaded. */
    ghost var contents: seq<set<nat>>
    /** All columns of every relation loaded so far, in the order of loading. */
    ghost var loaded: seq<set<nat>>

    constructor (col0: nat, col1: nat)
      ensures this.col0 == col0 && this.col1 == col1 && rows == [] && columnWeights == [] && Valid()
    {
      this.col0, this.col1 := col0, col1;
      rows, columnWeights, contents, loaded := [], [], [], [];
      remainingRows, remainingColumns := 0, 0;
    }

    ghost function Live(): set<nat>
      reads this
    {
      LiveRows(rows)
    }

    ghost function Rel(): Relations
      reads this
    {
      RelationsOf(contents, columnWeights, col0, col1)
    }

    ghost predicate Valid()
      reads this
    {
      && Consistent(rows, contents, columnWeights, remainingRows, remainingColumns, col0, col1)
      && HistoryOk(loaded, columnWeights, remainingRows)
    }

    /** The excess depends on nothing but the rows that are left. */
    lemma ExcessMeaning()
      requires Valid()
      ensures Excess() == ExcessOf(Rel(), Live())
      ensures remainingRows == |Live()| && remainingColumns == |Columns(Rel(), Live())|
    {
      assert Positive(columnWeights) == Columns(Rel(), Live()) by {
        PositiveColumns(rows, contents, columnWeights, remainingRows, remainingColumns, col0, col1);
      }
    }

    /** Only a column of at least 255 relations has a weight that is never changed again. */
    lemma SaturatedMeans255(h: nat)
      requires Valid() && h in Rel().sat
      ensures TimesLoaded(loaded, h) >= 255
    {
      assert columnWeights[h] <= TimesLoaded(loaded, h);
    }

    function Excess(): int
      reads this
    {
      remainingRows - remainingColumns
    }

    lemma CellsWeighted(i: nat)
      requires Valid() && i in Live()
      ensures AllDifferent(rows[i].cells) && CellSet(rows[i].cells) == contents[i]
      ensures forall h :: h in rows[i].cells ==> col0 <= h < col1 && h < |columnWeights| && columnWeights[h] > 0
    {
      forall h | h in rows[i].cells ensures col0 <= h < col1 && h < |columnWeights| && columnWeights[h] > 0 {
        assert h in CellSet(rows[i].cells);
        assert i in Holders(contents, Live(), h);
      }
    }

    /** Takes one from the weight of cell k and tells whether its column disappears. */
    method TakeWeight(ghost before: seq<nat>, cells: seq<nat>, k: nat) returns (gone: nat)
      requires AllDifferent(cells) && k < |cells| && cells[k] < |before| && before[cells[k]] > 0
      requires TakenAway(before, columnWeights, cells, k)
      modifies this`columnWeights
      ensures TakenAway(before, columnWeights, cells, k + 1)
      ensures |Killed(before, cells, k + 1)| == |Killed(before, cells, k)| + gone
    {
      TakenAwayStep(before, columnWeights, cells, k);
      KilledStep(before, cells, k);
      var h := cells[k];
      gone := 0;
      if columnWeights[h] < OVERWEIGHT {
        columnWeights := columnWeights[h := columnWeights[h] - 1];
        gone := if columnWeights[h] == 0 then 1 else 0;
      }
    }

    /** Takes one from the weight of each cell and counts the columns that disappear. */
    method TakeWeights(cells: seq<nat>) returns (killed: nat)
      requires AllDifferent(cells) && forall h :: h in cells ==> h < |columnWeights| && columnWeights[h] > 0
      modifies this`columnWeights
      ensures TakenAway(old(columnWeights), columnWeights, cells, |cells|)
      ensures killed == |Killed(old(columnWeights), cells, |cells|)|
    {
      ghost var before := columnWeights;
      killed := 0;
      for k := 0 to |cells|
        invariant TakenAway(before, columnWeights, cells, k)
        invariant killed == |Killed(before, cells, k)|
      {
        assert cells[k] in cells;
        var gone := TakeWeight(before, cells, k);
        killed := killed + gone;
      }
    }

    /** Deletes row i; a column whose weight reaches zero is gone. */
    method DeleteRow(i: nat)
      requires Valid() && i in Live()
      modifies this`rows, this`columnWeights, this`remainingRows, this`remainingColumns
      ensures Valid() && Live() == old(Live()) - {i} && Rel() == old(Rel()) && |rows| == old(|rows|)
      ensures remainingRows == old(remainingRows) - 1
      ensures Positive(columnWeights) <= old(Positive(columnWeights)) && |columnWeights| == old(|columnWeights|)
    {
      ghost var before := columnWeights;
      CellsWeighted(i);
      var killed := TakeWeights(rows[i].cells);
      DeleteConsistent(rows, contents, before, remainingRows, remainingColumns, col0, col1, i, columnWeights);
      HistoryDelete(loaded, before, remainingRows, columnWeights, rows[i].cells);
      rows := rows[i := Deleted];
      if killed > 0 {
        remainingColumns := remainingColumns - killed;
      }
      remainingRows := remainingRows - 1;
    }

    /** Counts one more relation for one prime; the weight vector grows as needed. */
    method CountPrime(ghost before: seq<nat>, primes: seq<nat>, k: nat) returns (unseen: bool)
      requires k < |primes| && AllDifferent(primes) && Counted(before, columnWeights, primes, k)
      modifies this`columnWeights
      ensures Counted(before, columnWeights, primes, k + 1)
      ensures unseen <==> WeightOr0(before, primes[k]) == 0
    {
      var h := primes[k];
      if h >= |columnWeights| {
        columnWeights := columnWeights + seq(h + 1 - |columnWeights|, _ => 0);
        assert Counted(before, columnWeights, primes, k);
      }
      CountedStep(before, columnWeights, primes, k);
      unseen := columnWeights[h] == 0;
      if columnWeights[h] < OVERWEIGHT {
        columnWeights := columnWeights[h := columnWeights[h] + 1];
      }
    }

    /** Counts one more relation for each of its primes and lists those in the range of interest. */
    method CountPrimes(primes: seq<nat>) returns (newcols: nat, cells: seq<nat>)
      requires AllDifferent(primes)
      modifies this`columnWeights
      ensures Counted(old(columnWeights), columnWeights, primes, |primes|)
      ensures newcols == |Fresh(old(columnWeights), primes, |primes|)|
      ensures AllDifferent(cells) && CellSet(cells) == InRange(CellSet(primes), col0, col1)
    {
      ghost var before := columnWeights;
      newcols, cells := 0, [];
      for k := 0 to |primes|
        invariant Counted(before, columnWeights, primes, k)
        invariant newcols == |Fresh(before, primes, k)|
        invariant CellsOf(cells, primes, k, col0, col1)
      {
        FreshStep(before, primes, k);
        CellsOfStep(cells, primes, k, col0, col1);
        var unseen := CountPrime(before, primes, k);
        if unseen {
          newcols := newcols + 1;
        }
        if col0 <= primes[k] < col1 {
          cells := cells + [primes[k]];
        }
      }
      assert primes[..|primes|] == primes;
    }

    /** Loads relation i with the given primes; only columns in [col0, col1) are kept in its row. */
    method NewRow(i: nat, primes: seq<nat>)
      requires Valid() && AllDifferent(primes) && (i < |rows| ==> rows[i].Deleted?)
      modifies this
      ensures Valid() && i < |rows| && Live() == old(Live()) + {i} && contents[i] == InRange(CellSet(primes), col0, col1)
      ensures forall k :: k in old(Live()) ==> rows[k] == old(rows[k]) && contents[k] == old(contents[k])
      ensures Counted(old(columnWeights), columnWeights, primes, |primes|) && loaded == old(loaded) + [CellSet(primes)]
    {
      var newcols, cells := CountPrimes(primes);
      HistoryLoad(loaded, old(columnWeights), remainingRows, primes, columnWeights);
      loaded := loaded + [CellSet(primes)];
      LoadConsistent(rows, contents, old(columnWeights), remainingRows, remainingColumns, col0, col1, i, primes, cells, columnWeights);
      remainingRows := remainingRows + 1;
      remainingColumns := remainingColumns + newcols;
      rows := Extended(rows, i, Deleted)[i := Active(cells)];
      contents := Extended(contents, i, {})[i := CellSet(cells)];
    }
  }

  /** The sequence lengthened so that position i exists. */
  function Extended<T>(s: seq<T>, i: nat, filler: T): (r: seq<T>)
    ensures |r| == if i < |s| then |s| else i + 1
    ensures forall k {:trigger r[k]} :: 0 <= k < |r| ==> r[k] == if k < |s| then s[k] else filler
  {
    if i < |s| then s else s + seq(i + 1 - |s|, _ => filler)
  }

  ghost function InRange(s: set<nat>, lo: nat, hi: nat): set<nat> {
    set h | h in s && lo <= h < hi
  }

  /** `cells` lists the first k primes that are in the range of interest. */
  ghost predicate CellsOf(cells: seq<nat>, primes: seq<nat>, k: nat, lo: nat, hi: nat)
    requires k <= |primes|
  {
    AllDifferent(cells) && CellSet(cells) == InRange(CellSet(primes[..k]), lo, hi)
  }

  lemma CellsOfStep(cells: seq<nat>, primes: seq<nat>, k: nat, lo: nat, hi: nat)
    requires k < |primes| && AllDifferent(primes) && CellsOf(cells, primes, k, lo, hi)
    ensures CellsOf(if lo <= primes[k] < hi then cells + [primes[k]] else cells, primes, k + 1, lo, hi)
  {
    var p := primes[k];
    assert primes[..k + 1] == primes[..k] + [p];
    assert CellSet(primes[..k + 1]) == CellSet(primes[..k]) + {p};
    assert p !in CellSet(primes[..k]);
    assert CellSet(cells + [p]) == CellSet(cells) + {p};
    forall x | 0 <= x < |cells| ensures cells[x] != p {
      assert cells[x] in CellSet(cells);
    }
  }

  function WeightOr0(wt: seq<nat>, h: nat): nat {
    if h < |wt| then wt[h] else 0
  }

  /** The weights after the first k primes of a relation have been counted. */
  ghost predicate Counted(before: seq<nat>, after: seq<nat>, primes: seq<nat>, k: nat)
    requires k <= |primes|
  {
    && |before| <= |after|
    && (forall h :: h in primes[..k] ==> h < |after|)
    && forall h {:trigger after[h]} :: 0 <= h < |after| ==>
         after[h] == WeightOr0(before, h) + (if h in primes[..k] && WeightOr0(before, h) < OVERWEIGHT then 1 else 0)
  }

  /** The columns among the first k primes that no earlier relation had. */
  ghost function Fresh(before: seq<nat>, primes: seq<nat>, k: nat): set<nat>
    requires k <= |primes|
  {
    set h | h in primes[..k] && WeightOr0(before, h) == 0
  }

  lemma CountedStep(before: seq<nat>, after: seq<nat>, primes: seq<nat>, k: nat)
    requires k < |primes| && primes[k] < |after| && AllDifferent(primes) && Counted(before, after, primes, k)
    ensures after[primes[k]] == WeightOr0(before, primes[k])
    ensures Counted(before, if after[primes[k]] < OVERWEIGHT then after[primes[k] := after[primes[k]] + 1] else after, primes, k + 1)
  {
    assert primes[..k + 1] == primes[..k] + [primes[k]];
    assert primes[k] !in primes[..k];
  }

  lemma FreshStep(before: seq<nat>, primes: seq<nat>, k: nat)
    requires k < |primes| && AllDifferent(primes)
    ensures |Fresh(before, primes, k + 1)| == |Fresh(before, primes, k)| + (if WeightOr0(before, primes[k]) == 0 then 1 else 0)
  {
    assert primes[..k + 1] == primes[..k] + [primes[k]];
    assert primes[k] !in primes[..k];
    if WeightOr0(before, primes[k]) == 0 {
      assert Fresh(before, primes, k + 1) == Fresh(before, primes, k) + {primes[k]};
    } else {
      assert Fresh(before, primes, k + 1) == Fresh(before, primes, k);
    }
  }

  lemma PositiveCounted(before: seq<nat>, after: seq<nat>, primes: seq<nat>)
    requires Counted(before, after, primes, |primes|)
    ensures |Positive(after)| == |Positive(before)| + |Fresh(before, primes, |primes|)|
  {
    assert primes[..|primes|] == primes;
    assert Positive(after) == Positive(before) + Fresh(before, primes, |primes|);
    assert Positive(before) !! Fresh(before, primes, |primes|);
  }

  lemma LoadConsistent(rows: seq<Row>, contents: seq<set<nat>>, wt: seq<nat>, nrows: nat, ncols: nat, col0: nat, col1: nat,
                       i: nat, primes: seq<nat>, cells: seq<nat>, after: seq<nat>)
    requires Consistent(rows, contents, wt, nrows, ncols, col0, col1) && (i < |rows| ==> rows[i].Deleted?)
    requires Counted(wt, after, primes, |primes|) && AllDifferent(cells)
    requires CellSet(cells) == InRange(CellSet(primes), col0, col1)
    ensures var rows' := Extended(rows, i, Deleted)[i := Active(cells)];
            var contents' := Extended(contents, i, {})[i := CellSet(cells)];
            && LiveRows(rows') == LiveRows(rows) + {i}
            && Consistent(rows', contents', after, nrows + 1, ncols + |Fresh(wt, primes, |primes|)|, col0, col1)
  {
    assert primes[..|primes|] == primes;
    var rows' := Extended(rows, i, Deleted)[i := Active(cells)];
    var contents' := Extended(contents, i, {})[i := CellSet(cells)];
    forall h | h in cells ensures col0 <= h < col1 && h < |after| {
      assert h in CellSet(cells);
    }
    LoadRows(rows, contents, wt, col0, col1, i, cells, after);
    PositiveCounted(wt, after, primes);
    var r, r' := RelationsOf(contents, wt, col0, col1), RelationsOf(contents', after, col0, col1);
    forall h | col0 <= h < col1 && h < |after| && after[h] < OVERWEIGHT ensures after[h] == Weight(r', LiveRows(rows'), h) {
      LoadHolders(rows, contents, i, cells, h);
      assert h in CellSet(cells) <==> h in CellSet(primes);
      if h >= |wt| {
        assert Holders(contents, LiveRows(rows), h) == {};
      }
    }
  }

  lemma LoadRows(rows: seq<Row>, contents: seq<set<nat>>, wt: seq<nat>, col0: nat, col1: nat, i: nat, cells: seq<nat>, after: seq<nat>)
    requires RowsMatch(rows, contents, col0, col1, |wt|) && |wt| <= |after| && (i < |rows| ==> rows[i].Deleted?)
    requires AllDifferent(cells) && forall h :: h in cells ==> col0 <= h < col1 && h < |after|
    ensures var rows' := Extended(rows, i, Deleted)[i := Active(cells)];
            var contents' := Extended(contents, i, {})[i := CellSet(cells)];
            && RowsMatch(rows', contents', col0, col1, |after|) && LiveRows(rows') == LiveRows(rows) + {i}
  {
    var rows' := Extended(rows, i, Deleted)[i := Active(cells)];
    var contents' := Extended(contents, i, {})[i := CellSet(cells)];
    assert |Extended(rows, i, Deleted)| == |Extended(contents, i, {})|;
    forall k | 0 <= k < |rows'| && k != i
      ensures rows'[k] == (if k < |rows| then rows[k] else Deleted) && contents'[k] == (if k < |rows| then contents[k] else {})
    {
    }
  }

  lemma LoadHolders(rows: seq<Row>, contents: seq<set<nat>>, i: nat, cells: seq<nat>, h: nat)
    requires |rows| == |contents| && (i < |rows| ==> rows[i].Deleted?)
    ensures var rows' := Extended(rows, i, Deleted)[i := Active(cells)];
            var contents' := Extended(contents, i, {})[i := CellSet(cells)];
            |Holders(contents', LiveRows(rows'), h)| == |Holders(contents, LiveRows(rows), h)| + (if h in cells then 1 else 0)
  {
    var rows' := Extended(rows, i, Deleted)[i := Active(cells)];
    var contents' := Extended(contents, i, {})[i := CellSet(cells)];
    var was, now := Holders(contents, LiveRows(rows), h), Holders(contents', LiveRows(rows'), h);
    forall k: nat ensures k in now <==> k in was || (k == i && h in cells) {
      LoadAt(rows, contents, i, cells, k);
    }
    assert i !in was;
    if h in cells {
      assert now == was + {i};
    } else {
      assert now == was;
    }
  }

  /** The entry at position k once relation i has been loaded. */
  lemma LoadAt(rows: seq<Row>, contents: seq<set<nat>>, i: nat, cells: seq<nat>, k: nat)
    requires |rows| == |contents|
    ensures var rows' := Extended(rows, i, Deleted)[i := Active(cells)];
            var contents' := Extended(contents, i, {})[i := CellSet(cells)];
            && |rows'| == |contents'| && |rows'| > i
            && (k < |rows'| ==> rows'[k] == (if k == i then Active(cells) else if k < |rows| then rows[k] else Deleted))
            && (k < |rows'| ==> contents'[k] == (if k == i then CellSet(cells) else if k < |rows| then contents[k] else {}))
            && (k >= |rows'| ==> k >= |rows|)
  {
  }
}
