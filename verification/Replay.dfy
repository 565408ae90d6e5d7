/** `replay`: re-executes the history on the purged relations, keeping track of the relations that
    make up each row, and then closes the gaps left by destroyed rows. */
module Replay {
  import opened Collections
  import opened XorSets
  import opened SortedRows
  import opened Elimination
  import opened MergeMatrix
  import opened HistoryLines
  import opened HistoryText

  ghost function RelSets(index: seq<seq<nat>>): (f: seq<set<nat>>)
    ensures |f| == |index| && forall i :: 0 <= i < |f| ==> f[i] == Elems(index[i])
  {
    seq(|index|, i requires 0 <= i < |index| => Elems(index[i]))
  }

  ghost predicate RowsSorted(rows: seq<Row>) {
    forall i :: 0 <= i < |rows| && rows[i].Cells? ==> Increasing(rows[i].cells)
  }

  ghost predicate IndexSorted(index: seq<seq<nat>>) {
    forall i :: 0 <= i < |index| ==> Increasing(index[i])
  }

  lemma RelSetsUpdate(index: seq<seq<nat>>, i: nat, r: seq<nat>)
    requires i < |index|
    ensures RelSets(index[i := r]) == RelSets(index)[i := Elems(r)]
  {
  }

  class ReplayMatrix {
    const newrows: array<Row>
    /** The relation-set of each row, as an increasing list of relation numbers. */
    const index: array<seq<nat>>

    constructor (newrows: array<Row>)
      requires RowsSorted(newrows[..])
      ensures this.newrows == newrows && fresh(index) && Valid()
      ensures (forall i :: 0 <= i < newrows.Length ==> newrows[i].Cells?) ==> Abs() == Start(SetsOf(newrows[..]))
    {
      this.newrows := newrows;
      index := new seq<nat>[newrows.Length](i => [i]);
      new;
      assert forall i :: 0 <= i < newrows.Length ==> Elems(index[..][i]) == {i};
      assert RelSets(index[..]) == Start(SetsOf(newrows[..])).rels;
      if forall i :: 0 <= i < newrows.Length ==> newrows[i].Cells? {
        assert LiveOf(newrows[..]) == Indices(newrows.Length);
      }
    }

    ghost predicate Valid()
      reads newrows, index
    {
      newrows.Length == index.Length && RowsSorted(newrows[..]) && IndexSorted(index[..])
    }

    ghost function Abs(): (e: Elim)
      requires Valid()
      reads newrows, index
      ensures WellFormed(e)
    {
      Elim(LiveOf(newrows[..]), SetsOf(newrows[..]), RelSets(index[..]))
    }

    /** Adds row i2 and its relation-set to row i1. */
    method AddRowsUpdateIndex(i1: nat, i2: nat)
      requires Valid() && Runnable(Abs(), Add(i1, i2))
      modifies newrows, index
      ensures Valid() && Abs() == Apply(old(Abs()), Add(i1, i2))
    {
      var row := AddSorted(newrows[i1].cells, newrows[i2].cells);
      SetsOfUpdate(newrows[..], i1, Cells(row));
      newrows[i1] := Cells(row);
      var rels := AddSorted(index[i1], index[i2]);
      RelSetsUpdate(index[..], i1, rels);
      index[i1] := rels;
      assert LiveOf(newrows[..]) == old(LiveOf(newrows[..]));
    }

    method Destroy(i: nat)
      requires Valid() && Runnable(Abs(), Drop(i))
      modifies newrows, index
      ensures Valid() && Abs() == Apply(old(Abs()), Drop(i))
    {
      SetsOfUpdate(newrows[..], i, Null);
      RelSetsUpdate(index[..], i, []);
      assert Elems([]) == {};
      newrows[i] := Null;
      index[i] := [];
      assert LiveOf(newrows[..]) == old(LiveOf(newrows[..])) - {i};
    }

    /** One operation of a planned sequence. */
    method Perform(ghost e: Elim, ghost ops: seq<Op>, ghost k: nat, op: Op)
      requires WellFormed(e) && RunnableAll(e, ops) && k < |ops| && op == ops[k]
      requires Valid() && RunnableAll(e, ops[..k]) && Abs() == Run(e, ops[..k])
      modifies newrows, index
      ensures Valid() && RunnableAll(e, ops[..k + 1]) && Abs() == Run(e, ops[..k + 1])
    {
      RunPrefix(e, ops, k);
      match op
      case Add(dst, src) => AddRowsUpdateIndex(dst, src);
      case Drop(row) => Destroy(row);
    }

    /** Executes one history line given as text. */
    method DoAllAdds(str: string)
      requires Valid() && exists k :: 0 <= k < |str| && str[k] == '\n'
      requires var p := Parse(str); p.ni == |p.ind| && LineOk(p.ind) && RunnableAll(Abs(), LineOps(p.ind))
      modifies newrows, index
      ensures Valid() && Abs() == Run(old(Abs()), LineOps(Parse(str).ind))
    {
      ghost var e := Abs();
      var p := ParseHisfileLine(str);
      var ind := p.ind;
      ghost var ops := LineOps(ind);
      var i0, destroy := if ind[0] < 0 then -ind[0] - 1 else ind[0], ind[0] >= 0;
      assert ops[..0] == [];
      for k := 1 to p.ni
        invariant Valid() && RunnableAll(e, ops[..k - 1]) && Abs() == Run(e, ops[..k - 1])
      {
        LineOpAt(ind, k);
        Perform(e, ops, k - 1, Add(ind[k], i0));
      }
      if destroy {
        LineDropAt(ind);
        Perform(e, ops, p.ni - 1, Drop(i0));
      }
      assert ops[..|ops|] == ops;
    }

    /** Executes the next complete line of a file. */
    method ExecuteLine(ghost e: Elim, ghost all: seq<seq<int>>, ghost done: seq<seq<int>>, str: string, ghost rest: seq<seq<int>>)
      requires |str| >= 1 && str[|str| - 1] == '\n' && Parse(str).ni == |Parse(str).ind|
      requires WellFormed(e) && LinesOk(all) && all == done + ([Parse(str).ind] + rest) && RunnableAll(e, LinesOps(all))
      requires Valid() && LinesOk(done) && RunnableAll(e, LinesOps(done)) && Abs() == Run(e, LinesOps(done))
      modifies newrows, index
      ensures Valid() && LinesOk(done + [Parse(str).ind]) && RunnableAll(e, LinesOps(done + [Parse(str).ind]))
      ensures Abs() == Run(e, LinesOps(done + [Parse(str).ind]))
    {
      NextLine(e, all, done, Parse(str).ind, rest);
      DoAllAdds(str);
    }

    /** The first k lines of a file have been handled. */
    ghost predicate Handled(e: Elim, lines: seq<string>, k: nat, left: int, Nmax: int, all: seq<seq<int>>, done: seq<seq<int>>)
      reads newrows, index
    {
      && WellFormed(e) && FileOk(lines) && k <= |lines| && LinesOk(all) && RunnableAll(e, LinesOps(all))
      && all == done + Executed(lines[k..], left, Nmax) && LinesOk(done)
      && Valid() && RunnableAll(e, LinesOps(done)) && Abs() == Run(e, LinesOps(done))
    }

    lemma HandledStart(lines: seq<string>, nrows: int, Nmax: int)
      requires Valid() && FileOk(lines) && LinesOk(Executed(lines, nrows, Nmax))
      requires RunnableAll(Abs(), LinesOps(Executed(lines, nrows, Nmax)))
      ensures Handled(Abs(), lines, 0, nrows, Nmax, Executed(lines, nrows, Nmax), [])
    {
      assert lines[0..] == lines;
    }

    lemma HandledEnd(e: Elim, lines: seq<string>, k: nat, left: int, Nmax: int, all: seq<seq<int>>, done: seq<seq<int>>)
      requires Handled(e, lines, k, left, Nmax, all, done) && (k == |lines| || left < Nmax)
      ensures Abs() == Run(e, LinesOps(all))
    {
      assert all == done;
    }

    /** Handles one line: a comment is skipped, an incomplete line ends the reading. */
    method HandleLine(ghost e: Elim, lines: seq<string>, k: nat, left: int, ghost Nmax: int,
                      ghost all: seq<seq<int>>, ghost done: seq<seq<int>>)
      returns (stop: bool, left': int, ghost done': seq<seq<int>>)
      requires k < |lines| && left >= Nmax && Handled(e, lines, k, left, Nmax, all, done)
      modifies newrows, index
      ensures !stop ==> Handled(e, lines, k + 1, left', Nmax, all, done')
      ensures stop ==> Valid() && Abs() == Run(e, LinesOps(all))
    {
      var str := lines[k];
      ExecutedNext(lines, k, left, Nmax);
      stop, left', done' := false, left, done;
      if str[0] == '#' {
        return;
      }
      if str[|str| - 1] != '\n' {
        assert all == done;
        stop := true;
        return;
      }
      left' := left - (if str[0] != '-' then 1 else 0);
      ghost var rest := Executed(lines[k + 1..], left', Nmax);
      Regroup(done, [Parse(str).ind], rest);
      ExecuteLine(e, all, done, str, rest);
      done' := done + [Parse(str).ind];
    }

    /** Executes the lines of a history file, until the file ends, a line is incomplete, or fewer
        than Nmax rows are left. */
    method BuildNewrows(lines: seq<string>, nrows: int, Nmax: int)
      requires Valid() && FileOk(lines) && LinesOk(Executed(lines, nrows, Nmax))
      requires RunnableAll(Abs(), LinesOps(Executed(lines, nrows, Nmax)))
      modifies newrows, index
      ensures Valid() && Abs() == Run(old(Abs()), LinesOps(Executed(lines, nrows, Nmax)))
    {
      ghost var e := Abs();
      ghost var all := Executed(lines, nrows, Nmax);
      ghost var done: seq<seq<int>> := [];
      var left, k, stop := nrows, 0, false;
      HandledStart(lines, nrows, Nmax);
      while k < |lines| && left >= Nmax
        invariant 0 <= k <= |lines|
        invariant Handled(e, lines, k, left, Nmax, all, done)
      {
        stop, left, done := HandleLine(e, lines, k, left, Nmax, all, done);
        if stop {
          return;
        }
        k := k + 1;
      }
      HandledEnd(e, lines, k, left, Nmax, all, done);
    }
  }

  /** A complete line that is not a comment. */
  predicate IsRecord(line: string) {
    |line| >= 1 && line[0] != '#' && line[|line| - 1] == '\n'
  }

  /** The records have no column suffix. */
  ghost predicate FileOk(lines: seq<string>) {
    forall k :: 0 <= k < |lines| ==> |lines[k]| >= 1 && (IsRecord(lines[k]) ==> Parse(lines[k]).ni == |Parse(lines[k]).ind|)
  }

  /** The lines that are executed, as the indices they contain. */
  ghost function Executed(lines: seq<string>, nrows: int, Nmax: int): seq<seq<int>>
    requires FileOk(lines)
  {
    if lines == [] || nrows < Nmax then []
    else if lines[0][0] == '#' then Executed(lines[1..], nrows, Nmax)
    else if lines[0][|lines[0]| - 1] != '\n' then []
    else [Parse(lines[0]).ind] + Executed(lines[1..], nrows - (if lines[0][0] != '-' then 1 else 0), Nmax)
  }

  predicate NonEmpty(lines: seq<string>) {
    forall k :: 0 <= k < |lines| ==> |lines[k]| >= 1
  }

  /** The count of rows after some lines: one less for each record that starts without a sign. */
  function RowsCounted(lines: seq<string>, nrows: int): int
    requires NonEmpty(lines)
  {
    if lines == [] then nrows
    else RowsCounted(lines[1..], if lines[0][0] == '#' || lines[0][0] == '-' then nrows else nrows - 1)
  }

  /** The indices of all lines that are not comments. */
  function AllRecords(lines: seq<string>): seq<seq<int>>
    requires NonEmpty(lines)
  {
    if lines == [] then [] else (if lines[0][0] == '#' then [] else [Parse(lines[0]).ind]) + AllRecords(lines[1..])
  }

  predicate Incomplete(line: string)
    requires |line| >= 1
  {
    line[0] != '#' && line[|line| - 1] != '\n'
  }

  /** Exactly the first n lines are executed: before each of them at least Nmax rows are counted and none
      of them is incomplete, and line n is missing, incomplete, or comes with fewer rows. */
  ghost predicate StopsAt(lines: seq<string>, nrows: int, Nmax: int, n: nat)
    requires FileOk(lines)
  {
    && n <= |lines| && Executed(lines, nrows, Nmax) == AllRecords(lines[..n])
    && (forall k :: 0 <= k < n ==> RowsCounted(lines[..k], nrows) >= Nmax && !Incomplete(lines[k]))
    && (n < |lines| ==> RowsCounted(lines[..n], nrows) < Nmax || Incomplete(lines[n]))
  }

  lemma {:induction false} ExecutedStops(lines: seq<string>, nrows: int, Nmax: int) returns (n: nat)
    requires FileOk(lines)
    ensures StopsAt(lines, nrows, Nmax, n)
    decreases |lines|
  {
    n := 0;
    if lines != [] && nrows >= Nmax && !Incomplete(lines[0]) {
      var rest := if lines[0][0] == '#' || lines[0][0] == '-' then nrows else nrows - 1;
      n := ExecutedStops(lines[1..], rest, Nmax);
      StopsOneLater(lines, nrows, Nmax, n);
      n := n + 1;
    }
  }

  lemma CountedFirst(lines: seq<string>, nrows: int, k: nat)
    requires 1 <= k <= |lines| && NonEmpty(lines)
    ensures NonEmpty(lines[..k]) && NonEmpty(lines[1..][..k - 1])
    ensures RowsCounted(lines[..k], nrows)
            == RowsCounted(lines[1..][..k - 1], if lines[0][0] == '#' || lines[0][0] == '-' then nrows else nrows - 1)
  {
    var rest := lines[1..][..k - 1];
    assert forall x :: 0 <= x < k - 1 ==> rest[x] == lines[x + 1];
    assert lines[..k][0] == lines[0] && lines[..k][1..] == lines[1..][..k - 1];
  }

  lemma StopsOneLater(lines: seq<string>, nrows: int, Nmax: int, n: nat)
    requires FileOk(lines) && lines != [] && nrows >= Nmax && !Incomplete(lines[0])
    requires FileOk(lines[1..]) && StopsAt(lines[1..], if lines[0][0] == '#' || lines[0][0] == '-' then nrows else nrows - 1, Nmax, n)
    ensures StopsAt(lines, nrows, Nmax, n + 1)
  {
    assert lines[..n + 1][0] == lines[0] && lines[..n + 1][1..] == lines[1..][..n];
    CountedFirst(lines, nrows, n + 1);
    forall k | 0 <= k < n + 1 ensures RowsCounted(lines[..k], nrows) >= Nmax && !Incomplete(lines[k]) {
      if k > 0 {
        CountedFirst(lines, nrows, k);
        assert lines[1..][k - 1] == lines[k];
      }
    }
  }

  lemma ExecutedNext(lines: seq<string>, k: nat, nrows: int, Nmax: int)
    requires FileOk(lines) && k < |lines| && nrows >= Nmax
    ensures FileOk(lines[k..]) && FileOk(lines[k + 1..])
    ensures lines[k][0] == '#' ==> Executed(lines[k..], nrows, Nmax) == Executed(lines[k + 1..], nrows, Nmax)
    ensures lines[k][0] != '#' && lines[k][|lines[k]| - 1] != '\n' ==> Executed(lines[k..], nrows, Nmax) == []
    ensures lines[k][0] != '#' && lines[k][|lines[k]| - 1] == '\n' ==>
              Executed(lines[k..], nrows, Nmax)
              == [Parse(lines[k]).ind] + Executed(lines[k + 1..], nrows - (if lines[k][0] != '-' then 1 else 0), Nmax)
  {
    assert lines[k..][0] == lines[k] && lines[k..][1..] == lines[k + 1..];
  }

  lemma NextLine(e: Elim, all: seq<seq<int>>, done: seq<seq<int>>, line: seq<int>, rest: seq<seq<int>>)
    requires WellFormed(e) && LinesOk(all) && all == done + ([line] + rest) && RunnableAll(e, LinesOps(all))
    ensures all == (done + [line]) + rest && LinesOk(done) && LineOk(line) && RunnableAll(e, LinesOps(done))
    ensures RunnableAll(Run(e, LinesOps(done)), LineOps(line))
    ensures LinesOk(done + [line]) && RunnableAll(e, LinesOps(done + [line]))
    ensures Run(e, LinesOps(done + [line])) == Run(Run(e, LinesOps(done)), LineOps(line))
  {
    assert all == (done + [line]) + rest;
    assert LinesOk(rest) by {
      assert forall k :: 0 <= k < |rest| ==> rest[k] == all[|done| + 1 + k];
    }
    assert LinesOk(done + [line]) by {
      assert forall k :: 0 <= k <= |done| ==> (done + [line])[k] == all[k];
    }
    assert LineOk((done + [line])[|done|]);
    LinesOpsAppend(done + [line], rest);
    RunSplit(e, LinesOps(done + [line]), LinesOps(rest));
    assert (done + [line])[..|done|] == done;
    RunSplit(e, LinesOps(done), LineOps(line));
  }

  lemma LineOpAt(line: seq<int>, k: nat)
    requires LineOk(line) && 1 <= k < |line|
    ensures k - 1 < |LineOps(line)| && LineOps(line)[k - 1] == Add(line[k], Source(line[0]))
  {
    assert line[1..][k - 1] == line[k];
  }

  lemma LineDropAt(line: seq<int>)
    requires LineOk(line)
    ensures |LineOps(line)| == |line| - 1 + (if line[0] < 0 then 0 else 1)
    ensures line[0] >= 0 ==> LineOps(line)[|line| - 1] == Drop(Source(line[0]))
  {
  }

  // ----- Closing the gaps -----

  /** The positions below n at which `keep` holds, in increasing order. */
  ghost function Kept(keep: seq<bool>, n: nat): (r: seq<nat>)
    requires n <= |keep|
    ensures |r| <= n && forall k :: 0 <= k < |r| ==> r[k] < n
  {
    if n == 0 then [] else Kept(keep, n - 1) + (if keep[n - 1] then [n - 1] else [])
  }

  /** The elements at the given positions. */
  ghost function Pick<T>(s: seq<T>, at: seq<nat>): (r: seq<T>)
    requires forall k :: 0 <= k < |at| ==> at[k] < |s|
    ensures |r| == |at| && forall k :: 0 <= k < |r| ==> r[k] == s[at[k]]
  {
    seq(|at|, k requires 0 <= k < |at| => s[at[k]])
  }

  ghost function LiveMask(rows: seq<Row>): (m: seq<bool>)
    ensures |m| == |rows| && forall i :: 0 <= i < |m| ==> m[i] == rows[i].Cells?
  {
    seq(|rows|, i requires 0 <= i < |rows| => rows[i].Cells?)
  }

  ghost function NonEmptyMask(index: seq<seq<nat>>): (m: seq<bool>)
    ensures |m| == |index| && forall i :: 0 <= i < |m| ==> m[i] == (|index[i]| > 0)
  {
    seq(|index|, i requires 0 <= i < |index| => |index[i]| > 0)
  }

  /** Moves the rows that were not destroyed to the front, in place. */
  method CrunchRows(newrows: array<Row>) returns (j: nat)
    modifies newrows
    ensures j == |Kept(LiveMask(old(newrows[..])), newrows.Length)| <= newrows.Length
    ensures newrows[..j] == Pick(old(newrows[..]), Kept(LiveMask(old(newrows[..])), newrows.Length))
  {
    ghost var before := newrows[..];
    ghost var mask := LiveMask(before);
    j := 0;
    for i := 0 to newrows.Length
      invariant j == |Kept(mask, i)| <= i
      invariant newrows[..j] == Pick(before, Kept(mask, i))
      invariant forall k :: i <= k < newrows.Length ==> newrows[k] == before[k]
    {
      if newrows[i].Cells? {
        newrows[j] := newrows[i];
        j := j + 1;
      }
    }
  }

  /** Moves the non-empty relation-sets to the front, in place. */
  method CrunchIndex(index: array<seq<nat>>) returns (j: nat)
    modifies index
    ensures j == |Kept(NonEmptyMask(old(index[..])), index.Length)| <= index.Length
    ensures index[..j] == Pick(old(index[..]), Kept(NonEmptyMask(old(index[..])), index.Length))
  {
    ghost var before := index[..];
    ghost var mask := NonEmptyMask(before);
    j := 0;
    for i := 0 to index.Length
      invariant j == |Kept(mask, i)| <= i
      invariant index[..j] == Pick(before, Kept(mask, i))
      invariant forall k :: i <= k < index.Length ==> index[k] == before[k]
    {
      if |index[i]| > 0 {
        index[j] := index[i];
        j := j + 1;
      }
    }
  }

  /** In any state reached from the purged relations, a relation-set is empty exactly when its row
      has been destroyed, so both arrays keep the same positions. */
  lemma MasksAgree(original: seq<set<nat>>, ops: seq<Op>, rows: seq<Row>, index: seq<seq<nat>>)
    requires RunnableAll(Start(original), ops) && |rows| == |index|
    requires Run(Start(original), ops) == Elim(LiveOf(rows), SetsOf(rows), RelSets(index))
    ensures LiveMask(rows) == NonEmptyMask(index)
  {
    RelationSetsNonEmpty(original, ops);
    forall i | 0 <= i < |rows| ensures rows[i].Cells? <==> |index[i]| > 0 {
      assert |index[i]| > 0 ==> index[i][0] in Elems(index[i]);
    }
  }

  /** The positions that are kept, all of them, in increasing order. */
  lemma {:induction false} KeptLists(keep: seq<bool>, n: nat)
    requires n <= |keep|
    ensures Increasing(Kept(keep, n)) && forall i: nat :: i in Kept(keep, n) <==> i < n && keep[i]
  {
    if n > 0 {
      KeptLists(keep, n - 1);
      assert forall i: nat :: i in Kept(keep, n) <==> i in Kept(keep, n - 1) || (i == n - 1 && keep[n - 1]);
    }
  }

  /** `at` lists the live rows from the first to the last. */
  ghost predicate ListsLive(e: Elim, at: seq<nat>) {
    Increasing(at) && forall i :: i in at <==> i in e.live
  }

  lemma {:induction false} ListedCount(at: seq<nat>, live: set<nat>)
    requires Increasing(at) && forall i :: i in at <==> i in live
    ensures |at| == |live|
    decreases |at|
  {
    if at == [] {
      assert live == {};
    } else {
      var n := |at| - 1;
      assert at == at[..n] + [at[n]];
      assert at[n] in live;
      ListedCount(at[..n], live - {at[n]});
    }
  }

  /** Row k of the output and entry k of the index are those of the k-th live row, and no live row is
      missing. */
  ghost predicate Output(e: Elim, at: seq<nat>, rows: seq<Row>, index: seq<seq<nat>>)
    requires WellFormed(e)
  {
    && ListsLive(e, at) && |rows| == |index| == |at| == |e.live|
    && forall k :: 0 <= k < |at| ==> OutputRow(e, at[k], rows[k], index[k])
  }

  ghost predicate OutputRow(e: Elim, i: nat, row: Row, rels: seq<nat>)
    requires WellFormed(e)
  {
    && i < |e.rows| && row.Cells? && Increasing(row.cells) && Elems(row.cells) == e.rows[i]
    && Increasing(rels) && Elems(rels) == e.rels[i]
  }

  /** Row k of the output is the sum of the purged relations listed in entry k of the index. */
  ghost predicate LinesUp(original: seq<set<nat>>, rows: seq<Row>, index: seq<seq<nat>>) {
    && |rows| == |index|
    && forall k :: 0 <= k < |rows| ==>
         rows[k].Cells? && |index[k]| > 0 && Elems(rows[k].cells) == XorSum(original, Elems(index[k]))
  }

  /** Replays a history and closes the gaps: the rows that the executed lines leave come out, all of
      them and in their order, each with its relation-set, and each is the sum of these relations. */
  method FasterVersion(newrows: array<Row>, lines: seq<string>, Nmax: int)
    returns (m: ReplayMatrix, smallNrows: nat, ghost at: seq<nat>)
    requires RowsSorted(newrows[..]) && forall i :: 0 <= i < newrows.Length ==> newrows[i].Cells?
    requires FileOk(lines) && LinesOk(Executed(lines, newrows.Length, Nmax))
    requires RunnableAll(Start(SetsOf(newrows[..])), LinesOps(Executed(lines, newrows.Length, Nmax)))
    modifies newrows
    ensures m.newrows == newrows && smallNrows <= newrows.Length && smallNrows <= m.index.Length
    ensures Output(Run(Start(old(SetsOf(newrows[..]))), LinesOps(Executed(lines, newrows.Length, Nmax))), at,
                   newrows[..smallNrows], m.index[..smallNrows])
    ensures LinesUp(old(SetsOf(newrows[..])), newrows[..smallNrows], m.index[..smallNrows])
  {
    ghost var original := SetsOf(newrows[..]);
    ghost var ops := LinesOps(Executed(lines, newrows.Length, Nmax));
    m := new ReplayMatrix(newrows);
    m.BuildNewrows(lines, newrows.Length, Nmax);
    MasksAgree(original, ops, newrows[..], m.index[..]);
    smallNrows, at := Crunch(newrows, m.index, Run(Start(original), ops));
    OutputLinesUp(original, ops, at, newrows[..smallNrows], m.index[..smallNrows]);
  }

  /** Closes the gaps in both arrays. */
  method Crunch(newrows: array<Row>, index: array<seq<nat>>, ghost e: Elim) returns (smallNrows: nat, ghost at: seq<nat>)
    requires newrows.Length == index.Length && RowsSorted(newrows[..]) && IndexSorted(index[..])
    requires WellFormed(e) && e == Elim(LiveOf(newrows[..]), SetsOf(newrows[..]), RelSets(index[..]))
    requires LiveMask(newrows[..]) == NonEmptyMask(index[..])
    modifies newrows, index
    ensures smallNrows <= newrows.Length && Output(e, at, newrows[..smallNrows], index[..smallNrows])
  {
    at := Kept(LiveMask(newrows[..]), newrows.Length);
    OutputComplete(e, newrows[..], index[..]);
    smallNrows := CrunchRows(newrows);
    var j := CrunchIndex(index);
    assert j == smallNrows;
  }

  lemma OutputComplete(e: Elim, rows: seq<Row>, index: seq<seq<nat>>)
    requires |rows| == |index| && RowsSorted(rows) && IndexSorted(index)
    requires e == Elim(LiveOf(rows), SetsOf(rows), RelSets(index))
    ensures var at := Kept(LiveMask(rows), |rows|); Output(e, at, Pick(rows, at), Pick(index, at))
  {
    var at := Kept(LiveMask(rows), |rows|);
    KeptLists(LiveMask(rows), |rows|);
    ListedCount(at, e.live);
    forall k | 0 <= k < |at| ensures OutputRow(e, at[k], rows[at[k]], index[at[k]]) {
      assert at[k] in at;
    }
  }

  lemma OutputLinesUp(original: seq<set<nat>>, ops: seq<Op>, at: seq<nat>, rows: seq<Row>, index: seq<seq<nat>>)
    requires RunnableAll(Start(original), ops) && Output(Run(Start(original), ops), at, rows, index)
    ensures LinesUp(original, rows, index)
  {
    var e := Run(Start(original), ops);
    StartInvariant(original);
    TracksRun(original, Start(original), ops);
    LiveNonEmpty(original, e);
    forall k | 0 <= k < |at|
      ensures rows[k].Cells? && |index[k]| > 0 && Elems(rows[k].cells) == XorSum(original, Elems(index[k]))
    {
      assert at[k] in at;
      assert OutputRow(e, at[k], rows[k], index[k]);
      assert Elems(index[k]) != {};
    }
  }
}
