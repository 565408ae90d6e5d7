/** `merge` followed by `replay`: the text that one writes drives the other to the same rows, and
    also when `merge` worked without the buried columns. */
module Pipeline {
  import opened Arithmetic
  import opened Collections
  import opened XorSets
  import opened Elimination
  import opened ColumnWeights
  import opened SpanningTree
  import opened MergeTree
  import opened HistoryLines
  import opened HistoryText
  import opened SortedRows
  import opened MergeMatrix
  import opened MergePass
  import opened MergeRun
  import opened WeightedPass
  import opened WeightedRun
  import opened Replay

  ghost predicate AllInRange(lines: seq<seq<int>>) {
    forall k, x :: 0 <= k < |lines| && 0 <= x < |lines[k]| ==> InRange(lines[k][x])
  }

  lemma TextShape(line: seq<int>)
    requires LineOk(line) && forall k :: 0 <= k < |line| ==> InRange(line[k])
    ensures |LineText(line)| >= 1 && LineText(line)[|LineText(line)| - 1] == '\n'
    ensures LineText(line)[0] == '-' <==> line[0] < 0
    ensures LineText(line)[0] != '#'
    ensures Parse(LineText(line)) == Parsed(|line|, line, TWO32 - 1)
  {
    LineRoundTrip(line);
    TextBody(line);
    BodyNoHash(line);
  }

  lemma BodyNoHash(line: seq<int>)
    requires LineOk(line)
    ensures |Unsigned(line[0 := Abs(line[0])], |line|)| >= 1 && Unsigned(line[0 := Abs(line[0])], |line|)[0] != '#'
  {
    UnsignedFirst(line[0 := Abs(line[0])], |line|);
  }

  lemma {:induction false} UnsignedFirst(line: seq<int>, n: nat)
    requires 1 <= n <= |line| && forall k :: 0 <= k < |line| ==> line[k] >= 0
    ensures |Unsigned(line, n)| >= 1 && '0' <= Unsigned(line, n)[0] <= '9'
  {
    if n > 1 {
      UnsignedFirst(line, n - 1);
    } else {
      assert Digits(line[0])[0] in Digits(line[0]);
    }
  }

  // ----- The indices of a history -----

  ghost predicate Within(op: Op, n: nat) {
    match op
    case Add(dst, src) => dst < n && src < n
    case Drop(row) => row < n
  }

  lemma {:induction false} OpsWithin(e: Elim, ops: seq<Op>)
    requires WellFormed(e) && RunnableAll(e, ops)
    ensures forall k :: 0 <= k < |ops| ==> Within(ops[k], |e.rows|)
    decreases |ops|
  {
    if ops != [] {
      OpsWithin(Apply(e, ops[0]), ops[1..]);
      assert forall k :: 1 <= k < |ops| ==> ops[k] == ops[1..][k - 1];
    }
  }

  /** Every line does something: it adds its row to another one or destroys it. */
  ghost predicate AllAct(lines: seq<seq<int>>) {
    forall k :: 0 <= k < |lines| ==> LineOk(lines[k]) && (|lines[k]| == 1 ==> lines[k][0] >= 0)
  }

  lemma MergeLinesAct(ind: seq<nat>, tree: seq<Edge>)
    requires EdgesIn(tree, |ind|) && |ind| >= 1
    ensures AllAct(MergeLines(ind, tree))
  {
    if |ind| > 1 {
      assert MergeLines(ind, tree) == EdgeLines(ind, tree, |tree|);
    }
  }

  lemma {:induction false} OrderLinesAct(cands: seq<Candidate>, e: Elim, order: seq<nat>)
    requires PassOk(cands, e) && ScheduleOk(cands, order)
    ensures AllAct(OrderLines(cands, e, order))
    decreases |order|
  {
    if order != [] {
      var c := cands[order[|order| - 1]];
      OrderLinesAct(cands, e, order[..|order| - 1]);
      assert CandidateOk(e, c);
      MergeLinesAct(c.rows, c.tree);
    }
  }

  lemma {:induction false} AllLinesAct(e: Elim, passes: seq<PassRun>)
    requires WellFormed(e) && PassesOk(e, passes)
    ensures AllAct(AllLines(e, passes))
    decreases |passes|
  {
    if passes != [] {
      OrderInBounds(e, passes[0]);
      OrderLinesAct(passes[0].cands, e, passes[0].order);
      AllLinesAct(Run(e, PassOps(e, passes[0])), passes[1..]);
    }
  }

  lemma LineIndices(line: seq<int>, n: nat)
    requires LineOk(line) && (|line| == 1 ==> line[0] >= 0)
    requires forall k :: 0 <= k < |LineOps(line)| ==> Within(LineOps(line)[k], n)
    ensures forall x :: 0 <= x < |line| ==> -(n as int) <= line[x] < n
  {
    LineDropAt(line);
    forall x | 1 <= x < |line| ensures Source(line[0]) < n && line[x] < n {
      LineOpAt(line, x);
    }
  }

  lemma LinesOpsFirst(lines: seq<seq<int>>)
    requires LinesOk(lines) && lines != []
    ensures LinesOps(lines) == LineOps(lines[0]) + LinesOps(lines[1..])
  {
    LinesOpsAppend([lines[0]], lines[1..]);
    assert lines == [lines[0]] + lines[1..];
    assert [lines[0]][..0] == [];
    assert LinesOps([lines[0]]) == LineOps(lines[0]);
  }

  /** The indices of lines that can be executed are row numbers. */
  lemma {:induction false} IndicesInRange(e: Elim, lines: seq<seq<int>>)
    requires WellFormed(e) && |e.rows| <= TWO31 && AllAct(lines) && RunnableAll(e, LinesOps(lines))
    ensures AllInRange(lines)
    decreases |lines|
  {
    if lines != [] {
      LinesOpsFirst(lines);
      RunSplit(e, LineOps(lines[0]), LinesOps(lines[1..]));
      OpsWithin(e, LineOps(lines[0]));
      LineIndices(lines[0], |e.rows|);
      IndicesInRange(Run(e, LineOps(lines[0])), lines[1..]);
      assert forall k :: 1 <= k < |lines| ==> lines[k] == lines[1..][k - 1];
    }
  }

  // ----- The rows that are left -----

  lemma {:induction false} LiveShrinks(e: Elim, ops: seq<Op>)
    requires WellFormed(e) && RunnableAll(e, ops)
    ensures Run(e, ops).live <= e.live
    decreases |ops|
  {
    if ops != [] {
      LiveShrinks(Apply(e, ops[0]), ops[1..]);
    }
  }

  /** A line removes one row if it starts without a sign, and no row otherwise. */
  lemma LineLive(e: Elim, line: seq<int>)
    requires WellFormed(e) && LineOk(line) && RunnableAll(e, LineOps(line))
    ensures |Run(e, LineOps(line)).live| == |e.live| - (if line[0] >= 0 then 1 else 0)
  {
    var adds := AddTo(Source(line[0]), line[1..]);
    assert adds[..|adds|] == adds;
    if line[0] < 0 {
      assert LineOps(line) == adds;
    } else {
      RunSplit(e, adds, [Drop(Source(line[0]))]);
      RunnableSingle(Run(e, adds), Drop(Source(line[0])));
    }
    AddsKeepLive(e, adds, |adds|);
  }

  ghost predicate Printable(line: seq<int>) {
    LineOk(line) && forall k :: 0 <= k < |line| ==> InRange(line[k])
  }

  /** The lines can be printed and executed. */
  ghost predicate Playable(e: Elim, lines: seq<seq<int>>)
    requires WellFormed(e)
    decreases |lines|
  {
    lines == [] ||
    (Printable(lines[0]) && RunnableAll(e, LineOps(lines[0])) && Playable(Run(e, LineOps(lines[0])), lines[1..]))
  }

  lemma {:induction false} LinesPlayable(e: Elim, lines: seq<seq<int>>)
    requires WellFormed(e) && LinesOk(lines) && AllInRange(lines) && RunnableAll(e, LinesOps(lines))
    ensures Playable(e, lines)
    decreases |lines|
  {
    if lines != [] {
      LinesOpsFirst(lines);
      RunSplit(e, LineOps(lines[0]), LinesOps(lines[1..]));
      LinesPlayable(Run(e, LineOps(lines[0])), lines[1..]);
    }
  }

  /** The lines up to the moment when fewer than Nmax rows are live. */
  ghost function WhileEnough(e: Elim, lines: seq<seq<int>>, Nmax: int): seq<seq<int>>
    requires WellFormed(e) && Playable(e, lines)
    decreases |lines|
  {
    if lines == [] || |e.live| < Nmax then []
    else [lines[0]] + WhileEnough(Run(e, LineOps(lines[0])), lines[1..], Nmax)
  }

  lemma EnoughBefore(e: Elim, ops: seq<Op>, Nmax: int)
    requires WellFormed(e) && RunnableAll(e, ops) && |Run(e, ops).live| >= Nmax
    ensures |e.live| >= Nmax
  {
    LiveShrinks(e, ops);
    SubsetSize(Run(e, ops).live, e.live);
  }

  lemma RestRuns(e: Elim, lines: seq<seq<int>>)
    requires WellFormed(e) && lines != [] && LinesOk(lines) && RunnableAll(e, LinesOps(lines))
    ensures LinesOk(lines[1..]) && RunnableAll(e, LineOps(lines[0]))
    ensures var next := Run(e, LineOps(lines[0]));
            RunnableAll(next, LinesOps(lines[1..])) && Run(next, LinesOps(lines[1..])) == Run(e, LinesOps(lines))
  {
    LinesOpsFirst(lines);
    RunSplit(e, LineOps(lines[0]), LinesOps(lines[1..]));
  }

  lemma {:induction false} EnoughToTheEnd(e: Elim, lines: seq<seq<int>>, Nmax: int)
    requires WellFormed(e) && Playable(e, lines)
    requires LinesOk(lines) && RunnableAll(e, LinesOps(lines)) && |Run(e, LinesOps(lines)).live| >= Nmax
    ensures WhileEnough(e, lines, Nmax) == lines
    decreases |lines|
  {
    if lines != [] {
      EnoughBefore(e, LinesOps(lines), Nmax);
      RestRuns(e, lines);
      EnoughToTheEnd(Run(e, LineOps(lines[0])), lines[1..], Nmax);
      assert lines == [lines[0]] + lines[1..];
    }
  }

  // ----- The file -----

  /** The file consists of the printed lines, in order, and of comments at any places. */
  ghost predicate Holds(file: seq<string>, lines: seq<seq<int>>) {
    if file == [] then lines == []
    else
      && |file[0]| >= 1
      && if file[0][0] == '#' then Holds(file[1..], lines)
         else lines != [] && file[0] == LineText(lines[0]) && Holds(file[1..], lines[1..])
  }

  ghost predicate Executes(file: seq<string>, left: int, Nmax: int, lines: seq<seq<int>>) {
    FileOk(file) && Executed(file, left, Nmax) == lines
  }

  lemma ExecutesComment(file: seq<string>, left: int, Nmax: int, lines: seq<seq<int>>)
    requires file != [] && |file[0]| >= 1 && file[0][0] == '#' && left >= Nmax && Executes(file[1..], left, Nmax, lines)
    ensures Executes(file, left, Nmax, lines)
  {
    assert forall k :: 1 <= k < |file| ==> file[k] == file[1..][k - 1];
  }

  lemma ExecutesLine(file: seq<string>, line: seq<int>, left: int, Nmax: int, rest: seq<seq<int>>)
    requires Printable(line) && file != [] && file[0] == LineText(line) && left >= Nmax
    requires Executes(file[1..], left - (if line[0] >= 0 then 1 else 0), Nmax, rest)
    ensures Executes(file, left, Nmax, [line] + rest)
  {
    TextShape(line);
    assert forall k :: 1 <= k < |file| ==> file[k] == file[1..][k - 1];
  }

  lemma {:induction false} HoldsFileOk(e: Elim, file: seq<string>, lines: seq<seq<int>>)
    requires Holds(file, lines) && WellFormed(e) && Playable(e, lines)
    ensures FileOk(file)
    decreases |file|
  {
    if file != [] {
      if file[0][0] == '#' {
        HoldsFileOk(e, file[1..], lines);
      } else {
        HoldsFileOk(Run(e, LineOps(lines[0])), file[1..], lines[1..]);
        TextShape(lines[0]);
      }
      assert forall k :: 1 <= k < |file| ==> file[k] == file[1..][k - 1];
    }
  }

  lemma ExecutesNothing(e: Elim, file: seq<string>, lines: seq<seq<int>>, Nmax: int)
    requires Holds(file, lines) && WellFormed(e) && Playable(e, lines) && (file == [] || |e.live| < Nmax)
    ensures Executes(file, |e.live|, Nmax, [])
  {
    HoldsFileOk(e, file, lines);
  }

  /** Replay executes the lines of a file in order, whatever comments are among them, as long as at least
      Nmax rows are live. */
  lemma {:induction false} FileStops(e: Elim, file: seq<string>, lines: seq<seq<int>>, Nmax: int)
    requires Holds(file, lines) && WellFormed(e) && Playable(e, lines)
    ensures Executes(file, |e.live|, Nmax, WhileEnough(e, lines, Nmax))
    decreases |file|
  {
    if file == [] || |e.live| < Nmax {
      ExecutesNothing(e, file, lines, Nmax);
    } else if file[0][0] == '#' {
      FileStops(e, file[1..], lines, Nmax);
      ExecutesComment(file, |e.live|, Nmax, WhileEnough(e, lines, Nmax));
    } else {
      var next, rest := Run(e, LineOps(lines[0])), lines[1..];
      LineLive(e, lines[0]);
      FileStops(next, file[1..], rest, Nmax);
      ExecutesLine(file, lines[0], |e.live|, Nmax, WhileEnough(next, rest, Nmax));
    }
  }

  /** Replay executes every line if enough rows are left at the end. */
  lemma FileExecuted(e: Elim, file: seq<string>, lines: seq<seq<int>>, Nmax: int)
    requires Holds(file, lines) && LinesOk(lines) && AllInRange(lines)
    requires WellFormed(e) && RunnableAll(e, LinesOps(lines)) && |Run(e, LinesOps(lines)).live| >= Nmax
    ensures Executes(file, |e.live|, Nmax, lines)
  {
    LinesPlayable(e, lines);
    FileStops(e, file, lines, Nmax);
    EnoughToTheEnd(e, lines, Nmax);
  }

  // ----- Buried columns -----

  /** The columns that `merge` keeps. */
  ghost function Unburied(r: set<nat>, skip: nat): set<nat> {
    set j | j in r && j >= skip
  }

  ghost function UnburiedRows(rows: seq<set<nat>>, skip: nat): (f: seq<set<nat>>)
    ensures |f| == |rows| && forall i :: 0 <= i < |f| ==> f[i] == Unburied(rows[i], skip)
  {
    seq(|rows|, i requires 0 <= i < |rows| => Unburied(rows[i], skip))
  }

  ghost function Restrict(e: Elim, skip: nat): Elim {
    e.(rows := UnburiedRows(e.rows, skip))
  }

  lemma ApplyRestrict(e: Elim, op: Op, skip: nat)
    requires WellFormed(e) && Runnable(Restrict(e, skip), op)
    ensures Runnable(e, op) && Apply(Restrict(e, skip), op) == Restrict(Apply(e, op), skip)
  {
    match op
    case Add(dst, src) =>
      assert Unburied(SymDiff(e.rows[dst], e.rows[src]), skip)
          == SymDiff(Unburied(e.rows[dst], skip), Unburied(e.rows[src], skip));
      assert Apply(Restrict(e, skip), op).rows == Restrict(Apply(e, op), skip).rows;
    case Drop(row) =>
      assert Unburied({}, skip) == {};
      assert Apply(Restrict(e, skip), op).rows == Restrict(Apply(e, op), skip).rows;
  }

  lemma {:induction false} RunRestrict(e: Elim, ops: seq<Op>, skip: nat)
    requires WellFormed(e) && RunnableAll(Restrict(e, skip), ops)
    ensures RunnableAll(e, ops) && Run(Restrict(e, skip), ops) == Restrict(Run(e, ops), skip)
    decreases |ops|
  {
    if ops != [] {
      ApplyRestrict(e, ops[0], skip);
      RunRestrict(Apply(e, ops[0]), ops[1..], skip);
    }
  }

  /** How many rows a run leaves. */
  ghost function RowsLeft(e: Elim, passes: seq<PassRun>): nat
    requires WellFormed(e) && PassesOk(e, passes)
  {
    AllOpsLossless(e, passes);
    |Run(e, AllOps(e, passes)).live|
  }

  /** Replaying the file on the full relations gives the live rows and relation-sets that `merge`
      ended with after the operations `ops`, and its rows once the buried columns are left out. */
  ghost predicate ReplaysTo(purged: seq<set<nat>>, skip: nat, file: seq<string>, Nmax: int, ops: seq<Op>) {
    && FileOk(file) && LinesOk(Executed(file, |purged|, Nmax))
    && RunnableAll(Start(purged), LinesOps(Executed(file, |purged|, Nmax)))
    && RunnableAll(Start(UnburiedRows(purged, skip)), ops)
    && Restrict(Run(Start(purged), LinesOps(Executed(file, |purged|, Nmax))), skip)
       == Run(Start(UnburiedRows(purged, skip)), ops)
  }

  /** The history of any run of `merge` on the unburied columns, printed with comments among the
      lines and read back, can be replayed on the full relations, when row numbers fit in 32 bits
      with a sign and at least Nmax rows remain. */
  lemma ReplayMatchesMerge(purged: seq<set<nat>>, skip: nat, passes: seq<PassRun>, file: seq<string>, Nmax: int)
    requires |purged| <= TWO31 && PassesOk(Start(UnburiedRows(purged, skip)), passes)
    requires Holds(file, AllLines(Start(UnburiedRows(purged, skip)), passes))
    requires RowsLeft(Start(UnburiedRows(purged, skip)), passes) >= Nmax
    ensures ReplaysTo(purged, skip, file, Nmax, AllOps(Start(UnburiedRows(purged, skip)), passes))
  {
    var e := Start(UnburiedRows(purged, skip));
    var lines := AllLines(e, passes);
    assert e == Restrict(Start(purged), skip);
    HistoryReproducesRun(e, passes);
    AllLinesAct(e, passes);
    IndicesInRange(e, lines);
    FileExecuted(e, file, lines, Nmax);
    RunRestrict(Start(purged), LinesOps(lines), skip);
  }

  /** From the purged relations with exact small weights to the replayed matrix: of the candidates
      only their construction from the lists of each pass is assumed. */
  lemma ReplayMatchesWeights(purged: seq<set<nat>>, skip: nat, wt: seq<nat>, passes: seq<Recorded>, file: seq<string>, Nmax: int)
    requires |purged| <= TWO31
    requires var start := UnburiedRows(purged, skip);
             Fit(start, |wt|) && Exact(Bits(start, wt)) && Happens(Start(start), wt, passes)
    ensures var e, runs := Start(UnburiedRows(purged, skip)), AllPlain(passes);
            && PassesOk(e, runs)
            && (Holds(file, AllLines(e, runs)) && RowsLeft(e, runs) >= Nmax ==> ReplaysTo(purged, skip, file, Nmax, AllOps(e, runs)))
  {
    var e, runs := Start(UnburiedRows(purged, skip)), AllPlain(passes);
    RunFromWeights(e, wt, passes);
    if Holds(file, AllLines(e, runs)) && RowsLeft(e, runs) >= Nmax {
      ReplayMatchesMerge(purged, skip, runs, file, Nmax);
    }
  }

  // ----- The output of replay -----

  /** The output has exactly the rows that `merge` ended with in state e, in order, with the buried
      columns added, and their relation-sets. */
  ghost predicate OutputOfMerge(e: Elim, skip: nat, at: seq<nat>, rows: seq<Row>, index: seq<seq<nat>>)
    requires WellFormed(e)
  {
    && ListsLive(e, at) && |rows| == |index| == |at| == |e.live|
    && forall k :: 0 <= k < |at| ==>
         && at[k] < |e.rows| && rows[k].Cells?
         && Unburied(Elems(rows[k].cells), skip) == e.rows[at[k]] && Elems(index[k]) == e.rels[at[k]]
  }

  lemma OutputUnburied(full: Elim, skip: nat, at: seq<nat>, rows: seq<Row>, index: seq<seq<nat>>)
    requires WellFormed(full) && Output(full, at, rows, index)
    ensures OutputOfMerge(Restrict(full, skip), skip, at, rows, index)
  {
    forall k | 0 <= k < |at|
      ensures at[k] < |full.rows| && rows[k].Cells? && Elems(rows[k].cells) == full.rows[at[k]] && Elems(index[k]) == full.rels[at[k]]
    {
      assert OutputRow(full, at[k], rows[k], index[k]);
    }
  }

  /** `replay` on the history of a whole run of `merge`: it puts out the rows of `merge`, all of them,
      each with the relations it is the sum of. */
  method ReplayRun(newrows: array<Row>, file: seq<string>, Nmax: int, ghost skip: nat, ghost wt: seq<nat>, ghost passes: seq<Recorded>)
    returns (m: ReplayMatrix, smallNrows: nat, ghost at: seq<nat>)
    requires newrows.Length <= TWO31 && RowsSorted(newrows[..]) && forall i :: 0 <= i < newrows.Length ==> newrows[i].Cells?
    requires var start := UnburiedRows(SetsOf(newrows[..]), skip);
             Fit(start, |wt|) && Exact(Bits(start, wt)) && Happens(Start(start), wt, passes)
    requires var e := Start(UnburiedRows(SetsOf(newrows[..]), skip));
             PassesOk(e, AllPlain(passes)) ==> Holds(file, AllLines(e, AllPlain(passes))) && RowsLeft(e, AllPlain(passes)) >= Nmax
    modifies newrows
    ensures m.newrows == newrows && smallNrows <= newrows.Length && smallNrows <= m.index.Length
    ensures LinesUp(old(SetsOf(newrows[..])), newrows[..smallNrows], m.index[..smallNrows])
    ensures var e, runs := Start(UnburiedRows(old(SetsOf(newrows[..])), skip)), AllPlain(passes);
            && PassesOk(e, runs) && RunnableAll(e, AllOps(e, runs))
            && OutputOfMerge(Run(e, AllOps(e, runs)), skip, at, newrows[..smallNrows], m.index[..smallNrows])
  {
    ghost var purged := SetsOf(newrows[..]);
    ReplayMatchesWeights(purged, skip, wt, passes, file, Nmax);
    m, smallNrows, at := FasterVersion(newrows, file, Nmax);
    OutputUnburied(Run(Start(purged), LinesOps(Executed(file, |purged|, Nmax))), skip, at, newrows[..smallNrows], m.index[..smallNrows]);
  }
}
