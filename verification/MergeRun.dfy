/** Whole runs of `merge`: any number of passes, each under any thread schedule. */
module MergeRun {
  import opened Elimination
  import opened HistoryLines
  import opened MergePass

  /** One pass: its candidates, the interleaving of its threads, and the order in which the
      merges that were done appear in the flushed buffers. */
  datatype PassRun = PassRun(cands: seq<Candidate>, schedule: seq<nat>, order: seq<nat>)

  ghost function EndState(e: Elim, p: PassRun): (s: Pass)
    requires PassOk(p.cands, e) && ScheduleOk(p.cands, p.schedule)
    ensures Inv(p.cands, e, s)
  {
    Execute(p.cands, e, Begin(p.cands, e), p.schedule)
  }

  /** No candidate won its rows, so the first one is merged after the parallel section. */
  ghost predicate FellBack(e: Elim, p: PassRun)
    requires PassOk(p.cands, e) && ScheduleOk(p.cands, p.schedule)
  {
    p.cands != [] && Winners(EndState(e, p)) == {}
  }

  ghost predicate PassRunOk(e: Elim, p: PassRun) {
    && PassOk(p.cands, e) && ScheduleOk(p.cands, p.schedule) && Settled(EndState(e, p))
    && if FellBack(e, p) then p.order == [0] else ListsWinners(EndState(e, p), p.order)
  }

  /** The row operations of the pass in the order in which they hit the matrix. */
  ghost function PassOps(e: Elim, p: PassRun): seq<Op>
    requires PassRunOk(e, p)
  {
    Trace(p.cands, e, Begin(p.cands, e), p.schedule) + (if FellBack(e, p) then Ops(p.cands[0]) else [])
  }

  lemma PassOpsLossless(e: Elim, p: PassRun)
    requires PassRunOk(e, p)
    ensures RunnableAll(e, PassOps(e, p)) && LosslessAll(e, PassOps(e, p))
    ensures !FellBack(e, p) ==> Run(e, PassOps(e, p)) == EndState(e, p).e
  {
    var trace := Trace(p.cands, e, Begin(p.cands, e), p.schedule);
    ExecuteLossless(p.cands, e, Begin(p.cands, e), p.schedule);
    if FellBack(e, p) {
      PassProgress(p.cands, e, EndState(e, p));
      RunAppend(e, trace, Ops(p.cands[0]));
      LosslessAppend(e, trace, Ops(p.cands[0]));
    } else {
      assert trace + [] == trace;
    }
  }

  /** The lines written by the pass. */
  ghost function PassLines(e: Elim, p: PassRun): (lines: seq<seq<int>>)
    requires PassRunOk(e, p)
    ensures LinesOk(lines)
  {
    OrderInBounds(e, p);
    OrderLines(p.cands, e, p.order)
  }

  lemma OrderInBounds(e: Elim, p: PassRun)
    requires PassRunOk(e, p)
    ensures ScheduleOk(p.cands, p.order)
  {
    if !FellBack(e, p) {
      forall k | 0 <= k < |p.order| ensures p.order[k] < |p.cands| {
        assert p.order[k] in p.order;
      }
    }
  }

  /** Executing the lines of a pass has the same effect as its interleaved operations. */
  lemma PassLinesReplay(e: Elim, p: PassRun)
    requires PassRunOk(e, p)
    ensures RunnableAll(e, LinesOps(PassLines(e, p))) && RunnableAll(e, PassOps(e, p))
    ensures Run(e, LinesOps(PassLines(e, p))) == Run(e, PassOps(e, p))
  {
    OrderInBounds(e, p);
    PassOpsLossless(e, p);
    if FellBack(e, p) {
      FallbackReplay(e, p);
    } else {
      HistoryReproducesPass(p.cands, e, p.schedule, p.order);
    }
  }

  lemma FallbackReplay(e: Elim, p: PassRun)
    requires PassRunOk(e, p) && FellBack(e, p)
    ensures RunnableAll(e, LinesOps(PassLines(e, p))) && RunnableAll(e, PassOps(e, p))
    ensures Run(e, LinesOps(PassLines(e, p))) == Run(e, PassOps(e, p))
  {
    var s := EndState(e, p);
    var trace := Trace(p.cands, e, Begin(p.cands, e), p.schedule);
    ExecuteLossless(p.cands, e, Begin(p.cands, e), p.schedule);
    PassProgress(p.cands, e, s);
    RunAppend(e, trace, Ops(p.cands[0]));
    OrderLinesOps(p.cands, e, p.order);
    assert p.order[..0] == [];
    assert OrderOps(p.cands, e, p.order) == [] + Ops(p.cands[0]);
    assert [] + Ops(p.cands[0]) == Ops(p.cands[0]);
  }

  ghost predicate PassesOk(e: Elim, passes: seq<PassRun>)
    requires WellFormed(e)
    decreases |passes|
  {
    passes == [] ||
    (PassRunOk(e, passes[0]) && RunnableAll(e, PassOps(e, passes[0])) && PassesOk(Run(e, PassOps(e, passes[0])), passes[1..]))
  }

  ghost function AllOps(e: Elim, passes: seq<PassRun>): seq<Op>
    requires WellFormed(e) && PassesOk(e, passes)
    decreases |passes|
  {
    if passes == [] then []
    else PassOps(e, passes[0]) + AllOps(Run(e, PassOps(e, passes[0])), passes[1..])
  }

  ghost function AllLines(e: Elim, passes: seq<PassRun>): (lines: seq<seq<int>>)
    requires WellFormed(e) && PassesOk(e, passes)
    ensures LinesOk(lines)
    decreases |passes|
  {
    if passes == [] then []
    else PassLines(e, passes[0]) + AllLines(Run(e, PassOps(e, passes[0])), passes[1..])
  }

  lemma {:induction false} AllOpsLossless(e: Elim, passes: seq<PassRun>)
    requires WellFormed(e) && PassesOk(e, passes)
    ensures RunnableAll(e, AllOps(e, passes)) && LosslessAll(e, AllOps(e, passes))
    decreases |passes|
  {
    if passes != [] {
      var ops := PassOps(e, passes[0]);
      PassOpsLossless(e, passes[0]);
      AllOpsLossless(Run(e, ops), passes[1..]);
      RunAppend(e, ops, AllOps(Run(e, ops), passes[1..]));
      LosslessAppend(e, ops, AllOps(Run(e, ops), passes[1..]));
    }
  }

  /** A run of `merge` keeps the left kernel: the dependencies between original relations are
      exactly those expressed, each in one way, by the remaining rows. */
  lemma MergeKeepsKernel(original: seq<set<nat>>, passes: seq<PassRun>, k: set<nat>)
    requires PassesOk(Start(original), passes)
    ensures RunnableAll(Start(original), AllOps(Start(original), passes))
    ensures KernelAgrees(original, Run(Start(original), AllOps(Start(original), passes)), k)
  {
    AllOpsLossless(Start(original), passes);
    KernelPreserved(original, AllOps(Start(original), passes), k);
  }

  /** Executing the whole history file gives exactly the rows with which `merge` ended. */
  lemma {:induction false} HistoryReproducesRun(e: Elim, passes: seq<PassRun>)
    requires WellFormed(e) && PassesOk(e, passes)
    ensures RunnableAll(e, LinesOps(AllLines(e, passes))) && RunnableAll(e, AllOps(e, passes))
    ensures Run(e, LinesOps(AllLines(e, passes))) == Run(e, AllOps(e, passes))
    decreases |passes|
  {
    if passes != [] {
      var mid := Run(e, PassOps(e, passes[0]));
      PassLinesReplay(e, passes[0]);
      HistoryReproducesRun(mid, passes[1..]);
      LinesOpsAppend(PassLines(e, passes[0]), AllLines(mid, passes[1..]));
      RunAppend(e, LinesOps(PassLines(e, passes[0])), LinesOps(AllLines(mid, passes[1..])));
      RunAppend(e, PassOps(e, passes[0]), AllOps(mid, passes[1..]));
    }
  }
}
