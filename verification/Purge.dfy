/** The driver of `purge`: singleton removal, then steps of clique removal and singleton removal
    that bring the excess down to the number of extra relations to keep. */
module Purge {
  import opened PurgeGraph
  import opened Heaviest
  import opened PurgeMatrix
  import opened Singletons
  import opened CliqueRemoval

  const DEFAULT_PURGE_NSTEPS := 50

  /** Division that truncates toward zero. */
  function Truncated(a: int, b: int): (q: int)
    requires b > 0
    ensures a >= 0 ==> q * b <= a < q * b + b
    ensures a < 0 ==> q * b - b < a <= q * b
  {
    if a >= 0 then a / b else -(-a / b)
  }

  /** The number of steps, chosen when the caller gave a negative one. */
  function Steps(nsteps: int, delta: int, columns: nat): (r: int)
    ensures nsteps >= 0 ==> r == nsteps
    ensures nsteps < 0 && delta <= 0 ==> r == 0
    ensures nsteps < 0 && delta > 0 ==> 1 <= r <= DEFAULT_PURGE_NSTEPS
  {
    if nsteps >= 0 then nsteps
    else if delta <= 0 then 0
    else if delta / DEFAULT_PURGE_NSTEPS < columns / 100 then
      StepsInRange(delta, columns);
      1 + (100 * delta) / columns
    else DEFAULT_PURGE_NSTEPS
  }

  /** Unless it is the default, the chosen number is the least with which each step takes less than one
      percent of the columns off the excess. */
  lemma StepsMeaning(nsteps: int, delta: int, columns: nat)
    requires nsteps < 0 && delta > 0
    ensures var r := Steps(nsteps, delta, columns);
            if delta / DEFAULT_PURGE_NSTEPS < columns / 100 then 100 * delta < r * columns && (r - 1) * columns <= 100 * delta
            else r == DEFAULT_PURGE_NSTEPS
  {
    if delta / DEFAULT_PURGE_NSTEPS < columns / 100 {
      StepsInRange(delta, columns);
      var q := (100 * delta) / columns;
      assert 100 * delta == q * columns + (100 * delta) % columns;
      assert (q + 1) * columns == q * columns + columns;
    }
  }

  lemma StepsInRange(delta: int, columns: nat)
    requires delta > 0 && delta / DEFAULT_PURGE_NSTEPS < columns / 100
    ensures columns > 0 && 0 <= (100 * delta) / columns < DEFAULT_PURGE_NSTEPS
  {
    assert 100 * delta < columns * DEFAULT_PURGE_NSTEPS;
    QuotientBelow(100 * delta, columns, DEFAULT_PURGE_NSTEPS);
  }

  lemma QuotientBelow(a: nat, b: nat, n: nat)
    requires b > 0 && a < b * n
    ensures 0 <= a / b < n
  {
    var q := a / b;
    assert q >= n ==> q * b >= n * b;
  }

  datatype Options = Options(keep: int, nsteps: int, requiredExcess: real, nthreads: nat)

  datatype Outcome = NotEnough | Done

  /** The orders in which the passes of every round of singleton removal visit the rows. */
  type Schedules = nat -> nat -> seq<nat>

  ghost predicate AllVisit(schedules: Schedules, n: nat) {
    forall round: nat, pass: nat :: Visits(schedules(round)(pass), n)
  }

  // ----- What a run does -----

  /** One step: from the rows of g, clique removal left `mid`, and singleton removal `live`. */
  datatype Step = Step(g: Graph, target: int, mid: set<nat>, live: set<nat>)

  ghost predicate StepOk(s: Step, nthreads: nat, n: nat) {
    && IsCore(s.g.r, s.mid, s.live) && ExcessOf(s.g.r, s.live) >= ExcessOf(s.g.r, s.mid)
    && exists all, deleted, max :: CliquesGone(s.g, s.mid, s.target, nthreads, n, all, deleted, max)
  }

  /** The rows before step k of a run that starts with the rows `start`. */
  ghost function RowsBefore(start: set<nat>, steps: seq<Step>, k: nat): set<nat>
    requires k <= |steps|
  {
    if k == 0 then start else steps[k - 1].live
  }

  /** The steps that n rows and a number of threads allow. */
  ghost function Allowed(nthreads: nat, n: nat): Step -> bool {
    s => StepOk(s, nthreads, n)
  }

  ghost predicate StepFrom(ok: Step -> bool, r: Relations, base: set<nat>, s: Step) {
    s.g.r == r && s.g.base == base && ok(s)
  }

  /** Each step starts where the one before it ended. */
  ghost predicate Chain(ok: Step -> bool, r: Relations, start: set<nat>, steps: seq<Step>) {
    steps == [] ||
    var k := |steps| - 1;
    Chain(ok, r, start, steps[..k]) && StepFrom(ok, r, RowsBefore(start, steps, k), steps[k])
  }

  lemma {:induction false} ChainAt(ok: Step -> bool, r: Relations, start: set<nat>, steps: seq<Step>, k: nat)
    requires Chain(ok, r, start, steps) && k < |steps|
    ensures StepFrom(ok, r, RowsBefore(start, steps, k), steps[k])
  {
    if k < |steps| - 1 {
      ChainAt(ok, r, start, steps[..|steps| - 1], k);
    }
  }

  /** The excess before step k. */
  ghost function ExcessBefore(r: Relations, start: set<nat>, steps: seq<Step>, k: nat): int
    requires k <= |steps|
  {
    ExcessOf(r, RowsBefore(start, steps, k))
  }

  /** The first k steps are regular: each aims at `chunk` less, but not below `keep`. */
  ghost predicate Regular(r: Relations, start: set<nat>, steps: seq<Step>, k: nat, o: Options, nsteps: int, chunk: int)
    requires k <= |steps|
  {
    && (nsteps < 0 || k <= nsteps)
    && forall j :: 0 <= j < k ==>
         && ExcessBefore(r, start, steps, j) > 0
         && steps[j].target == (if ExcessBefore(r, start, steps, j) - chunk >= o.keep then ExcessBefore(r, start, steps, j) - chunk else o.keep)
  }

  /** All regular steps are made as long as the excess is positive, then one more that aims at `keep` if
      the excess is still above it. */
  ghost predicate Planned(r: Relations, start: set<nat>, steps: seq<Step>, k: nat, o: Options, nsteps: int, chunk: int) {
    && k <= |steps| && Regular(r, start, steps, k, o, nsteps, chunk)
    && (k >= nsteps || ExcessBefore(r, start, steps, k) <= 0)
    && if ExcessBefore(r, start, steps, k) > o.keep && nsteps > 0 then |steps| == k + 1 && steps[k].target == o.keep
       else |steps| == k
  }

  lemma StepShrinks(s: Step, nthreads: nat, n: nat)
    requires StepOk(s, nthreads, n)
    ensures s.live <= s.g.base
    ensures ExcessOf(s.g.r, s.g.base) > s.target && s.g.base != {} ==> s.live != s.g.base
    ensures ExcessOf(s.g.r, s.live) >= s.target || ExcessOf(s.g.r, s.live) >= ExcessOf(s.g.r, s.g.base)
  {
  }

  /** A step takes rows away if the excess is above its target, and does not bring the excess below it.
      `x` and `y` are the excess before and after. */
  ghost predicate Slope(before: set<nat>, x: int, target: int, after: set<nat>, y: int) {
    after <= before && (x > target && before != {} ==> after != before) && (y >= target || y >= x)
  }

  ghost predicate Slopes(rows: seq<set<nat>>, xs: seq<int>, targets: seq<int>) {
    && |rows| == |xs| == |targets| + 1
    && forall k {:trigger targets[k]} :: 0 <= k < |targets| ==> Slope(rows[k], xs[k], targets[k], rows[k + 1], xs[k + 1])
  }

  lemma {:induction false} RowsShrink(rows: seq<set<nat>>, xs: seq<int>, targets: seq<int>, k: nat)
    requires Slopes(rows, xs, targets) && k < |rows|
    ensures rows[k] <= rows[0]
  {
    if k > 0 {
      RowsShrink(rows, xs, targets, k - 1);
      assert Slope(rows[k - 1], xs[k - 1], targets[k - 1], rows[k], xs[k]);
    }
  }

  lemma {:induction false} ExcessKept(rows: seq<set<nat>>, xs: seq<int>, targets: seq<int>, keep: int, j: nat)
    requires Slopes(rows, xs, targets) && j < |rows| && forall i :: 0 <= i < |targets| ==> targets[i] >= keep
    ensures xs[0] >= keep ==> xs[j] >= keep
    ensures xs[0] <= keep ==> xs[j] >= xs[0]
  {
    if j > 0 {
      ExcessKept(rows, xs, targets, keep, j - 1);
      assert Slope(rows[j - 1], xs[j - 1], targets[j - 1], rows[j], xs[j]);
    }
  }

  // The rows before each step and at the end, their excess, and the targets.

  ghost function AllRows(start: set<nat>, steps: seq<Step>): (rows: seq<set<nat>>)
    ensures |rows| == |steps| + 1 && forall k :: 0 <= k < |rows| ==> rows[k] == RowsBefore(start, steps, k)
  {
    seq(|steps| + 1, k requires 0 <= k <= |steps| => RowsBefore(start, steps, k))
  }

  ghost function AllExcess(r: Relations, start: set<nat>, steps: seq<Step>): (xs: seq<int>)
    ensures |xs| == |steps| + 1 && forall k :: 0 <= k < |xs| ==> xs[k] == ExcessBefore(r, start, steps, k)
  {
    seq(|steps| + 1, k requires 0 <= k <= |steps| => ExcessBefore(r, start, steps, k))
  }

  ghost function AllTargets(steps: seq<Step>): (ts: seq<int>)
    ensures |ts| == |steps| && forall k :: 0 <= k < |ts| ==> ts[k] == steps[k].target
  {
    seq(|steps|, k requires 0 <= k < |steps| => steps[k].target)
  }

  lemma ChainSlope(r: Relations, start: set<nat>, steps: seq<Step>, nthreads: nat, n: nat, k: nat)
    requires Chain(Allowed(nthreads, n), r, start, steps) && k < |steps|
    ensures Slope(RowsBefore(start, steps, k), ExcessBefore(r, start, steps, k), steps[k].target,
                  RowsBefore(start, steps, k + 1), ExcessBefore(r, start, steps, k + 1))
  {
    ChainAt(Allowed(nthreads, n), r, start, steps, k);
    StepShrinks(steps[k], nthreads, n);
  }

  lemma ChainSlopes(r: Relations, start: set<nat>, steps: seq<Step>, nthreads: nat, n: nat)
    requires Chain(Allowed(nthreads, n), r, start, steps)
    ensures Slopes(AllRows(start, steps), AllExcess(r, start, steps), AllTargets(steps))
  {
    var rows, xs, ts := AllRows(start, steps), AllExcess(r, start, steps), AllTargets(steps);
    forall k {:trigger ts[k]} | 0 <= k < |ts| ensures Slope(rows[k], xs[k], ts[k], rows[k + 1], xs[k + 1]) {
      ChainSlope(r, start, steps, nthreads, n, k);
    }
  }

  /** When more than what is to be kept is there at the beginning, rows go; and in the end the excess is at
      most `keep`, or the last step aimed at it. */
  lemma PlanReachesKeep(r: Relations, start: set<nat>, steps: seq<Step>, k: nat, o: Options, nsteps: int, chunk: int, n: nat)
    requires Chain(Allowed(o.nthreads, n), r, start, steps) && Planned(r, start, steps, k, o, nsteps, chunk)
    requires nsteps > 0 && ExcessOf(r, start) > o.keep && start != {}
    ensures RowsBefore(start, steps, |steps|) < start
    ensures ExcessBefore(r, start, steps, |steps|) <= o.keep || (|steps| > 0 && steps[|steps| - 1].target == o.keep)
  {
    ChainSlopes(r, start, steps, o.nthreads, n);
    PlanInNumbers(r, start, steps, k, o, nsteps, chunk);
    PlanShrinks(AllRows(start, steps), AllExcess(r, start, steps), AllTargets(steps), k, o.keep);
  }

  lemma PlanInNumbers(r: Relations, start: set<nat>, steps: seq<Step>, k: nat, o: Options, nsteps: int, chunk: int)
    requires Planned(r, start, steps, k, o, nsteps, chunk) && nsteps > 0
    ensures var rows, xs, ts := AllRows(start, steps), AllExcess(r, start, steps), AllTargets(steps);
            && rows[0] == start && xs[0] == ExcessOf(r, start) && k <= |ts| && (rows[k] == rows[0] ==> xs[k] == xs[0])
            && if xs[k] > o.keep then |ts| == k + 1 && ts[k] == o.keep else |ts| == k
  {
  }

  lemma PlanShrinks(rows: seq<set<nat>>, xs: seq<int>, ts: seq<int>, k: nat, keep: int)
    requires Slopes(rows, xs, ts) && k <= |ts| && rows[0] != {} && xs[0] > keep
    requires rows[k] == rows[0] ==> xs[k] == xs[0]
    requires if xs[k] > keep then |ts| == k + 1 && ts[k] == keep else |ts| == k
    ensures rows[|ts|] < rows[0]
  {
    RowsShrink(rows, xs, ts, |ts|);
    RowsShrink(rows, xs, ts, k);
    if |ts| == k + 1 {
      assert Slope(rows[k], xs[k], ts[k], rows[k + 1], xs[k + 1]);
    }
  }

  /** The excess never falls below what is to be kept unless it was already lower, in which case it never
      falls at all. */
  lemma PlanKeepsExcess(r: Relations, start: set<nat>, steps: seq<Step>, k: nat, o: Options, nsteps: int, chunk: int, n: nat)
    requires Chain(Allowed(o.nthreads, n), r, start, steps) && Planned(r, start, steps, k, o, nsteps, chunk)
    ensures ExcessOf(r, start) >= o.keep ==> ExcessBefore(r, start, steps, |steps|) >= o.keep
    ensures ExcessOf(r, start) <= o.keep ==> ExcessBefore(r, start, steps, |steps|) >= ExcessOf(r, start)
  {
    ChainSlopes(r, start, steps, o.nthreads, n);
    TargetsKeep(r, start, steps, k, o, nsteps, chunk);
    SlopesKeep(r, start, steps, o.keep);
  }

  lemma SlopesKeep(r: Relations, start: set<nat>, steps: seq<Step>, keep: int)
    requires Slopes(AllRows(start, steps), AllExcess(r, start, steps), AllTargets(steps))
    requires forall i :: 0 <= i < |steps| ==> AllTargets(steps)[i] >= keep
    ensures ExcessOf(r, start) >= keep ==> ExcessBefore(r, start, steps, |steps|) >= keep
    ensures ExcessOf(r, start) <= keep ==> ExcessBefore(r, start, steps, |steps|) >= ExcessOf(r, start)
  {
    var xs := AllExcess(r, start, steps);
    ExcessKept(AllRows(start, steps), xs, AllTargets(steps), keep, |steps|);
    assert xs[0] == ExcessBefore(r, start, steps, 0);
  }

  lemma TargetsKeep(r: Relations, start: set<nat>, steps: seq<Step>, k: nat, o: Options, nsteps: int, chunk: int)
    requires Planned(r, start, steps, k, o, nsteps, chunk)
    ensures forall i :: 0 <= i < |steps| ==> AllTargets(steps)[i] >= o.keep
  {
    forall i | 0 <= i < |steps| ensures steps[i].target >= o.keep {
      var x := ExcessBefore(r, start, steps, i);
      if i < k {
        assert steps[i].target == if x - chunk >= o.keep then x - chunk else o.keep;
      }
    }
  }

  lemma PlanEnds(r: Relations, start: set<nat>, steps: seq<Step>, nthreads: nat, n: nat)
    requires Chain(Allowed(nthreads, n), r, start, steps) && NoSingletons(r, start)
    ensures NoSingletons(r, RowsBefore(start, steps, |steps|))
  {
    if steps != [] {
      ChainAt(Allowed(nthreads, n), r, start, steps, |steps| - 1);
    }
  }

  lemma ChainMore(ok: Step -> bool, r: Relations, start: set<nat>, steps: seq<Step>, s: Step)
    requires Chain(ok, r, start, steps) && StepFrom(ok, r, RowsBefore(start, steps, |steps|), s)
    ensures Chain(ok, r, start, steps + [s]) && RowsBefore(start, steps + [s], |steps| + 1) == s.live
  {
    var more, k := steps + [s], |steps|;
    assert more[..k] == steps && more[k] == s && RowsBefore(start, more, k) == RowsBefore(start, steps, k);
  }

  lemma SameBefore(start: set<nat>, steps: seq<Step>, s: Step, k: nat)
    requires k <= |steps|
    ensures RowsBefore(start, steps + [s], k) == RowsBefore(start, steps, k)
  {
  }

  lemma RegularMore(r: Relations, start: set<nat>, steps: seq<Step>, s: Step, k: nat, o: Options, nsteps: int, chunk: int)
    requires k <= |steps| && Regular(r, start, steps, k, o, nsteps, chunk)
    ensures Regular(r, start, steps + [s], k, o, nsteps, chunk)
  {
    forall j | 0 <= j < k ensures ExcessBefore(r, start, steps + [s], j) == ExcessBefore(r, start, steps, j) {
      SameBefore(start, steps, s, j);
    }
  }

  lemma RegularNext(r: Relations, start: set<nat>, steps: seq<Step>, s: Step, o: Options, nsteps: int, chunk: int)
    requires Regular(r, start, steps, |steps|, o, nsteps, chunk) && |steps| < nsteps
    requires var x := ExcessBefore(r, start, steps, |steps|);
             x > 0 && s.target == (if x - chunk >= o.keep then x - chunk else o.keep)
    ensures Regular(r, start, steps + [s], |steps| + 1, o, nsteps, chunk)
  {
    RegularMore(r, start, steps, s, |steps|, o, nsteps, chunk);
    SameBefore(start, steps, s, |steps|);
  }

  lemma OneStepMore(r: Relations, start: set<nat>, steps: seq<Step>, s: Step, o: Options, nsteps: int, chunk: int, n: nat)
    requires Chain(Allowed(o.nthreads, n), r, start, steps) && StepFrom(Allowed(o.nthreads, n), r, RowsBefore(start, steps, |steps|), s)
    requires Regular(r, start, steps, |steps|, o, nsteps, chunk) && |steps| < nsteps
    requires var x := ExcessBefore(r, start, steps, |steps|);
             x > 0 && s.target == (if x - chunk >= o.keep then x - chunk else o.keep)
    ensures Chain(Allowed(o.nthreads, n), r, start, steps + [s]) && RowsBefore(start, steps + [s], |steps| + 1) == s.live
    ensures Regular(r, start, steps + [s], |steps| + 1, o, nsteps, chunk)
  {
    ChainMore(Allowed(o.nthreads, n), r, start, steps, s);
    RegularNext(r, start, steps, s, o, nsteps, chunk);
  }

  /** The state of the matrix is that after the steps made so far. */
  ghost predicate Underway(m: Matrix, r: Relations, core: set<nat>, steps: seq<Step>, nthreads: nat, nrows: nat)
    reads m
  {
    && m.Valid() && m.Rel() == r && |m.rows| == nrows
    && Chain(Allowed(nthreads, nrows), r, core, steps) && m.Live() == RowsBefore(core, steps, |steps|)
  }

  /** One step: clique removal down to the target, then singleton removal. */
  method OneStep(m: Matrix, f: nat -> real, target: int, nthreads: nat, schedule: nat -> seq<nat>) returns (ghost s: Step)
    requires m.Valid() && nthreads > 0 && forall n: nat :: Visits(schedule(n), |m.rows|)
    modifies m`rows, m`columnWeights, m`remainingRows, m`remainingColumns
    ensures m.Valid() && m.Rel() == old(m.Rel()) && |m.rows| == old(|m.rows|)
    ensures s.g == old(GraphOf(m, f)) && s.target == target && s.live == m.Live() && StepOk(s, nthreads, |m.rows|)
  {
    ghost var g := GraphOf(m, f);
    var all, deleted, max := RemoveCliques(m, f, target, nthreads);
    ghost var mid := m.Live();
    m.ExcessMeaning();
    var excess := SingletonRemoval(m, schedule);
    m.ExcessMeaning();
    s := Step(g, target, mid, m.Live());
  }

  /** The regular steps of a run. */
  method RegularSteps(m: Matrix, f: nat -> real, o: Options, nsteps: int, chunk: int, schedules: Schedules)
    returns (count: nat, ghost steps: seq<Step>)
    requires m.Valid() && o.nthreads > 0 && AllVisit(schedules, |m.rows|)
    modifies m`rows, m`columnWeights, m`remainingRows, m`remainingColumns
    ensures |steps| == count && Underway(m, old(m.Rel()), old(m.Live()), steps, o.nthreads, old(|m.rows|))
    ensures Regular(old(m.Rel()), old(m.Live()), steps, count, o, nsteps, chunk)
    ensures count >= nsteps || m.Excess() <= 0
  {
    ghost var r, core, nrows := m.Rel(), m.Live(), |m.rows|;
    count, steps := 0, [];
    while count < nsteps && m.Excess() > 0
      invariant |steps| == count && Underway(m, r, core, steps, o.nthreads, nrows)
      invariant Regular(r, core, steps, count, o, nsteps, chunk)
    {
      var target := if m.Excess() - chunk >= o.keep then m.Excess() - chunk else o.keep;
      m.ExcessMeaning();
      ghost var s := OneStep(m, f, target, o.nthreads, schedules(count + 1));
      OneStepMore(r, core, steps, s, o, nsteps, chunk, nrows);
      steps := steps + [s];
      count := count + 1;
    }
  }

  /** Regular steps, and one more if the excess is still too large. */
  method AllSteps(m: Matrix, f: nat -> real, o: Options, nsteps: int, chunk: int, schedules: Schedules)
    returns (ghost steps: seq<Step>, ghost k: nat)
    requires m.Valid() && o.nthreads > 0 && AllVisit(schedules, |m.rows|)
    modifies m`rows, m`columnWeights, m`remainingRows, m`remainingColumns
    ensures Underway(m, old(m.Rel()), old(m.Live()), steps, o.nthreads, old(|m.rows|))
    ensures Planned(old(m.Rel()), old(m.Live()), steps, k, o, nsteps, chunk)
  {
    ghost var r, core, nrows := m.Rel(), m.Live(), |m.rows|;
    var count;
    count, steps := RegularSteps(m, f, o, nsteps, chunk, schedules);
    k := count;
    m.ExcessMeaning();
    if m.Excess() > o.keep && nsteps > 0 {
      ghost var s := OneStep(m, f, o.keep, o.nthreads, schedules(count + 1));
      ChainMore(Allowed(o.nthreads, nrows), r, core, steps, s);
      RegularMore(r, core, steps, s, k, o, nsteps, chunk);
      SameBefore(core, steps, s, k);
      steps := steps + [s];
    }
  }

  /** Singleton removal, and the decision whether there is enough excess to go on. */
  method StepZero(m: Matrix, o: Options, schedule: nat -> seq<nat>) returns (outcome: Outcome)
    requires m.Valid() && forall n: nat :: Visits(schedule(n), |m.rows|)
    modifies m`rows, m`columnWeights, m`remainingRows, m`remainingColumns
    ensures m.Valid() && m.Rel() == old(m.Rel()) && |m.rows| == old(|m.rows|)
    ensures IsCore(m.Rel(), old(m.Live()), m.Live()) && m.Excess() >= old(m.Excess())
    ensures outcome.Done? <==> Enough(m.Rel(), m.Live(), o)
  {
    var excess := SingletonRemoval(m, schedule);
    m.ExcessMeaning();
    outcome := Done;
    if m.Excess() <= 0 {
      outcome := NotEnough;
    } else if m.Excess() as real < o.requiredExcess * m.remainingColumns as real {
      outcome := NotEnough;
    }
  }

  /** The steps after step 0, as many as asked for or chosen. */
  method LaterSteps(m: Matrix, f: nat -> real, o: Options, schedules: Schedules) returns (ghost steps: seq<Step>, ghost k: nat)
    requires m.Valid() && o.nthreads > 0 && AllVisit(schedules, |m.rows|)
    modifies m`rows, m`columnWeights, m`remainingRows, m`remainingColumns
    ensures Underway(m, old(m.Rel()), old(m.Live()), steps, o.nthreads, old(|m.rows|))
    ensures Planned(old(m.Rel()), old(m.Live()), steps, k, o,
                    NumberOfSteps(old(m.Rel()), old(m.Live()), o), Chunk(old(m.Rel()), old(m.Live()), o))
  {
    m.ExcessMeaning();
    ghost var r, core := m.Rel(), m.Live();
    var delta := m.Excess() - o.keep;
    var nsteps := Steps(o.nsteps, delta, m.remainingColumns);
    var chunk := 0;
    if nsteps > 0 {
      chunk := Truncated(delta, nsteps);
    }
    assert nsteps == NumberOfSteps(r, core, o) && chunk == Chunk(r, core, o);
    steps, k := AllSteps(m, f, o, nsteps, chunk, schedules);
  }

  /** The whole run.  Step 0 leaves the rows `core`; whether the run goes on depends on their excess; the steps
      that follow are as planned. */
  method SingletonAndCliqueRemoval(m: Matrix, f: nat -> real, o: Options, schedules: Schedules)
    returns (outcome: Outcome, ghost core: set<nat>, ghost steps: seq<Step>, ghost k: nat)
    requires m.Valid() && o.nthreads > 0 && AllVisit(schedules, |m.rows|)
    modifies m`rows, m`columnWeights, m`remainingRows, m`remainingColumns
    ensures IsCore(old(m.Rel()), old(m.Live()), core) && ExcessOf(old(m.Rel()), core) >= old(m.Excess())
    ensures outcome.Done? <==> Enough(old(m.Rel()), core, o)
    ensures Underway(m, old(m.Rel()), core, steps, o.nthreads, old(|m.rows|))
    ensures outcome.NotEnough? ==> steps == []
    ensures outcome.Done? ==> Planned(old(m.Rel()), core, steps, k, o, NumberOfSteps(old(m.Rel()), core, o), Chunk(old(m.Rel()), core, o))
    ensures Reached(old(m.Rel()), core, steps, o)
  {
    ghost var r := m.Rel();
    outcome := StepZero(m, o, schedules(0));
    core, steps, k := m.Live(), [], 0;
    m.ExcessMeaning();
    if outcome.Done? {
      steps, k := LaterSteps(m, f, o, schedules);
      Consequences(r, core, steps, k, o, |m.rows|);
    }
  }

  ghost predicate Enough(r: Relations, core: set<nat>, o: Options) {
    ExcessOf(r, core) > 0 && ExcessOf(r, core) as real >= o.requiredExcess * |Columns(r, core)| as real
  }

  ghost function NumberOfSteps(r: Relations, core: set<nat>, o: Options): int {
    Steps(o.nsteps, ExcessOf(r, core) - o.keep, |Columns(r, core)|)
  }

  /** By how much each regular step lowers the excess. */
  ghost function Chunk(r: Relations, core: set<nat>, o: Options): int {
    if NumberOfSteps(r, core, o) > 0 then Truncated(ExcessOf(r, core) - o.keep, NumberOfSteps(r, core, o)) else 0
  }

  /** What the steps achieve: no singleton is left; the excess does not fall below `keep` unless it was lower
      already, in which case it does not fall; and if it was above `keep` and steps are to be made, rows go and
      it comes to `keep` or the last step was aimed at it. */
  ghost predicate Reached(r: Relations, core: set<nat>, steps: seq<Step>, o: Options) {
    var live := RowsBefore(core, steps, |steps|);
    && NoSingletons(r, live)
    && (ExcessOf(r, core) >= o.keep ==> ExcessOf(r, live) >= o.keep)
    && (ExcessOf(r, core) <= o.keep ==> ExcessOf(r, live) >= ExcessOf(r, core))
    && (Enough(r, core, o) && o.nsteps != 0 && ExcessOf(r, core) > o.keep ==>
          live < core && (ExcessOf(r, live) == o.keep || (steps != [] && steps[|steps| - 1].target == o.keep)))
  }

  lemma Consequences(r: Relations, core: set<nat>, steps: seq<Step>, k: nat, o: Options, n: nat)
    requires Chain(Allowed(o.nthreads, n), r, core, steps) && Planned(r, core, steps, k, o, NumberOfSteps(r, core, o), Chunk(r, core, o))
    requires NoSingletons(r, core) && ExcessOf(r, core) > 0
    ensures Reached(r, core, steps, o)
  {
    var nsteps, chunk := NumberOfSteps(r, core, o), Chunk(r, core, o);
    PlanEnds(r, core, steps, o.nthreads, n);
    PlanKeepsExcess(r, core, steps, k, o, nsteps, chunk, n);
    if nsteps > 0 && ExcessOf(r, core) > o.keep {
      PlanReachesKeep(r, core, steps, k, o, nsteps, chunk, n);
    }
  }
}
