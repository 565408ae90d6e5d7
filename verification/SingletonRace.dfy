/** Singleton removal at the granularity of its atomic actions.  A thread that reads a weight of
    one in a live row deletes that row cell by cell while other threads do the same elsewhere. */
module SingletonRace {
  import opened Collections
  import opened XorSets
  import opened PurgeGraph
  import opened PurgeMatrix

  datatype Status =
    | Alive
    | Dying(k: nat, killed: nat)  // k cells taken away so far, `killed` of them reached zero
    | Gone

  /** `lone[i]` records the column of weight one that was seen in row i. */
  datatype Race = Race(status: seq<Status>, wt: seq<nat>, nrows: int, ncols: int, lone: map<nat, nat>)

  datatype Act = Observe(i: nat, pos: nat) | Take(i: nat) | Finish(i: nat)

  /** Column h occurs in some row.  Columns outside the range of interest are weighted but stored in no row. */
  ghost predicate Occurs(cells: seq<seq<nat>>, h: nat) {
    exists i :: 0 <= i < |cells| && h in cells[i]
  }

  ghost predicate Setup(cells: seq<seq<nat>>, live: set<nat>, wt: seq<nat>) {
    && (forall i :: 0 <= i < |cells| ==> AllDifferent(cells[i]) && forall h :: h in cells[i] ==> h < |wt|)
    && (forall i :: i in live ==> i < |cells|)
    && (forall h {:trigger wt[h]} :: 0 <= h < |wt| && wt[h] < OVERWEIGHT && Occurs(cells, h) ==> wt[h] == |Holders(Sets(cells), live, h)|)
    && (forall h :: 0 <= h < |wt| ==> wt[h] <= OVERWEIGHT)
  }

  ghost function Sets(cells: seq<seq<nat>>): (f: seq<set<nat>>)
    ensures |f| == |cells| && forall i :: 0 <= i < |f| ==> f[i] == CellSet(cells[i])
  {
    seq(|cells|, i requires 0 <= i < |cells| => CellSet(cells[i]))
  }

  ghost function Rels(cells: seq<seq<nat>>, wt0: seq<nat>): Relations {
    Relations(Sets(cells), Saturated(wt0), {})
  }

  ghost function AliveRows(s: Race): set<nat> {
    set i: nat | 0 <= i < |s.status| && s.status[i].Alive?
  }

  /** Rows whose cell in column h has not been taken away yet. */
  ghost predicate Counts(cells: seq<seq<nat>>, s: Race, i: nat, h: nat) {
    && i < |s.status| && i < |cells|
    && match s.status[i]
       case Alive => h in cells[i]
       case Dying(k, _) => k <= |cells[i]| && h in cells[i][k..]
       case Gone => false
  }

  ghost function Pending(cells: seq<seq<nat>>, s: Race, h: nat): set<nat> {
    set i: nat | 0 <= i < |s.status| && Counts(cells, s, i, h)
  }

  ghost function KilledSum(status: seq<Status>): nat {
    if status == [] then 0
    else KilledSum(status[..|status| - 1]) + KilledBy(status[|status| - 1])
  }

  ghost function KilledBy(p: Status): nat {
    if p.Dying? then p.killed else 0
  }

  lemma {:induction false} KilledSumUpdate(status: seq<Status>, i: nat, p: Status)
    requires i < |status|
    ensures KilledSum(status[i := p]) == KilledSum(status) - KilledBy(status[i]) + KilledBy(p)
  {
    var n := |status| - 1;
    if i < n {
      KilledSumUpdate(status[..n], i, p);
      assert status[i := p][..n] == status[..n][i := p];
    } else {
      assert status[i := p][..n] == status[..n];
    }
  }

  ghost predicate Enabled(cells: seq<seq<nat>>, s: Race, a: Act)
    requires |s.status| == |cells|
  {
    match a
    case Observe(i, pos) => i < |cells| && s.status[i].Alive? && pos < |cells[i]| && cells[i][pos] < |s.wt| && s.wt[cells[i][pos]] == 1
    case Take(i) => i < |cells| && s.status[i].Dying? && s.status[i].k < |cells[i]| && cells[i][s.status[i].k] < |s.wt|
    case Finish(i) => i < |cells| && s.status[i].Dying? && s.status[i].k == |cells[i]|
  }

  ghost function Step(cells: seq<seq<nat>>, s: Race, a: Act): (t: Race)
    requires |s.status| == |cells| && Enabled(cells, s, a)
    ensures |t.status| == |s.status| && |t.wt| == |s.wt|
  {
    match a
    case Observe(i, pos) => s.(status := s.status[i := Dying(0, 0)], lone := s.lone[i := cells[i][pos]])
    case Take(i) =>
      var p := s.status[i];
      var w := s.wt[cells[i][p.k]];
      if 0 < w < OVERWEIGHT then
        s.(status := s.status[i := Dying(p.k + 1, p.killed + (if w == 1 then 1 else 0))], wt := s.wt[cells[i][p.k] := w - 1])
      else
        s.(status := s.status[i := Dying(p.k + 1, p.killed)])
    case Finish(i) =>
      s.(status := s.status[i := Gone], ncols := s.ncols - s.status[i].killed, nrows := s.nrows - 1)
  }

  ghost function Begin(cells: seq<seq<nat>>, live: set<nat>, wt: seq<nat>): Race {
    Race(seq(|cells|, i requires 0 <= i => if i in live then Alive else Gone), wt, |live|, |Positive(wt)|, map[])
  }

  ghost predicate StatusOk(cells: seq<seq<nat>>, live: set<nat>, s: Race) {
    && |s.status| == |cells|
    && (forall i :: 0 <= i < |cells| && !s.status[i].Gone? ==> i in live)
    && (forall i :: 0 <= i < |cells| && s.status[i].Dying? ==> s.status[i].k <= |cells[i]|)
  }

  /** Unsaturated weights of columns that occur count the cells not yet taken away. */
  ghost predicate WeightsOk(cells: seq<seq<nat>>, wt0: seq<nat>, s: Race) {
    && |s.wt| == |wt0| && Saturated(s.wt) == Saturated(wt0)
    && (forall h {:trigger s.wt[h]} :: 0 <= h < |s.wt| ==> s.wt[h] <= OVERWEIGHT)
    && (forall h {:trigger s.wt[h]} :: 0 <= h < |s.wt| && s.wt[h] < OVERWEIGHT && Occurs(cells, h) ==> s.wt[h] == |Pending(cells, s, h)|)
  }

  /** The counters are exact up to the deletions under way. */
  ghost predicate CountersOk(live: set<nat>, wt0: seq<nat>, s: Race) {
    && s.nrows == |live| - |GoneRows(s, live)|
    && s.ncols == |Positive(s.wt)| + KilledSum(s.status)
    && Positive(s.wt) <= Positive(wt0)
  }

  /** In addition, every row that is dying or gone was the last holder of the column recorded for it. */
  ghost predicate Inv(cells: seq<seq<nat>>, live: set<nat>, wt0: seq<nat>, s: Race) {
    StatusOk(cells, live, s) && WeightsOk(cells, wt0, s) && CountersOk(live, wt0, s) && LoneOk(cells, live, wt0, s)
  }

  ghost function GoneRows(s: Race, live: set<nat>): set<nat> {
    set i | i in live && i < |s.status| && s.status[i].Gone?
  }

  ghost predicate LoneOk(cells: seq<seq<nat>>, live: set<nat>, wt0: seq<nat>, s: Race)
    requires |s.status| == |cells|
  {
    && (forall i :: i in live && i < |cells| && !s.status[i].Alive? ==> i in s.lone)
    && (forall i :: i in s.lone ==> i in live && i < |cells| && !s.status[i].Alive? && Occurs(cells, s.lone[i]))
    && (forall i :: i in s.lone ==> s.lone[i] in Positive(wt0) && s.lone[i] !in Saturated(wt0) && Pending(cells, s, s.lone[i]) <= {i})
    && (forall i, j :: i in s.lone && j in s.lone && i != j ==> s.lone[i] != s.lone[j])
  }

  /** Rows of a singleton-free subset are never touched. */
  ghost predicate Safe(cells: seq<seq<nat>>, live: set<nat>, wt0: seq<nat>, s: Race) {
    forall c: set<nat> :: c <= live && NoSingletons(Rels(cells, wt0), c) ==> c <= AliveRows(s)
  }

  lemma BeginInv(cells: seq<seq<nat>>, live: set<nat>, wt: seq<nat>)
    requires Setup(cells, live, wt)
    ensures Inv(cells, live, wt, Begin(cells, live, wt)) && Safe(cells, live, wt, Begin(cells, live, wt))
  {
    var s := Begin(cells, live, wt);
    forall h: nat ensures Pending(cells, s, h) == Holders(Sets(cells), live, h) {
    }
    assert GoneRows(s, live) == {};
    NoneKilled(s.status);
    assert AliveRows(s) == live;
  }

  lemma {:induction false} NoneKilled(status: seq<Status>)
    requires forall i :: 0 <= i < |status| ==> !status[i].Dying?
    ensures KilledSum(status) == 0
  {
    if status != [] {
      NoneKilled(status[..|status| - 1]);
    }
  }

  ghost predicate SamePending(cells: seq<seq<nat>>, s: Race, t: Race) {
    forall g: nat :: Pending(cells, t, g) == Pending(cells, s, g)
  }

  lemma ObserveAlone(cells: seq<seq<nat>>, live: set<nat>, wt0: seq<nat>, s: Race, i: nat, pos: nat)
    requires StatusOk(cells, live, s) && WeightsOk(cells, wt0, s) && Enabled(cells, s, Observe(i, pos))
    ensures Pending(cells, s, cells[i][pos]) == {i} && cells[i][pos] in Positive(s.wt) && cells[i][pos] !in Saturated(s.wt)
  {
    assert i in Pending(cells, s, cells[i][pos]);
    SubsetSize({i}, Pending(cells, s, cells[i][pos]));
  }

  lemma ObservePending(cells: seq<seq<nat>>, s: Race, i: nat, pos: nat)
    requires |s.status| == |cells| && Enabled(cells, s, Observe(i, pos))
    ensures SamePending(cells, s, Step(cells, s, Observe(i, pos)))
  {
    var t := Step(cells, s, Observe(i, pos));
    assert cells[i][0..] == cells[i];
    forall g: nat ensures Pending(cells, t, g) == Pending(cells, s, g) {
      assert forall x :: 0 <= x < |cells| ==> (Counts(cells, t, x, g) <==> Counts(cells, s, x, g));
    }
  }

  lemma ObserveLone(cells: seq<seq<nat>>, live: set<nat>, wt0: seq<nat>, s: Race, i: nat, pos: nat)
    requires StatusOk(cells, live, s) && LoneOk(cells, live, wt0, s) && Enabled(cells, s, Observe(i, pos))
    requires Pending(cells, s, cells[i][pos]) == {i}
    requires cells[i][pos] in Positive(wt0) && cells[i][pos] !in Saturated(wt0)
    ensures LoneOk(cells, live, wt0, Step(cells, s, Observe(i, pos)))
  {
    var t, h := Step(cells, s, Observe(i, pos)), cells[i][pos];
    ObservePending(cells, s, i, pos);
    assert forall y :: y in s.lone ==> (i in Pending(cells, s, s.lone[y]) ==> y == i);
    assert forall y :: y in s.lone ==> s.lone[y] != h;
  }

  lemma ObserveStep(cells: seq<seq<nat>>, live: set<nat>, wt0: seq<nat>, s: Race, i: nat, pos: nat)
    requires Inv(cells, live, wt0, s) && Enabled(cells, s, Observe(i, pos))
    ensures Inv(cells, live, wt0, Step(cells, s, Observe(i, pos)))
  {
    ObserveAlone(cells, live, wt0, s, i, pos);
    ObservePending(cells, s, i, pos);
    ObserveLone(cells, live, wt0, s, i, pos);
    ObserveCounters(cells, live, wt0, s, i, pos);
    assert WeightsOk(cells, wt0, Step(cells, s, Observe(i, pos)));
  }

  lemma ObserveCounters(cells: seq<seq<nat>>, live: set<nat>, wt0: seq<nat>, s: Race, i: nat, pos: nat)
    requires StatusOk(cells, live, s) && CountersOk(live, wt0, s) && Enabled(cells, s, Observe(i, pos))
    ensures StatusOk(cells, live, Step(cells, s, Observe(i, pos))) && CountersOk(live, wt0, Step(cells, s, Observe(i, pos)))
  {
    KilledSumUpdate(s.status, i, Dying(0, 0));
    assert GoneRows(Step(cells, s, Observe(i, pos)), live) == GoneRows(s, live);
  }

  lemma TakePending(cells: seq<seq<nat>>, s: Race, i: nat, g: nat)
    requires |s.status| == |cells| && Enabled(cells, s, Take(i)) && AllDifferent(cells[i])
    ensures var t, h := Step(cells, s, Take(i)), cells[i][s.status[i].k];
            && i in Pending(cells, s, h)
            && Pending(cells, t, g) == if g == h then Pending(cells, s, g) - {i} else Pending(cells, s, g)
  {
    var t, k := Step(cells, s, Take(i)), s.status[i].k;
    var h := cells[i][k];
    assert cells[i][k..] == [h] + cells[i][k + 1..];
    assert h !in cells[i][k + 1..];
    assert forall x :: 0 <= x < |cells| && x != i ==> (Counts(cells, t, x, g) <==> Counts(cells, s, x, g));
  }

  lemma TakeWeight(cells: seq<seq<nat>>, live: set<nat>, wt0: seq<nat>, s: Race, i: nat)
    requires Setup(cells, live, wt0) && StatusOk(cells, live, s) && WeightsOk(cells, wt0, s) && Enabled(cells, s, Take(i))
    ensures WeightsOk(cells, wt0, Step(cells, s, Take(i)))
    ensures 0 < s.wt[cells[i][s.status[i].k]] <= OVERWEIGHT
  {
    var t, h := Step(cells, s, Take(i)), cells[i][s.status[i].k];
    TakePending(cells, s, i, h);
    assert |Pending(cells, s, h)| > 0;
    assert Saturated(t.wt) == Saturated(s.wt);
    forall g | 0 <= g < |t.wt| && t.wt[g] < OVERWEIGHT && Occurs(cells, g) ensures t.wt[g] == |Pending(cells, t, g)| {
      TakePending(cells, s, i, g);
      assert s.wt[g] < OVERWEIGHT ==> s.wt[g] == |Pending(cells, s, g)|;
    }
  }

  lemma TakeCounters(cells: seq<seq<nat>>, live: set<nat>, wt0: seq<nat>, s: Race, i: nat)
    requires StatusOk(cells, live, s) && CountersOk(live, wt0, s) && Enabled(cells, s, Take(i))
    requires 0 < s.wt[cells[i][s.status[i].k]] <= OVERWEIGHT
    ensures CountersOk(live, wt0, Step(cells, s, Take(i)))
  {
    var t := Step(cells, s, Take(i));
    KilledSumUpdate(s.status, i, t.status[i]);
    TakePositive(s, t, cells[i][s.status[i].k]);
    assert GoneRows(t, live) == GoneRows(s, live);
  }

  lemma TakeStep(cells: seq<seq<nat>>, live: set<nat>, wt0: seq<nat>, s: Race, i: nat)
    requires Setup(cells, live, wt0) && Inv(cells, live, wt0, s) && Enabled(cells, s, Take(i))
    ensures Inv(cells, live, wt0, Step(cells, s, Take(i)))
  {
    TakeWeight(cells, live, wt0, s, i);
    TakeCounters(cells, live, wt0, s, i);
    TakeLone(cells, live, wt0, s, i);
  }

  lemma TakeStatus(cells: seq<seq<nat>>, live: set<nat>, s: Race, i: nat)
    requires StatusOk(cells, live, s) && Enabled(cells, s, Take(i))
    ensures StatusOk(cells, live, Step(cells, s, Take(i)))
  {
  }

  lemma TakeLone(cells: seq<seq<nat>>, live: set<nat>, wt0: seq<nat>, s: Race, i: nat)
    requires StatusOk(cells, live, s) && LoneOk(cells, live, wt0, s) && Enabled(cells, s, Take(i)) && AllDifferent(cells[i])
    ensures StatusOk(cells, live, Step(cells, s, Take(i))) && LoneOk(cells, live, wt0, Step(cells, s, Take(i)))
  {
    var t := Step(cells, s, Take(i));
    TakeStatus(cells, live, s, i);
    forall x | x in t.lone ensures Pending(cells, t, t.lone[x]) <= {x} {
      TakePending(cells, s, i, t.lone[x]);
    }
  }

  /** The number of columns left after a weight has been lowered or left alone. */
  lemma TakePositive(s: Race, t: Race, h: nat)
    requires h < |s.wt| && 0 < s.wt[h] <= OVERWEIGHT
    requires t.wt == if s.wt[h] < OVERWEIGHT then s.wt[h := s.wt[h] - 1] else s.wt
    ensures |Positive(t.wt)| == |Positive(s.wt)| - (if s.wt[h] == 1 then 1 else 0)
    ensures Positive(t.wt) <= Positive(s.wt)
  {
    assert h in Positive(s.wt);
    if s.wt[h] == 1 {
      assert Positive(t.wt) == Positive(s.wt) - {h};
    } else {
      assert Positive(t.wt) == Positive(s.wt);
    }
  }

  lemma FinishPending(cells: seq<seq<nat>>, s: Race, i: nat)
    requires |s.status| == |cells| && Enabled(cells, s, Finish(i))
    ensures SamePending(cells, s, Step(cells, s, Finish(i)))
  {
    var t := Step(cells, s, Finish(i));
    assert cells[i][|cells[i]|..] == [];
    forall g: nat ensures Pending(cells, t, g) == Pending(cells, s, g) {
      assert forall x :: 0 <= x < |cells| ==> (Counts(cells, t, x, g) <==> Counts(cells, s, x, g));
    }
  }

  lemma FinishStep(cells: seq<seq<nat>>, live: set<nat>, wt0: seq<nat>, s: Race, i: nat)
    requires Inv(cells, live, wt0, s) && Enabled(cells, s, Finish(i))
    ensures Inv(cells, live, wt0, Step(cells, s, Finish(i)))
  {
    FinishPending(cells, s, i);
    FinishCounters(cells, live, wt0, s, i);
    FinishLone(cells, live, wt0, s, i);
    assert WeightsOk(cells, wt0, Step(cells, s, Finish(i)));
  }

  lemma FinishCounters(cells: seq<seq<nat>>, live: set<nat>, wt0: seq<nat>, s: Race, i: nat)
    requires StatusOk(cells, live, s) && CountersOk(live, wt0, s) && Enabled(cells, s, Finish(i))
    ensures StatusOk(cells, live, Step(cells, s, Finish(i))) && CountersOk(live, wt0, Step(cells, s, Finish(i)))
  {
    var t := Step(cells, s, Finish(i));
    KilledSumUpdate(s.status, i, Gone);
    assert GoneRows(t, live) == GoneRows(s, live) + {i};
    assert i !in GoneRows(s, live);
  }

  lemma FinishLone(cells: seq<seq<nat>>, live: set<nat>, wt0: seq<nat>, s: Race, i: nat)
    requires StatusOk(cells, live, s) && LoneOk(cells, live, wt0, s) && Enabled(cells, s, Finish(i))
    requires SamePending(cells, s, Step(cells, s, Finish(i)))
    ensures LoneOk(cells, live, wt0, Step(cells, s, Finish(i)))
  {
  }

  lemma DoomedOutside(cells: seq<seq<nat>>, live: set<nat>, wt0: seq<nat>, s: Race, i: nat, pos: nat, c: set<nat>)
    requires StatusOk(cells, live, s) && WeightsOk(cells, wt0, s) && Enabled(cells, s, Observe(i, pos))
    requires NoSingletons(Rels(cells, wt0), c) && c <= AliveRows(s)
    ensures i !in c
  {
    var r, h := Rels(cells, wt0), cells[i][pos];
    ObserveAlone(cells, live, wt0, s, i, pos);
    assert Holders(r.f, c, h) <= Pending(cells, s, h);
    SubsetSize(Holders(r.f, c, h), {i});
    assert h in r.f[i] && h !in r.sat;
    assert i in c ==> i in Holders(r.f, c, h) && !HasSingleton(r, c, i);
  }

  lemma SafeStep(cells: seq<seq<nat>>, live: set<nat>, wt0: seq<nat>, s: Race, a: Act)
    requires StatusOk(cells, live, s) && WeightsOk(cells, wt0, s) && Safe(cells, live, wt0, s) && Enabled(cells, s, a)
    ensures Safe(cells, live, wt0, Step(cells, s, a))
  {
    var t := Step(cells, s, a);
    forall c: set<nat> | c <= live && NoSingletons(Rels(cells, wt0), c) ensures c <= AliveRows(t) {
      if a.Observe? {
        DoomedOutside(cells, live, wt0, s, a.i, a.pos, c);
      }
    }
  }

  ghost predicate Runs(cells: seq<seq<nat>>, s: Race, acts: seq<Act>)
    requires |s.status| == |cells|
    decreases |acts|
  {
    acts == [] || (Enabled(cells, s, acts[0]) && Runs(cells, Step(cells, s, acts[0]), acts[1..]))
  }

  ghost function After(cells: seq<seq<nat>>, s: Race, acts: seq<Act>): (t: Race)
    requires |s.status| == |cells| && Runs(cells, s, acts)
    ensures |t.status| == |cells|
    decreases |acts|
  {
    if acts == [] then s else After(cells, Step(cells, s, acts[0]), acts[1..])
  }

  lemma {:induction false} RunInv(cells: seq<seq<nat>>, live: set<nat>, wt0: seq<nat>, s: Race, acts: seq<Act>)
    requires Setup(cells, live, wt0) && Inv(cells, live, wt0, s) && Safe(cells, live, wt0, s) && Runs(cells, s, acts)
    ensures Inv(cells, live, wt0, After(cells, s, acts)) && Safe(cells, live, wt0, After(cells, s, acts))
    decreases |acts|
  {
    if acts != [] {
      StepInv(cells, live, wt0, s, acts[0]);
      RunInv(cells, live, wt0, Step(cells, s, acts[0]), acts[1..]);
    }
  }

  /** No thread has anything left to do. */
  ghost predicate Quiet(cells: seq<seq<nat>>, s: Race)
    requires |s.status| == |cells|
  {
    forall a :: !Enabled(cells, s, a)
  }

  /** What the race has come to: the live rows are the largest subset without singletons, the counters
      are exact, and the excess has not dropped. */
  ghost predicate Settled(cells: seq<seq<nat>>, live: set<nat>, wt: seq<nat>, s: Race) {
    && IsCore(Rels(cells, wt), live, AliveRows(s))
    && s.nrows == |AliveRows(s)| && s.ncols == |Positive(s.wt)|
    && s.nrows - s.ncols >= |live| - |Positive(wt)|
  }

  /** Whatever the interleaving of the atomic actions, once no action is possible the race has settled. */
  lemma RaceEndsInCore(cells: seq<seq<nat>>, live: set<nat>, wt: seq<nat>, acts: seq<Act>)
    requires Setup(cells, live, wt) && Runs(cells, Begin(cells, live, wt), acts)
    requires Quiet(cells, After(cells, Begin(cells, live, wt), acts))
    ensures Settled(cells, live, wt, After(cells, Begin(cells, live, wt), acts))
  {
    BeginInv(cells, live, wt);
    RunInv(cells, live, wt, Begin(cells, live, wt), acts);
    QuietIsCore(cells, live, wt, After(cells, Begin(cells, live, wt), acts));
  }

  lemma QuietIsCore(cells: seq<seq<nat>>, live: set<nat>, wt: seq<nat>, s: Race)
    requires Setup(cells, live, wt) && Inv(cells, live, wt, s) && Safe(cells, live, wt, s) && Quiet(cells, s)
    ensures Settled(cells, live, wt, s)
  {
    QuietNoDying(cells, live, wt, s);
    NoneKilled(s.status);
    QuietColumns(cells, live, wt, s);
    QuietNoSingletons(cells, live, wt, s);
    AliveOrGone(cells, live, s);
  }

  lemma AliveOrGone(cells: seq<seq<nat>>, live: set<nat>, s: Race)
    requires StatusOk(cells, live, s) && forall i :: i in live ==> i < |cells|
    requires forall i :: 0 <= i < |cells| ==> !s.status[i].Dying?
    ensures AliveRows(s) <= live && |AliveRows(s)| == |live| - |GoneRows(s, live)|
  {
    assert live == AliveRows(s) + GoneRows(s, live);
  }

  lemma QuietNoDying(cells: seq<seq<nat>>, live: set<nat>, wt: seq<nat>, s: Race)
    requires Setup(cells, live, wt) && Inv(cells, live, wt, s) && Quiet(cells, s)
    ensures forall i :: 0 <= i < |cells| ==> !s.status[i].Dying?
  {
    forall i | 0 <= i < |cells| ensures !s.status[i].Dying? {
      assert !Enabled(cells, s, Take(i)) && !Enabled(cells, s, Finish(i));
      assert forall k :: 0 <= k < |cells[i]| ==> cells[i][k] in cells[i];
    }
  }

  lemma QuietNoSingletons(cells: seq<seq<nat>>, live: set<nat>, wt: seq<nat>, s: Race)
    requires Setup(cells, live, wt) && Inv(cells, live, wt, s) && Quiet(cells, s)
    requires forall i :: 0 <= i < |cells| ==> !s.status[i].Dying?
    ensures NoSingletons(Rels(cells, wt), AliveRows(s))
  {
    var r := Rels(cells, wt);
    forall i | i in AliveRows(s) ensures !HasSingleton(r, AliveRows(s), i) {
      forall h | h in r.f[i] && h !in r.sat ensures Weight(r, AliveRows(s), h) != 1 {
        var pos :| 0 <= pos < |cells[i]| && cells[i][pos] == h;
        assert !Enabled(cells, s, Observe(i, pos));
        assert Pending(cells, s, h) == Holders(r.f, AliveRows(s), h);
        assert h < |s.wt| && s.wt[h] < OVERWEIGHT;
      }
    }
  }

  /** Every deleted row took the column recorded for it along. */
  lemma QuietColumns(cells: seq<seq<nat>>, live: set<nat>, wt: seq<nat>, s: Race)
    requires Setup(cells, live, wt) && Inv(cells, live, wt, s)
    requires forall i :: 0 <= i < |cells| ==> !s.status[i].Dying?
    ensures |Positive(s.wt)| + |GoneRows(s, live)| <= |Positive(wt)|
  {
    var gone := GoneRows(s, live);
    var dead := set i | i in gone :: s.lone[i];
    ImageSize(gone, s.lone, dead);
    forall h | h in dead ensures h in Positive(wt) && h !in Positive(s.wt) {
      var i :| i in gone && s.lone[i] == h;
      LoneColumnDead(cells, live, wt, s, i);
    }
    SubsetSize(Positive(s.wt) + dead, Positive(wt));
    assert Positive(s.wt) !! dead;
  }

  lemma LoneColumnDead(cells: seq<seq<nat>>, live: set<nat>, wt: seq<nat>, s: Race, i: nat)
    requires StatusOk(cells, live, s) && WeightsOk(cells, wt, s) && LoneOk(cells, live, wt, s)
    requires i < |cells| && i in s.lone && s.status[i].Gone?
    ensures s.lone[i] in Positive(wt) && s.lone[i] !in Positive(s.wt)
  {
    var h := s.lone[i];
    assert i !in Pending(cells, s, h);
    assert Pending(cells, s, h) == {};
    assert s.wt[h] < OVERWEIGHT by { assert h !in Saturated(s.wt); }
  }

  lemma {:induction false} ImageSize(keys: set<nat>, m: map<nat, nat>, image: set<nat>)
    requires keys <= m.Keys && image == set i | i in keys :: m[i]
    requires forall i, j :: i in keys && j in keys && i != j ==> m[i] != m[j]
    ensures |image| == |keys|
    decreases |keys|
  {
    if keys == {} {
      assert image == {};
    } else {
      var k :| k in keys;
      var rest := set i | i in keys - {k} :: m[i];
      ImageSize(keys - {k}, m, rest);
      assert image == rest + {m[k]};
    }
  }

  // ----- The race ends -----

  /** The actions that row i may still go through. */
  ghost function ToDo(cells: seq<nat>, p: Status): nat {
    match p
    case Alive => |cells| + 2
    case Dying(k, _) => if k <= |cells| then |cells| - k + 1 else 0
    case Gone => 0
  }

  ghost function Remaining(cells: seq<seq<nat>>, status: seq<Status>): nat
    requires |cells| == |status|
  {
    if status == [] then 0
    else
      var n := |status| - 1;
      Remaining(cells[..n], status[..n]) + ToDo(cells[n], status[n])
  }

  lemma {:induction false} RemainingUpdate(cells: seq<seq<nat>>, status: seq<Status>, i: nat, p: Status)
    requires |cells| == |status| && i < |status|
    ensures Remaining(cells, status[i := p]) == Remaining(cells, status) - ToDo(cells[i], status[i]) + ToDo(cells[i], p)
  {
    var n := |status| - 1;
    if i < n {
      RemainingUpdate(cells[..n], status[..n], i, p);
      assert status[i := p][..n] == status[..n][i := p];
    } else {
      assert status[i := p][..n] == status[..n];
    }
  }

  lemma StepProgress(cells: seq<seq<nat>>, s: Race, a: Act)
    requires |s.status| == |cells| && Enabled(cells, s, a)
    ensures Remaining(cells, Step(cells, s, a).status) < Remaining(cells, s.status)
  {
    RemainingUpdate(cells, s.status, a.i, Step(cells, s, a).status[a.i]);
  }

  lemma StepInv(cells: seq<seq<nat>>, live: set<nat>, wt0: seq<nat>, s: Race, a: Act)
    requires Setup(cells, live, wt0) && Inv(cells, live, wt0, s) && Safe(cells, live, wt0, s) && Enabled(cells, s, a)
    ensures Inv(cells, live, wt0, Step(cells, s, a)) && Safe(cells, live, wt0, Step(cells, s, a))
  {
    SafeStep(cells, live, wt0, s, a);
    match a {
      case Observe(i, pos) => ObserveStep(cells, live, wt0, s, i, pos);
      case Take(i) => TakeStep(cells, live, wt0, s, i);
      case Finish(i) => FinishStep(cells, live, wt0, s, i);
    }
  }

  /** Whatever possible action the scheduler picks each time, the race comes to an end, and has settled. */
  lemma RaceEnds(cells: seq<seq<nat>>, live: set<nat>, wt: seq<nat>, pick: (nat, Race) -> Act) returns (s: Race)
    requires Setup(cells, live, wt)
    requires forall n, x: Race :: |x.status| == |cells| && !Quiet(cells, x) ==> Enabled(cells, x, pick(n, x))
    ensures |s.status| == |cells| && Quiet(cells, s) && Settled(cells, live, wt, s)
  {
    s := Begin(cells, live, wt);
    BeginInv(cells, live, wt);
    var n := 0;
    while !Quiet(cells, s)
      invariant |s.status| == |cells|
      invariant Inv(cells, live, wt, s) && Safe(cells, live, wt, s)
      decreases Remaining(cells, s.status)
    {
      var a := pick(n, s);
      StepInv(cells, live, wt, s, a);
      StepProgress(cells, s, a);
      s, n := Step(cells, s, a), n + 1;
    }
    QuietIsCore(cells, live, wt, s);
  }

  // ----- The matrix of the driver -----

  ghost function CellsOf(rows: seq<Row>): (cells: seq<seq<nat>>)
    ensures |cells| == |rows| && forall i :: 0 <= i < |rows| ==> cells[i] == if rows[i].Active? then rows[i].cells else []
  {
    seq(|rows|, i requires 0 <= i < |rows| => if rows[i].Active? then rows[i].cells else [])
  }

  lemma SameHolders(m: Matrix, s: set<nat>, h: nat)
    requires m.Valid() && s <= m.Live()
    ensures Holders(Sets(CellsOf(m.rows)), s, h) == Holders(m.contents, s, h)
  {
  }

  /** Every valid matrix is a possible start of the race. */
  lemma ValidIsSetup(m: Matrix)
    requires m.Valid()
    ensures Setup(CellsOf(m.rows), m.Live(), m.columnWeights)
  {
    var cells := CellsOf(m.rows);
    forall i | 0 <= i < |cells| ensures AllDifferent(cells[i]) && forall h :: h in cells[i] ==> h < |m.columnWeights| {
      if m.rows[i].Active? {
        m.CellsWeighted(i);
      }
    }
    forall h | 0 <= h < |m.columnWeights| && m.columnWeights[h] < OVERWEIGHT && Occurs(cells, h)
      ensures m.columnWeights[h] == |Holders(Sets(cells), m.Live(), h)|
    {
      var i :| 0 <= i < |cells| && h in cells[i];
      m.CellsWeighted(i);
      SameHolders(m, m.Live(), h);
    }
  }

  lemma SameSingletons(m: Matrix, s: set<nat>)
    requires m.Valid() && s <= m.Live()
    ensures NoSingletons(Rels(CellsOf(m.rows), m.columnWeights), s) <==> NoSingletons(m.Rel(), s)
  {
    forall i | i in s ensures HasSingleton(Rels(CellsOf(m.rows), m.columnWeights), s, i) <==> HasSingleton(m.Rel(), s, i) {
      forall h: nat ensures Weight(Rels(CellsOf(m.rows), m.columnWeights), s, h) == Weight(m.Rel(), s, h) {
        SameHolders(m, s, h);
      }
    }
  }

  /** The race on any valid matrix, under any scheduler, leaves the rows that the sequential removal leaves. */
  lemma MatrixRace(m: Matrix, pick: (nat, Race) -> Act) returns (s: Race)
    requires m.Valid()
    requires forall n, x: Race :: |x.status| == |m.rows| && !Quiet(CellsOf(m.rows), x) ==> Enabled(CellsOf(m.rows), x, pick(n, x))
    ensures IsCore(m.Rel(), m.Live(), AliveRows(s))
    ensures s.nrows == |AliveRows(s)| && s.ncols == |Positive(s.wt)| && s.nrows - s.ncols >= m.Excess()
  {
    var r := Rels(CellsOf(m.rows), m.columnWeights);
    ValidIsSetup(m);
    s := RaceEnds(CellsOf(m.rows), m.Live(), m.columnWeights, pick);
    SameSingletons(m, AliveRows(s));
    forall c: set<nat> | c <= m.Live() && NoSingletons(m.Rel(), c) ensures c <= AliveRows(s) {
      SameSingletons(m, c);
      assert NoSingletons(r, c);
    }
  }
}
