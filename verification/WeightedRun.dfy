/** Whole runs of `merge` with their column weights.  The lists that the candidates of a pass are made
    from are right when the small weights are exact; a pass keeps them exact; so nothing about the
    candidates needs to be assumed beyond exact weights at the start of the run. */
module WeightedRun {
  import opened Elimination
  import opened ColumnWeights
  import opened MergeTree
  import opened MergePass
  import opened MergeRun
  import opened Transpose
  import opened WeightedPass

  /** The lists of a pass, the candidates made from them, the actions of the threads, the order in which
      the buffers are flushed, and the actions of the merge done afterwards when no candidate won. */
  datatype Recorded = Recorded(lists: Lists, cands: seq<Candidate>, acts: seq<WeightedPass.Act>, order: seq<nat>, again: seq<WeightedPass.Act>)

  ghost predicate DeadEmpty(e: Elim)
    requires WellFormed(e)
  {
    forall i :: 0 <= i < |e.rows| && i !in e.live ==> e.rows[i] == {}
  }

  /** What holds between passes. */
  ghost predicate Sound(e: Elim, wt: seq<nat>) {
    WellFormed(e) && DeadEmpty(e) && Fit(e.rows, |wt|) && Exact(Bits(e.rows, wt))
  }

  lemma SlicesListColumns(e: Elim, wt: seq<nat>, cwmax: nat, j0: nat, id: nat, Rp: seq<nat>, Ri: seq<nat>, Rqinv: seq<nat>)
    requires WellFormed(e) && DeadEmpty(e) && id + 1 < |Rp| && id < |Rqinv| && SliceOk(e.rows, wt, cwmax, j0, id, Rp, Ri, Rqinv)
    ensures Rp[id] <= Rp[id + 1] <= |Ri| && ListsColumn(e, Rqinv[id], Ri[Rp[id]..Rp[id + 1]])
  {
    var j, ind := Rqinv[id], Ri[Rp[id]..Rp[id + 1]];
    forall i ensures i in ind <==> i in e.live && j in e.rows[i] {
      assert i in ind <==> i in Column(e.rows, j);
    }
  }

  /** The candidate merges the column of slice id along a tree on the rows of the slice. */
  ghost predicate FromSlice(c: Candidate, l: Lists, id: nat) {
    && id < l.Rn && id + 1 < |l.Rp| && id < |l.Rqinv| && l.Rp[id] <= l.Rp[id + 1] <= |l.Ri|
    && c.col == l.Rqinv[id] && c.rows == l.Ri[l.Rp[id]..l.Rp[id + 1]] && MergeTreeFor(c.tree, |c.rows|)
  }

  ghost predicate FromLists(cands: seq<Candidate>, l: Lists) {
    forall c :: 0 <= c < |cands| ==> exists id: nat :: FromSlice(cands[c], l, id)
  }

  lemma ListsGiveCandidates(e: Elim, wt: seq<nat>, l: Lists, cands: seq<Candidate>)
    requires Sound(e, wt) && ListsOk(e.rows, wt, l) && FromLists(cands, l)
    ensures PassOk(cands, e)
  {
    forall c | 0 <= c < |cands| ensures CandidateOk(e, cands[c]) {
      var id: nat :| FromSlice(cands[c], l, id);
      SlicesListColumns(e, wt, l.cwmax, l.j0, id, l.Rp, l.Ri, l.Rqinv);
      GrowsEdgesIn(cands[c].tree, |cands[c].rows|);
    }
  }

  // ----- The merge after a pass without winners -----

  ghost function Alone(c: Candidate, e: Elim, wt: seq<nat>): (w: Weighted)
    requires PassOk([c], e) && Fit(e.rows, |wt|)
    ensures InStep([c], e, w) && w.s.phase == [Merging(0)] && w.bits == Bits(e.rows, wt)
  {
    AloneInStep(c, e, wt);
    Weighted(Pass(e, RowSet(c), [Merging(0)]), Bits(e.rows, wt), [{}])
  }

  lemma AloneInStep(c: Candidate, e: Elim, wt: seq<nat>)
    requires PassOk([c], e) && Fit(e.rows, |wt|)
    ensures InStep([c], e, Weighted(Pass(e, RowSet(c), [Merging(0)]), Bits(e.rows, wt), [{}]))
  {
    var s := Pass(e, RowSet(c), [Merging(0)]);
    assert CandidateOk(e, [c][0]);
    assert Ops(c)[..0] == [];
    assert After(e, c, 0) == e;
    assert Inv([c], e, s);
    var w := Weighted(s, Bits(e.rows, wt), [{}]);
    CurrentRunnable([c], e, s, 0);
    assert Partial([c], e, w, 0);
  }

  lemma {:induction false} AloneFinishes(c: Candidate, e: Elim, w: Weighted, acts: seq<WeightedPass.Act>)
    requires PassOk([c], e) && InStep([c], e, w) && Possible([c], e, w, acts) && Active(w.s.phase[0])
    ensures Active(DoAll([c], e, w, acts).s.phase[0])
    decreases |acts|
  {
    if acts != [] {
      DoGood([c], e, w, acts[0]);
      AloneFinishes(c, e, Do([c], e, w, acts[0]), acts[1..]);
    }
  }

  /** A finished merge by itself is the merge. */
  lemma AloneResult(c: Candidate, e: Elim, s: Pass)
    requires PassOk([c], e) && Inv([c], e, s) && s.phase == [Finished]
    ensures CandidateOk(e, c) && RunnableAll(e, Ops(c)) && s.e == Run(e, Ops(c))
  {
    assert CandidateOk(e, [c][0]);
    WinnersInOrder([c], e, s, [0]);
    InOrder([c], e, [0]);
    PatchedUnique([c], e, [0], s.e, Run(e, OrderOps([c], e, [0])));
    assert [0][..0] == [];
    assert OrderOps([c], e, [0]) == [] + Ops(c);
    assert [] + Ops(c) == Ops(c);
  }

  // ----- One pass -----

  ghost predicate NoWinner(cands: seq<Candidate>, s: Pass) {
    cands != [] && Winners(s) == {}
  }

  /** The actions are possible one after another and nothing is left to do at the end. */
  ghost predicate ActsOk(e: Elim, wt: seq<nat>, p: Recorded)
    requires PassOk(p.cands, e) && Fit(e.rows, |wt|)
  {
    var w := WeightedStart(p.cands, e, wt);
    && Possible(p.cands, e, w, p.acts)
    && var v := DoAll(p.cands, e, w, p.acts);
       && Settled(v.s)
       && if NoWinner(p.cands, v.s) then p.order == [0] && AgainOk(p.cands[0], e, v.bits.wt, p.again) else ListsWinners(v.s, p.order)
  }

  ghost predicate AgainOk(c: Candidate, e: Elim, wt: seq<nat>, acts: seq<WeightedPass.Act>) {
    && PassOk([c], e) && Fit(e.rows, |wt|)
    && Possible([c], e, Alone(c, e, wt), acts) && Settled(DoAll([c], e, Alone(c, e, wt), acts).s)
  }

  /** The matrix and the weights after the pass. */
  ghost function AfterPass(e: Elim, wt: seq<nat>, p: Recorded): (r: (Elim, seq<nat>))
    requires PassOk(p.cands, e) && Fit(e.rows, |wt|) && ActsOk(e, wt, p)
    ensures WellFormed(r.0)
  {
    var v := DoAll(p.cands, e, WeightedStart(p.cands, e, wt), p.acts);
    if NoWinner(p.cands, v.s) then
      var u := DoAll([p.cands[0]], e, Alone(p.cands[0], e, v.bits.wt), p.again);
      (u.s.e, u.bits.wt)
    else (v.s.e, v.bits.wt)
  }

  /** The pass without its weights. */
  function Plain(p: Recorded): PassRun {
    PassRun(p.cands, Schedule(p.acts), p.order)
  }

  lemma PlainOk(e: Elim, wt: seq<nat>, p: Recorded)
    requires PassOk(p.cands, e) && Fit(e.rows, |wt|) && ActsOk(e, wt, p)
    ensures PassRunOk(e, Plain(p)) && EndState(e, Plain(p)) == DoAll(p.cands, e, WeightedStart(p.cands, e, wt), p.acts).s
  {
    ScheduleExecutes(p.cands, e, WeightedStart(p.cands, e, wt), p.acts);
  }

  lemma PlainResult(e: Elim, wt: seq<nat>, p: Recorded)
    requires PassOk(p.cands, e) && Fit(e.rows, |wt|) && ActsOk(e, wt, p)
    ensures PassRunOk(e, Plain(p)) && RunnableAll(e, PassOps(e, Plain(p))) && Run(e, PassOps(e, Plain(p))) == AfterPass(e, wt, p).0
  {
    PlainOk(e, wt, p);
    PassOpsLossless(e, Plain(p));
    var v := DoAll(p.cands, e, WeightedStart(p.cands, e, wt), p.acts);
    if NoWinner(p.cands, v.s) {
      PassProgress(p.cands, e, v.s);
      AgainResult(p.cands[0], e, v.bits.wt, p.again);
      var trace := Trace(p.cands, e, Begin(p.cands, e), Schedule(p.acts));
      ExecuteLossless(p.cands, e, Begin(p.cands, e), Schedule(p.acts));
      RunAppend(e, trace, Ops(p.cands[0]));
    }
  }

  lemma AgainResult(c: Candidate, e: Elim, wt: seq<nat>, acts: seq<WeightedPass.Act>)
    requires AgainOk(c, e, wt, acts)
    ensures CandidateOk(e, c) && RunnableAll(e, Ops(c)) && DoAll([c], e, Alone(c, e, wt), acts).s.e == Run(e, Ops(c))
  {
    var u := DoAll([c], e, Alone(c, e, wt), acts);
    AloneFinishes(c, e, Alone(c, e, wt), acts);
    assert u.s.phase == [Finished];
    AloneResult(c, e, u.s);
  }

  /** The weights are exact after the pass if they were before. */
  lemma AfterPassSound(e: Elim, wt: seq<nat>, p: Recorded)
    requires Sound(e, wt) && PassOk(p.cands, e) && ActsOk(e, wt, p)
    ensures Sound(AfterPass(e, wt, p).0, AfterPass(e, wt, p).1)
  {
    var w := WeightedStart(p.cands, e, wt);
    var v := DoAll(p.cands, e, w, p.acts);
    PassKeepsExact(p.cands, e, wt, p.acts);
    PlainResult(e, wt, p);
    DeadEmptyRun(e, PassOps(e, Plain(p)));
    if NoWinner(p.cands, v.s) {
      PassProgress(p.cands, e, v.s);
      var a := Alone(p.cands[0], e, v.bits.wt);
      StaysExact([p.cands[0]], e, a, p.again);
      SettledAgree([p.cands[0]], e, DoAll([p.cands[0]], e, a, p.again));
    }
  }

  lemma {:induction false} DeadEmptyRun(e: Elim, ops: seq<Op>)
    requires WellFormed(e) && DeadEmpty(e) && RunnableAll(e, ops)
    ensures DeadEmpty(Run(e, ops))
    decreases |ops|
  {
    if ops != [] {
      DeadEmptyRun(Apply(e, ops[0]), ops[1..]);
    }
  }

  // ----- Whole runs -----

  /** What happens in a run: the lists of each pass are right if the small weights are exact, which is
      what their construction promises; candidates are made from the lists; and if the candidates
      are in order, the threads act on them. */
  ghost predicate Happens(e: Elim, wt: seq<nat>, passes: seq<Recorded>)
    requires WellFormed(e)
    decreases |passes|
  {
    passes == [] ||
    var p := passes[0];
    && (Exact(Bits(e.rows, wt)) ==> ListsOk(e.rows, wt, p.lists))
    && FromLists(p.cands, p.lists)
    && (PassOk(p.cands, e) && Fit(e.rows, |wt|) ==>
          ActsOk(e, wt, p) && Happens(AfterPass(e, wt, p).0, AfterPass(e, wt, p).1, passes[1..]))
  }

  function AllPlain(passes: seq<Recorded>): (r: seq<PassRun>)
    ensures |r| == |passes| && forall k :: 0 <= k < |r| ==> r[k] == Plain(passes[k])
  {
    seq(|passes|, k requires 0 <= k < |passes| => Plain(passes[k]))
  }

  lemma FirstPass(e: Elim, wt: seq<nat>, p: Recorded, rest: seq<Recorded>)
    requires Sound(e, wt) && Happens(e, wt, [p] + rest)
    ensures PassOk(p.cands, e) && ActsOk(e, wt, p) && Sound(AfterPass(e, wt, p).0, AfterPass(e, wt, p).1)
    ensures Happens(AfterPass(e, wt, p).0, AfterPass(e, wt, p).1, rest)
    ensures PassRunOk(e, Plain(p)) && RunnableAll(e, PassOps(e, Plain(p))) && Run(e, PassOps(e, Plain(p))) == AfterPass(e, wt, p).0
  {
    assert ([p] + rest)[0] == p && ([p] + rest)[1..] == rest;
    ListsGiveCandidates(e, wt, p.lists, p.cands);
    PlainResult(e, wt, p);
    AfterPassSound(e, wt, p);
  }

  /** With exact small weights at the start, every pass of the run has candidates that list their
      columns. */
  lemma {:induction false} RunFromWeights(e: Elim, wt: seq<nat>, passes: seq<Recorded>)
    requires Sound(e, wt) && Happens(e, wt, passes)
    ensures PassesOk(e, AllPlain(passes))
    decreases |passes|
  {
    if passes != [] {
      var p := passes[0];
      assert passes == [p] + passes[1..];
      FirstPass(e, wt, p, passes[1..]);
      RunFromWeights(AfterPass(e, wt, p).0, AfterPass(e, wt, p).1, passes[1..]);
      assert AllPlain(passes)[1..] == AllPlain(passes[1..]);
    }
  }

  /** A run that starts with exact small weights keeps the left kernel. */
  lemma WeightsKeepKernel(original: seq<set<nat>>, wt: seq<nat>, passes: seq<Recorded>, k: set<nat>)
    requires Fit(original, |wt|) && Exact(Bits(original, wt)) && Happens(Start(original), wt, passes)
    ensures PassesOk(Start(original), AllPlain(passes))
    ensures var ops := AllOps(Start(original), AllPlain(passes));
            RunnableAll(Start(original), ops) && KernelAgrees(original, Run(Start(original), ops), k)
  {
    RunFromWeights(Start(original), wt, passes);
    MergeKeepsKernel(original, AllPlain(passes), k);
  }
}
