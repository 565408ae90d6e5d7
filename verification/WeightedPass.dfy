/** A pass of `merge` together with the column weights.  While a thread carries out a row operation it
    updates one weight at a time, and the updates of all threads interleave; the row itself changes at
    the end of the operation. */
module WeightedPass {
  import opened XorSets
  import opened SpanningTree
  import opened Elimination
  import opened ColumnWeights
  import opened MergeTree
  import opened MergePass

  /** `bits` has the weights, and the rows as far as the weights have been updated for them; `seen[c]`
      holds the cells that candidate c has dealt with in its current operation. */
  datatype Weighted = Weighted(s: Pass, bits: Bits, seen: seq<set<nat>>)

  datatype Act = Touch(c: nat, x: nat) | Advance(c: nat)

  function Target(op: Op): nat {
    match op
    case Add(dst, _) => dst
    case Drop(row) => row
  }

  /** The cells whose weights an operation changes: those of the row that is added or dropped. */
  function Cells(e: Elim, op: Op): set<nat>
    requires WellFormed(e) && Runnable(e, op)
  {
    match op
    case Add(_, src) => e.rows[src]
    case Drop(row) => e.rows[row]
  }

  lemma ApplyIsToggle(e: Elim, op: Op)
    requires WellFormed(e) && Runnable(e, op)
    ensures Target(op) < |e.rows|
    ensures Apply(e, op).rows == e.rows[Target(op) := SymDiff(e.rows[Target(op)], Cells(e, op))]
  {
    if op.Drop? {
      assert SymDiff(e.rows[op.row], e.rows[op.row]) == {};
    }
  }

  ghost predicate Fit(rows: seq<set<nat>>, n: nat) {
    forall i, j :: 0 <= i < |rows| && j in rows[i] ==> j < n
  }

  /** Candidate c is in the middle of a row operation. */
  predicate Busy(cands: seq<Candidate>, s: Pass, c: nat)
    requires c < |cands| == |s.phase| && EdgesIn(cands[c].tree, |cands[c].rows|) && |cands[c].rows| >= 1
  {
    s.phase[c].Merging? && s.phase[c].k < |Ops(cands[c])|
  }

  function Current(cands: seq<Candidate>, s: Pass, c: nat): Op
    requires c < |cands| == |s.phase| && EdgesIn(cands[c].tree, |cands[c].rows|) && |cands[c].rows| >= 1
    requires Busy(cands, s, c)
  {
    Ops(cands[c])[s.phase[c].k]
  }

  /** The current operation is possible, and stays within the rows of its candidate. */
  lemma CurrentRunnable(cands: seq<Candidate>, e0: Elim, s: Pass, c: nat)
    requires PassOk(cands, e0) && Inv(cands, e0, s) && c < |cands| && Busy(cands, s, c)
    ensures Runnable(s.e, Current(cands, s, c)) && OpWithin(Current(cands, s, c), RowSet(cands[c]))
    ensures NextOp(cands, e0, s, c) == [Current(cands, s, c)]
  {
    StepLossless(cands, e0, s, c);
    OpsOfMerge(e0, cands[c]);
    assert RunnableAll(s.e, [Current(cands, s, c)]);
  }

  /** The weights of row operations under way have been updated for the cells seen so far. */
  ghost predicate Partial(cands: seq<Candidate>, e0: Elim, w: Weighted, c: nat)
    requires PassOk(cands, e0) && Inv(cands, e0, w.s) && c < |cands| && |w.bits.rows| == |e0.rows| && |w.seen| == |cands|
    requires Busy(cands, w.s, c)
  {
    CurrentRunnable(cands, e0, w.s, c);
    var op := Current(cands, w.s, c);
    && w.seen[c] <= Cells(w.s.e, op)
    && w.bits.rows[Target(op)] == SymDiff(w.s.e.rows[Target(op)], w.seen[c])
  }

  ghost predicate Targeted(cands: seq<Candidate>, e0: Elim, s: Pass, i: nat)
    requires PassOk(cands, e0) && Inv(cands, e0, s)
  {
    exists c :: 0 <= c < |cands| && Busy(cands, s, c) && Target(Current(cands, s, c)) == i
  }

  ghost predicate InStep(cands: seq<Candidate>, e0: Elim, w: Weighted)
    requires PassOk(cands, e0)
  {
    && Inv(cands, e0, w.s) && |w.bits.rows| == |e0.rows| && |w.seen| == |cands|
    && Fit(w.s.e.rows, |w.bits.wt|)
    && (forall c :: 0 <= c < |cands| && Busy(cands, w.s, c) ==> Partial(cands, e0, w, c))
    && (forall c :: 0 <= c < |cands| && !Busy(cands, w.s, c) ==> w.seen[c] == {})
    && (forall i :: 0 <= i < |e0.rows| && !Targeted(cands, e0, w.s, i) ==> w.bits.rows[i] == w.s.e.rows[i])
  }

  ghost predicate Enabled(cands: seq<Candidate>, e0: Elim, w: Weighted, a: Act)
    requires PassOk(cands, e0) && InStep(cands, e0, w)
  {
    && a.c < |cands|
    && if Busy(cands, w.s, a.c) then
         CurrentRunnable(cands, e0, w.s, a.c);
         var left := Cells(w.s.e, Current(cands, w.s, a.c)) - w.seen[a.c];
         if a.Touch? then a.x in left else left == {}
       else a.Advance? && !w.s.phase[a.c].Finished? && !w.s.phase[a.c].Discarded?
  }

  /** One atomic action: a weight is updated, or the candidate goes on. */
  ghost function Do(cands: seq<Candidate>, e0: Elim, w: Weighted, a: Act): Weighted
    requires PassOk(cands, e0) && InStep(cands, e0, w) && Enabled(cands, e0, w, a)
  {
    match a
    case Touch(c, x) =>
      TouchFits(cands, e0, w, c, x);
      w.(bits := Toggle(w.bits, Entry(Target(Current(cands, w.s, c)), x)), seen := w.seen[c := w.seen[c] + {x}])
    case Advance(c) =>
      StepLossless(cands, e0, w.s, c);
      w.(s := Step(cands, e0, w.s, c), seen := w.seen[c := {}])
  }

  lemma TouchFits(cands: seq<Candidate>, e0: Elim, w: Weighted, c: nat, x: nat)
    requires PassOk(cands, e0) && InStep(cands, e0, w) && Enabled(cands, e0, w, Touch(c, x))
    ensures Target(Current(cands, w.s, c)) < |w.bits.rows| && x < |w.bits.wt|
  {
    CurrentRunnable(cands, e0, w.s, c);
  }

  /** Different candidates change different rows, and neither changes a row that the other reads. */
  lemma TargetsApart(cands: seq<Candidate>, e0: Elim, s: Pass, c: nat, d: nat)
    requires PassOk(cands, e0) && Inv(cands, e0, s) && c < |cands| && d < |cands| && c != d && Busy(cands, s, c) && Busy(cands, s, d)
    ensures Target(Current(cands, s, c)) != Target(Current(cands, s, d))
    ensures forall op :: OpWithin(op, RowSet(cands[d])) ==> Target(op) != Target(Current(cands, s, c))
  {
    ActiveDisjoint(cands, e0, s, c, d);
    CurrentRunnable(cands, e0, s, c);
    CurrentRunnable(cands, e0, s, d);
  }

  /** The record of the candidate that has dealt with one more cell. */
  lemma TouchSelf(cands: seq<Candidate>, e0: Elim, w: Weighted, c: nat, x: nat)
    requires PassOk(cands, e0) && InStep(cands, e0, w) && Enabled(cands, e0, w, Touch(c, x))
    ensures var v := Do(cands, e0, w, Touch(c, x)); v.s == w.s && Partial(cands, e0, v, c)
  {
    TouchFits(cands, e0, w, c, x);
    assert Partial(cands, e0, w, c);
    var v, t := Do(cands, e0, w, Touch(c, x)), Target(Current(cands, w.s, c));
    var row, seen := w.s.e.rows[t], w.seen[c];
    assert x !in seen;
    assert v.bits.rows[t] == SymDiff(SymDiff(row, seen), {x});
    assert SymDiff(SymDiff(row, seen), {x}) == SymDiff(row, seen + {x});
  }

  lemma TouchOther(cands: seq<Candidate>, e0: Elim, w: Weighted, c: nat, x: nat, d: nat)
    requires PassOk(cands, e0) && InStep(cands, e0, w) && Enabled(cands, e0, w, Touch(c, x))
    requires d < |cands| && d != c && Busy(cands, w.s, d)
    ensures var v := Do(cands, e0, w, Touch(c, x)); v.s == w.s && Partial(cands, e0, v, d)
  {
    var v := Do(cands, e0, w, Touch(c, x));
    TouchFits(cands, e0, w, c, x);
    assert Partial(cands, e0, w, d);
    CurrentRunnable(cands, e0, w.s, d);
    TargetsApart(cands, e0, w.s, c, d);
    var t := Target(Current(cands, w.s, d));
    assert v.bits.rows[t] == w.bits.rows[t] && v.seen[d] == w.seen[d];
  }

  lemma TouchGood(cands: seq<Candidate>, e0: Elim, w: Weighted, c: nat, x: nat)
    requires PassOk(cands, e0) && InStep(cands, e0, w) && Enabled(cands, e0, w, Touch(c, x))
    ensures InStep(cands, e0, Do(cands, e0, w, Touch(c, x)))
    ensures Exact(w.bits) ==> Exact(Do(cands, e0, w, Touch(c, x)).bits)
  {
    var v := Do(cands, e0, w, Touch(c, x));
    TouchFits(cands, e0, w, c, x);
    TouchSelf(cands, e0, w, c, x);
    forall d | 0 <= d < |cands| && Busy(cands, v.s, d) && d != c ensures Partial(cands, e0, v, d) {
      TouchOther(cands, e0, w, c, x, d);
    }
    forall i | 0 <= i < |e0.rows| && !Targeted(cands, e0, v.s, i) ensures v.bits.rows[i] == v.s.e.rows[i] {
      assert !Targeted(cands, e0, w.s, i);
    }
    if Exact(w.bits) {
      ToggleExact(w.bits, Entry(Target(Current(cands, w.s, c)), x));
    }
  }

  // ----- Going on to the next operation -----

  /** The effect of an advance on the rows. */
  lemma AdvanceRows(cands: seq<Candidate>, e0: Elim, w: Weighted, c: nat)
    requires PassOk(cands, e0) && InStep(cands, e0, w) && Enabled(cands, e0, w, Advance(c))
    ensures var v := Do(cands, e0, w, Advance(c));
            && Inv(cands, e0, v.s) && (forall d :: 0 <= d < |cands| && d != c ==> v.s.phase[d] == w.s.phase[d])
            && v.bits == w.bits && v.seen == w.seen[c := {}]
            && if Busy(cands, w.s, c) then
                 var t := Target(Current(cands, w.s, c));
                 t < |e0.rows| && v.s.e.rows == w.s.e.rows[t := w.bits.rows[t]] && v.s.e.live <= w.s.e.live
               else v.s.e == w.s.e
  {
    StepLossless(cands, e0, w.s, c);
    StepInv(cands, e0, w.s, c);
    StepEffect(cands, e0, w.s, c);
    if Busy(cands, w.s, c) {
      CompleteIsApplied(cands, e0, w, c);
      RunnableSingle(w.s.e, Current(cands, w.s, c));
    }
  }

  /** Once all cells have been dealt with, the row is off by exactly the operation. */
  lemma CompleteIsApplied(cands: seq<Candidate>, e0: Elim, w: Weighted, c: nat)
    requires PassOk(cands, e0) && InStep(cands, e0, w) && Enabled(cands, e0, w, Advance(c)) && Busy(cands, w.s, c)
    ensures var op := Current(cands, w.s, c);
            && Runnable(w.s.e, op) && Target(op) < |e0.rows|
            && Apply(w.s.e, op).rows == w.s.e.rows[Target(op) := w.bits.rows[Target(op)]]
            && NextOp(cands, e0, w.s, c) == [op]
  {
    CurrentRunnable(cands, e0, w.s, c);
    assert Partial(cands, e0, w, c);
    var op := Current(cands, w.s, c);
    ApplyIsToggle(w.s.e, op);
    SubsetAll(w.seen[c], Cells(w.s.e, op));
  }

  lemma SubsetAll(a: set<nat>, b: set<nat>)
    requires a <= b && b - a == {}
    ensures a == b
  {
    assert b == a + (b - a);
  }

  lemma AdvanceOther(cands: seq<Candidate>, e0: Elim, w: Weighted, c: nat, d: nat)
    requires PassOk(cands, e0) && InStep(cands, e0, w) && Enabled(cands, e0, w, Advance(c)) && d < |cands| && d != c
    requires Inv(cands, e0, Do(cands, e0, w, Advance(c)).s) && Busy(cands, Do(cands, e0, w, Advance(c)).s, d)
    ensures Busy(cands, w.s, d) && Partial(cands, e0, Do(cands, e0, w, Advance(c)), d)
  {
    var v := Do(cands, e0, w, Advance(c));
    AdvanceRows(cands, e0, w, c);
    assert Partial(cands, e0, w, d);
    CurrentRunnable(cands, e0, w.s, d);
    var op := Current(cands, w.s, d);
    if Busy(cands, w.s, c) {
      TargetsApart(cands, e0, w.s, c, d);
      SourceKept(cands, e0, w.s, c, d);
      CurrentRunnable(cands, e0, v.s, d);
    }
  }

  /** The row that candidate d reads is not changed by candidate c. */
  lemma SourceKept(cands: seq<Candidate>, e0: Elim, s: Pass, c: nat, d: nat)
    requires PassOk(cands, e0) && Inv(cands, e0, s) && c < |cands| && d < |cands| && c != d && Busy(cands, s, c) && Busy(cands, s, d)
    ensures var op := Current(cands, s, d);
            Target(Current(cands, s, c)) != (if op.Add? then op.src else op.row)
  {
    ActiveDisjoint(cands, e0, s, c, d);
    CurrentRunnable(cands, e0, s, c);
    CurrentRunnable(cands, e0, s, d);
  }

  /** After the advance no row is off except those of the other candidates' operations. */
  lemma AdvanceAgree(cands: seq<Candidate>, e0: Elim, w: Weighted, c: nat, i: nat)
    requires PassOk(cands, e0) && InStep(cands, e0, w) && Enabled(cands, e0, w, Advance(c)) && i < |e0.rows|
    requires forall d :: 0 <= d < |cands| && d != c && Busy(cands, w.s, d) ==> Target(Current(cands, w.s, d)) != i
    ensures Do(cands, e0, w, Advance(c)).bits.rows[i] == Do(cands, e0, w, Advance(c)).s.e.rows[i]
  {
    AdvanceRows(cands, e0, w, c);
    if !(Busy(cands, w.s, c) && Target(Current(cands, w.s, c)) == i) {
      assert !Targeted(cands, e0, w.s, i);
    }
  }

  lemma AdvanceSelf(cands: seq<Candidate>, e0: Elim, w: Weighted, c: nat)
    requires PassOk(cands, e0) && InStep(cands, e0, w) && Enabled(cands, e0, w, Advance(c))
    requires Inv(cands, e0, Do(cands, e0, w, Advance(c)).s) && Busy(cands, Do(cands, e0, w, Advance(c)).s, c)
    ensures Partial(cands, e0, Do(cands, e0, w, Advance(c)), c)
  {
    var v := Do(cands, e0, w, Advance(c));
    AdvanceRows(cands, e0, w, c);
    CurrentRunnable(cands, e0, v.s, c);
    var t := Target(Current(cands, v.s, c));
    forall d | 0 <= d < |cands| && d != c && Busy(cands, w.s, d) ensures Target(Current(cands, w.s, d)) != t {
      assert v.s.phase[d] == w.s.phase[d];
      TargetsApart(cands, e0, v.s, c, d);
    }
    AdvanceAgree(cands, e0, w, c, t);
    assert SymDiff(v.s.e.rows[t], {}) == v.s.e.rows[t];
  }

  lemma AdvanceFit(cands: seq<Candidate>, e0: Elim, w: Weighted, c: nat)
    requires PassOk(cands, e0) && InStep(cands, e0, w) && Enabled(cands, e0, w, Advance(c))
    ensures Fit(Do(cands, e0, w, Advance(c)).s.e.rows, |w.bits.wt|)
  {
    AdvanceRows(cands, e0, w, c);
    if Busy(cands, w.s, c) {
      CurrentRunnable(cands, e0, w.s, c);
      assert Partial(cands, e0, w, c);
    }
  }

  lemma AdvanceGood(cands: seq<Candidate>, e0: Elim, w: Weighted, c: nat)
    requires PassOk(cands, e0) && InStep(cands, e0, w) && Enabled(cands, e0, w, Advance(c))
    ensures InStep(cands, e0, Do(cands, e0, w, Advance(c)))
  {
    var v := Do(cands, e0, w, Advance(c));
    AdvanceRows(cands, e0, w, c);
    AdvanceFit(cands, e0, w, c);
    forall d | 0 <= d < |cands| && Busy(cands, v.s, d) ensures Partial(cands, e0, v, d) {
      if d == c {
        AdvanceSelf(cands, e0, w, c);
      } else {
        AdvanceOther(cands, e0, w, c, d);
      }
    }
    forall i | 0 <= i < |e0.rows| && !Targeted(cands, e0, v.s, i) ensures v.bits.rows[i] == v.s.e.rows[i] {
      forall d | 0 <= d < |cands| && d != c && Busy(cands, w.s, d) ensures Target(Current(cands, w.s, d)) != i {
        assert Busy(cands, v.s, d) && Target(Current(cands, v.s, d)) != i;
      }
      AdvanceAgree(cands, e0, w, c, i);
    }
  }

  /** At the start of a pass the rows are as the weights say. */
  lemma BeginGood(cands: seq<Candidate>, e0: Elim, wt: seq<nat>)
    requires PassOk(cands, e0) && Fit(e0.rows, |wt|)
    ensures InStep(cands, e0, Weighted(Begin(cands, e0), Bits(e0.rows, wt), seq(|cands|, _ => {})))
  {
    var s := Begin(cands, e0);
    forall i | 0 <= i < |e0.rows| ensures !Targeted(cands, e0, s, i) {
    }
  }

  /** When all candidates are through, the rows are again as the weights say. */
  lemma SettledAgree(cands: seq<Candidate>, e0: Elim, w: Weighted)
    requires PassOk(cands, e0) && InStep(cands, e0, w) && Settled(w.s)
    ensures w.bits.rows == w.s.e.rows
  {
    forall i | 0 <= i < |e0.rows| ensures w.bits.rows[i] == w.s.e.rows[i] {
      assert !Targeted(cands, e0, w.s, i);
    }
  }

  // ----- Whole passes -----

  lemma DoGood(cands: seq<Candidate>, e0: Elim, w: Weighted, a: Act)
    requires PassOk(cands, e0) && InStep(cands, e0, w) && Enabled(cands, e0, w, a)
    ensures InStep(cands, e0, Do(cands, e0, w, a)) && |Do(cands, e0, w, a).bits.wt| == |w.bits.wt|
    ensures Exact(w.bits) ==> Exact(Do(cands, e0, w, a).bits)
  {
    match a
    case Touch(c, x) => TouchGood(cands, e0, w, c, x);
    case Advance(c) => AdvanceGood(cands, e0, w, c);
  }

  ghost predicate Possible(cands: seq<Candidate>, e0: Elim, w: Weighted, acts: seq<Act>)
    requires PassOk(cands, e0) && InStep(cands, e0, w)
    decreases |acts|
  {
    acts == [] ||
    (Enabled(cands, e0, w, acts[0]) &&
     (DoGood(cands, e0, w, acts[0]); Possible(cands, e0, Do(cands, e0, w, acts[0]), acts[1..])))
  }

  ghost function DoAll(cands: seq<Candidate>, e0: Elim, w: Weighted, acts: seq<Act>): (v: Weighted)
    requires PassOk(cands, e0) && InStep(cands, e0, w) && Possible(cands, e0, w, acts)
    ensures InStep(cands, e0, v) && |v.bits.wt| == |w.bits.wt|
    decreases |acts|
  {
    if acts == [] then w
    else
      DoGood(cands, e0, w, acts[0]);
      DoAll(cands, e0, Do(cands, e0, w, acts[0]), acts[1..])
  }

  /** The schedule of the candidates once the weight updates are left out. */
  function Schedule(acts: seq<Act>): seq<nat> {
    if acts == [] then [] else (if acts[0].Advance? then [acts[0].c] else []) + Schedule(acts[1..])
  }

  /** Leaving out the weight updates, the pass is one of the passes without weights. */
  lemma {:induction false} ScheduleExecutes(cands: seq<Candidate>, e0: Elim, w: Weighted, acts: seq<Act>)
    requires PassOk(cands, e0) && InStep(cands, e0, w) && Possible(cands, e0, w, acts)
    ensures ScheduleOk(cands, Schedule(acts)) && Execute(cands, e0, w.s, Schedule(acts)) == DoAll(cands, e0, w, acts).s
    decreases |acts|
  {
    if acts != [] {
      DoGood(cands, e0, w, acts[0]);
      ScheduleExecutes(cands, e0, Do(cands, e0, w, acts[0]), acts[1..]);
      if acts[0].Advance? {
        assert Schedule(acts)[1..] == Schedule(acts[1..]);
      } else {
        assert Schedule(acts) == Schedule(acts[1..]);
      }
    }
  }

  /** Small weights stay exact at every moment of a pass. */
  lemma {:induction false} StaysExact(cands: seq<Candidate>, e0: Elim, w: Weighted, acts: seq<Act>)
    requires PassOk(cands, e0) && InStep(cands, e0, w) && Possible(cands, e0, w, acts) && Exact(w.bits)
    ensures Exact(DoAll(cands, e0, w, acts).bits)
    decreases |acts|
  {
    if acts != [] {
      DoGood(cands, e0, w, acts[0]);
      StaysExact(cands, e0, Do(cands, e0, w, acts[0]), acts[1..]);
    }
  }

  ghost function WeightedStart(cands: seq<Candidate>, e0: Elim, wt: seq<nat>): (w: Weighted)
    requires PassOk(cands, e0) && Fit(e0.rows, |wt|)
    ensures InStep(cands, e0, w) && w.s == Begin(cands, e0) && w.bits == Bits(e0.rows, wt)
  {
    BeginGood(cands, e0, wt);
    Weighted(Begin(cands, e0), Bits(e0.rows, wt), seq(|cands|, _ => {}))
  }

  lemma ToggleFreezes(b: Bits, e: Entry, j: nat)
    requires e.row < |b.rows| && e.col < |b.wt| && j < |b.wt|
    ensures var c := Toggle(b, e);
            && (b.wt[j] > MERGE_LEVEL_MAX ==> c.wt[j] == b.wt[j])
            && (b.wt[j] == |Column(b.rows, j)| <= MERGE_LEVEL_MAX ==>
                  c.wt[j] == |Column(c.rows, j)| && (c.wt[j] <= MERGE_LEVEL_MAX || c.wt[j] == MERGE_LEVEL_MAX + 1))
  {
    ToggleColumn(b, e, j);
  }

  lemma DoFreezes(cands: seq<Candidate>, e0: Elim, w: Weighted, a: Act, j: nat)
    requires PassOk(cands, e0) && InStep(cands, e0, w) && Enabled(cands, e0, w, a) && j < |w.bits.wt|
    ensures var v := Do(cands, e0, w, a);
            && |v.bits.wt| == |w.bits.wt| && (w.bits.wt[j] > MERGE_LEVEL_MAX ==> v.bits.wt[j] == w.bits.wt[j])
            && (w.bits.wt[j] == |Column(w.bits.rows, j)| <= MERGE_LEVEL_MAX ==> v.bits.wt[j] == |Column(v.bits.rows, j)|)
  {
    if a.Touch? {
      TouchFits(cands, e0, w, a.c, a.x);
      ToggleFreezes(w.bits, Entry(Target(Current(cands, w.s, a.c)), a.x), j);
    }
  }

  /** Column j is in at most MERGE_LEVEL_MAX rows at every moment, as far as weights have been updated. */
  ghost predicate SmallDuring(cands: seq<Candidate>, e0: Elim, w: Weighted, acts: seq<Act>, j: nat)
    requires PassOk(cands, e0) && InStep(cands, e0, w) && Possible(cands, e0, w, acts)
    decreases |acts|
  {
    && |Column(w.bits.rows, j)| <= MERGE_LEVEL_MAX
    && (acts == [] || (DoGood(cands, e0, w, acts[0]); SmallDuring(cands, e0, Do(cands, e0, w, acts[0]), acts[1..], j)))
  }

  lemma {:induction false} FrozenStays(cands: seq<Candidate>, e0: Elim, w: Weighted, acts: seq<Act>, j: nat)
    requires PassOk(cands, e0) && InStep(cands, e0, w) && Possible(cands, e0, w, acts)
    requires j < |w.bits.wt| && w.bits.wt[j] > MERGE_LEVEL_MAX
    ensures DoAll(cands, e0, w, acts).bits.wt[j] == w.bits.wt[j]
    decreases |acts|
  {
    if acts != [] {
      DoGood(cands, e0, w, acts[0]);
      DoFreezes(cands, e0, w, acts[0], j);
      FrozenStays(cands, e0, Do(cands, e0, w, acts[0]), acts[1..], j);
    }
  }

  lemma {:induction false} FrozenInPass(cands: seq<Candidate>, e0: Elim, w: Weighted, acts: seq<Act>, j: nat)
    requires PassOk(cands, e0) && InStep(cands, e0, w) && Possible(cands, e0, w, acts)
    requires j < |w.bits.wt| && w.bits.wt[j] == |Column(w.bits.rows, j)| <= MERGE_LEVEL_MAX
    ensures DoAll(cands, e0, w, acts).bits.wt[j] <= MERGE_LEVEL_MAX <==> SmallDuring(cands, e0, w, acts, j)
    decreases |acts|
  {
    if acts != [] {
      var v := Do(cands, e0, w, acts[0]);
      DoGood(cands, e0, w, acts[0]);
      DoFreezes(cands, e0, w, acts[0], j);
      if v.bits.wt[j] > MERGE_LEVEL_MAX {
        FrozenStays(cands, e0, v, acts[1..], j);
      } else {
        FrozenInPass(cands, e0, v, acts[1..], j);
      }
    }
  }

  /** No frozen weight changes during the pass, and a small one is frozen exactly if its column is too large at
      some moment. */
  ghost predicate FrozenRightly(cands: seq<Candidate>, e0: Elim, wt: seq<nat>, acts: seq<Act>)
    requires PassOk(cands, e0) && Fit(e0.rows, |wt|) && Possible(cands, e0, WeightedStart(cands, e0, wt), acts)
  {
    var w := WeightedStart(cands, e0, wt);
    var v := DoAll(cands, e0, w, acts);
    forall j {:trigger v.bits.wt[j]} :: 0 <= j < |wt| ==>
      if wt[j] > MERGE_LEVEL_MAX then v.bits.wt[j] == wt[j]
      else v.bits.wt[j] <= MERGE_LEVEL_MAX <==> SmallDuring(cands, e0, w, acts, j)
  }

  lemma PassFreezes(cands: seq<Candidate>, e0: Elim, wt: seq<nat>, acts: seq<Act>)
    requires PassOk(cands, e0) && Fit(e0.rows, |wt|) && Exact(Bits(e0.rows, wt))
    requires Possible(cands, e0, WeightedStart(cands, e0, wt), acts)
    ensures FrozenRightly(cands, e0, wt, acts)
  {
    var w := WeightedStart(cands, e0, wt);
    var v := DoAll(cands, e0, w, acts);
    forall j {:trigger v.bits.wt[j]} | 0 <= j < |wt|
      ensures if wt[j] > MERGE_LEVEL_MAX then v.bits.wt[j] == wt[j]
              else v.bits.wt[j] <= MERGE_LEVEL_MAX <==> SmallDuring(cands, e0, w, acts, j)
    {
      if wt[j] > MERGE_LEVEL_MAX {
        FrozenStays(cands, e0, w, acts, j);
      } else {
        FrozenInPass(cands, e0, w, acts, j);
      }
    }
  }

  /** Under every interleaving of weight updates and other actions, a pass that starts with exact small
      weights ends with exact small weights, and has frozen those of columns that became too large. */
  lemma PassKeepsExact(cands: seq<Candidate>, e0: Elim, wt: seq<nat>, acts: seq<Act>)
    requires PassOk(cands, e0) && Fit(e0.rows, |wt|) && Exact(Bits(e0.rows, wt))
    requires Possible(cands, e0, WeightedStart(cands, e0, wt), acts) && Settled(DoAll(cands, e0, WeightedStart(cands, e0, wt), acts).s)
    ensures var w := DoAll(cands, e0, WeightedStart(cands, e0, wt), acts);
            && Exact(Bits(w.s.e.rows, w.bits.wt)) && Fit(w.s.e.rows, |w.bits.wt|) && |w.bits.wt| == |wt|
    ensures FrozenRightly(cands, e0, wt, acts)
  {
    PassFreezes(cands, e0, wt, acts);
    StaysExact(cands, e0, WeightedStart(cands, e0, wt), acts);
    SettledAgree(cands, e0, DoAll(cands, e0, WeightedStart(cands, e0, wt), acts));
  }

  // ----- Every pass ends -----

  function PhaseWork(c: Candidate, p: Phase): nat
    requires EdgesIn(c.tree, |c.rows|) && |c.rows| >= 1
  {
    var r, o := |c.rows|, |Ops(c)|;
    match p
    case Waiting => 2 * r + o + 4
    case Looking(k) => if k <= r then 2 * r + o + 3 - k else 0
    case Reserving(k) => if k <= r then r + o + 2 - k else 0
    case Merging(k) => if k <= o then o + 1 - k else 0
    case _ => 0
  }

  ghost function AllWork(cands: seq<Candidate>, e0: Elim, phase: seq<Phase>, n: nat): nat
    requires PassOk(cands, e0) && n <= |phase| == |cands|
  {
    if n == 0 then 0 else AllWork(cands, e0, phase, n - 1) + PhaseWork(cands[n - 1], phase[n - 1])
  }

  lemma {:induction false} WorkChanged(cands: seq<Candidate>, e0: Elim, phase: seq<Phase>, c: nat, p: Phase, n: nat)
    requires PassOk(cands, e0) && n <= |phase| == |cands| && c < |cands|
    ensures AllWork(cands, e0, phase[c := p], n)
            == AllWork(cands, e0, phase, n) + (if c < n then PhaseWork(cands[c], p) - PhaseWork(cands[c], phase[c]) else 0)
  {
    if n > 0 {
      WorkChanged(cands, e0, phase, c, p, n - 1);
    }
  }

  /** The weight updates left to candidate c when it has dealt with the given cells. */
  ghost function UnseenBy(cands: seq<Candidate>, e0: Elim, s: Pass, c: nat, seen: set<nat>): nat
    requires PassOk(cands, e0) && |s.phase| == |cands| && WellFormed(s.e) && c < |cands|
  {
    if Busy(cands, s, c) && Runnable(s.e, Current(cands, s, c)) then |Cells(s.e, Current(cands, s, c)) - seen| else 0
  }

  ghost function Unseen(cands: seq<Candidate>, e0: Elim, s: Pass, seen: seq<set<nat>>, n: nat): nat
    requires PassOk(cands, e0) && |s.phase| == |cands| == |seen| && WellFormed(s.e) && n <= |cands|
  {
    if n == 0 then 0 else Unseen(cands, e0, s, seen, n - 1) + UnseenBy(cands, e0, s, n - 1, seen[n - 1])
  }

  lemma {:induction false} SeenChanged(cands: seq<Candidate>, e0: Elim, s: Pass, seen: seq<set<nat>>, c: nat, y: set<nat>, n: nat)
    requires PassOk(cands, e0) && |s.phase| == |cands| == |seen| && WellFormed(s.e) && n <= |cands| && c < |cands|
    ensures Unseen(cands, e0, s, seen[c := y], n)
            == Unseen(cands, e0, s, seen, n) + (if c < n then UnseenBy(cands, e0, s, c, y) - UnseenBy(cands, e0, s, c, seen[c]) else 0)
  {
    if n > 0 {
      SeenChanged(cands, e0, s, seen, c, y, n - 1);
    }
  }

  lemma FewerUnseen(cands: seq<Candidate>, e0: Elim, s: Pass, c: nat, seen: set<nat>, x: nat)
    requires PassOk(cands, e0) && |s.phase| == |cands| && WellFormed(s.e) && c < |cands|
    requires Busy(cands, s, c) && Runnable(s.e, Current(cands, s, c)) && x in Cells(s.e, Current(cands, s, c)) - seen
    ensures UnseenBy(cands, e0, s, c, seen + {x}) < UnseenBy(cands, e0, s, c, seen)
  {
    var cells := Cells(s.e, Current(cands, s, c));
    assert cells - (seen + {x}) == (cells - seen) - {x};
  }

  lemma LessUnseen(cands: seq<Candidate>, e0: Elim, s: Pass, seen: seq<set<nat>>, c: nat, x: nat)
    requires PassOk(cands, e0) && |s.phase| == |cands| == |seen| && WellFormed(s.e) && c < |cands|
    requires Busy(cands, s, c) && Runnable(s.e, Current(cands, s, c)) && x in Cells(s.e, Current(cands, s, c)) - seen[c]
    ensures Unseen(cands, e0, s, seen[c := seen[c] + {x}], |cands|) < Unseen(cands, e0, s, seen, |cands|)
  {
    FewerUnseen(cands, e0, s, c, seen[c], x);
    SeenChanged(cands, e0, s, seen, c, seen[c] + {x}, |cands|);
  }

  lemma TouchUnseen(cands: seq<Candidate>, e0: Elim, w: Weighted, c: nat, x: nat)
    requires PassOk(cands, e0) && InStep(cands, e0, w) && Enabled(cands, e0, w, Touch(c, x))
    ensures var v := Do(cands, e0, w, Touch(c, x));
            v.s == w.s && |v.seen| == |cands| && Unseen(cands, e0, v.s, v.seen, |cands|) < Unseen(cands, e0, w.s, w.seen, |cands|)
  {
    CurrentRunnable(cands, e0, w.s, c);
    LessUnseen(cands, e0, w.s, w.seen, c, x);
  }

  lemma AdvanceWork(cands: seq<Candidate>, e0: Elim, w: Weighted, c: nat)
    requires PassOk(cands, e0) && InStep(cands, e0, w) && Enabled(cands, e0, w, Advance(c))
    ensures var v := Do(cands, e0, w, Advance(c));
            |v.s.phase| == |cands| && AllWork(cands, e0, v.s.phase, |cands|) < AllWork(cands, e0, w.s.phase, |cands|)
  {
    StepLossless(cands, e0, w.s, c);
    var v := Do(cands, e0, w, Advance(c));
    assert v.s.phase == w.s.phase[c := v.s.phase[c]];
    WorkChanged(cands, e0, w.s.phase, c, v.s.phase[c], |cands|);
  }

  /** As long as a candidate is not through, something can be done. */
  lemma NotStuck(cands: seq<Candidate>, e0: Elim, w: Weighted) returns (a: Act)
    requires PassOk(cands, e0) && InStep(cands, e0, w) && !Settled(w.s)
    ensures Enabled(cands, e0, w, a)
  {
    var c :| 0 <= c < |cands| && !w.s.phase[c].Finished? && !w.s.phase[c].Discarded?;
    a := Advance(c);
    if Busy(cands, w.s, c) {
      CurrentRunnable(cands, e0, w.s, c);
      var left := Cells(w.s.e, Current(cands, w.s, c)) - w.seen[c];
      if left != {} {
        var x :| x in left;
        a := Touch(c, x);
      }
    }
  }

  /** Whatever possible action the scheduler picks each time, the pass comes to an end. */
  lemma PassEnds(cands: seq<Candidate>, e0: Elim, wt: seq<nat>, pick: (nat, Weighted) -> Act) returns (acts: seq<Act>)
    requires PassOk(cands, e0) && Fit(e0.rows, |wt|)
    requires forall n, w: Weighted :: InStep(cands, e0, w) && !Settled(w.s) ==> Enabled(cands, e0, w, pick(n, w))
    ensures Possible(cands, e0, WeightedStart(cands, e0, wt), acts) && Settled(DoAll(cands, e0, WeightedStart(cands, e0, wt), acts).s)
  {
    acts := RestEnds(cands, e0, WeightedStart(cands, e0, wt), pick, 0);
  }

  lemma RestEnds(cands: seq<Candidate>, e0: Elim, w: Weighted, pick: (nat, Weighted) -> Act, n: nat) returns (acts: seq<Act>)
    requires PassOk(cands, e0) && InStep(cands, e0, w)
    requires forall n, w: Weighted :: InStep(cands, e0, w) && !Settled(w.s) ==> Enabled(cands, e0, w, pick(n, w))
    ensures Possible(cands, e0, w, acts) && Settled(DoAll(cands, e0, w, acts).s)
    decreases AllWork(cands, e0, w.s.phase, |cands|), Unseen(cands, e0, w.s, w.seen, |cands|)
  {
    if Settled(w.s) {
      acts := [];
    } else {
      var a := pick(n, w);
      DoGood(cands, e0, w, a);
      match a {
        case Touch(c, x) => TouchUnseen(cands, e0, w, c, x);
        case Advance(c) => AdvanceWork(cands, e0, w, c);
      }
      var rest := RestEnds(cands, e0, Do(cands, e0, w, a), pick, n + 1);
      acts := [a] + rest;
      assert acts[1..] == rest;
    }
  }
}
