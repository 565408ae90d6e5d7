/** One pass of `merge`: threads reserve the rows of candidate merges through the shared
    `busy_rows` flags and carry out the merges whose rows they could all reserve.  The model
    takes one atomic action of one candidate at a time, in an arbitrary order. */
module MergePass {
  import opened Collections
  import opened SpanningTree
  import opened Elimination
  import opened MergeTree
  import opened HistoryLines

  /** A column to merge, the rows that contain it, and the spanning tree for them. */
  datatype Candidate = Candidate(col: nat, rows: seq<nat>, tree: seq<Edge>)

  datatype Phase =
    | Waiting
    | Looking(k: nat)    // k rows were seen free
    | Reserving(k: nat)  // k rows are reserved
    | Merging(k: nat)    // k operations of the merge are done
    | Finished
    | Discarded(k: nat)  // k rows stay reserved

  datatype Pass = Pass(e: Elim, busy: set<nat>, phase: seq<Phase>)

  ghost predicate CandidateOk(e: Elim, c: Candidate)
    requires WellFormed(e)
  {
    ListsColumn(e, c.col, c.rows) && MergeTreeFor(c.tree, |c.rows|) && EdgesIn(c.tree, |c.rows|)
  }

  function Ops(c: Candidate): seq<Op>
    requires EdgesIn(c.tree, |c.rows|) && |c.rows| >= 1
  {
    MergeOps(c.rows, c.tree)
  }

  ghost function RowSet(c: Candidate): set<nat> {
    set i | i in c.rows
  }

  // ----- Locality -----

  datatype Slot = Slot(live: bool, row: set<nat>, rels: set<nat>)

  ghost function At(e: Elim, i: nat): Slot
    requires WellFormed(e) && i < |e.rows|
  {
    Slot(i in e.live, e.rows[i], e.rels[i])
  }

  ghost predicate AgreeOn(e: Elim, f: Elim, r: set<nat>)
    requires WellFormed(e) && WellFormed(f) && |e.rows| == |f.rows|
  {
    forall i :: i in r && i < |e.rows| ==> At(e, i) == At(f, i)
  }

  lemma AgreeEverywhere(e: Elim, f: Elim)
    requires WellFormed(e) && WellFormed(f) && |e.rows| == |f.rows|
    requires forall i :: 0 <= i < |e.rows| ==> At(e, i) == At(f, i)
    ensures e == f
  {
    forall i | 0 <= i < |e.rows|
      ensures e.rows[i] == f.rows[i] && e.rels[i] == f.rels[i] && (i in e.live <==> i in f.live)
    {
      assert At(e, i) == At(f, i);
    }
    assert e.live == f.live;
  }

  predicate OpWithin(op: Op, r: set<nat>) {
    match op
    case Add(dst, src) => dst in r && src in r
    case Drop(row) => row in r
  }

  ghost predicate OpsWithin(ops: seq<Op>, r: set<nat>) {
    forall k :: 0 <= k < |ops| ==> OpWithin(ops[k], r)
  }

  /** An operation reads and writes only the rows it names. */
  lemma ApplyLocal(e: Elim, f: Elim, op: Op, r: set<nat>)
    requires WellFormed(e) && WellFormed(f) && |e.rows| == |f.rows|
    requires OpWithin(op, r) && AgreeOn(e, f, r) && Runnable(f, op)
    ensures Runnable(e, op) && AgreeOn(Apply(e, op), Apply(f, op), r)
    ensures forall i :: 0 <= i < |e.rows| && i !in r ==> At(Apply(e, op), i) == At(e, i)
  {
    match op
    case Add(dst, src) =>
      assert At(e, dst) == At(f, dst) && At(e, src) == At(f, src);
      forall i | i in r && i < |e.rows| ensures At(Apply(e, op), i) == At(Apply(f, op), i) {
        assert At(e, i) == At(f, i);
      }
    case Drop(row) =>
      assert At(e, row) == At(f, row);
      forall i | i in r && i < |e.rows| ensures At(Apply(e, op), i) == At(Apply(f, op), i) {
        assert At(e, i) == At(f, i);
      }
  }

  lemma {:induction false} RunLocal(e: Elim, f: Elim, ops: seq<Op>, r: set<nat>)
    requires WellFormed(e) && WellFormed(f) && |e.rows| == |f.rows|
    requires OpsWithin(ops, r) && AgreeOn(e, f, r) && RunnableAll(f, ops)
    ensures RunnableAll(e, ops) && AgreeOn(Run(e, ops), Run(f, ops), r)
    ensures forall i :: 0 <= i < |e.rows| && i !in r ==> At(Run(e, ops), i) == At(e, i)
    decreases |ops|
  {
    if ops != [] {
      ApplyLocal(e, f, ops[0], r);
      RunLocal(Apply(e, ops[0]), Apply(f, ops[0]), ops[1..], r);
    }
  }

  /** Additions among rows that lack a column never bring it in. */
  lemma {:induction false} ColumnStaysOut(e: Elim, ops: seq<Op>, r: set<nat>, col: nat)
    requires WellFormed(e) && OpsWithin(ops, r) && RunnableAll(e, ops)
    requires forall i :: i in r && i < |e.rows| ==> col !in e.rows[i]
    ensures forall i :: i in r && i < |e.rows| ==> col !in Run(e, ops).rows[i]
    decreases |ops|
  {
    if ops != [] {
      ColumnStaysOut(Apply(e, ops[0]), ops[1..], r, col);
    }
  }

  lemma OpsOfMerge(e: Elim, c: Candidate)
    requires WellFormed(e) && CandidateOk(e, c)
    ensures OpsWithin(Ops(c), RowSet(c))
    ensures RunnableAll(e, Ops(c)) && LosslessAll(e, Ops(c))
  {
    MergeLossless(e, c.col, c.rows, c.tree);
    forall k | 0 <= k < |Ops(c)| ensures OpWithin(Ops(c)[k], RowSet(c)) {
      if k < |c.tree| {
        var edge := c.tree[|c.tree| - 1 - k];
        AdditionsAt(c.rows, c.tree, |c.tree| - 1 - k);
        assert c.rows[edge.u] in c.rows && c.rows[edge.v] in c.rows;
      } else {
        assert c.rows[0] in c.rows;
      }
    }
  }

  /** The candidate's merge after k of its operations, had it been alone. */
  ghost function After(e0: Elim, c: Candidate, k: nat): (r: Elim)
    requires WellFormed(e0) && CandidateOk(e0, c) && k <= |Ops(c)|
    ensures WellFormed(r) && |r.rows| == |e0.rows|
  {
    OpsOfMerge(e0, c);
    AfterRunnable(e0, Ops(c), k);
    Run(e0, Ops(c)[..k])
  }

  lemma AfterRunnable(e: Elim, ops: seq<Op>, k: nat)
    requires WellFormed(e) && RunnableAll(e, ops) && k <= |ops|
    ensures RunnableAll(e, ops[..k])
  {
    if k < |ops| {
      RunPrefix(e, ops, k);
    } else {
      assert ops[..k] == ops;
    }
  }

  lemma AfterStep(e0: Elim, c: Candidate, k: nat)
    requires WellFormed(e0) && CandidateOk(e0, c) && k < |Ops(c)|
    ensures Runnable(After(e0, c, k), Ops(c)[k])
    ensures After(e0, c, k + 1) == Apply(After(e0, c, k), Ops(c)[k])
  {
    OpsOfMerge(e0, c);
    RunPrefix(e0, Ops(c), k);
  }

  // ----- The step of one candidate -----

  ghost predicate PassOk(cands: seq<Candidate>, e0: Elim) {
    WellFormed(e0) && forall c :: 0 <= c < |cands| ==> CandidateOk(e0, cands[c])
  }

  /** The rows reserved by a candidate; they stay reserved when it is discarded. */
  ghost function Claim(c: Candidate, p: Phase): set<nat> {
    match p
    case Reserving(k) => if k <= |c.rows| then set i | i in c.rows[..k] else {}
    case Discarded(k) => if k <= |c.rows| then set i | i in c.rows[..k] else {}
    case Merging(_) => RowSet(c)
    case Finished => RowSet(c)
    case _ => {}
  }

  /** How many operations of its merge a candidate has carried out. */
  ghost function Done(c: Candidate, p: Phase): nat
    requires EdgesIn(c.tree, |c.rows|) && |c.rows| >= 1
  {
    match p
    case Merging(k) => k
    case Finished => |Ops(c)|
    case _ => 0
  }

  ghost predicate Active(p: Phase) {
    p.Merging? || p.Finished?
  }

  ghost predicate PhaseOk(c: Candidate, p: Phase)
    requires EdgesIn(c.tree, |c.rows|) && |c.rows| >= 1
  {
    match p
    case Looking(k) => k <= |c.rows|
    case Reserving(k) => k <= |c.rows|
    case Discarded(k) => k <= |c.rows|
    case Merging(k) => k <= |Ops(c)|
    case _ => true
  }

  /** Claims are disjoint and flagged, and every row is either as at the start of the pass or as
      its only active candidate has made it. */
  ghost predicate Inv(cands: seq<Candidate>, e0: Elim, s: Pass)
    requires PassOk(cands, e0)
  {
    && |s.phase| == |cands| && WellFormed(s.e) && |s.e.rows| == |e0.rows|
    && (forall c :: 0 <= c < |cands| ==> PhaseOk(cands[c], s.phase[c]))
    && (forall c :: 0 <= c < |cands| ==> Claim(cands[c], s.phase[c]) <= s.busy)
    && (forall c, d :: 0 <= c < d < |cands| ==> Claim(cands[c], s.phase[c]) !! Claim(cands[d], s.phase[d]))
    && (forall c :: 0 <= c < |cands| && Active(s.phase[c]) ==> Owns(cands[c], s.phase[c], e0, s.e))
    && (forall i :: 0 <= i < |e0.rows| && !Touched(cands, s, i) ==> At(s.e, i) == At(e0, i))
  }

  ghost predicate Owns(c: Candidate, p: Phase, e0: Elim, e: Elim)
    requires WellFormed(e0) && CandidateOk(e0, c) && PhaseOk(c, p) && WellFormed(e) && |e.rows| == |e0.rows|
  {
    AgreeOn(e, After(e0, c, Done(c, p)), RowSet(c))
  }

  ghost predicate Touched(cands: seq<Candidate>, s: Pass, i: nat)
    requires |s.phase| == |cands|
  {
    exists c :: 0 <= c < |cands| && Active(s.phase[c]) && i in cands[c].rows
  }

  /** The operation that the next action of candidate c carries out, if any. */
  ghost function NextOp(cands: seq<Candidate>, e0: Elim, s: Pass, c: nat): (ops: seq<Op>)
    requires PassOk(cands, e0) && Inv(cands, e0, s) && c < |cands|
    ensures |ops| <= 1
  {
    if s.phase[c].Merging? && s.phase[c].k < |Ops(cands[c])| then [Ops(cands[c])[s.phase[c].k]] else []
  }

  /** One atomic action of the thread that handles candidate c. */
  ghost function Step(cands: seq<Candidate>, e0: Elim, s: Pass, c: nat): Pass
    requires PassOk(cands, e0) && Inv(cands, e0, s) && c < |cands|
    requires RunnableAll(s.e, NextOp(cands, e0, s, c))
  {
    var rows := cands[c].rows;
    match s.phase[c]
    case Waiting => s.(phase := s.phase[c := Looking(0)])
    case Looking(k) =>
      s.(phase := s.phase[c := if k == |rows| then Reserving(0)
                               else if rows[k] in s.busy then Discarded(0)
                               else Looking(k + 1)])
    case Reserving(k) =>
      if k == |rows| then s.(phase := s.phase[c := Merging(0)])
      else if rows[k] in s.busy then s.(phase := s.phase[c := Discarded(k)])
      else s.(busy := s.busy + {rows[k]}, phase := s.phase[c := Reserving(k + 1)])
    case Merging(k) =>
      if k == |Ops(cands[c])| then s.(phase := s.phase[c := Finished])
      else s.(e := Run(s.e, NextOp(cands, e0, s, c)), phase := s.phase[c := Merging(k + 1)])
    case _ => s
  }

  /** The rows of two merges under way never meet. */
  lemma ActiveDisjoint(cands: seq<Candidate>, e0: Elim, s: Pass, c: nat, d: nat)
    requires PassOk(cands, e0) && Inv(cands, e0, s) && c < |cands| && d < |cands| && c != d
    requires Active(s.phase[c]) && Active(s.phase[d])
    ensures RowSet(cands[c]) !! RowSet(cands[d])
  {
    assert Claim(cands[c], s.phase[c]) !! Claim(cands[d], s.phase[d]);
  }

  /** The step of a merge under way is possible and loses nothing of the kernel, whatever the
      other threads have done in between. */
  lemma StepLossless(cands: seq<Candidate>, e0: Elim, s: Pass, c: nat)
    requires PassOk(cands, e0) && Inv(cands, e0, s) && c < |cands|
    ensures RunnableAll(s.e, NextOp(cands, e0, s, c)) && LosslessAll(s.e, NextOp(cands, e0, s, c))
  {
    if s.phase[c].Merging? && s.phase[c].k < |Ops(cands[c])| {
      var cand, k := cands[c], s.phase[c].k;
      var op := Ops(cand)[k];
      AfterStep(e0, cand, k);
      OpsOfMerge(e0, cand);
      assert Owns(cand, s.phase[c], e0, s.e);
      ApplyLocal(s.e, After(e0, cand, k), op, RowSet(cand));
      if op.Drop? {
        DropIsLast(cand, k);
        RootPrivate(cands, e0, s, c);
        assert Private(s.e, op.row, cand.col);
      }
      RunnableSingle(s.e, op);
    }
  }

  lemma DropIsLast(c: Candidate, k: nat)
    requires EdgesIn(c.tree, |c.rows|) && |c.rows| >= 1 && k < |Ops(c)| && Ops(c)[k].Drop?
    ensures k == |c.tree| && Ops(c)[k] == Drop(c.rows[0])
  {
    if k < |c.tree| {
      AdditionsAt(c.rows, c.tree, |c.tree| - 1 - k);
    }
  }

  /** When only the drop is left, the root alone holds the merged column in the whole matrix. */
  lemma RootPrivate(cands: seq<Candidate>, e0: Elim, s: Pass, c: nat)
    requires PassOk(cands, e0) && Inv(cands, e0, s) && c < |cands|
    requires s.phase[c] == Merging(|cands[c].tree|)
    ensures Private(s.e, cands[c].rows[0], cands[c].col)
  {
    var cand := cands[c];
    var alone := After(e0, cand, |cand.tree|);
    AloneRootPrivate(e0, cand);
    assert Owns(cand, s.phase[c], e0, s.e);
    assert cand.rows[0] in cand.rows;
    assert At(s.e, cand.rows[0]) == At(alone, cand.rows[0]);
    forall i | i in s.e.live && i != cand.rows[0] ensures cand.col !in s.e.rows[i] {
      if i in cand.rows {
        assert At(s.e, i) == At(alone, i);
      } else if Touched(cands, s, i) {
        var d :| 0 <= d < |cands| && Active(s.phase[d]) && i in cands[d].rows;
        ActiveDisjoint(cands, e0, s, c, d);
        OtherLacksColumn(cands, e0, s, c, d, i);
      } else {
        assert At(s.e, i) == At(e0, i);
      }
    }
  }

  lemma AloneRootPrivate(e0: Elim, c: Candidate)
    requires WellFormed(e0) && CandidateOk(e0, c)
    ensures Private(After(e0, c, |c.tree|), c.rows[0], c.col)
  {
    assert Ops(c)[..|c.tree|] == Additions(c.rows, c.tree);
    forall k | 0 <= k < |c.rows| ensures c.rows[k] in e0.live {
      assert c.rows[k] in c.rows;
    }
    AdditionsResult(e0, c.rows, c.tree);
    RootHoldsColumn(e0, After(e0, c, |c.tree|), c.col, c.rows, c.tree);
  }

  lemma OtherLacksColumn(cands: seq<Candidate>, e0: Elim, s: Pass, c: nat, d: nat, i: nat)
    requires PassOk(cands, e0) && Inv(cands, e0, s) && c < |cands| && d < |cands| && Active(s.phase[d])
    requires RowSet(cands[c]) !! RowSet(cands[d]) && i in cands[d].rows && i < |e0.rows|
    ensures cands[c].col !in s.e.rows[i]
  {
    var other := cands[d];
    var k := Done(other, s.phase[d]);
    OpsOfMerge(e0, other);
    AfterRunnable(e0, Ops(other), k);
    assert forall x :: 0 <= x < k ==> Ops(other)[..k][x] == Ops(other)[x];
    forall x | x in RowSet(other) && x < |e0.rows| ensures cands[c].col !in e0.rows[x] {
      assert x in other.rows && x !in cands[c].rows;
      assert x in e0.live;
    }
    ColumnStaysOut(e0, Ops(other)[..k], RowSet(other), cands[c].col);
    assert Owns(other, s.phase[d], e0, s.e);
    assert At(s.e, i) == At(After(e0, other, k), i);
  }

  // ----- Every step keeps the invariant -----

  /** A step that changes neither the matrix nor the set of merges under way. */
  lemma QuietStep(cands: seq<Candidate>, e0: Elim, s: Pass, c: nat, busy: set<nat>, p: Phase)
    requires PassOk(cands, e0) && Inv(cands, e0, s) && c < |cands|
    requires PhaseOk(cands[c], p) && s.busy <= busy && Claim(cands[c], p) <= busy
    requires forall d :: 0 <= d < |cands| && d != c ==> Claim(cands[d], s.phase[d]) !! Claim(cands[c], p)
    requires Active(p) <==> Active(s.phase[c])
    requires Active(p) ==> Done(cands[c], p) == Done(cands[c], s.phase[c])
    ensures Inv(cands, e0, Pass(s.e, busy, s.phase[c := p]))
  {
    var t := Pass(s.e, busy, s.phase[c := p]);
    forall i | 0 <= i < |e0.rows| && !Touched(cands, t, i) ensures At(t.e, i) == At(e0, i) {
      assert !Touched(cands, s, i) by {
        forall d | 0 <= d < |cands| && Active(s.phase[d]) ensures i !in cands[d].rows {
          assert Active(t.phase[d]);
        }
      }
    }
    forall d | 0 <= d < |cands| && Active(t.phase[d]) ensures Owns(cands[d], t.phase[d], e0, t.e) {
      assert Owns(cands[d], s.phase[d], e0, s.e);
    }
  }

  /** The first step of a merge: all its rows are still as at the start of the pass. */
  lemma BeginStep(cands: seq<Candidate>, e0: Elim, s: Pass, c: nat)
    requires PassOk(cands, e0) && Inv(cands, e0, s) && c < |cands|
    requires s.phase[c] == Reserving(|cands[c].rows|)
    ensures Inv(cands, e0, s.(phase := s.phase[c := Merging(0)]))
  {
    var cand := cands[c];
    var t := s.(phase := s.phase[c := Merging(0)]);
    assert cand.rows[..|cand.rows|] == cand.rows;
    assert Claim(cand, s.phase[c]) == RowSet(cand);
    assert Ops(cand)[..0] == [];
    assert After(e0, cand, 0) == e0;
    forall i | i in RowSet(cand) && i < |e0.rows| ensures At(t.e, i) == At(e0, i) {
      forall d | 0 <= d < |cands| && Active(s.phase[d]) ensures i !in cands[d].rows {
        assert Claim(cands[d], s.phase[d]) !! Claim(cand, s.phase[c]);
      }
      assert !Touched(cands, s, i);
    }
    forall i | 0 <= i < |e0.rows| && !Touched(cands, t, i) ensures At(t.e, i) == At(e0, i) {
      forall d | 0 <= d < |cands| && Active(s.phase[d]) ensures i !in cands[d].rows {
        assert Active(t.phase[d]);
      }
      assert !Touched(cands, s, i);
    }
    forall d | 0 <= d < |cands| && Active(t.phase[d]) ensures Owns(cands[d], t.phase[d], e0, t.e) {
      if d != c {
        assert Owns(cands[d], s.phase[d], e0, s.e);
      }
    }
  }

  lemma MergeStep(cands: seq<Candidate>, e0: Elim, s: Pass, c: nat)
    requires PassOk(cands, e0) && Inv(cands, e0, s) && c < |cands|
    requires s.phase[c].Merging? && s.phase[c].k < |Ops(cands[c])|
    requires RunnableAll(s.e, NextOp(cands, e0, s, c))
    ensures Inv(cands, e0, Step(cands, e0, s, c))
  {
    var cand, k := cands[c], s.phase[c].k;
    var op := Ops(cand)[k];
    var t := Step(cands, e0, s, c);
    AfterStep(e0, cand, k);
    OpsOfMerge(e0, cand);
    assert Owns(cand, s.phase[c], e0, s.e);
    ApplyLocal(s.e, After(e0, cand, k), op, RowSet(cand));
    RunnableSingle(s.e, op);
    assert t.e == Apply(s.e, op);
    assert Owns(cand, t.phase[c], e0, t.e);
    forall d | 0 <= d < |cands| && d != c && Active(t.phase[d]) ensures Owns(cands[d], t.phase[d], e0, t.e) {
      assert Owns(cands[d], s.phase[d], e0, s.e);
      ActiveDisjoint(cands, e0, s, c, d);
    }
    forall i | 0 <= i < |e0.rows| && !Touched(cands, t, i) ensures At(t.e, i) == At(e0, i) {
      assert Active(t.phase[c]);
      forall d | 0 <= d < |cands| && Active(s.phase[d]) ensures i !in cands[d].rows {
        assert Active(t.phase[d]);
      }
      assert !Touched(cands, s, i);
    }
  }

  lemma ReserveStep(cands: seq<Candidate>, e0: Elim, s: Pass, c: nat)
    requires PassOk(cands, e0) && Inv(cands, e0, s) && c < |cands|
    requires s.phase[c].Reserving? && s.phase[c].k < |cands[c].rows| && cands[c].rows[s.phase[c].k] !in s.busy
    ensures Inv(cands, e0, Step(cands, e0, s, c))
  {
    var cand, k := cands[c], s.phase[c].k;
    var busy, p := s.busy + {cand.rows[k]}, Reserving(k + 1);
    assert Step(cands, e0, s, c) == Pass(s.e, busy, s.phase[c := p]);
    ReserveApart(cands, e0, s, c);
    assert Claim(cand, p) <= busy by {
      assert Claim(cand, s.phase[c]) <= s.busy;
    }
    QuietStep(cands, e0, s, c, busy, p);
  }

  lemma ReserveApart(cands: seq<Candidate>, e0: Elim, s: Pass, c: nat)
    requires PassOk(cands, e0) && Inv(cands, e0, s) && c < |cands|
    requires s.phase[c].Reserving? && s.phase[c].k < |cands[c].rows| && cands[c].rows[s.phase[c].k] !in s.busy
    ensures Claim(cands[c], Reserving(s.phase[c].k + 1)) == Claim(cands[c], s.phase[c]) + {cands[c].rows[s.phase[c].k]}
    ensures forall d :: 0 <= d < |cands| && d != c ==> Claim(cands[d], s.phase[d]) !! Claim(cands[c], Reserving(s.phase[c].k + 1))
  {
    var cand, k := cands[c], s.phase[c].k;
    assert cand.rows[..k + 1] == cand.rows[..k] + [cand.rows[k]];
    assert Claim(cand, Reserving(k + 1)) == Claim(cand, Reserving(k)) + {cand.rows[k]};
    forall d | 0 <= d < |cands| && d != c ensures Claim(cands[d], s.phase[d]) !! Claim(cand, Reserving(k + 1)) {
      assert Claim(cands[d], s.phase[d]) <= s.busy;
      if d < c {
        assert Claim(cands[d], s.phase[d]) !! Claim(cands[c], s.phase[c]);
      } else {
        assert Claim(cands[c], s.phase[c]) !! Claim(cands[d], s.phase[d]);
      }
    }
  }

  lemma DiscardStep(cands: seq<Candidate>, e0: Elim, s: Pass, c: nat)
    requires PassOk(cands, e0) && Inv(cands, e0, s) && c < |cands| && s.phase[c].Reserving?
    ensures Inv(cands, e0, s.(phase := s.phase[c := Discarded(s.phase[c].k)]))
  {
    forall d | 0 <= d < |cands| && d != c ensures Claim(cands[d], s.phase[d]) !! Claim(cands[c], Discarded(s.phase[c].k)) {
      if d < c {
        assert Claim(cands[d], s.phase[d]) !! Claim(cands[c], s.phase[c]);
      } else {
        assert Claim(cands[c], s.phase[c]) !! Claim(cands[d], s.phase[d]);
      }
    }
    QuietStep(cands, e0, s, c, s.busy, Discarded(s.phase[c].k));
  }

  lemma StepInv(cands: seq<Candidate>, e0: Elim, s: Pass, c: nat)
    requires PassOk(cands, e0) && Inv(cands, e0, s) && c < |cands|
    requires RunnableAll(s.e, NextOp(cands, e0, s, c))
    ensures Inv(cands, e0, Step(cands, e0, s, c))
  {
    match s.phase[c]
    case Waiting => QuietStep(cands, e0, s, c, s.busy, Looking(0));
    case Looking(k) => LookStep(cands, e0, s, c);
    case Reserving(k) =>
      if k == |cands[c].rows| {
        BeginStep(cands, e0, s, c);
      } else if cands[c].rows[k] in s.busy {
        DiscardStep(cands, e0, s, c);
      } else {
        ReserveStep(cands, e0, s, c);
      }
    case Merging(k) =>
      if k < |Ops(cands[c])| {
        MergeStep(cands, e0, s, c);
      } else {
        FinishStep(cands, e0, s, c);
      }
    case _ =>
  }

  lemma LookStep(cands: seq<Candidate>, e0: Elim, s: Pass, c: nat)
    requires PassOk(cands, e0) && Inv(cands, e0, s) && c < |cands| && s.phase[c].Looking?
    ensures Inv(cands, e0, Step(cands, e0, s, c))
  {
    var rows, k := cands[c].rows, s.phase[c].k;
    assert rows[..0] == [];
    QuietStep(cands, e0, s, c, s.busy, if k == |rows| then Reserving(0) else if rows[k] in s.busy then Discarded(0) else Looking(k + 1));
  }

  lemma FinishStep(cands: seq<Candidate>, e0: Elim, s: Pass, c: nat)
    requires PassOk(cands, e0) && Inv(cands, e0, s) && c < |cands| && s.phase[c] == Merging(|Ops(cands[c])|)
    ensures Inv(cands, e0, Step(cands, e0, s, c))
  {
    forall d | 0 <= d < |cands| && d != c ensures Claim(cands[d], s.phase[d]) !! Claim(cands[c], Finished) {
      if d < c {
        assert Claim(cands[d], s.phase[d]) !! Claim(cands[c], s.phase[c]);
      } else {
        assert Claim(cands[c], s.phase[c]) !! Claim(cands[d], s.phase[d]);
      }
    }
    QuietStep(cands, e0, s, c, s.busy, Finished);
  }

  // ----- Whole passes -----

  ghost function Begin(cands: seq<Candidate>, e0: Elim): (s: Pass)
    requires PassOk(cands, e0)
    ensures Inv(cands, e0, s)
  {
    Pass(e0, {}, seq(|cands|, _ => Waiting))
  }

  ghost predicate ScheduleOk(cands: seq<Candidate>, schedule: seq<nat>) {
    forall k :: 0 <= k < |schedule| ==> schedule[k] < |cands|
  }

  /** The state after the candidates have acted in the order given by the schedule. */
  ghost function Execute(cands: seq<Candidate>, e0: Elim, s: Pass, schedule: seq<nat>): (r: Pass)
    requires PassOk(cands, e0) && Inv(cands, e0, s) && ScheduleOk(cands, schedule)
    ensures Inv(cands, e0, r)
    decreases |schedule|
  {
    if schedule == [] then s
    else
      StepLossless(cands, e0, s, schedule[0]);
      StepInv(cands, e0, s, schedule[0]);
      Execute(cands, e0, Step(cands, e0, s, schedule[0]), schedule[1..])
  }

  /** The row operations in the order in which they hit the shared matrix. */
  ghost function Trace(cands: seq<Candidate>, e0: Elim, s: Pass, schedule: seq<nat>): seq<Op>
    requires PassOk(cands, e0) && Inv(cands, e0, s) && ScheduleOk(cands, schedule)
    decreases |schedule|
  {
    if schedule == [] then []
    else
      StepLossless(cands, e0, s, schedule[0]);
      StepInv(cands, e0, s, schedule[0]);
      NextOp(cands, e0, s, schedule[0]) + Trace(cands, e0, Step(cands, e0, s, schedule[0]), schedule[1..])
  }

  lemma StepEffect(cands: seq<Candidate>, e0: Elim, s: Pass, c: nat)
    requires PassOk(cands, e0) && Inv(cands, e0, s) && c < |cands|
    requires RunnableAll(s.e, NextOp(cands, e0, s, c))
    ensures Step(cands, e0, s, c).e == Run(s.e, NextOp(cands, e0, s, c))
  {
  }

  /** Under every schedule the interleaved operations are possible and lossless, so whole runs of
      passes satisfy the premise of Elimination.KernelPreserved. */
  lemma {:induction false} ExecuteLossless(cands: seq<Candidate>, e0: Elim, s: Pass, schedule: seq<nat>)
    requires PassOk(cands, e0) && Inv(cands, e0, s) && ScheduleOk(cands, schedule)
    ensures RunnableAll(s.e, Trace(cands, e0, s, schedule)) && LosslessAll(s.e, Trace(cands, e0, s, schedule))
    ensures Execute(cands, e0, s, schedule).e == Run(s.e, Trace(cands, e0, s, schedule))
    decreases |schedule|
  {
    if schedule != [] {
      var c := schedule[0];
      StepLossless(cands, e0, s, c);
      StepInv(cands, e0, s, c);
      StepEffect(cands, e0, s, c);
      var next := Step(cands, e0, s, c);
      ExecuteLossless(cands, e0, next, schedule[1..]);
      RunAppend(s.e, NextOp(cands, e0, s, c), Trace(cands, e0, next, schedule[1..]));
      LosslessAppend(s.e, NextOp(cands, e0, s, c), Trace(cands, e0, next, schedule[1..]));
    }
  }

  ghost predicate Settled(s: Pass) {
    forall c :: 0 <= c < |s.phase| ==> s.phase[c].Finished? || s.phase[c].Discarded?
  }

  ghost function Winners(s: Pass): set<nat> {
    set c: nat | 0 <= c < |s.phase| && s.phase[c].Finished?
  }

  // ----- Sequential execution of the merges that were done -----

  /** A list of candidates whose row sets are pairwise disjoint. */
  ghost predicate OrderOk(cands: seq<Candidate>, order: seq<nat>) {
    && ScheduleOk(cands, order)
    && forall x, y :: 0 <= x < y < |order| ==> RowSet(cands[order[x]]) !! RowSet(cands[order[y]])
  }

  ghost function OrderOps(cands: seq<Candidate>, e0: Elim, order: seq<nat>): seq<Op>
    requires PassOk(cands, e0) && ScheduleOk(cands, order)
  {
    if order == [] then []
    else OrderOps(cands, e0, order[..|order| - 1]) + Ops(cands[order[|order| - 1]])
  }

  /** The listed merges have been done in full and nothing else has changed. */
  ghost predicate Patched(cands: seq<Candidate>, e0: Elim, order: seq<nat>, e: Elim)
    requires PassOk(cands, e0) && ScheduleOk(cands, order)
  {
    && WellFormed(e) && |e.rows| == |e0.rows|
    && (forall x :: 0 <= x < |order| ==> Owns(cands[order[x]], Finished, e0, e))
    && (forall i :: 0 <= i < |e0.rows| && !Covered(cands, order, i) ==> At(e, i) == At(e0, i))
  }

  ghost predicate Covered(cands: seq<Candidate>, order: seq<nat>, i: nat)
    requires ScheduleOk(cands, order)
  {
    exists x :: 0 <= x < |order| && i in cands[order[x]].rows
  }

  lemma PatchedUnique(cands: seq<Candidate>, e0: Elim, order: seq<nat>, e: Elim, f: Elim)
    requires PassOk(cands, e0) && ScheduleOk(cands, order)
    requires Patched(cands, e0, order, e) && Patched(cands, e0, order, f)
    ensures e == f
  {
    forall i | 0 <= i < |e.rows| ensures At(e, i) == At(f, i) {
      if Covered(cands, order, i) {
        var x :| 0 <= x < |order| && i in cands[order[x]].rows;
        var alone := After(e0, cands[order[x]], |Ops(cands[order[x]])|);
        assert Owns(cands[order[x]], Finished, e0, e) && Owns(cands[order[x]], Finished, e0, f);
        assert At(e, i) == At(alone, i) == At(f, i);
      }
    }
    AgreeEverywhere(e, f);
  }

  /** One more merge on rows that the earlier ones left alone. */
  lemma PatchOne(cands: seq<Candidate>, e0: Elim, order: seq<nat>, e: Elim)
    requires PassOk(cands, e0) && order != [] && OrderOk(cands, order)
    requires ScheduleOk(cands, order[..|order| - 1]) && Patched(cands, e0, order[..|order| - 1], e)
    ensures RunnableAll(e, Ops(cands[order[|order| - 1]]))
    ensures Patched(cands, e0, order, Run(e, Ops(cands[order[|order| - 1]])))
  {
    var n := |order| - 1;
    var front, cand := order[..n], cands[order[n]];
    OpsOfMerge(e0, cand);
    forall i | i in RowSet(cand) && i < |e.rows| ensures At(e, i) == At(e0, i) {
      forall x | 0 <= x < |front| ensures i !in cands[front[x]].rows {
        assert RowSet(cands[order[x]]) !! RowSet(cands[order[n]]);
        assert i !in RowSet(cands[order[x]]);
      }
      assert !Covered(cands, front, i);
    }
    RunLocal(e, e0, Ops(cand), RowSet(cand));
    var r := Run(e, Ops(cand));
    assert Ops(cand)[..|Ops(cand)|] == Ops(cand);
    forall x | 0 <= x < |order| ensures Owns(cands[order[x]], Finished, e0, r) {
      if x < n {
        assert front[x] == order[x];
        assert Owns(cands[front[x]], Finished, e0, e);
        assert RowSet(cands[order[x]]) !! RowSet(cands[order[n]]);
      }
    }
    forall i | 0 <= i < |e0.rows| && !Covered(cands, order, i) ensures At(r, i) == At(e0, i) {
      UncoveredFront(cands, order, i);
    }
  }

  lemma UncoveredFront(cands: seq<Candidate>, order: seq<nat>, i: nat)
    requires order != [] && ScheduleOk(cands, order) && ScheduleOk(cands, order[..|order| - 1]) && !Covered(cands, order, i)
    ensures i !in cands[order[|order| - 1]].rows && !Covered(cands, order[..|order| - 1], i)
  {
    assert forall x :: 0 <= x < |order| - 1 ==> order[..|order| - 1][x] == order[x];
  }

  lemma {:induction false} InOrder(cands: seq<Candidate>, e0: Elim, order: seq<nat>)
    requires PassOk(cands, e0) && OrderOk(cands, order)
    ensures RunnableAll(e0, OrderOps(cands, e0, order))
    ensures Patched(cands, e0, order, Run(e0, OrderOps(cands, e0, order)))
    ensures |Run(e0, OrderOps(cands, e0, order)).live| == |e0.live| - |order|
    decreases |order|
  {
    if order != [] {
      var n := |order| - 1;
      var front, ops := order[..n], Ops(cands[order[n]]);
      assert forall x :: 0 <= x < n ==> front[x] == order[x];
      InOrder(cands, e0, front);
      var mid := Run(e0, OrderOps(cands, e0, front));
      PatchOne(cands, e0, order, mid);
      RunAppend(e0, OrderOps(cands, e0, front), ops);
      MergeDropsOne(mid, cands[order[n]]);
    }
  }

  lemma MergeDropsOne(e: Elim, c: Candidate)
    requires WellFormed(e) && EdgesIn(c.tree, |c.rows|) && |c.rows| >= 1 && RunnableAll(e, Ops(c))
    ensures |Run(e, Ops(c)).live| == |e.live| - 1
  {
    var n := |c.tree|;
    forall k | 0 <= k < n ensures Ops(c)[k].Add? {
      AdditionsAt(c.rows, c.tree, n - 1 - k);
    }
    AddsKeepLive(e, Ops(c), n);
    RunPrefix(e, Ops(c), n);
    assert Ops(c)[..n + 1] == Ops(c);
    assert Ops(c)[n] == Drop(c.rows[0]);
  }

  lemma {:induction false} AddsKeepLive(e: Elim, ops: seq<Op>, n: nat)
    requires WellFormed(e) && RunnableAll(e, ops) && n <= |ops|
    requires forall k :: 0 <= k < n ==> ops[k].Add?
    ensures RunnableAll(e, ops[..n]) && Run(e, ops[..n]).live == e.live
  {
    if n == 0 {
      assert ops[..0] == [];
    } else {
      AddsKeepLive(e, ops, n - 1);
      RunPrefix(e, ops, n - 1);
    }
  }

  /** `order` lists each merge that was done once. */
  ghost predicate ListsWinners(s: Pass, order: seq<nat>) {
    && (forall x, y :: 0 <= x < y < |order| ==> order[x] != order[y])
    && (forall c :: c in order <==> c in Winners(s))
  }

  lemma WinnersInOrder(cands: seq<Candidate>, e0: Elim, s: Pass, order: seq<nat>)
    requires PassOk(cands, e0) && Inv(cands, e0, s) && Settled(s) && ListsWinners(s, order)
    ensures OrderOk(cands, order) && Patched(cands, e0, order, s.e)
  {
    assert forall x :: 0 <= x < |order| ==> order[x] in order;
    forall x, y | 0 <= x < y < |order| ensures RowSet(cands[order[x]]) !! RowSet(cands[order[y]]) {
      assert order[x] in Winners(s) && order[y] in Winners(s);
      ActiveDisjoint(cands, e0, s, order[x], order[y]);
    }
    forall i | 0 <= i < |e0.rows| && !Covered(cands, order, i) ensures At(s.e, i) == At(e0, i) {
      forall c | 0 <= c < |cands| && Active(s.phase[c]) ensures i !in cands[c].rows {
        assert c in Winners(s);
        var x :| 0 <= x < |order| && order[x] == c;
      }
      assert !Touched(cands, s, i);
    }
  }

  /** Main theorem of a pass.  Whatever the interleaving, the final matrix is that of carrying out
      the merges that were done one after another, in any order. */
  lemma ScheduleIndependent(cands: seq<Candidate>, e0: Elim, schedule: seq<nat>, order: seq<nat>)
    requires PassOk(cands, e0) && ScheduleOk(cands, schedule)
    requires var s := Execute(cands, e0, Begin(cands, e0), schedule); Settled(s) && ListsWinners(s, order)
    ensures OrderOk(cands, order) && RunnableAll(e0, OrderOps(cands, e0, order))
    ensures Execute(cands, e0, Begin(cands, e0), schedule).e == Run(e0, OrderOps(cands, e0, order))
  {
    var s := Execute(cands, e0, Begin(cands, e0), schedule);
    WinnersInOrder(cands, e0, s, order);
    InOrder(cands, e0, order);
    PatchedUnique(cands, e0, order, s.e, Run(e0, OrderOps(cands, e0, order)));
  }

  // ----- The history written by a pass -----

  /** The lines that the pass writes when its buffers are flushed in the given order. */
  ghost function OrderLines(cands: seq<Candidate>, e0: Elim, order: seq<nat>): (lines: seq<seq<int>>)
    requires PassOk(cands, e0) && ScheduleOk(cands, order)
    ensures LinesOk(lines)
  {
    if order == [] then []
    else
      var c := cands[order[|order| - 1]];
      OrderLines(cands, e0, order[..|order| - 1]) + MergeLines(c.rows, c.tree)
  }

  lemma {:induction false} OrderLinesOps(cands: seq<Candidate>, e0: Elim, order: seq<nat>)
    requires PassOk(cands, e0) && ScheduleOk(cands, order)
    ensures LinesOps(OrderLines(cands, e0, order)) == OrderOps(cands, e0, order)
    decreases |order|
  {
    if order != [] {
      var front, c := order[..|order| - 1], cands[order[|order| - 1]];
      OrderLinesOps(cands, e0, front);
      MergeLinesOps(c.rows, c.tree);
      LinesOpsAppend(OrderLines(cands, e0, front), MergeLines(c.rows, c.tree));
    }
  }

  /** Executing the written lines, in whatever order the thread buffers are flushed, reproduces
      the matrix that the threads produced together. */
  lemma HistoryReproducesPass(cands: seq<Candidate>, e0: Elim, schedule: seq<nat>, order: seq<nat>)
    requires PassOk(cands, e0) && ScheduleOk(cands, schedule)
    requires var s := Execute(cands, e0, Begin(cands, e0), schedule); Settled(s) && ListsWinners(s, order)
    ensures ScheduleOk(cands, order)
    ensures RunnableAll(e0, LinesOps(OrderLines(cands, e0, order)))
    ensures Execute(cands, e0, Begin(cands, e0), schedule).e == Run(e0, LinesOps(OrderLines(cands, e0, order)))
  {
    ScheduleIndependent(cands, e0, schedule, order);
    OrderLinesOps(cands, e0, order);
  }

  // ----- Progress -----

  /** What `apply_merges` leaves behind: if every candidate was discarded, the first is merged. */
  ghost function Outcome(cands: seq<Candidate>, e0: Elim, s: Pass): (Elim, nat)
    requires PassOk(cands, e0) && Inv(cands, e0, s)
    requires cands != [] && Winners(s) == {} ==> RunnableAll(s.e, Ops(cands[0]))
  {
    if cands != [] && Winners(s) == {} then (Run(s.e, Ops(cands[0])), 1) else (s.e, |Winners(s)|)
  }

  lemma {:induction false} ListSet(s: set<nat>) returns (order: seq<nat>)
    ensures |order| == |s| && (forall x, y :: 0 <= x < y < |order| ==> order[x] != order[y])
    ensures forall c :: c in order <==> c in s
  {
    if s == {} {
      order := [];
    } else {
      var c :| c in s;
      var rest := ListSet(s - {c});
      order := rest + [c];
    }
  }

  /** At least one merge is done when there are candidates, each merge done removes one row, and
      the merges that were done are lossless. */
  lemma PassProgress(cands: seq<Candidate>, e0: Elim, s: Pass)
    requires PassOk(cands, e0) && Inv(cands, e0, s) && Settled(s)
    ensures cands != [] && Winners(s) == {} ==> s.e == e0 && RunnableAll(e0, Ops(cands[0])) && LosslessAll(e0, Ops(cands[0]))
    ensures cands != [] ==> Outcome(cands, e0, s).1 >= 1
    ensures |Outcome(cands, e0, s).0.live| == |e0.live| - Outcome(cands, e0, s).1
  {
    var order := ListSet(Winners(s));
    WinnersInOrder(cands, e0, s, order);
    InOrder(cands, e0, order);
    PatchedUnique(cands, e0, order, s.e, Run(e0, OrderOps(cands, e0, order)));
    if cands != [] && Winners(s) == {} {
      assert order == [];
      OpsOfMerge(e0, cands[0]);
      MergeDropsOne(e0, cands[0]);
    }
  }

  // ----- Why candidates are discarded -----

  ghost predicate Reserved(cands: seq<Candidate>, s: Pass, i: nat)
    requires |s.phase| == |cands|
  {
    exists d :: 0 <= d < |cands| && i in Claim(cands[d], s.phase[d])
  }

  /** Another candidate has reserved a row of candidate c. */
  ghost predicate Refused(cands: seq<Candidate>, s: Pass, c: nat)
    requires |s.phase| == |cands| && c < |cands|
  {
    exists d, i :: 0 <= d < |cands| && d != c && i in cands[c].rows && i in Claim(cands[d], s.phase[d])
  }

  /** A row is flagged only because a candidate has reserved it, and a candidate is discarded only because
      another one has reserved one of its rows. */
  ghost predicate Justified(cands: seq<Candidate>, s: Pass) {
    && |s.phase| == |cands| && (forall i :: i in s.busy ==> Reserved(cands, s, i))
    && (forall c :: 0 <= c < |cands| && s.phase[c].Discarded? ==> Refused(cands, s, c))
  }

  /** A step of candidate c that takes nothing back. */
  lemma ClaimsGrow(cands: seq<Candidate>, s: Pass, t: Pass, c: nat)
    requires |s.phase| == |cands| == |t.phase| && c < |cands| && t.phase == s.phase[c := t.phase[c]]
    requires Claim(cands[c], s.phase[c]) <= Claim(cands[c], t.phase[c])
    ensures forall i :: Reserved(cands, s, i) ==> Reserved(cands, t, i)
    ensures forall d :: 0 <= d < |cands| && Refused(cands, s, d) ==> Refused(cands, t, d)
  {
    forall i | Reserved(cands, s, i) ensures Reserved(cands, t, i) {
      var d :| 0 <= d < |cands| && i in Claim(cands[d], s.phase[d]);
      assert i in Claim(cands[d], t.phase[d]);
    }
    forall x | 0 <= x < |cands| && Refused(cands, s, x) ensures Refused(cands, t, x) {
      var d, i :| 0 <= d < |cands| && d != x && i in cands[x].rows && i in Claim(cands[d], s.phase[d]);
      assert i in Claim(cands[d], t.phase[d]);
    }
  }

  /** A candidate that finds a row flagged has not flagged it itself. */
  lemma FlaggedByOther(cands: seq<Candidate>, s: Pass, c: nat, k: nat)
    requires Justified(cands, s) && c < |cands| && k < |cands[c].rows| && cands[c].rows[k] in s.busy && Distinct(cands[c].rows)
    requires s.phase[c].Looking? || s.phase[c] == Reserving(k)
    ensures Refused(cands, s, c)
  {
    var i := cands[c].rows[k];
    assert Reserved(cands, s, i);
    var d :| 0 <= d < |cands| && i in Claim(cands[d], s.phase[d]);
    assert i !in cands[c].rows[..k];
    assert d != c && i in cands[c].rows;
  }

  /** A candidate reserves one more row. */
  lemma ReserveJustified(cands: seq<Candidate>, e0: Elim, s: Pass, c: nat)
    requires PassOk(cands, e0) && Inv(cands, e0, s) && Justified(cands, s) && c < |cands|
    requires s.phase[c].Reserving? && s.phase[c].k < |cands[c].rows| && cands[c].rows[s.phase[c].k] !in s.busy
    requires RunnableAll(s.e, NextOp(cands, e0, s, c))
    ensures Justified(cands, Step(cands, e0, s, c))
  {
    var t, k := Step(cands, e0, s, c), s.phase[c].k;
    assert cands[c].rows[..k + 1] == cands[c].rows[..k] + [cands[c].rows[k]];
    assert Claim(cands[c], t.phase[c]) == Claim(cands[c], s.phase[c]) + {cands[c].rows[k]};
    ClaimsGrow(cands, s, t, c);
  }

  lemma DiscardJustified(cands: seq<Candidate>, s: Pass, c: nat, k: nat, p: Phase)
    requires Justified(cands, s) && c < |cands| && k < |cands[c].rows| && cands[c].rows[k] in s.busy && Distinct(cands[c].rows)
    requires s.phase[c].Looking? || s.phase[c] == Reserving(k)
    requires p == if s.phase[c].Looking? then Discarded(0) else Discarded(k)
    ensures Justified(cands, s.(phase := s.phase[c := p]))
  {
    FlaggedByOther(cands, s, c, k);
    ClaimsGrow(cands, s, s.(phase := s.phase[c := p]), c);
  }

  lemma OtherJustified(cands: seq<Candidate>, e0: Elim, s: Pass, c: nat)
    requires PassOk(cands, e0) && Inv(cands, e0, s) && Justified(cands, s) && c < |cands|
    requires RunnableAll(s.e, NextOp(cands, e0, s, c)) && !Step(cands, e0, s, c).phase[c].Discarded?
    requires Step(cands, e0, s, c).busy == s.busy
    ensures Justified(cands, Step(cands, e0, s, c))
  {
    var rows := cands[c].rows;
    assert rows[..|rows|] == rows;
    ClaimsGrow(cands, s, Step(cands, e0, s, c), c);
  }

  lemma StepJustified(cands: seq<Candidate>, e0: Elim, s: Pass, c: nat)
    requires PassOk(cands, e0) && Inv(cands, e0, s) && Justified(cands, s) && c < |cands|
    requires RunnableAll(s.e, NextOp(cands, e0, s, c))
    ensures Justified(cands, Step(cands, e0, s, c))
  {
    assert CandidateOk(e0, cands[c]);
    var t := Step(cands, e0, s, c);
    if s.phase[c].Discarded? {
      assert t == s;
    } else if t.phase[c].Discarded? {
      DiscardJustified(cands, s, c, s.phase[c].k, t.phase[c]);
    } else if t.busy == s.busy {
      OtherJustified(cands, e0, s, c);
    } else {
      ReserveJustified(cands, e0, s, c);
    }
  }

  lemma {:induction false} ExecuteJustified(cands: seq<Candidate>, e0: Elim, s: Pass, schedule: seq<nat>)
    requires PassOk(cands, e0) && Inv(cands, e0, s) && Justified(cands, s) && ScheduleOk(cands, schedule)
    ensures Justified(cands, Execute(cands, e0, s, schedule))
    decreases |schedule|
  {
    if schedule != [] {
      StepLossless(cands, e0, s, schedule[0]);
      StepInv(cands, e0, s, schedule[0]);
      StepJustified(cands, e0, s, schedule[0]);
      ExecuteJustified(cands, e0, Step(cands, e0, s, schedule[0]), schedule[1..]);
    }
  }

  ghost predicate Unopposed(cands: seq<Candidate>, c: nat)
    requires c < |cands|
  {
    forall d :: 0 <= d < |cands| && d != c ==> RowSet(cands[d]) !! RowSet(cands[c])
  }

  lemma RefusedShares(cands: seq<Candidate>, s: Pass, c: nat)
    requires |s.phase| == |cands| && c < |cands| && Refused(cands, s, c)
    ensures !Unopposed(cands, c)
  {
    var d, i :| 0 <= d < |cands| && d != c && i in cands[c].rows && i in Claim(cands[d], s.phase[d]);
    assert i in RowSet(cands[d]) && i in RowSet(cands[c]);
  }

  /** A candidate that shares no row with another is merged, under every schedule. */
  lemma UnopposedIsMerged(cands: seq<Candidate>, e0: Elim, schedule: seq<nat>, c: nat)
    requires PassOk(cands, e0) && ScheduleOk(cands, schedule) && c < |cands| && Unopposed(cands, c)
    requires Settled(Execute(cands, e0, Begin(cands, e0), schedule))
    ensures Execute(cands, e0, Begin(cands, e0), schedule).phase[c].Finished?
  {
    ExecuteJustified(cands, e0, Begin(cands, e0), schedule);
    var s := Execute(cands, e0, Begin(cands, e0), schedule);
    if s.phase[c].Discarded? {
      RefusedShares(cands, s, c);
    }
  }

  /** If no two candidates share a row, all are merged. */
  lemma DisjointAllMerged(cands: seq<Candidate>, e0: Elim, schedule: seq<nat>)
    requires PassOk(cands, e0) && ScheduleOk(cands, schedule) && forall c :: 0 <= c < |cands| ==> Unopposed(cands, c)
    requires Settled(Execute(cands, e0, Begin(cands, e0), schedule))
    ensures var s := Execute(cands, e0, Begin(cands, e0), schedule);
            && Winners(s) == Indices(|cands|) && (cands != [] ==> Winners(s) != {})
            && Outcome(cands, e0, s) == (s.e, |cands|)
  {
    var s := Execute(cands, e0, Begin(cands, e0), schedule);
    forall c | 0 <= c < |cands| ensures s.phase[c].Finished? {
      UnopposedIsMerged(cands, e0, schedule, c);
    }
    assert Winners(s) == Indices(|cands|);
    if cands != [] {
      assert 0 in Winners(s);
    }
  }
}
