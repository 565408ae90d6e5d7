/** Structured Gaussian elimination as a sequence of elementary row operations.  `merge` and
    `replay` both reduce to this machine: a merge adds rows to one another and then drops a row
    that has become the only holder of some column. */
module Elimination {
  import opened Collections
  import opened XorSets

  /** `rows[i]` is the column set of row i and `rels[i]` the original relations it combines. */
  datatype Elim = Elim(live: set<nat>, rows: seq<set<nat>>, rels: seq<set<nat>>)

  datatype Op = Add(dst: nat, src: nat) | Drop(row: nat)

  predicate WellFormed(e: Elim) {
    && |e.rows| == |e.rels|
    && (forall i :: i in e.live ==> i < |e.rows|)
  }

  /** Column `j` occurs in row `i` and in no other live row. */
  ghost predicate Private(e: Elim, i: nat, j: nat)
    requires WellFormed(e)
  {
    && i in e.live && j in e.rows[i]
    && forall k :: k in e.live && k != i ==> j !in e.rows[k]
  }

  predicate Runnable(e: Elim, op: Op)
    requires WellFormed(e)
  {
    match op
    case Add(dst, src) => dst in e.live && src in e.live && dst != src
    case Drop(row) => row in e.live
  }

  /** What `merge` guarantees of each operation on top of `Runnable`. */
  ghost predicate Lossless(e: Elim, op: Op)
    requires WellFormed(e)
  {
    op.Drop? ==> exists j :: Private(e, op.row, j)
  }

  function Apply(e: Elim, op: Op): (r: Elim)
    requires WellFormed(e) && Runnable(e, op)
    ensures WellFormed(r) && |r.rows| == |e.rows|
  {
    match op
    case Add(dst, src) =>
      Elim(e.live,
           e.rows[dst := SymDiff(e.rows[dst], e.rows[src])],
           e.rels[dst := SymDiff(e.rels[dst], e.rels[src])])
    case Drop(row) => Elim(e.live - {row}, e.rows[row := {}], e.rels[row := {}])
  }

  predicate RunnableAll(e: Elim, ops: seq<Op>)
    requires WellFormed(e)
    decreases |ops|
  {
    ops == [] || (Runnable(e, ops[0]) && RunnableAll(Apply(e, ops[0]), ops[1..]))
  }

  function Run(e: Elim, ops: seq<Op>): (r: Elim)
    requires WellFormed(e) && RunnableAll(e, ops)
    ensures WellFormed(r) && |r.rows| == |e.rows|
    decreases |ops|
  {
    if ops == [] then e else Run(Apply(e, ops[0]), ops[1..])
  }

  ghost predicate LosslessAll(e: Elim, ops: seq<Op>)
    requires WellFormed(e) && RunnableAll(e, ops)
    decreases |ops|
  {
    ops == [] || (Lossless(e, ops[0]) && LosslessAll(Apply(e, ops[0]), ops[1..]))
  }

  /** Every relation starts as its own row. */
  ghost function Start(original: seq<set<nat>>): (e: Elim)
    ensures WellFormed(e)
  {
    Elim(Indices(|original|), original, seq(|original|, i requires 0 <= i => {i}))
  }

  ghost predicate InKernel(vectors: seq<set<nat>>, pick: set<nat>) {
    pick <= Indices(|vectors|) && XorSum(vectors, pick) == {}
  }

  /** Each live row is the sum of the original rows in its relation-set; dead rows are cleared. */
  ghost predicate Tracks(original: seq<set<nat>>, e: Elim) {
    && WellFormed(e) && |e.rows| == |original|
    && (forall i :: i in e.live ==> e.rels[i] <= Indices(|original|) && e.rows[i] == XorSum(original, e.rels[i]))
    && (forall i :: 0 <= i < |e.rows| && i !in e.live ==> e.rows[i] == {} && e.rels[i] == {})
  }

  /** No non-empty set of live rows has relation-sets that cancel. */
  ghost predicate Independent(e: Elim) {
    forall pick: set<nat> :: pick <= e.live && XorSum(e.rels, pick) == {} ==> pick == {}
  }

  /** Every dependency between original relations is still expressible by live rows. */
  ghost predicate Complete(original: seq<set<nat>>, e: Elim) {
    forall k: set<nat> :: InKernel(original, k) ==> Expressible(e, k)
  }

  /** The live rows in `pick` sum to zero and combine exactly the relations in `k`. */
  ghost predicate Represents(e: Elim, pick: set<nat>, k: set<nat>) {
    pick <= e.live && XorSum(e.rels, pick) == k && XorSum(e.rows, pick) == {}
  }

  ghost predicate Expressible(e: Elim, k: set<nat>) {
    exists pick: set<nat> :: pick <= e.live && XorSum(e.rels, pick) == k
  }

  lemma StartInvariant(original: seq<set<nat>>)
    ensures Tracks(original, Start(original)) && Independent(Start(original)) && Complete(original, Start(original))
  {
    var e := Start(original);
    forall i | i in e.live ensures e.rows[i] == XorSum(original, e.rels[i]) {
      XorSumSingle(original, i);
    }
    forall pick: set<nat> | pick <= e.live ensures XorSum(e.rels, pick) == pick {
      IdentitySum(e.rels, pick);
    }
  }

  lemma IdentitySum(f: seq<set<nat>>, pick: set<nat>)
    requires forall i :: 0 <= i < |f| ==> f[i] == {i}
    requires pick <= Indices(|f|)
    ensures XorSum(f, pick) == pick
  {
    forall x: nat ensures x in XorSum(f, pick) <==> x in pick {
      XorSumMember(f, pick, x);
      assert Holders(f, pick, x) == if x in pick then {x} else {};
    }
  }

  lemma TracksStep(original: seq<set<nat>>, e: Elim, op: Op)
    requires Tracks(original, e) && Runnable(e, op)
    ensures Tracks(original, Apply(e, op))
  {
    if op.Add? {
      XorSumLinear(original, e.rels[op.dst], e.rels[op.src]);
    }
  }

  /** The choice of old rows that equals a choice of new rows after `Add(dst, src)`. */
  ghost function Pull(op: Op, pick: set<nat>): set<nat>
    requires op.Add?
  {
    if op.dst in pick then SymDiff(pick, {op.src}) else pick
  }

  lemma IndependentStep(original: seq<set<nat>>, e: Elim, op: Op)
    requires Tracks(original, e) && Runnable(e, op) && Independent(e)
    ensures Independent(Apply(e, op))
  {
    var r := Apply(e, op);
    forall pick: set<nat> | pick <= r.live && XorSum(r.rels, pick) == {} ensures pick == {} {
      match op
      case Add(dst, src) =>
        XorSumAddRow(e.rels, dst, src, pick);
        var before := Pull(op, pick);
        assert dst in pick ==> dst in before;
      case Drop(row) =>
        XorSumFrame(e.rels, r.rels, pick);
    }
  }

  /** A kernel vector never uses a row with a private column, so dropping it loses nothing. */
  lemma PrivateRowUnused(e: Elim, i: nat, j: nat, pick: set<nat>)
    requires WellFormed(e) && Private(e, i, j)
    requires pick <= e.live && XorSum(e.rows, pick) == {}
    ensures i !in pick
  {
    if i in pick {
      assert Holders(e.rows, pick, j) == {i};
      XorSumMember(e.rows, pick, j);
    }
  }

  lemma CompleteStep(original: seq<set<nat>>, e: Elim, op: Op)
    requires Tracks(original, e) && Runnable(e, op) && Lossless(e, op) && Complete(original, e)
    ensures Complete(original, Apply(e, op))
  {
    var r := Apply(e, op);
    forall k: set<nat> | InKernel(original, k) ensures Expressible(r, k) {
      assert Expressible(e, k);
      var pick: set<nat> :| pick <= e.live && XorSum(e.rels, pick) == k;
      match op
      case Add(dst, src) =>
        var pushed := Pull(op, pick);
        assert Pull(op, pushed) == pick;
        XorSumAddRow(e.rels, dst, src, pushed);
        assert pushed <= r.live && XorSum(r.rels, pushed) == k;
      case Drop(row) =>
        var j :| Private(e, row, j);
        XorSumCompose(original, e.rows, e.rels, pick);
        PrivateRowUnused(e, row, j, pick);
        XorSumFrame(e.rels, r.rels, pick);
        assert pick <= r.live && XorSum(r.rels, pick) == k;
    }
  }

  lemma {:induction false} TracksRun(original: seq<set<nat>>, e: Elim, ops: seq<Op>)
    requires Tracks(original, e) && Independent(e) && RunnableAll(e, ops)
    ensures Tracks(original, Run(e, ops)) && Independent(Run(e, ops))
    decreases |ops|
  {
    if ops != [] {
      TracksStep(original, e, ops[0]);
      IndependentStep(original, e, ops[0]);
      TracksRun(original, Apply(e, ops[0]), ops[1..]);
    }
  }

  lemma {:induction false} CompleteRun(original: seq<set<nat>>, e: Elim, ops: seq<Op>)
    requires Tracks(original, e) && Complete(original, e) && RunnableAll(e, ops) && LosslessAll(e, ops)
    ensures Complete(original, Run(e, ops))
    decreases |ops|
  {
    if ops != [] {
      TracksStep(original, e, ops[0]);
      CompleteStep(original, e, ops[0]);
      CompleteRun(original, Apply(e, ops[0]), ops[1..]);
    }
  }

  lemma KernelExpressed(original: seq<set<nat>>, e: Elim, k: set<nat>)
    requires Tracks(original, e) && Complete(original, e) && InKernel(original, k)
    ensures exists pick: set<nat> :: Represents(e, pick, k)
  {
    assert Expressible(e, k);
    var pick: set<nat> :| pick <= e.live && XorSum(e.rels, pick) == k;
    XorSumCompose(original, e.rows, e.rels, pick);
    assert Represents(e, pick, k);
  }

  lemma RepresentedInKernel(original: seq<set<nat>>, e: Elim, pick: set<nat>, k: set<nat>)
    requires Tracks(original, e) && Represents(e, pick, k)
    ensures InKernel(original, k)
  {
    XorSumCompose(original, e.rows, e.rels, pick);
    XorSumWithin(e.rels, pick, Indices(|original|));
  }

  lemma RunInvariant(original: seq<set<nat>>, ops: seq<Op>)
    requires RunnableAll(Start(original), ops) && LosslessAll(Start(original), ops)
    ensures var e := Run(Start(original), ops);
            Tracks(original, e) && Independent(e) && Complete(original, e)
  {
    StartInvariant(original);
    TracksRun(original, Start(original), ops);
    CompleteRun(original, Start(original), ops);
  }

  lemma KernelOfState(original: seq<set<nat>>, e: Elim, k: set<nat>)
    requires Tracks(original, e) && Complete(original, e)
    ensures InKernel(original, k) <==> exists pick: set<nat> :: Represents(e, pick, k)
  {
    if InKernel(original, k) {
      KernelExpressed(original, e, k);
    }
    forall pick: set<nat> | Represents(e, pick, k) ensures InKernel(original, k) {
      RepresentedInKernel(original, e, pick, k);
    }
  }

  /** The set `k` of relations is a dependency exactly when it is the sum of the relation-sets of a
      set of live rows that sums to zero, and at most one set of live rows has that sum. */
  ghost predicate KernelAgrees(original: seq<set<nat>>, e: Elim, k: set<nat>) {
    && (InKernel(original, k) <==> exists pick: set<nat> :: Represents(e, pick, k))
    && (forall p: set<nat>, q: set<nat> ::
          p <= e.live && q <= e.live && XorSum(e.rels, p) == k && XorSum(e.rels, q) == k ==> p == q)
  }

  /** Main theorem.  After any run whose dropped rows each had a private column, the left kernel
      is unchanged: a set of original relations sums to zero exactly when it is the sum of the
      relation-sets of a set of live rows that sums to zero, and that set of rows is unique. */
  lemma KernelPreserved(original: seq<set<nat>>, ops: seq<Op>, k: set<nat>)
    requires RunnableAll(Start(original), ops) && LosslessAll(Start(original), ops)
    ensures KernelAgrees(original, Run(Start(original), ops), k)
  {
    RunInvariant(original, ops);
    KernelOfState(original, Run(Start(original), ops), k);
    UniqueChoice(Run(Start(original), ops), k);
  }

  lemma UniqueChoice(e: Elim, k: set<nat>)
    requires WellFormed(e) && Independent(e)
    ensures forall p: set<nat>, q: set<nat> ::
              p <= e.live && q <= e.live && XorSum(e.rels, p) == k && XorSum(e.rels, q) == k ==> p == q
  {
    forall p: set<nat>, q: set<nat> |
      p <= e.live && q <= e.live && XorSum(e.rels, p) == k && XorSum(e.rels, q) == k
      ensures p == q
    {
      XorSumLinear(e.rels, p, q);
      assert SymDiff(p, q) == {};
      assert forall x :: x in p <==> x in q;
    }
  }

  /** A live row always combines at least one relation, whatever rows were dropped. */
  lemma RelationSetsNonEmpty(original: seq<set<nat>>, ops: seq<Op>)
    requires RunnableAll(Start(original), ops)
    ensures var e := Run(Start(original), ops);
            forall i :: 0 <= i < |e.rows| ==> (i in e.live <==> e.rels[i] != {})
  {
    StartInvariant(original);
    TracksRun(original, Start(original), ops);
    LiveNonEmpty(original, Run(Start(original), ops));
  }

  lemma LiveNonEmpty(original: seq<set<nat>>, e: Elim)
    requires Tracks(original, e) && Independent(e)
    ensures forall i :: 0 <= i < |e.rows| ==> (i in e.live <==> e.rels[i] != {})
  {
    forall i | i in e.live ensures e.rels[i] != {} {
      XorSumSingle(e.rels, i);
    }
  }

  lemma {:induction false} RunAppend(e: Elim, a: seq<Op>, b: seq<Op>)
    requires WellFormed(e) && RunnableAll(e, a) && RunnableAll(Run(e, a), b)
    ensures RunnableAll(e, a + b) && Run(e, a + b) == Run(Run(e, a), b)
    decreases |a|
  {
    if a == [] {
      assert a + b == b;
    } else {
      assert (a + b)[1..] == a[1..] + b;
      RunAppend(Apply(e, a[0]), a[1..], b);
    }
  }

  lemma {:induction false} LosslessAppend(e: Elim, a: seq<Op>, b: seq<Op>)
    requires WellFormed(e) && RunnableAll(e, a) && RunnableAll(Run(e, a), b)
    requires LosslessAll(e, a) && LosslessAll(Run(e, a), b)
    ensures RunnableAll(e, a + b) && LosslessAll(e, a + b)
    decreases |a|
  {
    RunAppend(e, a, b);
    if a == [] {
      assert a + b == b;
    } else {
      assert (a + b)[1..] == a[1..] + b;
      LosslessAppend(Apply(e, a[0]), a[1..], b);
    }
  }

  /** Running one operation more. */
  lemma {:induction false} RunPrefix(e: Elim, ops: seq<Op>, k: nat)
    requires WellFormed(e) && RunnableAll(e, ops) && k < |ops|
    ensures RunnableAll(e, ops[..k]) && RunnableAll(e, ops[..k + 1])
    ensures Runnable(Run(e, ops[..k]), ops[k])
    ensures Run(e, ops[..k + 1]) == Apply(Run(e, ops[..k]), ops[k])
    decreases |ops|
  {
    if k == 0 {
      assert ops[..1][1..] == [];
      assert ops[..0] == [];
    } else {
      RunPrefix(Apply(e, ops[0]), ops[1..], k - 1);
      assert ops[..k][1..] == ops[1..][..k - 1];
      assert ops[..k + 1][1..] == ops[1..][..k];
    }
  }

  lemma {:induction false} RunSplit(e: Elim, a: seq<Op>, b: seq<Op>)
    requires WellFormed(e) && RunnableAll(e, a + b)
    ensures RunnableAll(e, a) && RunnableAll(Run(e, a), b) && Run(e, a + b) == Run(Run(e, a), b)
    decreases |a|
  {
    if a == [] {
      assert a + b == b;
    } else {
      assert (a + b)[1..] == a[1..] + b;
      RunSplit(Apply(e, a[0]), a[1..], b);
    }
  }
}
