/** Logarithms computed from relations: a relation with one unknown logarithm left gives that logarithm,
    and passes are made until none gives a new one. */
module LogPropagation {
  import opened Arithmetic
  import opened DependencyGraph
  import opened NeededRelations

  /** Column h occurs with exponent e. */
  datatype Entry = Entry(h: nat, e: int)

  ghost function Sum(s: seq<Entry>, truth: nat -> int): int {
    if s == [] then 0 else Sum(s[..|s| - 1], truth) + truth(s[|s| - 1].h) * s[|s| - 1].e
  }

  /** The entries whose logarithm is not known. */
  function Filter(s: seq<Entry>, known: set<nat>): (r: seq<Entry>)
    ensures |r| <= |s|
    ensures forall k :: 0 <= k < |r| ==> r[k].h !in known
  {
    if s == [] then [] else
      var x := s[|s| - 1];
      Filter(s[..|s| - 1], known) + (if x.h in known then [] else [x])
  }

  lemma {:induction false} FilterTwice(s: seq<Entry>, known: set<nat>, more: set<nat>)
    requires known <= more
    ensures Filter(Filter(s, known), more) == Filter(s, more)
  {
    if s != [] {
      var n := |s| - 1;
      FilterTwice(s[..n], known, more);
      if s[n].h !in known {
        var f := Filter(s[..n], known);
        assert (f + [s[n]])[..|f|] == f;
      } else {
        assert Filter(s, known) == Filter(s[..n], known);
      }
    }
  }

  /** The table agrees with the true logarithms. */
  ghost predicate TableOk(log: map<nat, int>, truth: nat -> int, ell: nat) {
    forall h :: h in log ==> 0 <= log[h] < ell && Congruent(log[h], truth(h), ell)
  }

  /** The known part and the rest of a relation add up to zero. */
  ghost predicate Balanced(part: int, rest: seq<Entry>, truth: nat -> int, ell: nat) {
    Congruent(part + Sum(rest, truth), 0, ell)
  }

  /** Every exponent has an inverse modulo ell. */
  ghost predicate ExponentsOk(s: seq<Entry>, inv: int -> int, ell: nat) {
    forall k :: 0 <= k < |s| ==> Congruent(s[k].e * inv(s[k].e), 1, ell)
  }

  lemma {:induction false} FilterExponents(s: seq<Entry>, known: set<nat>, inv: int -> int, ell: nat)
    requires ExponentsOk(s, inv, ell)
    ensures ExponentsOk(Filter(s, known), inv, ell)
  {
    if s != [] {
      FilterExponents(s[..|s| - 1], known, inv, ell);
    }
  }

  /** The first j entries have been moved to the known part or kept. */
  ghost predicate Adjusting(part: int, s: seq<Entry>, j: nat, kept: seq<Entry>, part': int, known: set<nat>, truth: nat -> int, ell: nat)
    requires j <= |s|
  {
    kept == Filter(s[..j], known) && Congruent(part' + Sum(kept, truth), part + Sum(s[..j], truth), ell)
  }

  lemma AdjustStep(part: int, s: seq<Entry>, j: nat, kept: seq<Entry>, part': int, log: map<nat, int>, truth: nat -> int, ell: nat)
    requires j < |s| && Adjusting(part, s, j, kept, part', log.Keys, truth, ell) && TableOk(log, truth, ell)
    ensures s[j].h in log ==> Adjusting(part, s, j + 1, kept, part' + log[s[j].h] * s[j].e, log.Keys, truth, ell)
    ensures s[j].h !in log ==> Adjusting(part, s, j + 1, kept + [s[j]], part', log.Keys, truth, ell)
  {
    var x, t := s[j], truth(s[j].h) * s[j].e;
    assert s[..j + 1][..j] == s[..j];
    assert Sum(s[..j + 1], truth) == Sum(s[..j], truth) + t;
    if x.h in log {
      CongruentTimes(x.e, log[x.h], truth(x.h), ell);
      assert x.e * log[x.h] == log[x.h] * x.e && x.e * truth(x.h) == t;
      CongruentAdd(part' + Sum(kept, truth), part + Sum(s[..j], truth), log[x.h] * x.e, t, ell);
    } else {
      assert (kept + [x])[..|kept|] == kept;
      CongruentRefl(t, ell);
      CongruentAdd(part' + Sum(kept, truth), part + Sum(s[..j], truth), t, t, ell);
    }
  }

  /** The logarithm that a relation with one unknown forces. */
  lemma Forces(part: int, x: Entry, i: int, v: int, truth: nat -> int, ell: nat)
    requires ell > 0 && Balanced(part, [x], truth, ell) && Congruent(x.e * i, 1, ell) && v == (part * -i) % ell
    ensures 0 <= v < ell && Congruent(v, truth(x.h), ell)
  {
    var t := truth(x.h);
    assert Sum([x], truth) == t * x.e by {
      assert [x][..0] == [];
    }
    CongruentMod(part * -i, ell);
    CongruentSym(part * -i, v, ell);
    CongruentTimes(i, part + t * x.e, 0, ell);
    CongruentTimes(t, x.e * i, 1, ell);
    ForcesAlgebra(part, t, x.e, i, v, ell);
  }

  lemma ForcesAlgebra(part: int, t: int, e: int, i: int, v: int, ell: nat)
    requires Congruent(v, part * -i, ell) && Congruent(i * (part + t * e), i * 0, ell) && Congruent(t * (e * i), t * 1, ell)
    ensures Congruent(v, t, ell)
  {
    var a: int :| v - part * -i == a * ell;
    var b: int :| i * (part + t * e) - i * 0 == b * ell;
    var c: int :| t * (e * i) - t * 1 == c * ell;
    assert part * -i == -(i * part);
    Distribute(i, part, t * e);
    assert i * (t * e) == t * (e * i);
    assert v - t == (a - b + c) * ell by {
      Distribute(ell, a - b, c);
      Distribute(ell, a, b);
    }
  }

  /** Relation i as stored still says what it said as read, given the known logarithms. */
  ghost predicate RowOk(rel: seq<Entry>, row: seq<Entry>, part: int, known: set<nat>, truth: nat -> int, inv: int -> int, ell: nat) {
    0 <= part < ell && Balanced(part, row, truth, ell) && Filter(row, known) == Filter(rel, known) && ExponentsOk(row, inv, ell)
  }

  lemma RowOkGrows(rel: seq<Entry>, row: seq<Entry>, part: int, known: set<nat>, more: set<nat>, truth: nat -> int, inv: int -> int, ell: nat)
    requires RowOk(rel, row, part, known, truth, inv, ell) && known <= more
    ensures RowOk(rel, row, part, more, truth, inv, ell)
  {
    FilterTwice(rel, known, more);
    FilterTwice(row, known, more);
  }

  lemma NoneUnknownGrows(rel: seq<Entry>, known: set<nat>, more: set<nat>)
    requires Filter(rel, known) == [] && known <= more
    ensures Filter(rel, more) == []
  {
    FilterTwice(rel, known, more);
  }

  /** Nothing in the table is lost or changed, and all that is new is of the given columns. */
  ghost predicate Gains(log: map<nat, int>, log': map<nat, int>, cols: set<nat>) {
    && (forall h :: h in log ==> h in log' && log'[h] == log[h])
    && (forall h :: h in log' ==> h in log || h in cols)
  }

  ghost function ColumnSet(rel: seq<Entry>): set<nat> {
    set k | 0 <= k < |rel| :: rel[k].h
  }

  /** The columns of the needed relations. */
  ghost function NeededColumns(rels: seq<seq<Entry>>, needed: seq<bool>): set<nat> {
    set i, h | 0 <= i < |rels| && i < |needed| && needed[i] && h in ColumnSet(rels[i]) :: h
  }

  lemma {:induction false} FilterColumns(s: seq<Entry>, known: set<nat>)
    ensures ColumnSet(Filter(s, known)) <= ColumnSet(s)
  {
    if s != [] {
      var n := |s| - 1;
      FilterColumns(s[..n], known);
      forall k | 0 <= k < n ensures s[..n][k] == s[k] && s[k].h in ColumnSet(s) {
      }
      forall h | h in ColumnSet(Filter(s, known)) ensures h in ColumnSet(s) {
        var f := Filter(s, known);
        var k :| 0 <= k < |f| && f[k].h == h;
        if k < |Filter(s[..n], known)| {
          assert Filter(s[..n], known)[k].h == h;
          assert h in ColumnSet(s[..n]);
        } else {
          assert f[k] == s[n];
        }
      }
    }
  }

  class LogSolver {
    const ell: nat
    /** Inversion modulo ell. */
    const inv: int -> int
    const rels: seq<seq<Entry>>
    var log: map<nat, int>
    var rows: seq<seq<Entry>>
    var part: seq<int>
    ghost const truth: nat -> int

    constructor (ell: nat, inv: int -> int, rels: seq<seq<Entry>>, log: map<nat, int>, ghost truth: nat -> int)
      ensures this.ell == ell && this.inv == inv && this.rels == rels && this.log == log && this.truth == truth
    {
      this.ell, this.inv, this.rels, this.log := ell, inv, rels, log;
      rows, part := [], [];
      this.truth := truth;
    }

    /** Rows still in use are sound; of the other needed ones all logarithms are known. */
    ghost predicate Valid(needed: seq<bool>, unused: seq<bool>)
      reads this
    {
      && ell > 0 && |rows| == |part| == |rels| == |unused| == |needed| && TableOk(log, truth, ell)
      && (forall i {:trigger rows[i]} :: 0 <= i < |rels| && unused[i] ==> RowOk(rels[i], rows[i], part[i], log.Keys, truth, inv, ell))
      && (forall i {:trigger rels[i]} :: 0 <= i < |rels| && needed[i] && !unused[i] ==> Filter(rels[i], log.Keys) == [])
      && (forall i {:trigger needed[i]} :: 0 <= i < |rels| && unused[i] ==> needed[i])
    }

    /** Splits the entries s of a relation with known part p. */
    method SplitKnown(s: seq<Entry>, p: int) returns (q: seq<Entry>, L: int)
      requires TableOk(log, truth, ell)
      ensures q == Filter(s, log.Keys) && Congruent(L + Sum(q, truth), p + Sum(s, truth), ell) && (|q| == |s| ==> L == p)
    {
      L, q := p, [];
      CongruentRefl(p, ell);
      for j := 0 to |s|
        invariant Adjusting(p, s, j, q, L, log.Keys, truth, ell)
        invariant |q| <= j && (|q| == j ==> L == p)
      {
        AdjustStep(p, s, j, q, L, log, truth, ell);
        var x := s[j];
        if x.h in log {
          L := L + log[x.h] * x.e;
        } else {
          q := q + [x];
        }
      }
      assert s[..|s|] == s;
    }

    /** Moves the entries of relation i that are known by now to its known part. */
    method AdjustNumberOfUnknowns(ghost needed: seq<bool>, ghost unused: seq<bool>, i: nat)
      requires Valid(needed, unused) && i < |rels| && unused[i]
      modifies this`rows, this`part
      ensures Valid(needed, unused) && rows[i] == Filter(rels[i], log.Keys)
    {
      var q, L := SplitKnown(rows[i], part[i]);
      Adjusted(part[i], rows[i], q, L, i);
      if |q| != |rows[i]| {
        L := L % ell;
      }
      rows, part := rows[i := q], part[i := L];
    }

    lemma Adjusted(p: int, s: seq<Entry>, q: seq<Entry>, L: int, i: nat)
      requires i < |rels| && ell > 0 && RowOk(rels[i], s, p, log.Keys, truth, inv, ell)
      requires q == Filter(s, log.Keys) && Congruent(L + Sum(q, truth), p + Sum(s, truth), ell)
      ensures q == Filter(rels[i], log.Keys)
      ensures 0 <= L < ell ==> RowOk(rels[i], q, L, log.Keys, truth, inv, ell)
      ensures RowOk(rels[i], q, L % ell, log.Keys, truth, inv, ell)
    {
      FilterTwice(s, log.Keys, log.Keys);
      FilterExponents(s, log.Keys, inv, ell);
      CongruentTrans(L + Sum(q, truth), p + Sum(s, truth), 0, ell);
      CongruentMod(L, ell);
      CongruentSym(L, L % ell, ell);
      CongruentRefl(Sum(q, truth), ell);
      CongruentAdd(L % ell, L, Sum(q, truth), Sum(q, truth), ell);
      CongruentTrans(L % ell + Sum(q, truth), L + Sum(q, truth), 0, ell);
    }

    /** Adding a correct logarithm keeps everything sound. */
    lemma LearnKeeps(needed: seq<bool>, unused: seq<bool>, i: nat, h: nat, v: int)
      requires Valid(needed, unused) && i < |rels| && 0 <= v < ell && Congruent(v, truth(h), ell) && Filter(rels[i], log.Keys + {h}) == []
      ensures var log' := log[h := v];
              && TableOk(log', truth, ell)
              && (forall k {:trigger rows[k]} :: 0 <= k < |rels| && unused[k] ==> RowOk(rels[k], rows[k], part[k], log'.Keys, truth, inv, ell))
              && (forall k {:trigger rels[k]} :: 0 <= k < |rels| && needed[k] && !unused[i := false][k] ==> Filter(rels[k], log'.Keys) == [])
    {
      var log' := log[h := v];
      assert log'.Keys == log.Keys + {h};
      forall k | 0 <= k < |rels| && unused[k] ensures RowOk(rels[k], rows[k], part[k], log'.Keys, truth, inv, ell) {
        RowOkGrows(rels[k], rows[k], part[k], log.Keys, log'.Keys, truth, inv, ell);
      }
      forall k | 0 <= k < |rels| && needed[k] && !unused[i := false][k] ensures Filter(rels[k], log'.Keys) == [] {
        if k != i {
          NoneUnknownGrows(rels[k], log.Keys, log'.Keys);
        }
      }
    }

    lemma OneLeft(needed: seq<bool>, unused: seq<bool>, i: nat)
      requires Valid(needed, unused) && i < |rels| && unused[i] && rows[i] == Filter(rels[i], log.Keys) && |rows[i]| == 1
      ensures var x := rows[i][0];
              && Filter(rels[i], log.Keys + {x.h}) == [] && x.h !in log
              && Congruent((part[i] * -inv(x.e)) % ell, truth(x.h), ell) && 0 <= (part[i] * -inv(x.e)) % ell < ell
    {
      var x := rows[i][0];
      assert rows[i] == [x];
      Forces(part[i], x, inv(x.e), (part[i] * -inv(x.e)) % ell, truth, ell);
      FilterTwice(rels[i], log.Keys, log.Keys + {x.h});
      assert [x][..0] == [];
    }

    lemma NoneLeftIsZero(needed: seq<bool>, unused: seq<bool>, i: nat)
      requires Valid(needed, unused) && i < |rels| && unused[i] && rows[i] == []
      ensures part[i] == 0
      ensures rows[i] == Filter(rels[i], log.Keys) ==> Valid(needed, unused[i := false])
    {
      CongruentReduced(part[i], 0, ell);
    }

    /** Uses relation i if it has at most one unknown left; `failed` stands for the error that the
        relation has no unknown and does not add up to zero, which does not happen. */
    method UseRelation(ghost needed: seq<bool>, unused: seq<bool>, i: nat) returns (unused': seq<bool>, computed: bool, failed: bool)
      requires Valid(needed, unused) && i < |rels| && unused[i]
      modifies this`log, this`rows, this`part
      ensures Valid(needed, unused') && !failed && Gains(old(log), log, NeededColumns(rels, needed))
      ensures forall k :: 0 <= k < |rels| && k != i ==> unused'[k] == unused[k]
      ensures computed ==> !unused'[i]
      ensures !computed ==> log == old(log) && |Filter(rels[i], log.Keys)| != 1
    {
      unused', computed, failed := unused, false, false;
      AdjustNumberOfUnknowns(needed, unused, i);
      if |rows[i]| <= 1 {
        unused' := unused[i := false];
        computed, failed := UseAdjusted(needed, unused, i);
      }
    }

    /** The same for a relation whose known entries have been moved to its known part. */
    method UseAdjusted(ghost needed: seq<bool>, ghost unused: seq<bool>, i: nat) returns (computed: bool, failed: bool)
      requires Valid(needed, unused) && i < |rels| && unused[i] && rows[i] == Filter(rels[i], log.Keys) && |rows[i]| <= 1
      modifies this`log, this`rows
      ensures Valid(needed, unused[i := false]) && !failed && Gains(old(log), log, NeededColumns(rels, needed))
      ensures computed == (|old(rows[i])| == 1) && (!computed ==> log == old(log))
    {
      computed, failed := |rows[i]| == 1, false;
      if computed {
        Learn(needed, unused, i);
      } else {
        NoneLeftIsZero(needed, unused, i);
        failed := part[i] != 0;
      }
    }

    /** Computes the one logarithm that relation i leaves unknown. */
    method Learn(ghost needed: seq<bool>, ghost unused: seq<bool>, i: nat)
      requires Valid(needed, unused) && i < |rels| && unused[i] && rows[i] == Filter(rels[i], log.Keys) && |rows[i]| == 1
      modifies this`log, this`rows
      ensures Valid(needed, unused[i := false]) && Gains(old(log), log, NeededColumns(rels, needed))
    {
      OneLeft(needed, unused, i);
      var x := rows[i][0];
      FilterColumns(rels[i], log.Keys);
      assert needed[i] && x.h in ColumnSet(rows[i]);
      var v := (part[i] * -inv(x.e)) % ell;
      LearnKeeps(needed, unused, i, x.h, v);
      log := log[x.h := v];
      rows := rows[i := []];
    }

    /** One pass. */
    method Chunk(ghost needed: seq<bool>, unused: seq<bool>) returns (unused': seq<bool>, computed: nat)
      requires Valid(needed, unused)
      modifies this`log, this`rows, this`part
      ensures Valid(needed, unused') && Gains(old(log), log, NeededColumns(rels, needed))
      ensures computed > 0 ==> InUse(unused') < InUse(unused)
      ensures computed == 0 ==> log == old(log) && forall i :: 0 <= i < |rels| && needed[i] ==> |Filter(rels[i], log.Keys)| != 1
    {
      unused', computed := unused, 0;
      for i := 0 to |rels|
        invariant Valid(needed, unused') && Gains(old(log), log, NeededColumns(rels, needed))
        invariant InUse(unused') <= InUse(unused) && (computed > 0 ==> InUse(unused') < InUse(unused))
        invariant computed == 0 ==> log == old(log) && forall k :: 0 <= k < i && needed[k] ==> |Filter(rels[k], log.Keys)| != 1
      {
        if unused'[i] {
          ghost var before := unused';
          var more, failed;
          unused', more, failed := UseRelation(needed, unused', i);
          FewerInUse(before, unused', i);
          if more {
            computed := computed + 1;
          }
        }
      }
    }

    /** Passes over the needed relations until no new logarithm is found.  Whatever the true logarithms
        are, the table then agrees with them, and no needed relation has exactly one unknown left. */
    method ComputeLogs(needed: seq<bool>)
      requires Valid(needed, needed)
      modifies this`log, this`rows, this`part
      ensures TableOk(log, truth, ell) && Gains(old(log), log, NeededColumns(rels, needed))
      ensures |rels| == |needed| && forall i :: 0 <= i < |rels| && needed[i] ==> |Filter(rels[i], log.Keys)| != 1
    {
      var unused := needed;
      while true
        invariant Valid(needed, unused) && Gains(old(log), log, NeededColumns(rels, needed))
        decreases InUse(unused)
      {
        var computed: nat;
        unused, computed := Chunk(needed, unused);
        if computed == 0 {
          break;
        }
      }
    }

    /** Reads the needed relations; `sm[i]` is the contribution of the Schirokauer maps. */
    method Load(needed: seq<bool>, sm: seq<int>)
      requires ell > 0 && |needed| == |sm| == |rels| && TableOk(log, truth, ell)
      requires forall i :: 0 <= i < |rels| && needed[i] ==> ExponentsOk(rels[i], inv, ell) && Congruent(sm[i] + Sum(rels[i], truth), 0, ell)
      modifies this`rows, this`part
      ensures Valid(needed, needed)
    {
      rows, part := rels, seq(|rels|, i requires 0 <= i < |rels| => sm[i] % ell);
      forall i | 0 <= i < |rels| && needed[i] ensures RowOk(rels[i], rows[i], part[i], log.Keys, truth, inv, ell) {
        CongruentMod(sm[i], ell);
        CongruentSym(sm[i], sm[i] % ell, ell);
        CongruentRefl(Sum(rels[i], truth), ell);
        CongruentAdd(sm[i] % ell, sm[i], Sum(rels[i], truth), Sum(rels[i], truth), ell);
        CongruentTrans(sm[i] % ell + Sum(rels[i], truth), sm[i] + Sum(rels[i], truth), 0, ell);
      }
      for i := 0 to |rels|
        invariant Valid(needed, needed)
      {
        if needed[i] {
          AdjustNumberOfUnknowns(needed, needed, i);
        }
      }
    }
  }

  // ----- Every wanted logarithm is found -----

  function Columns(s: seq<Entry>): (c: seq<nat>)
    ensures |c| == |s|
  {
    seq(|s|, k requires 0 <= k < |s| => s[k].h)
  }

  lemma {:induction false} SingleFilter(s: seq<Entry>, known: set<nat>, p: nat)
    requires p < |s| && s[p].h !in known && forall k :: 0 <= k < |s| && k != p ==> s[k].h in known
    ensures Filter(s, known) == [s[p]]
  {
    var n := |s| - 1;
    if p < n {
      SingleFilter(s[..n], known, p);
    } else {
      EmptyFilter(s[..n], known);
    }
  }

  lemma {:induction false} EmptyFilter(s: seq<Entry>, known: set<nat>)
    requires forall k :: 0 <= k < |s| ==> s[k].h in known
    ensures Filter(s, known) == []
  {
    if s != [] {
      EmptyFilter(s[..|s| - 1], known);
    }
  }

  /** The rows of the dependency graph are the columns of the relations that were unknown at first. */
  ghost predicate SameRows(rows: seq<seq<nat>>, rels: seq<seq<Entry>>, known: set<nat>) {
    |rows| == |rels| && forall i :: 0 <= i < |rels| ==> rows[i] == Columns(Filter(rels[i], known))
  }

  /** If no needed relation has exactly one unknown left, every column reconstructed from a needed
      relation is known. */
  lemma {:induction false} NeededAreKnown(rows: seq<seq<nat>>, g: seq<Node>, rank: seq<nat>, clock: nat, needed: set<nat>,
                       rels: seq<seq<Entry>>, known0: set<nat>, known: set<nat>, h: nat)
    requires Acyclic(rows, g, rank, clock) && Closed(rows, g, needed) && SameRows(rows, rels, known0) && known0 <= known
    requires forall i :: i in needed && i < |rels| ==> |Filter(rels[i], known)| != 1
    requires h < |g| && g[h].Reconstructed? && g[h].row in needed
    ensures h in known
    decreases rank[h]
  {
    assert Founded(rows, g, rank, h);
    var i := g[h].row;
    var s := Filter(rels[i], known0);
    assert rows[i] == Columns(s);
    assert DepsIn(rows, g, i, needed);
    forall k | 0 <= k < |s| && s[k].h != h ensures s[k].h in known {
      assert rows[i][k] == s[k].h;
      NeededAreKnown(rows, g, rank, clock, needed, rels, known0, known, s[k].h);
    }
    if h !in known {
      var p :| 0 <= p < |rows[i]| && rows[i][p] == h;
      forall k | 0 <= k < |s| && k != p ensures s[k].h in known {
        assert rows[i][k] == s[k].h;
        assert s[k].h != h;
      }
      FilterTwice(rels[i], known0, known);
      SingleFilter(s, known, p);
    }
  }

  lemma {:induction false} FilterWithin(s: seq<Entry>, known: set<nat>, n: nat)
    requires forall k :: 0 <= k < |s| ==> s[k].h < n
    ensures forall k :: 0 <= k < |Filter(s, known)| ==> Filter(s, known)[k].h < n
  {
    if s != [] {
      FilterWithin(s[..|s| - 1], known, n);
    }
  }

  /** The relations as the dependency graph sees them. */
  function GraphRows(rels: seq<seq<Entry>>, known: set<nat>): (rows: seq<seq<nat>>)
    ensures SameRows(rows, rels, known)
  {
    seq(|rels|, i requires 0 <= i < |rels| => Columns(Filter(rels[i], known)))
  }

  ghost predicate ColumnsBelow(rels: seq<seq<Entry>>, n: nat) {
    forall i, k :: 0 <= i < |rels| && 0 <= k < |rels[i]| ==> rels[i][k].h < n
  }

  lemma GraphRowsOk(rels: seq<seq<Entry>>, known: set<nat>, n: nat)
    requires ColumnsBelow(rels, n)
    ensures var rows := GraphRows(rels, known);
            forall i, j :: 0 <= i < |rows| && 0 <= j < |rows[i]| ==> rows[i][j] < n && rows[i][j] !in known
  {
    var rows := GraphRows(rels, known);
    forall i, j | 0 <= i < |rows| && 0 <= j < |rows[i]| ensures rows[i][j] < n && rows[i][j] !in known {
      FilterWithin(rels[i], known, n);
      assert rows[i] == Columns(Filter(rels[i], known));
    }
  }

  /** The relations are consistent with the true logarithms and their exponents are invertible. */
  ghost predicate Consistent(rels: seq<seq<Entry>>, sm: seq<int>, truth: nat -> int, inv: int -> int, ell: nat) {
    |sm| == |rels| && forall i :: 0 <= i < |rels| ==> ExponentsOk(rels[i], inv, ell) && Congruent(sm[i] + Sum(rels[i], truth), 0, ell)
  }

  // ----- Which logarithms can be had -----

  /** How many entries of a relation are of columns in u. */
  ghost function CountIn(s: seq<Entry>, u: set<nat>): nat {
    if s == [] then 0 else CountIn(s[..|s| - 1], u) + (if s[|s| - 1].h in u then 1 else 0)
  }

  /** No relation gives a logarithm of a column in u as long as none of them is known. */
  ghost predicate Blocked(rels: seq<seq<Entry>>, known: set<nat>, u: set<nat>) {
    u !! known && forall i :: 0 <= i < |rels| ==> CountIn(rels[i], u) != 1
  }

  ghost predicate Obtainable(rels: seq<seq<Entry>>, known: set<nat>, h: nat) {
    forall u: set<nat> :: Blocked(rels, known, u) ==> h !in u
  }

  lemma {:induction false} CountFiltered(s: seq<Entry>, known: set<nat>, u: set<nat>)
    requires u !! known
    ensures CountIn(Filter(s, known), u) == CountIn(s, u)
  {
    if s != [] {
      var n := |s| - 1;
      CountFiltered(s[..n], known, u);
      if s[n].h !in known {
        var f := Filter(s[..n], known);
        assert (f + [s[n]])[..|f|] == f;
      } else {
        assert Filter(s, known) == Filter(s[..n], known);
      }
    }
  }

  lemma {:induction false} CountIsUnknowns(s: seq<Entry>, g: seq<Node>, u: set<nat>, row: seq<nat>, k: nat)
    requires row == Columns(s) && k <= |s| && (forall j :: 0 <= j < |row| ==> row[j] < |g|)
    requires forall h: nat :: h in u <==> h < |g| && g[h].Unknown?
    ensures CountIn(s[..k], u) == Unknowns(g, row, k)
  {
    if k > 0 {
      CountIsUnknowns(s, g, u, row, k - 1);
      assert s[..k][..k - 1] == s[..k - 1];
    }
  }

  lemma {:induction false} CountNone(s: seq<Entry>, u: set<nat>)
    requires forall k :: 0 <= k < |s| ==> s[k].h !in u
    ensures CountIn(s, u) == 0
  {
    if s != [] {
      CountNone(s[..|s| - 1], u);
    }
  }

  lemma {:induction false} CountOne(s: seq<Entry>, u: set<nat>, p: nat)
    requires p < |s| && s[p].h in u && forall k :: 0 <= k < |s| && k != p ==> s[k].h !in u
    ensures CountIn(s, u) == 1
  {
    var n := |s| - 1;
    if p < n {
      CountOne(s[..n], u, p);
    } else {
      CountNone(s[..n], u);
    }
  }

  /** The finished graph: nothing more can be marked, and what is marked stands on solid ground. */
  ghost predicate GraphDone(rels: seq<seq<Entry>>, known: set<nat>, rows: seq<seq<nat>>, g: seq<Node>, rank: seq<nat>, clock: nat) {
    && SameRows(rows, rels, known) && Acyclic(rows, g, rank, clock)
    && (forall h :: 0 <= h < |g| ==> (g[h].FromFile? <==> h in known))
    && (forall i :: 0 <= i < |rows| ==> Unknowns(g, rows[i], |rows[i]|) != 1)
  }

  /** Columns that are not marked block each other. */
  lemma UnmarkedBlocked(rels: seq<seq<Entry>>, known: set<nat>, rows: seq<seq<nat>>, g: seq<Node>, rank: seq<nat>, clock: nat)
    requires GraphDone(rels, known, rows, g, rank, clock)
    ensures Blocked(rels, known, set h: nat | h < |g| && g[h].Unknown?)
  {
    var u := set h: nat | h < |g| && g[h].Unknown?;
    forall i | 0 <= i < |rels| ensures CountIn(rels[i], u) != 1 {
      var s := Filter(rels[i], known);
      assert rows[i] == Columns(s);
      CountFiltered(rels[i], known, u);
      CountIsUnknowns(s, g, u, rows[i], |s|);
      assert s[..|s|] == s;
    }
  }

  /** A column that is marked is in no blocked set. */
  lemma {:induction false} MarkedNotBlocked(rels: seq<seq<Entry>>, known: set<nat>, rows: seq<seq<nat>>, g: seq<Node>, rank: seq<nat>, clock: nat,
                                            u: set<nat>, h: nat)
    requires GraphDone(rels, known, rows, g, rank, clock) && Blocked(rels, known, u) && h < |g| && g[h].Reconstructed?
    ensures h !in u
    decreases rank[h]
  {
    assert Founded(rows, g, rank, h);
    var i := g[h].row;
    var s := Filter(rels[i], known);
    assert rows[i] == Columns(s);
    forall k | 0 <= k < |s| && s[k].h != h ensures s[k].h !in u {
      assert rows[i][k] == s[k].h;
      MarkedNotBlocked(rels, known, rows, g, rank, clock, u, s[k].h);
    }
    if h in u {
      var p :| 0 <= p < |rows[i]| && rows[i][p] == h;
      forall k | 0 <= k < |s| && k != p ensures s[k].h !in u {
        assert rows[i][k] == s[k].h;
        assert s[k].h != h;
      }
      CountFiltered(rels[i], known, u);
      CountOne(s, u, p);
      assert false;
    }
  }

  /** The marked columns are those whose logarithms can be had. */
  lemma MarkedIffObtainable(rels: seq<seq<Entry>>, known: set<nat>, rows: seq<seq<nat>>, g: seq<Node>, rank: seq<nat>, clock: nat, h: nat)
    requires GraphDone(rels, known, rows, g, rank, clock) && h < |g|
    ensures !g[h].Unknown? <==> Obtainable(rels, known, h)
  {
    if g[h].Unknown? {
      UnmarkedBlocked(rels, known, rows, g, rank, clock);
      assert h in set x: nat | x < |g| && g[x].Unknown?;
    } else {
      forall u: set<nat> | Blocked(rels, known, u) ensures h !in u {
        if g[h].Reconstructed? {
          MarkedNotBlocked(rels, known, rows, g, rank, clock, u, h);
        }
      }
    }
  }

  /** The first k wanted columns exist and can be had. */
  ghost predicate CanHave(rels: seq<seq<Entry>>, known: set<nat>, n: nat, wanted: seq<nat>, k: nat)
    requires k <= |wanted|
  {
    forall j :: 0 <= j < k ==> wanted[j] < n && Obtainable(rels, known, wanted[j])
  }

  /** What each outcome means. */
  ghost predicate Verdict(r: Outcome, rels: seq<seq<Entry>>, known: set<nat>, n: nat, wanted: seq<nat>) {
    && (r.Done? || r.CountsDiffer? <==> CanHave(rels, known, n, wanted, |wanted|))
    && (r.IndexTooLarge? <==> exists k :: 0 <= k < |wanted| && CanHave(rels, known, n, wanted, k) && wanted[k] >= n)
    && (r.CannotReconstruct? <==>
          exists k :: 0 <= k < |wanted| && CanHave(rels, known, n, wanted, k) && wanted[k] < n && !Obtainable(rels, known, wanted[k]))
  }

  lemma VerdictRight(r: Outcome, rels: seq<seq<Entry>>, known: set<nat>, rows: seq<seq<nat>>, g: seq<Node>, rank: seq<nat>, clock: nat, wanted: seq<nat>)
    requires GraphDone(rels, known, rows, g, rank, clock)
    requires r.Done? || r.CountsDiffer? <==> AllKnown(g, wanted, |wanted|)
    requires r.IndexTooLarge? <==> exists k :: 0 <= k < |wanted| && AllKnown(g, wanted, k) && wanted[k] >= |g|
    requires r.CannotReconstruct? <==> exists k :: 0 <= k < |wanted| && AllKnown(g, wanted, k) && wanted[k] < |g| && g[wanted[k]].Unknown?
    ensures Verdict(r, rels, known, |g|, wanted)
  {
    forall j | 0 <= j < |wanted| && wanted[j] < |g| ensures !g[wanted[j]].Unknown? <==> Obtainable(rels, known, wanted[j]) {
      MarkedIffObtainable(rels, known, rows, g, rank, clock, wanted[j]);
    }
    forall k | 0 <= k <= |wanted| ensures AllKnown(g, wanted, k) <==> CanHave(rels, known, |g|, wanted, k) {
    }
  }

  /** Only the relations needed for the wanted logarithms are used, and they give all of them; the run gives
      up only if one of them does not exist or cannot be had from any relations, or if the counts differ. */
  method ReconstructLogs(ell: nat, inv: int -> int, rels: seq<seq<Entry>>, sm: seq<int>, known: map<nat, int>, n: nat, wanted: seq<nat>,
                         ghost truth: nat -> int)
    returns (r: Outcome, log: map<nat, int>, ghost g: seq<Node>, ghost rank: seq<nat>, ghost clock: nat)
    requires ell > 0 && Consistent(rels, sm, truth, inv, ell) && TableOk(known, truth, ell) && ColumnsBelow(rels, n)
    ensures TableOk(log, truth, ell)
    ensures Verdict(r, rels, known.Keys, n, wanted)
    ensures |g| == n && GraphDone(rels, known.Keys, GraphRows(rels, known.Keys), g, rank, clock)
    ensures r.Done? ==> AllNew(GraphRows(rels, known.Keys), g, wanted, |wanted|)
    ensures r.CountsDiffer? ==> !AllNew(GraphRows(rels, known.Keys), g, wanted, |wanted|)
    ensures r.Done? ==> forall k :: 0 <= k < |wanted| ==> wanted[k] in log
    ensures r.Done? ==>
              && Exactly(GraphRows(rels, known.Keys), g, wanted, |wanted|, r.needed)
              && Gains(known, log, NeededColumns(rels, MaskOf(rels, r.needed)))
    ensures !r.Done? ==> log == known
  {
    GraphRowsOk(rels, known.Keys, n);
    var d := new Dependencies(GraphRows(rels, known.Keys), known.Keys, n);
    ghost var start := d.graph;
    d.ComputeDependencies();
    g, rank, clock := d.graph, d.rank, d.clock;
    r := ProcessWanted(d, wanted);
    VerdictRight(r, rels, known.Keys, d.rows, g, rank, clock, wanted);
    log := known;
    if r.Done? {
      log := SolveFor(ell, inv, rels, sm, known, r.needed, truth);
      AllWantedKnown(d.rows, d.graph, d.rank, d.clock, r.needed, rels, known.Keys, log.Keys, wanted);
    }
  }

  function MaskOf(rels: seq<seq<Entry>>, needed: set<nat>): (mask: seq<bool>)
    ensures |mask| == |rels| && forall i :: 0 <= i < |rels| ==> mask[i] == (i in needed)
  {
    seq(|rels|, i => i in needed)
  }

  /** Solves from the needed relations only. */
  method SolveFor(ell: nat, inv: int -> int, rels: seq<seq<Entry>>, sm: seq<int>, known: map<nat, int>, needed: set<nat>, ghost truth: nat -> int)
    returns (log: map<nat, int>)
    requires ell > 0 && Consistent(rels, sm, truth, inv, ell) && TableOk(known, truth, ell)
    ensures TableOk(log, truth, ell) && Gains(known, log, NeededColumns(rels, MaskOf(rels, needed)))
    ensures forall i :: i in needed && i < |rels| ==> |Filter(rels[i], log.Keys)| != 1
  {
    var mask := MaskOf(rels, needed);
    var solver := new LogSolver(ell, inv, rels, known, truth);
    solver.Load(mask, sm);
    solver.ComputeLogs(mask);
    log := solver.log;
    forall i | i in needed && i < |rels| ensures |Filter(rels[i], log.Keys)| != 1 {
      assert mask[i];
    }
  }

  lemma AllWantedKnown(rows: seq<seq<nat>>, g: seq<Node>, rank: seq<nat>, clock: nat, needed: set<nat>,
                       rels: seq<seq<Entry>>, known0: set<nat>, known: set<nat>, wanted: seq<nat>)
    requires Acyclic(rows, g, rank, clock) && Exactly(rows, g, wanted, |wanted|, needed) && SameRows(rows, rels, known0) && known0 <= known
    requires AllKnown(g, wanted, |wanted|) && forall h :: 0 <= h < |g| && g[h].FromFile? ==> h in known0
    requires forall i :: i in needed && i < |rels| ==> |Filter(rels[i], known)| != 1
    ensures forall k :: 0 <= k < |wanted| ==> wanted[k] in known
  {
    forall k | 0 <= k < |wanted| ensures wanted[k] in known {
      var h := wanted[k];
      if g[h].Reconstructed? {
        assert g[h].row in RowOf(g, wanted[k]);
        assert g[h].row in RowsOfFirst(g, wanted, |wanted|);
        NeededAreKnown(rows, g, rank, clock, needed, rels, known0, known, h);
      }
    }
  }
}
