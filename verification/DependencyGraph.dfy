/** Which logarithms can be reconstructed from which relations, and which relations are needed for a
    list of wanted logarithms. */
module DependencyGraph {

  datatype Node = Unknown | FromFile | Reconstructed(row: nat)

  /** The number of occurrences, among the first k entries, of columns that are still unknown. */
  function Unknowns(g: seq<Node>, row: seq<nat>, k: nat): nat
    requires k <= |row| && forall j :: 0 <= j < |row| ==> row[j] < |g|
  {
    if k == 0 then 0 else Unknowns(g, row, k - 1) + (if g[row[k - 1]].Unknown? then 1 else 0)
  }

  ghost predicate RowsOk(rows: seq<seq<nat>>, n: nat) {
    forall i, j :: 0 <= i < |rows| && 0 <= j < |rows[i]| ==> rows[i][j] < n
  }

  /** No column whose logarithm was read from the file occurs in a row. */
  ghost predicate RowsFiltered(rows: seq<seq<nat>>, g: seq<Node>)
    requires RowsOk(rows, |g|)
  {
    forall i, j :: 0 <= i < |rows| && 0 <= j < |rows[i]| ==> !g[rows[i][j]].FromFile?
  }

  /** Column h is reconstructed from its row: it occurs there once, and the others came earlier. */
  ghost predicate Founded(rows: seq<seq<nat>>, g: seq<Node>, rank: seq<nat>, h: nat)
    requires RowsOk(rows, |g|) && |rank| == |g| && h < |g|
  {
    g[h].Reconstructed? ==>
      && g[h].row < |rows| && h in rows[g[h].row]
      && (forall j, l :: 0 <= j < l < |rows[g[h].row]| ==> !(rows[g[h].row][j] == h && rows[g[h].row][l] == h))
      && (forall j :: 0 <= j < |rows[g[h].row]| && rows[g[h].row][j] != h ==>
            g[rows[g[h].row][j]].Reconstructed? && rank[rows[g[h].row][j]] < rank[h])
  }

  /** The graph has no cycles: `rank` decreases along it. */
  ghost predicate Acyclic(rows: seq<seq<nat>>, g: seq<Node>, rank: seq<nat>, clock: nat) {
    && RowsOk(rows, |g|) && RowsFiltered(rows, g) && |rank| == |g|
    && (forall h :: 0 <= h < |g| ==> Founded(rows, g, rank, h))
    && (forall h :: 0 <= h < |g| && g[h].Reconstructed? ==> rank[h] < clock)
  }

  /** With one unknown occurrence there is a single position for it. */
  lemma {:induction false} OneUnknown(g: seq<Node>, row: seq<nat>, k: nat)
    requires k <= |row| && forall j :: 0 <= j < |row| ==> row[j] < |g|
    ensures Unknowns(g, row, k) == 0 ==> forall j :: 0 <= j < k ==> !g[row[j]].Unknown?
    ensures Unknowns(g, row, k) == 1 ==>
              && (exists j :: 0 <= j < k && g[row[j]].Unknown?)
              && (forall j, l :: 0 <= j < l < k ==> !(g[row[j]].Unknown? && g[row[l]].Unknown?))
  {
    if k > 0 {
      OneUnknown(g, row, k - 1);
      if Unknowns(g, row, k) == 1 && g[row[k - 1]].Unknown? {
        assert Unknowns(g, row, k - 1) == 0;
      }
    }
  }

  lemma MarkAcyclic(rows: seq<seq<nat>>, g: seq<Node>, rank: seq<nat>, clock: nat, i: nat, h: nat)
    requires Acyclic(rows, g, rank, clock) && i < |rows| && h < |g| && h in rows[i] && g[h].Unknown? && Unknowns(g, rows[i], |rows[i]|) == 1
    ensures Acyclic(rows, g[h := Reconstructed(i)], rank[h := clock], clock + 1)
  {
    OneUnknown(g, rows[i], |rows[i]|);
    var g', rank' := g[h := Reconstructed(i)], rank[h := clock];
    forall x | 0 <= x < |g'| ensures Founded(rows, g', rank', x) {
      if x == h {
        forall j | 0 <= j < |rows[i]| && rows[i][j] != h ensures g'[rows[i][j]].Reconstructed? && rank'[rows[i][j]] < rank'[h] {
          assert !g[rows[i][j]].FromFile?;
          assert !g[rows[i][j]].Unknown?;
        }
      } else {
        assert Founded(rows, g, rank, x);
      }
    }
  }

  /** Marks are only added. */
  ghost predicate Extends(g: seq<Node>, g': seq<Node>) {
    |g| == |g'| && forall h :: 0 <= h < |g| ==> g'[h] == g[h] || (g[h].Unknown? && g'[h].Reconstructed?)
  }

  lemma {:induction false} UnknownsFewer(g: seq<Node>, g': seq<Node>, row: seq<nat>, k: nat)
    requires k <= |row| && (forall j :: 0 <= j < |row| ==> row[j] < |g|) && Extends(g, g')
    ensures Unknowns(g', row, k) <= Unknowns(g, row, k)
  {
    if k > 0 {
      UnknownsFewer(g, g', row, k - 1);
    }
  }

  class Dependencies {
    const rows: seq<seq<nat>>
    var graph: seq<Node>
    /** When each column was marked. */
    ghost var rank: seq<nat>
    ghost var clock: nat

    constructor (rows: seq<seq<nat>>, known: set<nat>, n: nat)
      requires forall i, j :: 0 <= i < |rows| && 0 <= j < |rows[i]| ==> rows[i][j] < n && rows[i][j] !in known
      ensures this.rows == rows && Valid() && graph == seq(n, h => if h in known then FromFile else Unknown)
    {
      this.rows := rows;
      graph := seq(n, h => if h in known then FromFile else Unknown);
      rank := seq(n, _ => 0);
      clock := 0;
    }

    ghost predicate Valid()
      reads this
    {
      Acyclic(rows, graph, rank, clock)
    }

    /** The number of unknown columns of row i, and the last of them. */
    method CountUnknown(i: nat) returns (nb: nat, h: nat)
      requires Valid() && i < |rows|
      ensures nb == Unknowns(graph, rows[i], |rows[i]|)
      ensures nb > 0 ==> h < |graph| && h in rows[i] && graph[h].Unknown?
    {
      nb, h := 0, 0;
      for j := 0 to |rows[i]|
        invariant nb == Unknowns(graph, rows[i], j)
        invariant nb > 0 ==> h < |graph| && h in rows[i] && graph[h].Unknown?
      {
        if graph[rows[i][j]].Unknown? {
          nb, h := nb + 1, rows[i][j];
        }
      }
    }

    /** A row that is no longer in use has no unknown column. */
    ghost predicate UsedUp(unused: seq<bool>)
      reads this
      requires Valid()
    {
      |unused| == |rows| && forall i :: 0 <= i < |rows| && !unused[i] ==> Unknowns(graph, rows[i], |rows[i]|) == 0
    }

    /** Looks at one relation. */
    method Examine(unused: seq<bool>, i: nat) returns (unused': seq<bool>, marked: bool)
      requires Valid() && i < |rows| && UsedUp(unused) && unused[i]
      modifies this
      ensures Valid() && UsedUp(unused') && Extends(old(graph), graph)
      ensures forall k :: 0 <= k < |rows| && k != i ==> unused'[k] == unused[k]
      ensures !marked ==> graph == old(graph) && (unused'[i] ==> Unknowns(graph, rows[i], |rows[i]|) >= 2)
      ensures marked ==> !unused'[i]
    {
      var nb, h := CountUnknown(i);
      unused', marked := unused, false;
      if nb <= 1 {
        unused' := unused[i := false];
        if nb == 1 {
          MarkAcyclic(rows, graph, rank, clock, i, h);
          Reduced(unused, i, h);
          graph, rank, clock := graph[h := Reconstructed(i)], rank[h := clock], clock + 1;
          marked := true;
        }
      }
    }

    lemma Reduced(unused: seq<bool>, i: nat, h: nat)
      requires Valid() && i < |rows| && UsedUp(unused) && h < |graph| && graph[h].Unknown? && h in rows[i]
      requires Unknowns(graph, rows[i], |rows[i]|) == 1
      ensures var g' := graph[h := Reconstructed(i)];
              && Unknowns(g', rows[i], |rows[i]|) == 0
              && forall k :: 0 <= k < |rows| && !unused[k] ==> Unknowns(g', rows[k], |rows[k]|) == 0
    {
      var g' := graph[h := Reconstructed(i)];
      forall k | 0 <= k < |rows| && !unused[k] ensures Unknowns(g', rows[k], |rows[k]|) == 0 {
        UnknownsFewer(graph, g', rows[k], |rows[k]|);
      }
      OneUnknown(graph, rows[i], |rows[i]|);
      NoneLeft(g', rows[i], |rows[i]|);
    }

    /** One pass over all relations; returns how many columns were marked. */
    method Chunk(unused: seq<bool>) returns (unused': seq<bool>, computed: nat)
      requires Valid() && UsedUp(unused)
      modifies this
      ensures Valid() && UsedUp(unused') && Extends(old(graph), graph)
      ensures computed > 0 ==> InUse(unused') < InUse(unused)
      ensures computed == 0 ==> graph == old(graph) && forall i :: 0 <= i < |rows| ==> Unknowns(graph, rows[i], |rows[i]|) != 1
    {
      unused', computed := unused, 0;
      for i := 0 to |rows|
        invariant Valid() && UsedUp(unused') && Extends(old(graph), graph)
        invariant InUse(unused') <= InUse(unused) && (computed > 0 ==> InUse(unused') < InUse(unused))
        invariant computed == 0 ==> graph == old(graph) && forall k :: 0 <= k < i ==> Unknowns(graph, rows[k], |rows[k]|) != 1
      {
        if unused'[i] {
          ghost var before := unused';
          var marked: bool;
          unused', marked := Examine(unused', i);
          FewerInUse(before, unused', i);
          if marked {
            computed := computed + 1;
          }
        }
      }
    }

    /** Passes until nothing more can be marked. */
    method ComputeDependencies()
      requires Valid()
      modifies this
      ensures Valid() && Extends(old(graph), graph)
      ensures forall i :: 0 <= i < |rows| ==> Unknowns(graph, rows[i], |rows[i]|) != 1
    {
      var unused := seq(|rows|, _ => true);
      while true
        invariant Valid() && UsedUp(unused) && Extends(old(graph), graph)
        decreases InUse(unused)
      {
        var computed: nat;
        unused, computed := Chunk(unused);
        if computed == 0 {
          break;
        }
      }
    }
  }

  lemma {:induction false} NoneLeft(g: seq<Node>, row: seq<nat>, k: nat)
    requires k <= |row| && (forall j :: 0 <= j < |row| ==> row[j] < |g|) && forall j :: 0 <= j < k ==> !g[row[j]].Unknown?
    ensures Unknowns(g, row, k) == 0
  {
    if k > 0 {
      NoneLeft(g, row, k - 1);
    }
  }

  /** The number of relations still in use. */
  ghost function InUse(unused: seq<bool>): nat {
    if unused == [] then 0 else InUse(unused[..|unused| - 1]) + (if unused[|unused| - 1] then 1 else 0)
  }

  lemma {:induction false} FewerInUse(u: seq<bool>, v: seq<bool>, i: nat)
    requires i < |u| == |v| && u[i] && forall k :: 0 <= k < |u| && k != i ==> u[k] == v[k]
    ensures InUse(v) == InUse(u) - (if v[i] then 0 else 1)
  {
    var n := |u| - 1;
    if i < n {
      FewerInUse(u[..n], v[..n], i);
    } else {
      assert u[..n] == v[..n];
    }
  }
}
