/** The relations needed for a list of wanted logarithms. */
module NeededRelations {
  import opened DependencyGraph

  /** The rows that the columns of row i are reconstructed from. */
  ghost predicate DepsIn(rows: seq<seq<nat>>, g: seq<Node>, i: nat, s: set<nat>)
    requires RowsOk(rows, |g|)
  {
    i < |rows| && forall j :: 0 <= j < |rows[i]| ==> g[rows[i][j]].Reconstructed? && g[rows[i][j]].row in s
  }

  ghost predicate Closed(rows: seq<seq<nat>>, g: seq<Node>, s: set<nat>)
    requires RowsOk(rows, |g|)
  {
    forall i :: i in s ==> DepsIn(rows, g, i, s)
  }

  lemma DepsMonotone(rows: seq<seq<nat>>, g: seq<Node>, i: nat, s: set<nat>, t: set<nat>)
    requires RowsOk(rows, |g|) && DepsIn(rows, g, i, s) && s <= t
    ensures DepsIn(rows, g, i, t)
  {
  }

  /** The row that column h is reconstructed from, as a set. */
  function RowOf(g: seq<Node>, h: nat): set<nat> {
    if h < |g| && g[h].Reconstructed? then {g[h].row} else {}
  }

  /** Every closed set that contains `from` contains `s`. */
  ghost predicate Forced(rows: seq<seq<nat>>, g: seq<Node>, from: set<nat>, s: set<nat>)
    requires RowsOk(rows, |g|)
  {
    forall c: set<nat> :: Closed(rows, g, c) && from <= c ==> s <= c
  }

  /** The relations newly marked have their dependencies marked, and none was marked without need. */
  ghost predicate Marked(rows: seq<seq<nat>>, g: seq<Node>, needed: set<nat>, from: set<nat>, needed': set<nat>)
    requires RowsOk(rows, |g|)
  {
    && needed <= needed' && from <= needed'
    && (forall i :: i in needed' && (i !in needed || i in from) ==> DepsIn(rows, g, i, needed'))
    && Forced(rows, g, needed + from, needed')
  }

  /** While the columns of row r are followed. */
  ghost predicate Following(rows: seq<seq<nat>>, g: seq<Node>, needed: set<nat>, r: nat, j: nat, cur: set<nat>)
    requires RowsOk(rows, |g|) && r < |rows|
  {
    && j <= |rows[r]| && needed + {r} <= cur
    && (forall i :: i in cur && i !in needed && i != r ==> DepsIn(rows, g, i, cur))
    && (forall l :: 0 <= l < j ==> g[rows[r][l]].Reconstructed? && g[rows[r][l]].row in cur)
    && Forced(rows, g, needed + {r}, cur)
  }

  lemma FollowStep(rows: seq<seq<nat>>, g: seq<Node>, needed: set<nat>, r: nat, j: nat, cur: set<nat>, cur': set<nat>)
    requires RowsOk(rows, |g|) && r < |rows| && Following(rows, g, needed, r, j, cur) && j < |rows[r]|
    requires g[rows[r][j]].Reconstructed?
    requires if g[rows[r][j]].row in cur then cur' == cur else Marked(rows, g, cur, {g[rows[r][j]].row}, cur')
    ensures Following(rows, g, needed, r, j + 1, cur')
  {
    var s := g[rows[r][j]].row;
    if s !in cur {
      forall i | i in cur' && i !in needed && i != r ensures DepsIn(rows, g, i, cur') {
        if i in cur {
          DepsMonotone(rows, g, i, cur, cur');
        }
      }
      forall c: set<nat> | Closed(rows, g, c) && needed + {r} <= c ensures cur' <= c {
        assert cur <= c;
        assert DepsIn(rows, g, r, c);
        assert cur + {s} <= c;
      }
    }
  }

  lemma FollowEnd(rows: seq<seq<nat>>, g: seq<Node>, needed: set<nat>, r: nat, cur: set<nat>)
    requires RowsOk(rows, |g|) && r < |rows| && Following(rows, g, needed, r, |rows[r]|, cur)
    ensures Marked(rows, g, needed, {r}, cur)
  {
  }

  lemma OneMore(s: set<nat>, r: nat)
    ensures |s + {r}| == |s| + 1 - |{r} * s|
  {
    if r in s {
      assert s + {r} == s && {r} * s == {r};
    } else {
      assert {r} * s == {};
    }
  }

  /** Marks the relations needed for column h; the count is one too high when the relation of h was
      marked before. */
  method NeededRelsFromIndex(d: Dependencies, h: nat, needed: set<nat>) returns (ok: bool, added: nat, needed': set<nat>)
    requires d.Valid() && h < |d.graph|
    ensures ok <==> !d.graph[h].Unknown?
    ensures ok ==> Marked(d.rows, d.graph, needed, RowOf(d.graph, h), needed')
    ensures ok ==> added == |needed'| - |needed| + |RowOf(d.graph, h) * needed|
    decreases d.rank[h]
  {
    ok, added, needed' := true, 0, needed;
    if d.graph[h].Unknown? {
      ok := false;
      return;
    }
    if d.graph[h].FromFile? {
      assert RowOf(d.graph, h) * needed == {};
      return;
    }
    var r := d.graph[h].row;
    assert Founded(d.rows, d.graph, d.rank, h);
    added, needed' := 1, needed + {r};
    for j := 0 to |d.rows[r]|
      invariant Following(d.rows, d.graph, needed, r, j, needed')
      invariant ok && r in needed' && added == |needed'| - |needed + {r}| + 1
    {
      var hh := d.rows[r][j];
      ghost var before := needed';
      if d.graph[hh].row !in needed' {
        assert hh != h;
        var more: nat;
        ok, more, needed' := NeededRelsFromIndex(d, hh, needed');
        assert RowOf(d.graph, hh) * before == {};
        added := added + more;
      }
      FollowStep(d.rows, d.graph, needed, r, j, before, needed');
    }
    FollowEnd(d.rows, d.graph, needed, r, needed');
    OneMore(needed, r);
  }

  // ----- The wanted list -----

  ghost function RowsOfFirst(g: seq<Node>, wanted: seq<nat>, k: nat): set<nat>
    requires k <= |wanted|
  {
    set j, i | 0 <= j < k && i in RowOf(g, wanted[j]) :: i
  }

  /** Column wanted[k] comes from a relation that the earlier ones do not need. */
  ghost predicate NewRelation(rows: seq<seq<nat>>, g: seq<Node>, wanted: seq<nat>, k: nat)
    requires RowsOk(rows, |g|) && k < |wanted|
  {
    forall r :: r in RowOf(g, wanted[k]) ==>
      exists c: set<nat> :: Closed(rows, g, c) && RowsOfFirst(g, wanted, k) <= c && r !in c
  }

  /** `needed` is the smallest closed set with the relations of the first k wanted columns. */
  ghost predicate Exactly(rows: seq<seq<nat>>, g: seq<Node>, wanted: seq<nat>, k: nat, needed: set<nat>)
    requires RowsOk(rows, |g|) && k <= |wanted|
  {
    Closed(rows, g, needed) && RowsOfFirst(g, wanted, k) <= needed && Forced(rows, g, RowsOfFirst(g, wanted, k), needed)
  }

  lemma ExactlyStep(rows: seq<seq<nat>>, g: seq<Node>, wanted: seq<nat>, k: nat, needed: set<nat>, needed': set<nat>)
    requires RowsOk(rows, |g|) && k < |wanted| && Exactly(rows, g, wanted, k, needed)
    requires Marked(rows, g, needed, RowOf(g, wanted[k]), needed')
    ensures Exactly(rows, g, wanted, k + 1, needed')
  {
    var was, now := RowsOfFirst(g, wanted, k), RowsOfFirst(g, wanted, k + 1);
    assert now == was + RowOf(g, wanted[k]);
    forall i | i in needed' ensures DepsIn(rows, g, i, needed') {
      if i in needed {
        DepsMonotone(rows, g, i, needed, needed');
      }
    }
  }

  lemma NewIffUnmarked(rows: seq<seq<nat>>, g: seq<Node>, wanted: seq<nat>, k: nat, needed: set<nat>)
    requires RowsOk(rows, |g|) && k < |wanted| && Exactly(rows, g, wanted, k, needed)
    ensures NewRelation(rows, g, wanted, k) <==> |RowOf(g, wanted[k]) * needed| == 0
  {
    var r := RowOf(g, wanted[k]);
    if NewRelation(rows, g, wanted, k) {
      assert r * needed == {};
    } else {
      assert exists x :: x in r && x in needed;
      var x :| x in r && x in needed;
      assert x in r * needed;
    }
  }

  datatype Outcome = Done(needed: set<nat>) | CannotReconstruct | IndexTooLarge | CountsDiffer

  ghost predicate AllNew(rows: seq<seq<nat>>, g: seq<Node>, wanted: seq<nat>, k: nat)
    requires RowsOk(rows, |g|) && k <= |wanted|
  {
    forall j :: 0 <= j < k ==> NewRelation(rows, g, wanted, j)
  }

  /** Every wanted column can be had. */
  ghost predicate AllKnown(g: seq<Node>, wanted: seq<nat>, k: nat)
    requires k <= |wanted|
  {
    forall j :: 0 <= j < k ==> wanted[j] < |g| && !g[wanted[j]].Unknown?
  }

  /** Marks what all wanted columns need.  The final comparison of the two counts succeeds exactly when
      no wanted column comes from a relation that the earlier ones need already. */
  method ProcessWanted(d: Dependencies, wanted: seq<nat>) returns (r: Outcome)
    requires d.Valid()
    ensures r.Done? ==> Exactly(d.rows, d.graph, wanted, |wanted|, r.needed)
    ensures r.Done? <==> AllKnown(d.graph, wanted, |wanted|) && AllNew(d.rows, d.graph, wanted, |wanted|)
    ensures r.CountsDiffer? <==> AllKnown(d.graph, wanted, |wanted|) && !AllNew(d.rows, d.graph, wanted, |wanted|)
    ensures r.IndexTooLarge? <==> exists k :: 0 <= k < |wanted| && AllKnown(d.graph, wanted, k) && wanted[k] >= |d.graph|
    ensures r.CannotReconstruct? <==>
              exists k :: 0 <= k < |wanted| && AllKnown(d.graph, wanted, k) && wanted[k] < |d.graph| && d.graph[wanted[k]].Unknown?
  {
    var needed: set<nat>, total: nat := {}, 0;
    assert Progress(d.rows, d.graph, wanted, 0, needed, total);
    for k := 0 to |wanted|
      invariant Progress(d.rows, d.graph, wanted, k, needed, total)
    {
      if wanted[k] >= |d.graph| {
        r := IndexTooLarge;
        return;
      }
      var ok;
      ok, needed, total := TakeWanted(d, wanted, k, needed, total);
      if !ok {
        r := CannotReconstruct;
        return;
      }
    }
    r := if total == |needed| then Done(needed) else CountsDiffer;
  }

  /** After k wanted columns. */
  ghost predicate Progress(rows: seq<seq<nat>>, g: seq<Node>, wanted: seq<nat>, k: nat, needed: set<nat>, total: nat)
    requires RowsOk(rows, |g|) && k <= |wanted|
  {
    && Exactly(rows, g, wanted, k, needed) && AllKnown(g, wanted, k)
    && total >= |needed| && (total == |needed| <==> AllNew(rows, g, wanted, k))
  }

  lemma ProgressStep(rows: seq<seq<nat>>, g: seq<Node>, wanted: seq<nat>, k: nat, needed: set<nat>, total: nat, needed': set<nat>, added: nat)
    requires RowsOk(rows, |g|) && k < |wanted| && Progress(rows, g, wanted, k, needed, total) && wanted[k] < |g| && !g[wanted[k]].Unknown?
    requires Marked(rows, g, needed, RowOf(g, wanted[k]), needed') && added == |needed'| - |needed| + |RowOf(g, wanted[k]) * needed|
    ensures Progress(rows, g, wanted, k + 1, needed', total + added)
  {
    NewIffUnmarked(rows, g, wanted, k, needed);
    ExactlyStep(rows, g, wanted, k, needed, needed');
  }

  method TakeWanted(d: Dependencies, wanted: seq<nat>, k: nat, needed: set<nat>, total: nat) returns (ok: bool, needed': set<nat>, total': nat)
    requires d.Valid() && k < |wanted| && wanted[k] < |d.graph| && Progress(d.rows, d.graph, wanted, k, needed, total)
    ensures ok <==> !d.graph[wanted[k]].Unknown?
    ensures ok ==> Progress(d.rows, d.graph, wanted, k + 1, needed', total')
  {
    var added;
    ok, added, needed' := NeededRelsFromIndex(d, wanted[k], needed);
    total' := total + added;
    if ok {
      ProgressStep(d.rows, d.graph, wanted, k, needed, total, needed', added);
    }
  }

  /** Asking twice for the same reconstructed column is enough to make the two counts differ. */
  lemma RepeatIsNotNew(rows: seq<seq<nat>>, g: seq<Node>, h: nat)
    requires RowsOk(rows, |g|) && h < |g| && g[h].Reconstructed?
    ensures !AllNew(rows, g, [h, h], 2)
  {
    assert g[h].row in RowOf(g, [h, h][1]);
    assert g[h].row in RowsOfFirst(g, [h, h], 1) by {
      assert [h, h][0] == h;
    }
    assert !NewRelation(rows, g, [h, h], 1);
  }
}
