/** The combinatorics of `purge`: sets of relations without singleton columns, and connected
    components of relations linked by columns of weight two. */
module PurgeGraph {
  import opened Collections
  import opened XorSets

  /** `f[i]` lists the columns of relation i; columns in `sat` have saturated weights and are never
      counted exactly again; columns in `others` were counted when relations were loaded, but no row
      holds them. */
  datatype Relations = Relations(f: seq<set<nat>>, sat: set<nat>, others: set<nat>)

  /** The columns that count when only the rows in `live` are left. */
  ghost function Columns(r: Relations, live: set<nat>): set<nat> {
    set h | h in r.sat + r.others + Held(r.f, live)
  }

  ghost function Held(f: seq<set<nat>>, live: set<nat>): set<nat> {
    set i, h | i in live && i < |f| && h in f[i] :: h
  }

  ghost function ExcessOf(r: Relations, live: set<nat>): int {
    |live| - |Columns(r, live)|
  }

  ghost function Weight(r: Relations, live: set<nat>, h: nat): nat {
    |Holders(r.f, live, h)|
  }

  lemma HoldersMonotone(r: Relations, a: set<nat>, b: set<nat>, h: nat)
    requires a <= b
    ensures Holders(r.f, a, h) <= Holders(r.f, b, h) && Weight(r, a, h) <= Weight(r, b, h)
  {
    SubsetSize(Holders(r.f, a, h), Holders(r.f, b, h));
  }

  lemma HoldersRemove(r: Relations, live: set<nat>, i: nat, h: nat)
    requires i in live && i < |r.f|
    ensures Holders(r.f, live - {i}, h) == Holders(r.f, live, h) - {i}
    ensures Weight(r, live - {i}, h) == Weight(r, live, h) - (if h in r.f[i] then 1 else 0)
  {
    if h in r.f[i] {
      assert Holders(r.f, live, h) == Holders(r.f, live - {i}, h) + {i};
    } else {
      assert Holders(r.f, live, h) == Holders(r.f, live - {i}, h);
    }
  }

  // ----- Singletons -----

  /** Relation i has a column that no other relation of `live` has. */
  ghost predicate HasSingleton(r: Relations, live: set<nat>, i: nat) {
    i < |r.f| && exists h :: h in r.f[i] && h !in r.sat && Weight(r, live, h) == 1
  }

  ghost predicate NoSingletons(r: Relations, live: set<nat>) {
    forall i :: i in live ==> !HasSingleton(r, live, i)
  }

  /** The largest subset of `live` without singletons: it has none, and contains every other
      subset that has none. */
  ghost predicate IsCore(r: Relations, live: set<nat>, core: set<nat>) {
    && core <= live && NoSingletons(r, core)
    && forall s: set<nat> :: s <= live && NoSingletons(r, s) ==> s <= core
  }

  lemma CoreUnique(r: Relations, live: set<nat>, a: set<nat>, b: set<nat>)
    requires IsCore(r, live, a) && IsCore(r, live, b)
    ensures a == b
  {
  }

  /** A relation with a singleton belongs to no subset without singletons. */
  lemma SingletonOutsideCore(r: Relations, live: set<nat>, i: nat, s: set<nat>)
    requires HasSingleton(r, live, i) && s <= live && NoSingletons(r, s)
    ensures i !in s
  {
    var h :| h in r.f[i] && h !in r.sat && Weight(r, live, h) == 1;
    HoldersMonotone(r, s, live, h);
    assert i in s ==> i in Holders(r.f, s, h);
  }

  // ----- Components -----

  /** Column h links relations a and b: they are the only two that have it. */
  ghost predicate Links(r: Relations, live: set<nat>, h: nat, a: nat, b: nat) {
    a != b && h !in r.sat && Holders(r.f, live, h) == {a, b}
  }

  ghost predicate Linked(r: Relations, live: set<nat>, a: nat, b: nat) {
    exists h :: Links(r, live, h, a, b)
  }

  ghost predicate Closed(r: Relations, live: set<nat>, c: set<nat>) {
    forall a, b :: a in c && Linked(r, live, a, b) ==> b in c
  }

  ghost predicate LinkedAcross(r: Relations, live: set<nat>, a: set<nat>, b: set<nat>) {
    exists x, y :: x in a && y in b && Linked(r, live, x, y)
  }

  /** Every part of `c` that contains `i` but not all of `c` is linked to the rest of `c`. */
  ghost predicate ConnectedFrom(r: Relations, live: set<nat>, c: set<nat>, i: nat) {
    i in c && forall d: set<nat> :: i in d && d < c ==> LinkedAcross(r, live, d, c - d)
  }

  ghost predicate IsComponent(r: Relations, live: set<nat>, c: set<nat>, i: nat) {
    c <= live && Closed(r, live, c) && ConnectedFrom(r, live, c, i)
  }

  lemma LinkedSymmetric(r: Relations, live: set<nat>, a: nat, b: nat)
    requires Linked(r, live, a, b)
    ensures Linked(r, live, b, a)
  {
    var h :| Links(r, live, h, a, b);
    assert {a, b} == {b, a};
    assert Links(r, live, h, b, a);
  }

  lemma LinkedLive(r: Relations, live: set<nat>, a: nat, b: nat)
    requires Linked(r, live, a, b)
    ensures a in live && b in live && a < |r.f| && b < |r.f|
  {
    var h :| Links(r, live, h, a, b);
    assert a in Holders(r.f, live, h) && b in Holders(r.f, live, h);
  }

  /** A connected set stays within every closed set it meets at its starting point. */
  lemma ConnectedInClosed(r: Relations, live: set<nat>, c: set<nat>, i: nat, d: set<nat>)
    requires ConnectedFrom(r, live, c, i) && Closed(r, live, d) && i in d
    ensures c <= d
  {
    var both := c * d;
    assert !LinkedAcross(r, live, both, c - both);
    assert !(both < c);
  }

  lemma ComponentUnique(r: Relations, live: set<nat>, a: set<nat>, b: set<nat>, i: nat)
    requires IsComponent(r, live, a, i) && IsComponent(r, live, b, i)
    ensures a == b
  {
    ConnectedInClosed(r, live, a, i, b);
    ConnectedInClosed(r, live, b, i, a);
  }

  /** Every relation has a component: the rows that lie in every closed set around it. */
  lemma ComponentExists(r: Relations, live: set<nat>, i: nat) returns (c: set<nat>)
    requires i in live
    ensures IsComponent(r, live, c, i)
  {
    c := set x | x in live && InEveryClosed(r, live, i, x);
    forall a, b | a in c && Linked(r, live, a, b) ensures b in c {
      LinkedLive(r, live, a, b);
    }
    forall d: set<nat> | i in d && d < c ensures LinkedAcross(r, live, d, c - d) {
      if !LinkedAcross(r, live, d, c - d) {
        UnlinkedPart(r, live, c, d);
      }
    }
  }

  lemma UnlinkedPart(r: Relations, live: set<nat>, c: set<nat>, d: set<nat>)
    requires Closed(r, live, c) && d <= c && !LinkedAcross(r, live, d, c - d)
    ensures Closed(r, live, d)
  {
  }

  ghost predicate InEveryClosed(r: Relations, live: set<nat>, i: nat, x: nat) {
    forall d: set<nat> :: Closed(r, live, d) && i in d ==> x in d
  }

  /** Any two members of a component have the same component. */
  lemma ComponentOfMember(r: Relations, live: set<nat>, c: set<nat>, i: nat, j: nat)
    requires IsComponent(r, live, c, i) && j in c
    ensures IsComponent(r, live, c, j)
  {
    forall d: set<nat> | j in d && d < c ensures LinkedAcross(r, live, d, c - d) {
      if i in d {
        assert LinkedAcross(r, live, d, c - d);
      } else {
        var e := c - d;
        assert LinkedAcross(r, live, e, c - e);
        var x, y :| x in e && y in c - e && Linked(r, live, x, y);
        LinkedSymmetric(r, live, x, y);
        assert y in d && x in c - d;
      }
    }
  }

  /** Deleting a closed set changes neither the links nor the components among the rest. */
  lemma LinksSurvive(r: Relations, live: set<nat>, gone: set<nat>, h: nat, a: nat, b: nat)
    requires Closed(r, live, gone) && Links(r, live, h, a, b) && a !in gone
    ensures Links(r, live - gone, h, a, b) && b !in gone
  {
    assert Linked(r, live, a, b);
    LinkedSymmetric(r, live, a, b);
    assert Holders(r.f, live - gone, h) == Holders(r.f, live, h) - gone;
    assert Holders(r.f, live - gone, h) == {a, b};
  }
}
