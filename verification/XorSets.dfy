/** Linear algebra over GF(2), with a vector written as the set of its non-zero coordinates.
    Addition is symmetric difference.  A combination of vectors is defined by counting: a
    coordinate is in the sum when an odd number of the chosen vectors have it. */
module XorSets {

  function SymDiff<T(!new)>(a: set<T>, b: set<T>): (r: set<T>)
    ensures forall x :: x in r <==> (x in a) != (x in b)
  {
    (a - b) + (b - a)
  }

  /** The vectors of `f` chosen by `pick` that have coordinate `x`. */
  ghost function Holders(f: seq<set<nat>>, pick: set<nat>, x: nat): set<nat> {
    set i | i in pick && i < |f| && x in f[i]
  }

  ghost predicate OddHolders(f: seq<set<nat>>, pick: set<nat>, x: nat) {
    |Holders(f, pick, x)| % 2 == 1
  }

  ghost function Support(f: seq<set<nat>>): set<nat> {
    set i, x | 0 <= i < |f| && x in f[i] :: x
  }

  /** The sum over GF(2) of the vectors of `f` whose index is in `pick`. */
  ghost function XorSum(f: seq<set<nat>>, pick: set<nat>): set<nat> {
    set x | x in Support(f) && OddHolders(f, pick, x)
  }

  lemma XorSumMember(f: seq<set<nat>>, pick: set<nat>, x: nat)
    ensures x in XorSum(f, pick) <==> OddHolders(f, pick, x)
  {
    if OddHolders(f, pick, x) {
      var i :| i in Holders(f, pick, x);
      assert x in f[i];
    }
  }

  /** Parity of a cardinality is additive over symmetric difference. */
  lemma SymDiffParity<T(!new)>(a: set<T>, b: set<T>)
    ensures |SymDiff(a, b)| == |a| + |b| - 2 * |a * b|
    ensures |SymDiff(a, b)| % 2 == (|a| + |b|) % 2
  {
    assert a == (a - b) + (a * b);
    assert b == (b - a) + (a * b);
  }

  lemma HoldersSymDiff(f: seq<set<nat>>, p: set<nat>, q: set<nat>, x: nat)
    ensures OddHolders(f, SymDiff(p, q), x) <==> OddHolders(f, p, x) != OddHolders(f, q, x)
  {
    assert Holders(f, SymDiff(p, q), x) == SymDiff(Holders(f, p, x), Holders(f, q, x));
    SymDiffParity(Holders(f, p, x), Holders(f, q, x));
  }

  /** Summation is linear in the chosen set. */
  lemma XorSumLinear(f: seq<set<nat>>, p: set<nat>, q: set<nat>)
    ensures XorSum(f, SymDiff(p, q)) == SymDiff(XorSum(f, p), XorSum(f, q))
  {
    forall x: nat
      ensures x in XorSum(f, SymDiff(p, q)) <==> x in SymDiff(XorSum(f, p), XorSum(f, q))
    {
      XorSumMember(f, SymDiff(p, q), x);
      XorSumMember(f, p, x);
      XorSumMember(f, q, x);
      HoldersSymDiff(f, p, q, x);
    }
  }

  lemma XorSumEmpty(f: seq<set<nat>>)
    ensures XorSum(f, {}) == {}
  {
    forall x: nat ensures x !in XorSum(f, {}) {
      XorSumMember(f, {}, x);
      assert Holders(f, {}, x) == {};
    }
  }

  lemma XorSumSingle(f: seq<set<nat>>, i: nat)
    requires i < |f|
    ensures XorSum(f, {i}) == f[i]
  {
    forall x: nat ensures x in XorSum(f, {i}) <==> x in f[i] {
      XorSumMember(f, {i}, x);
      assert Holders(f, {i}, x) == if x in f[i] then {i} else {};
    }
  }

  /** Only the chosen vectors matter. */
  lemma XorSumFrame(f: seq<set<nat>>, g: seq<set<nat>>, pick: set<nat>)
    requires |f| == |g|
    requires forall i :: i in pick && i < |f| ==> f[i] == g[i]
    ensures XorSum(f, pick) == XorSum(g, pick)
  {
    forall x: nat ensures x in XorSum(f, pick) <==> x in XorSum(g, pick) {
      XorSumMember(f, pick, x);
      XorSumMember(g, pick, x);
      assert Holders(f, pick, x) == Holders(g, pick, x);
    }
  }

  /** Splitting one chosen vector off a sum. */
  lemma XorSumSplit(f: seq<set<nat>>, pick: set<nat>, i: nat)
    requires i in pick && i < |f|
    ensures XorSum(f, pick) == SymDiff(f[i], XorSum(f, pick - {i}))
  {
    assert pick == SymDiff({i}, pick - {i});
    XorSumLinear(f, {i}, pick - {i});
    XorSumSingle(f, i);
  }

  /** Replacing vector `t` by `t + s` changes a sum exactly when `t` was chosen, and then it
      adds vector `s`: the sum is the old sum over the choice with `s` toggled. */
  lemma XorSumAddRow(f: seq<set<nat>>, t: nat, s: nat, pick: set<nat>)
    requires t < |f| && s < |f| && t != s
    ensures XorSum(f[t := SymDiff(f[t], f[s])], pick)
            == XorSum(f, if t in pick then SymDiff(pick, {s}) else pick)
  {
    var g := f[t := SymDiff(f[t], f[s])];
    if t in pick {
      calc {
        XorSum(g, pick);
        { XorSumSplit(g, pick, t); XorSumFrame(f, g, pick - {t}); }
        SymDiff(SymDiff(f[t], f[s]), XorSum(f, pick - {t}));
        { XorSumSplit(f, pick, t); }
        SymDiff(XorSum(f, pick), f[s]);
        { XorSumSingle(f, s); XorSumLinear(f, pick, {s}); }
        XorSum(f, SymDiff(pick, {s}));
      }
    } else {
      XorSumFrame(f, g, pick);
    }
  }

  /** If every vector `g[i]` is the sum over `h[i]` of vectors of `f`, a sum of the `g[i]` is the
      sum of `f` over the sum of the `h[i]`. */
  lemma {:induction false} XorSumCompose(f: seq<set<nat>>, g: seq<set<nat>>, h: seq<set<nat>>, pick: set<nat>)
    requires |g| == |h|
    requires forall i :: i in pick ==> i < |g| && g[i] == XorSum(f, h[i])
    ensures XorSum(g, pick) == XorSum(f, XorSum(h, pick))
    decreases |pick|
  {
    if pick == {} {
      XorSumEmpty(g);
      XorSumEmpty(h);
      XorSumEmpty(f);
    } else {
      var i :| i in pick;
      XorSumCompose(f, g, h, pick - {i});
      XorSumSplit(g, pick, i);
      XorSumSplit(h, pick, i);
      XorSumLinear(f, h[i], XorSum(h, pick - {i}));
    }
  }

  /** A sum only has coordinates of chosen vectors. */
  lemma XorSumWithin(f: seq<set<nat>>, pick: set<nat>, bound: set<nat>)
    requires forall i :: i in pick && i < |f| ==> f[i] <= bound
    ensures XorSum(f, pick) <= bound
  {
    forall x | x in XorSum(f, pick) ensures x in bound {
      XorSumMember(f, pick, x);
      var i :| i in Holders(f, pick, x);
    }
  }
}
