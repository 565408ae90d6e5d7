/** Sparse rows: strictly increasing column lists whose meaning is a set, with the two-pointer
    loops that add two rows or weigh their sum. */
module SortedRows {
  import opened XorSets

  predicate Increasing(s: seq<nat>) {
    forall i, j :: 0 <= i < j < |s| ==> s[i] < s[j]
  }

  ghost function Elems(s: seq<nat>): set<nat> {
    set x | x in s
  }

  lemma {:induction false} ElemsSize(s: seq<nat>)
    requires Increasing(s)
    ensures |Elems(s)| == |s|
  {
    if s != [] {
      var n := |s| - 1;
      ElemsSize(s[..n]);
      assert Elems(s) == Elems(s[..n]) + {s[n]};
      assert s[n] !in s[..n];
    }
  }

  /** A set has one increasing listing, so adding rows by lists is adding them as sets. */
  lemma {:induction false} ListingUnique(s: seq<nat>, t: seq<nat>)
    requires Increasing(s) && Increasing(t) && Elems(s) == Elems(t)
    ensures s == t
  {
    ElemsSize(s);
    ElemsSize(t);
    if s != [] {
      var n := |s| - 1;
      LastIsLargest(s);
      LastIsLargest(t);
      assert s[n] in Elems(t) && t[n] in Elems(s);
      assert s[n] == t[n];
      DropLast(s);
      DropLast(t);
      ListingUnique(s[..n], t[..n]);
      assert s == s[..n] + [s[n]] && t == t[..n] + [t[n]];
    }
  }

  lemma LastIsLargest(s: seq<nat>)
    requires Increasing(s) && s != []
    ensures forall x :: x in Elems(s) ==> x <= s[|s| - 1]
  {
  }

  lemma DropLast(s: seq<nat>)
    requires Increasing(s) && s != []
    ensures Elems(s[..|s| - 1]) == Elems(s) - {s[|s| - 1]}
  {
    var n := |s| - 1;
    forall x | x in Elems(s) && x != s[n] ensures x in s[..n] {
      var i :| 0 <= i < |s| && s[i] == x;
      assert s[..n][i] == x;
    }
  }

  /** `r` is the increasing listing of the sum of `a` and `b` over GF(2). */
  ghost predicate IsSum(r: seq<nat>, a: seq<nat>, b: seq<nat>) {
    Increasing(r) && Elems(r) == SymDiff(Elems(a), Elems(b))
  }

  /** Progress of a two-pointer pass: what has been read of either list is below the rest of the other. */
  ghost predicate InStep(a: seq<nat>, t1: nat, b: seq<nat>, t2: nat) {
    && t1 <= |a| && t2 <= |b|
    && (forall i, j :: 0 <= i < t1 && t2 <= j < |b| ==> a[i] < b[j])
    && (forall i, j :: 0 <= i < t2 && t1 <= j < |a| ==> b[i] < a[j])
  }

  lemma ElemsStep(s: seq<nat>, t: nat)
    requires t < |s|
    ensures Elems(s[..t + 1]) == Elems(s[..t]) + {s[t]}
  {
    assert s[..t + 1] == s[..t] + [s[t]];
  }

  lemma FreshInPrefix(s: seq<nat>, t: nat)
    requires Increasing(s) && t < |s|
    ensures s[t] !in Elems(s[..t])
  {
  }

  lemma SumAppend(sum: seq<nat>, x: nat)
    requires Increasing(sum) && forall y :: y in sum ==> y < x
    ensures Increasing(sum + [x]) && Elems(sum + [x]) == Elems(sum) + {x}
  {
    assert forall i :: 0 <= i < |sum| ==> sum[i] in sum;
  }

  /** The two-pointer addition loop of `replay`, used for rows and for relation-sets alike. */
  method AddSorted(a: seq<nat>, b: seq<nat>) returns (sum: seq<nat>)
    requires Increasing(a) && Increasing(b)
    ensures IsSum(sum, a, b)
  {
    sum := [];
    var k1, k2 := 0, 0;
    while k1 < |a| && k2 < |b|
      invariant InStep(a, k1, b, k2)
      invariant IsSum(sum, a[..k1], b[..k2])
      decreases |a| + |b| - k1 - k2
    {
      if a[k1] < b[k2] {
        sum := Keep(sum, a, k1, b, k2);
        k1 := k1 + 1;
      } else if a[k1] > b[k2] {
        SumSymmetric(sum, a[..k1], b[..k2]);
        sum := Keep(sum, b, k2, a, k1);
        k2 := k2 + 1;
        SumSymmetric(sum, b[..k2], a[..k1]);
      } else {
        SumCancel(sum, a, k1, b, k2);
        k1 := k1 + 1;
        k2 := k2 + 1;
      }
    }
    while k1 < |a|
      invariant InStep(a, k1, b, k2) && (k1 < |a| ==> k2 == |b|)
      invariant IsSum(sum, a[..k1], b[..k2])
    {
      sum := Keep(sum, a, k1, b, k2);
      k1 := k1 + 1;
    }
    while k2 < |b|
      invariant InStep(a, k1, b, k2) && k1 == |a|
      invariant IsSum(sum, a[..k1], b[..k2])
    {
      SumSymmetric(sum, a[..k1], b[..k2]);
      sum := Keep(sum, b, k2, a, k1);
      k2 := k2 + 1;
      SumSymmetric(sum, b[..k2], a[..k1]);
    }
    assert a[..k1] == a && b[..k2] == b;
  }

  /** Reading one more cell of `a` that `b` has not. */
  method Keep(sum: seq<nat>, a: seq<nat>, k1: nat, b: seq<nat>, k2: nat) returns (r: seq<nat>)
    requires Increasing(a) && Increasing(b) && k1 < |a|
    requires InStep(a, k1, b, k2) && IsSum(sum, a[..k1], b[..k2])
    requires k2 < |b| ==> a[k1] < b[k2]
    ensures r == sum + [a[k1]]
    ensures IsSum(r, a[..k1 + 1], b[..k2]) && InStep(a, k1 + 1, b, k2)
  {
    KeepIsSum(sum, a, k1, b, k2);
    r := sum + [a[k1]];
  }

  lemma KeepIsSum(sum: seq<nat>, a: seq<nat>, k1: nat, b: seq<nat>, k2: nat)
    requires Increasing(a) && Increasing(b) && k1 < |a|
    requires InStep(a, k1, b, k2) && IsSum(sum, a[..k1], b[..k2])
    requires k2 < |b| ==> a[k1] < b[k2]
    ensures IsSum(sum + [a[k1]], a[..k1 + 1], b[..k2]) && InStep(a, k1 + 1, b, k2)
  {
    forall y | y in sum ensures y < a[k1] {
      assert y in Elems(sum);
    }
    SumAppend(sum, a[k1]);
    ElemsStep(a, k1);
    FreshInPrefix(a, k1);
    assert a[k1] !in Elems(b[..k2]);
  }

  lemma SumCancel(sum: seq<nat>, a: seq<nat>, k1: nat, b: seq<nat>, k2: nat)
    requires Increasing(a) && Increasing(b) && k1 < |a| && k2 < |b| && a[k1] == b[k2]
    requires InStep(a, k1, b, k2) && IsSum(sum, a[..k1], b[..k2])
    ensures IsSum(sum, a[..k1 + 1], b[..k2 + 1]) && InStep(a, k1 + 1, b, k2 + 1)
  {
    ElemsStep(a, k1);
    ElemsStep(b, k2);
    FreshInPrefix(a, k1);
    FreshInPrefix(b, k2);
  }

  lemma SumSymmetric(sum: seq<nat>, a: seq<nat>, b: seq<nat>)
    requires IsSum(sum, a, b)
    ensures IsSum(sum, b, a)
  {
    assert SymDiff(Elems(a), Elems(b)) == SymDiff(Elems(b), Elems(a));
  }

  /** The number of cells of the sum of two rows, found without building the sum. */
  method WeightSum(a: seq<nat>, b: seq<nat>) returns (w: nat)
    requires Increasing(a) && Increasing(b)
    ensures w == |SymDiff(Elems(a), Elems(b))|
  {
    var k1, k2 := 0, 0;
    w := 0;
    ghost var sum: seq<nat> := [];
    while k1 < |a| && k2 < |b|
      invariant InStep(a, k1, b, k2) && w == |sum|
      invariant IsSum(sum, a[..k1], b[..k2])
      decreases |a| + |b| - k1 - k2
    {
      if a[k1] < b[k2] {
        KeepIsSum(sum, a, k1, b, k2);
        sum := sum + [a[k1]];
        w := w + 1;
        k1 := k1 + 1;
      } else if a[k1] > b[k2] {
        SumSymmetric(sum, a[..k1], b[..k2]);
        KeepIsSum(sum, b, k2, a, k1);
        sum := sum + [b[k2]];
        w := w + 1;
        k2 := k2 + 1;
        SumSymmetric(sum, b[..k2], a[..k1]);
      } else {
        SumCancel(sum, a, k1, b, k2);
        k1 := k1 + 1;
        k2 := k2 + 1;
      }
    }
    sum := SumRest(sum, a, k1, b, k2);
    w := w + (|a| - k1);
    w := w + (|b| - k2);
    ElemsSize(sum);
  }

  /** Once one list is exhausted the sum is completed by the rest of the other. */
  lemma {:induction false} SumRest(sum: seq<nat>, a: seq<nat>, k1: nat, b: seq<nat>, k2: nat) returns (r: seq<nat>)
    requires Increasing(a) && Increasing(b)
    requires InStep(a, k1, b, k2) && IsSum(sum, a[..k1], b[..k2])
    requires k1 == |a| || k2 == |b|
    ensures IsSum(r, a, b) && |r| == |sum| + (|a| - k1) + (|b| - k2)
    decreases |a| - k1 + |b| - k2
  {
    if k1 < |a| {
      KeepIsSum(sum, a, k1, b, k2);
      r := SumRest(sum + [a[k1]], a, k1 + 1, b, k2);
    } else if k2 < |b| {
      SumSymmetric(sum, a[..k1], b[..k2]);
      KeepIsSum(sum, b, k2, a, k1);
      SumSymmetric(sum + [b[k2]], b[..k2 + 1], a[..k1]);
      r := SumRest(sum + [b[k2]], a, k1, b, k2 + 1);
    } else {
      assert a[..k1] == a && b[..k2] == b;
      r := sum;
    }
  }
}
