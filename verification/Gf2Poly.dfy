/** Polynomials over GF(2), written as the set of the exponents that occur.  The product is defined by
    counting: an exponent occurs in it when it is a sum of exponents in an odd number of ways. */
module Gf2Poly {
  import opened XorSets

  /** The ways to write e as a sum of an exponent of a and one of b. */
  function Pairs(a: set<nat>, b: set<nat>, e: nat): set<nat> {
    set i | i in a && i <= e && e - i in b
  }

  function Product(a: set<nat>, b: set<nat>): set<nat> {
    set e | e in (set i, j | i in a && j in b :: i + j) && |Pairs(a, b, e)| % 2 == 1
  }

  /** Multiplication by a power of the variable. */
  function Shift(a: set<nat>, k: nat): (r: set<nat>)
    ensures forall e :: e in r <==> e >= k && e - k in a
  {
    set i | i in a :: i + k
  }

  lemma ProductMember(a: set<nat>, b: set<nat>, e: nat)
    ensures e in Product(a, b) <==> |Pairs(a, b, e)| % 2 == 1
  {
    if |Pairs(a, b, e)| % 2 == 1 {
      var i :| i in Pairs(a, b, e);
      assert i + (e - i) == e;
    }
  }

  lemma ProductLeft(a: set<nat>, a': set<nat>, b: set<nat>)
    ensures Product(SymDiff(a, a'), b) == SymDiff(Product(a, b), Product(a', b))
  {
    forall e: nat ensures e in Product(SymDiff(a, a'), b) <==> e in SymDiff(Product(a, b), Product(a', b)) {
      ProductMember(SymDiff(a, a'), b, e);
      ProductMember(a, b, e);
      ProductMember(a', b, e);
      assert Pairs(SymDiff(a, a'), b, e) == SymDiff(Pairs(a, b, e), Pairs(a', b, e));
      SymDiffParity(Pairs(a, b, e), Pairs(a', b, e));
    }
  }

  /** The reflection i to e - i keeps the size of a set. */
  lemma {:induction false} ReflectSize(s: set<nat>, t: set<nat>, e: nat)
    requires forall i :: i in s ==> i <= e
    requires forall i: nat :: i in t <==> i <= e && e - i in s
    ensures |s| == |t|
    decreases |s|
  {
    if s != {} {
      var i :| i in s;
      assert e - i in t;
      ReflectSize(s - {i}, t - {e - i}, e);
    } else {
      assert t == {};
    }
  }

  lemma ProductCommutes(a: set<nat>, b: set<nat>)
    ensures Product(a, b) == Product(b, a)
  {
    forall e: nat ensures e in Product(a, b) <==> e in Product(b, a) {
      ProductMember(a, b, e);
      ProductMember(b, a, e);
      ReflectSize(Pairs(a, b, e), Pairs(b, a, e), e);
    }
  }

  lemma ProductRight(a: set<nat>, b: set<nat>, b': set<nat>)
    ensures Product(a, SymDiff(b, b')) == SymDiff(Product(a, b), Product(a, b'))
  {
    ProductCommutes(a, SymDiff(b, b'));
    ProductCommutes(a, b);
    ProductCommutes(a, b');
    ProductLeft(b, b', a);
  }

  lemma {:induction false} ShiftSize(s: set<nat>, k: nat)
    ensures |Shift(s, k)| == |s|
    decreases |s|
  {
    if s != {} {
      var i :| i in s;
      ShiftSize(s - {i}, k);
      assert Shift(s, k) == Shift(s - {i}, k) + {i + k};
    } else {
      assert Shift(s, k) == {};
    }
  }

  lemma ProductShift(a: set<nat>, k: nat, b: set<nat>)
    ensures Product(Shift(a, k), b) == Shift(Product(a, b), k)
  {
    forall e: nat ensures e in Product(Shift(a, k), b) <==> e in Shift(Product(a, b), k) {
      ProductMember(Shift(a, k), b, e);
      if e >= k {
        ProductMember(a, b, e - k);
        assert Pairs(Shift(a, k), b, e) == Shift(Pairs(a, b, e - k), k);
        ShiftSize(Pairs(a, b, e - k), k);
      } else {
        assert Pairs(Shift(a, k), b, e) == {};
      }
    }
  }

  lemma ProductShiftRight(a: set<nat>, b: set<nat>, k: nat)
    ensures Product(a, Shift(b, k)) == Shift(Product(a, b), k)
  {
    ProductCommutes(a, Shift(b, k));
    ProductCommutes(a, b);
    ProductShift(b, k, a);
  }

  lemma ShiftSum(a: set<nat>, b: set<nat>, k: nat)
    ensures Shift(SymDiff(a, b), k) == SymDiff(Shift(a, k), Shift(b, k))
  {
  }

  lemma ShiftShift(a: set<nat>, j: nat, k: nat, l: nat)
    requires l == j + k
    ensures Shift(Shift(a, j), k) == Shift(a, l)
  {
  }

  ghost predicate Below(a: set<nat>, n: nat) {
    forall e :: e in a ==> e < n
  }

  lemma ProductBelow(a: set<nat>, m: nat, b: set<nat>, n: nat)
    requires Below(a, m) && Below(b, n)
    ensures Below(Product(a, b), m + n)
  {
  }

  lemma ProductEmpty(b: set<nat>)
    ensures Product({}, b) == {} && Product(b, {}) == {}
  {
  }

  /** Karatsuba's identity. */
  lemma KaratsubaIdentity(a0: set<nat>, a1: set<nat>, b0: set<nat>, b1: set<nat>, k: nat)
    ensures Product(SymDiff(a0, Shift(a1, k)), SymDiff(b0, Shift(b1, k)))
            == Assemble(Product(a0, b0), Product(SymDiff(a0, a1), SymDiff(b0, b1)), Product(a1, b1), k)
  {
    var low, high, x, y := Product(a0, b0), Product(a1, b1), Product(a0, b1), Product(a1, b0);
    Expand(a0, a1, b0, b1);
    ExpandShifted(a0, a1, b0, b1, k);
    Regroup(low, x, y, high, k);
  }

  lemma ExpandShifted(a0: set<nat>, a1: set<nat>, b0: set<nat>, b1: set<nat>, k: nat)
    ensures Product(SymDiff(a0, Shift(a1, k)), SymDiff(b0, Shift(b1, k)))
            == SymDiff(SymDiff(Product(a0, b0), Shift(Product(a0, b1), k)), SymDiff(Shift(Product(a1, b0), k), Shift(Product(a1, b1), 2 * k)))
  {
    Expand(a0, Shift(a1, k), b0, Shift(b1, k));
    ProductShiftRight(a0, b1, k);
    ProductShift(a1, k, b0);
    ProductShift(a1, k, Shift(b1, k));
    ProductShiftRight(a1, b1, k);
    ShiftShift(Product(a1, b1), k, k, 2 * k);
  }

  lemma Regroup(low: set<nat>, x: set<nat>, y: set<nat>, high: set<nat>, k: nat)
    ensures SymDiff(SymDiff(low, Shift(x, k)), SymDiff(Shift(y, k), Shift(high, 2 * k)))
            == Assemble(low, SymDiff(SymDiff(low, x), SymDiff(y, high)), high, k)
  {
  }

  lemma Expand(a0: set<nat>, a1: set<nat>, b0: set<nat>, b1: set<nat>)
    ensures Product(SymDiff(a0, a1), SymDiff(b0, b1))
            == SymDiff(SymDiff(Product(a0, b0), Product(a0, b1)), SymDiff(Product(a1, b0), Product(a1, b1)))
  {
    ProductLeft(a0, a1, SymDiff(b0, b1));
    ProductRight(a0, b0, b1);
    ProductRight(a1, b0, b1);
  }

  /** low + (middle + low + high) X^k + high X^2k. */
  ghost function Assemble(low: set<nat>, middle: set<nat>, high: set<nat>, k: nat): set<nat> {
    SymDiff(SymDiff(low, Shift(SymDiff(middle, SymDiff(low, high)), k)), Shift(high, 2 * k))
  }
}
