/** Products, sums and dot products modulo an odd number, in plain representation, built on the
    Montgomery product. */
module FieldOps {
  import opened Arithmetic
  import opened Limbs
  import opened Montgomery

  /** The product of a and b divided by the radix, reduced modulo m. */
  method MontMul(a: seq<nat>, b: seq<nat>, m: seq<nat>, mp: nat) returns (r: seq<nat>)
    requires Modulus(m, mp) && Reduced(a, m) && Reduced(b, m)
    ensures Reduced(r, m) && Congruent(W(|m|) * V(r), V(a) * V(b), V(m))
  {
    var n := |m|;
    var t := new nat[n + 2](_ => 0);
    StartZero(t[..], m, b);
    assert Rounds(t[..], a, b, m, 0);
    for i := 0 to n
      invariant Rounds(t[..], a, b, m, i)
    {
      NextRound(t, a, b, m, mp, i);
    }
    r := FinalStep(t[..], a, b, m, mp);
  }

  /** After i rounds. */
  ghost predicate Rounds(t: seq<nat>, a: seq<nat>, b: seq<nat>, m: seq<nat>, i: nat) {
    i <= |a| && Between(t, m) && Congruent(W(i) * V(t[..|m|]), V(a[..i]) * V(b), V(m))
  }

  method NextRound(t: array<nat>, a: seq<nat>, b: seq<nat>, m: seq<nat>, mp: nat, i: nat)
    requires Modulus(m, mp) && Reduced(a, m) && Reduced(b, m) && i < |m| && Rounds(t[..], a, b, m, i)
    modifies t
    ensures Rounds(t[..], a, b, m, i + 1)
  {
    assert t[..][..|m|] == t[..|m|];
    Round(t, a[i], b, m, mp, V(a[..i]), W(i));
    VStep(a, i);
    WStep(i);
    assert t[..][..|m|] == t[..|m|];
  }

  /** One subtraction of the modulus is enough. */
  method FinalStep(t: seq<nat>, ghost a: seq<nat>, ghost b: seq<nat>, m: seq<nat>, ghost mp: nat) returns (r: seq<nat>)
    requires Modulus(m, mp) && |a| == |m| && Rounds(t, a, b, m, |m|)
    ensures Reduced(r, m) && Congruent(W(|m|) * V(r), V(a) * V(b), V(m))
  {
    ghost var x, p, w := V(t[..|m|]), V(a) * V(b), W(|m|);
    RoundsEnd(t, a, b, m, x, p, w);
    r := SubtractIfNotLess(t[..|m|], m);
    Subtracted(x, V(r), V(m), w, p);
  }

  lemma RoundsEnd(t: seq<nat>, a: seq<nat>, b: seq<nat>, m: seq<nat>, x: nat, p: nat, w: nat)
    requires |a| == |m| && Rounds(t, a, b, m, |m|) && x == V(t[..|m|]) && p == V(a) * V(b) && w == W(|m|)
    ensures Proper(t[..|m|]) && x < 2 * V(m) && Congruent(w * x, p, V(m))
  {
    assert a[..|m|] == a;
  }

  lemma StartZero(t: seq<nat>, m: seq<nat>, b: seq<nat>)
    requires |t| == |m| + 2 && (forall k :: 0 <= k < |t| ==> t[k] == 0) && V(m) > 0
    ensures Between(t, m) && Congruent(W(0) * V(t[..|m|]), V([]) * V(b), V(m))
  {
    ZeroValue(t[..|m|]);
    assert W(0) * 0 == 0 && 0 * V(b) == 0;
    CongruentRefl(0, V(m));
  }

  lemma {:induction false} ZeroValue(s: seq<nat>)
    requires forall k :: 0 <= k < |s| ==> s[k] == 0
    ensures V(s) == 0
  {
    if s != [] {
      ZeroValue(s[..|s| - 1]);
    }
  }

  lemma Subtracted(t: nat, r: nat, m: nat, w: nat, p: nat)
    requires r == (if t >= m then t - m else t) && Congruent(w * t, p, m)
    ensures Congruent(w * r, p, m)
  {
    if t >= m {
      Distribute(w, r, m);
      CongruentSum(w * t, w * r, m, w);
      CongruentSym(w * t, w * r, m);
      CongruentTrans(w * r, w * t, p, m);
    }
  }

  // ----- Addition -----

  ghost predicate Adding(a: seq<nat>, b: seq<nat>, s: seq<nat>, c: nat) {
    && |a| == |b| && |s| <= |a| && c <= 1 && Proper(a) && Proper(b) && Proper(s)
    && V(s) + W(|s|) * c == V(a[..|s|]) + V(b[..|s|])
  }

  lemma AddingStep(a: seq<nat>, b: seq<nat>, s: seq<nat>, c: nat, x: nat)
    requires Adding(a, b, s, c) && |s| < |a| && x == a[|s|] + b[|s|] + c
    ensures Adding(a, b, s + [Low(x)], x / BASE)
  {
    var j := |s|;
    var w, lo, hi := W(j), Low(x), x / BASE;
    ValueMore(s, RADIX, lo);
    VStep(a, j);
    VStep(b, j);
    WStep(j);
    AddStep(w, lo, hi, a[j], b[j], c);
  }

  lemma AddStep(w: nat, lo: nat, hi: nat, x: nat, y: nat, c: nat)
    requires lo + BASE * hi == x + y + c
    ensures w * lo + (w * BASE) * hi == w * x + w * y + w * c
  {
    assert w * (lo + BASE * hi) == w * (x + y + c);
    Distribute(w, lo, BASE * hi);
    Associate(w, BASE, hi);
    Distribute(w, x + y, c);
    Distribute(w, x, y);
  }

  /** The sum fits in the limbs, so the last carry is zero. */
  lemma AddingEnd(a: seq<nat>, b: seq<nat>, m: seq<nat>, s: seq<nat>, c: nat)
    requires Adding(a, b, s, c) && |s| == |a| && Reduced(a, m) && Reduced(b, m) && 2 * V(m) <= W(|m|)
    ensures c == 0 && V(s) == V(a) + V(b)
  {
    assert a[..|s|] == a && b[..|s|] == b;
    assert W(|s|) * 1 == W(|s|) && W(|s|) * 0 == 0;
  }

  /** a + b modulo m. */
  method AddMod(a: seq<nat>, b: seq<nat>, m: seq<nat>, ghost mp: nat) returns (r: seq<nat>)
    requires Modulus(m, mp) && Reduced(a, m) && Reduced(b, m)
    ensures Reduced(r, m) && Congruent(V(r), V(a) + V(b), V(m))
  {
    var s: seq<nat>, c: nat := [], 0;
    for j := 0 to |m|
      invariant |s| == j && c <= 1
      invariant Adding(a, b, s, c)
    {
      AddSmall(a[j], b[j]);
      AddSmall(a[j] + b[j], c);
      var x := Add64(Add64(a[j], b[j]), c);
      AddingStep(a, b, s, c, x);
      s, c := s + [Low(x)], x / BASE;
    }
    AddingEnd(a, b, m, s, c);
    r := SubtractIfNotLess(s, m);
    CongruentRefl(V(s), V(m));
    assert 1 * V(s) == V(s) && 1 * V(r) == V(r);
    Subtracted(V(s), V(r), V(m), 1, V(s));
  }

  // ----- Plain products -----

  /** The square of the radix, reduced. */
  ghost predicate RadixSquared(R2: seq<nat>, m: seq<nat>) {
    Reduced(R2, m) && Congruent(V(R2), W(|m|) * W(|m|), V(m))
  }

  /** A Montgomery product with the square of the radix undoes a missing radix. */
  lemma Unscaled(n: nat, x: nat, r2: nat, r: nat, p: int, m: nat)
    requires m % 2 == 1 && Congruent(r2, W(n) * W(n), m)
    requires Congruent(W(n) * r, x * r2, m) && Congruent(W(n) * x, p, m)
    ensures Congruent(r, p, m)
  {
    var w := W(n);
    assert Congruent(w * r, w * p, m) by {
      CongruentTimes(x, r2, w * w, m);
      CongruentTrans(w * r, x * r2, x * (w * w), m);
      CongruentTimes(w, w * x, p, m);
      assert x * (w * w) == w * (w * x);
      CongruentTrans(w * r, w * (w * x), w * p, m);
    }
    CancelRadix(RADIX, n, r, p, m);
  }

  lemma ReducedMod(r: nat, p: nat, m: nat)
    requires r < m && Congruent(r, p, m)
    ensures r == p % m
  {
    CongruentMod(p, m);
    CongruentTrans(r, p, p % m, m);
    CongruentReduced(r, p % m, m);
  }

  /** a times b modulo m. */
  method PlainMul(a: seq<nat>, b: seq<nat>, m: seq<nat>, mp: nat, R2: seq<nat>) returns (r: seq<nat>)
    requires Modulus(m, mp) && Reduced(a, m) && Reduced(b, m) && RadixSquared(R2, m)
    ensures Reduced(r, m) && V(r) == (V(a) * V(b)) % V(m)
  {
    var t := MontMul(a, b, m, mp);
    r := MontMul(t, R2, m, mp);
    Unscaled(|m|, V(t), V(R2), V(r), V(a) * V(b), V(m));
    ReducedMod(V(r), V(a) * V(b), V(m));
  }

  ghost predicate AllReduced(a: seq<seq<nat>>, m: seq<nat>) {
    forall i :: 0 <= i < |a| ==> Reduced(a[i], m)
  }

  /** The exact dot product of the first k entries. */
  ghost function Dot(a: seq<seq<nat>>, b: seq<seq<nat>>, k: nat): nat
    requires k <= |a| && k <= |b|
  {
    if k == 0 then 0 else Dot(a, b, k - 1) + V(a[k - 1]) * V(b[k - 1])
  }

  lemma DotStep(w: nat, acc: nat, t: nat, acc': nat, dot: nat, p: nat, m: nat)
    requires Congruent(w * acc, dot, m) && Congruent(w * t, p, m) && Congruent(acc', acc + t, m)
    ensures Congruent(w * acc', dot + p, m)
  {
    CongruentAdd(w * acc, dot, w * t, p, m);
    Distribute(w, acc, t);
    CongruentTimes(w, acc', acc + t, m);
    CongruentTrans(w * acc', w * (acc + t), dot + p, m);
  }

  /** One more term of a dot product. */
  method AddTerm(acc: seq<nat>, x: seq<nat>, y: seq<nat>, m: seq<nat>, mp: nat, ghost dot: nat) returns (acc': seq<nat>)
    requires Modulus(m, mp) && Reduced(acc, m) && Reduced(x, m) && Reduced(y, m) && Congruent(W(|m|) * V(acc), dot, V(m))
    ensures Reduced(acc', m) && Congruent(W(|m|) * V(acc'), dot + V(x) * V(y), V(m))
  {
    ghost var w, p := W(|m|), V(x) * V(y);
    var t := MontMul(x, y, m, mp);
    acc' := AddMod(acc, t, m, mp);
    ghost var v, u, v' := V(acc), V(t), V(acc');
    DotStep(w, v, u, v', dot, p, V(m));
  }

  /** The dot product modulo m, with one Montgomery product per term and one more at the end. */
  method DotProd(a: seq<seq<nat>>, b: seq<seq<nat>>, m: seq<nat>, mp: nat, R2: seq<nat>) returns (r: seq<nat>)
    requires Modulus(m, mp) && |a| == |b| && AllReduced(a, m) && AllReduced(b, m) && RadixSquared(R2, m)
    ensures Reduced(r, m) && V(r) == Dot(a, b, |a|) % V(m)
  {
    var acc: seq<nat> := seq(|m|, _ => 0);
    ZeroValue(acc);
    assert W(|m|) * 0 == 0;
    CongruentRefl(0, V(m));
    for i := 0 to |a|
      invariant Reduced(acc, m)
      invariant Congruent(W(|m|) * V(acc), Dot(a, b, i), V(m))
    {
      acc := AddTerm(acc, a[i], b[i], m, mp, Dot(a, b, i));
    }
    r := MontMul(acc, R2, m, mp);
    Unscaled(|m|, V(acc), V(R2), V(r), Dot(a, b, |a|), V(m));
    ReducedMod(V(r), Dot(a, b, |a|), V(m));
  }

  // ----- Elements stored in 64-bit limbs -----

  const WORD: nat := 64

  /** An element stored in 64-bit limbs. */
  ghost predicate Stored(x: seq<nat>, m: seq<nat>) {
    LimbsOk(x, WORD) && Value(x, WORD) < V(m)
  }

  method Load(x: seq<nat>, m: seq<nat>, ghost mp: nat) returns (r: seq<nat>)
    requires Modulus(m, mp) && Stored(x, m)
    ensures Reduced(r, m) && V(r) == Value(x, WORD)
  {
    r := Repack(x, WORD, |m|, RADIX);
    Pow2Values();
  }

  /** Loads every element of a vector. */
  method LoadAll(x: seq<seq<nat>>, m: seq<nat>, ghost mp: nat) returns (r: seq<seq<nat>>)
    requires Modulus(m, mp) && forall i :: 0 <= i < |x| ==> Stored(x[i], m)
    ensures |r| == |x| && AllReduced(r, m) && forall i {:trigger r[i]} :: 0 <= i < |x| ==> V(r[i]) == Value(x[i], WORD)
  {
    r := [];
    for i := 0 to |x|
      invariant |r| == i && AllReduced(r, m) && forall k {:trigger r[k]} :: 0 <= k < i ==> V(r[k]) == Value(x[k], WORD)
    {
      var y := Load(x[i], m, mp);
      r := r + [y];
    }
  }

  ghost function Dot64(a: seq<seq<nat>>, b: seq<seq<nat>>, k: nat): nat
    requires k <= |a| && k <= |b|
  {
    if k == 0 then 0 else Dot64(a, b, k - 1) + Value(a[k - 1], WORD) * Value(b[k - 1], WORD)
  }

  lemma {:induction false} SameDot(a: seq<seq<nat>>, b: seq<seq<nat>>, x: seq<seq<nat>>, y: seq<seq<nat>>, k: nat)
    requires k <= |a| == |x| && k <= |b| == |y|
    requires forall i {:trigger a[i]} :: 0 <= i < k ==> V(a[i]) == Value(x[i], WORD)
    requires forall i {:trigger b[i]} :: 0 <= i < k ==> V(b[i]) == Value(y[i], WORD)
    ensures Dot(a, b, k) == Dot64(x, y, k)
  {
    if k > 0 {
      SameDot(a, b, x, y, k - 1);
    }
  }

  /** w plus the dot product of a and b modulo m, with everything stored in 64-bit limbs. */
  method RoutedDotProd(w: seq<nat>, a: seq<seq<nat>>, b: seq<seq<nat>>, m: seq<nat>, mp: nat, R2: seq<nat>, n: nat) returns (r: seq<nat>)
    requires Modulus(m, mp) && RadixSquared(R2, m) && V(m) <= Limbs.Radix(WORD, n)
    requires Stored(w, m) && |a| == |b|
    requires (forall i :: 0 <= i < |a| ==> Stored(a[i], m)) && forall i :: 0 <= i < |b| ==> Stored(b[i], m)
    ensures |r| == n && Stored(r, m) && Value(r, WORD) == (Value(w, WORD) + Dot64(a, b, |a|)) % V(m)
  {
    var x := LoadAll(a, m, mp);
    var y := LoadAll(b, m, mp);
    var z := Load(w, m, mp);
    SameDot(x, y, a, b, |a|);
    var s := DotProd(x, y, m, mp, R2);
    var t := AddMod(s, z, m, mp);
    SumMod(V(t), V(s), V(z), Dot64(a, b, |a|), V(m));
    Pow2Values();
    r := Repack(t, RADIX, n, WORD);
  }

  lemma SumMod(t: nat, s: nat, z: nat, dot: nat, m: nat)
    requires m > 0 && s == dot % m && t < m && Congruent(t, s + z, m)
    ensures t == (z + dot) % m
  {
    CongruentMod(dot, m);
    CongruentSym(dot, s, m);
    CongruentRefl(z, m);
    CongruentAdd(s, dot, z, z, m);
    CongruentTrans(t, s + z, dot + z, m);
    ReducedMod(t, z + dot, m);
  }
}
