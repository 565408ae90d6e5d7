/** Field operations on numbers in limbs of 52 bits held in 64-bit lanes: Montgomery products by the
    coarsely integrated operand scanning method, modular addition, and what is built from them.  One
    lane of the vector code is modelled; the lanes do not interact. */
module Montgomery {
  import opened Arithmetic
  import opened Limbs

  const RADIX: nat := 52
  const BASE: nat := 0x10_0000_0000_0000
  const TWO63: nat := 0x8000_0000_0000_0000
  const TWO64: nat := 0x1_0000_0000_0000_0000

  ghost function W(j: nat): nat {
    Limbs.Radix(RADIX, j)
  }

  ghost function V(s: seq<nat>): nat {
    Value(s, RADIX)
  }

  ghost predicate Proper(s: seq<nat>) {
    forall k :: 0 <= k < |s| ==> s[k] < BASE
  }

  lemma WStep(j: nat)
    ensures W(j + 1) == W(j) * BASE
  {
    Pow2Values();
  }

  lemma VStep(s: seq<nat>, j: nat)
    requires j < |s|
    ensures V(s[..j + 1]) == V(s[..j]) + W(j) * s[j]
  {
    ValueStep(s, RADIX, j);
  }

  lemma VBound(s: seq<nat>)
    requires Proper(s)
    ensures V(s) < W(|s|)
  {
    Pow2Values();
    ValueBound(s, RADIX);
  }

  // ----- Lane operations -----

  function Add64(x: nat, y: nat): nat {
    (x + y) % TWO64
  }

  function Sub64(x: nat, y: nat): nat {
    (x - y) % TWO64
  }

  /** The low 52 bits of a lane. */
  function Low(x: nat): nat {
    x % BASE
  }

  function AddLowHalf(c: nat, p: nat): nat {
    Add64(c, p % BASE)
  }

  function AddHighHalf(c: nat, p: nat): nat {
    Add64(c, p / BASE)
  }

  /** Fused multiply-add of the low and of the high half of the product of two 52-bit factors. */
  function MaddLo(c: nat, x: nat, y: nat): nat {
    AddLowHalf(c, Low(x) * Low(y))
  }

  function MaddHi(c: nat, x: nat, y: nat): nat {
    AddHighHalf(c, Low(x) * Low(y))
  }

  lemma AddSmall(x: nat, y: nat)
    requires x + y < TWO64
    ensures Add64(x, y) == x + y
  {
  }

  lemma LowSmall(x: nat)
    requires x < BASE
    ensures Low(x) == x
  {
  }

  /** The new limb and the carry of one step of the inner loops. */
  function Limb(t: nat, x: nat, y: nat, c: nat): nat {
    Low(Add64(MaddLo(t, x, y), c))
  }

  function Carry(t: nat, x: nat, y: nat, c: nat): nat {
    MaddHi(Add64(MaddLo(t, x, y), c) / BASE, x, y)
  }

  /** No lane overflows, and the new limb and carry are exact. */
  lemma MaddExact(t: nat, x: nat, y: nat, c: nat)
    requires t < BASE && x < BASE && y < BASE && c < BASE
    ensures Limb(t, x, y, c) + BASE * Carry(t, x, y, c) == t + x * y + c
    ensures Limb(t, x, y, c) < BASE && Carry(t, x, y, c) < BASE
  {
    LowSmall(x);
    LowSmall(y);
    ProductBound(x, y);
    HalvesExact(t, x * y, c);
  }

  lemma ProductBound(x: nat, y: nat)
    requires x < BASE && y < BASE
    ensures x * y <= (BASE - 1) * (BASE - 1)
  {
    Monotone(x, BASE - 1, y);
    Monotone(y, BASE - 1, BASE - 1);
  }

  lemma HalvesExact(t: nat, p: nat, c: nat)
    requires t < BASE && p <= (BASE - 1) * (BASE - 1) && c < BASE
    ensures var lo := Add64(AddLowHalf(t, p), c);
            var c' := AddHighHalf(lo / BASE, p);
            Low(lo) + BASE * c' == t + p + c && c' < BASE
  {
    AddSmall(t, p % BASE);
    AddSmall(t + p % BASE, c);
    AddSmall((t + p % BASE + c) / BASE, p / BASE);
  }

  // ----- Inner loops -----

  lemma MulStep(w: nat, l: nat, t: nat, x: nat, b: nat, c: nat, tj: nat, bj: nat, tj': nat, c': nat)
    requires l + w * c == t + x * b && tj' + BASE * c' == tj + x * bj + c
    ensures (l + w * tj') + (w * BASE) * c' == (t + w * tj) + x * (b + w * bj)
  {
    assert w * (tj' + BASE * c') == w * (tj + x * bj + c);
    Distribute(w, tj', BASE * c');
    Distribute(w, tj + x * bj, c);
    Distribute(w, tj, x * bj);
    Distribute(x, b, w * bj);
    Associate(w, BASE, c');
    assert w * (x * bj) == x * (w * bj);
  }

  /** The first j limbs of t have been replaced by those of t plus x times b, with a carry. */
  ghost predicate Multiplied(t: seq<nat>, was: seq<nat>, x: nat, b: seq<nat>, j: nat, c: nat) {
    && |t| == |was| && j <= |b| <= |t| && c < BASE && Proper(t) && t[j..] == was[j..]
    && V(t[..j]) + W(j) * c == V(was[..j]) + x * V(b[..j])
  }

  lemma MultipliedStep(t: seq<nat>, was: seq<nat>, x: nat, b: seq<nat>, j: nat, c: nat)
    requires Multiplied(t, was, x, b, j, c) && j < |b| && x < BASE && Proper(b)
    ensures Multiplied(t[j := Limb(t[j], x, b[j], c)], was, x, b, j + 1, Carry(t[j], x, b[j], c))
  {
    var tj', c' := Limb(t[j], x, b[j], c), Carry(t[j], x, b[j], c);
    var t' := t[j := tj'];
    MaddExact(t[j], x, b[j], c);
    assert t[j] == t[j..][0] == was[j];
    MulStep(W(j), V(t[..j]), V(was[..j]), x, V(b[..j]), c, t[j], b[j], tj', c');
    assert t'[..j] == t[..j];
    VStep(t', j);
    VStep(was, j);
    VStep(b, j);
    WStep(j);
    assert t'[j + 1..] == t[j..][1..];
  }

  lemma MultipliedEnd(t: seq<nat>, was: seq<nat>, x: nat, b: seq<nat>, c: nat)
    requires |t| == |b| + 2 && Multiplied(t, was, x, b, |b|, c) && was[|b|] == 0
    ensures t[|b|] == 0 && t[|b| + 1] == was[|b| + 1]
    ensures V(t[|b| := c][..|b| + 1]) == V(was[..|b| + 1]) + x * V(b)
  {
    var n := |b|;
    var t' := t[n := c];
    assert t[n] == t[n..][0] && t[n + 1] == t[n..][1];
    assert t'[..n] == t[..n] && b[..n] == b;
    VStep(t', n);
    VStep(was, n);
    assert W(n) * was[n] == 0;
  }

  /** Adds x times b to t, which has room for two more limbs. */
  method MultiplyAdd(t: array<nat>, x: nat, b: seq<nat>)
    requires t.Length == |b| + 2 && Proper(t[..]) && Proper(b) && x < BASE && t[|b|] == 0
    modifies t
    ensures Proper(t[..]) && V(t[..|b| + 1]) == old(V(t[..|b| + 1])) + x * V(b) && t[|b| + 1] == old(t[|b| + 1])
  {
    var n := |b|;
    ghost var was := t[..];
    var c: nat := 0;
    for j := 0 to n
      invariant c < BASE
      invariant Multiplied(t[..], was, x, b, j, c)
    {
      ghost var before, carry := t[..], c;
      MultipliedStep(before, was, x, b, j, c);
      var lo := Add64(MaddLo(t[j], x, b[j]), c);
      t[j] := Low(lo);
      c := MaddHi(lo / BASE, x, b[j]);
      assert t[..] == before[j := Limb(before[j], x, b[j], carry)];
    }
    ghost var before := t[..];
    MultipliedEnd(before, was, x, b, c);
    AddSmall(0, c);
    t[n] := Add64(t[n], c);
    assert t[..] == before[n := c];
    assert t[..n + 1] == t[..][..n + 1] && was[..n + 1] == old(t[..n + 1]);
  }

  /** The multiple of m that makes the lowest limb vanish. */
  function Quotient(t0: nat, mp: nat): nat {
    Low(MaddLo(0, t0, mp))
  }

  ghost predicate NegInverse(m0: nat, mp: nat) {
    m0 < BASE && mp < BASE && exists k: nat :: m0 * mp + 1 == k * BASE
  }

  lemma QuotientIs(t0: nat, mp: nat) returns (l: nat)
    requires t0 < BASE && mp < BASE
    ensures Quotient(t0, mp) < BASE && t0 * mp == Quotient(t0, mp) + BASE * l
  {
    var p := t0 * mp;
    LowSmall(t0);
    LowSmall(mp);
    AddSmall(0, p % BASE);
    l := p / BASE;
  }

  lemma LowestVanishes(t0: nat, m0: nat, mp: nat)
    requires t0 < BASE && NegInverse(m0, mp)
    ensures Quotient(t0, mp) < BASE && Limb(t0, Quotient(t0, mp), m0, 0) == 0
  {
    var l := QuotientIs(t0, mp);
    var q := Quotient(t0, mp);
    MaddExact(t0, q, m0, 0);
    VanishedLimb(t0, q, m0, mp, l, Limb(t0, q, m0, 0), Carry(t0, q, m0, 0));
  }

  lemma VanishedLimb(t0: nat, q: nat, m0: nat, mp: nat, l: nat, x: nat, c: nat)
    requires NegInverse(m0, mp) && t0 * mp == q + BASE * l && x + BASE * c == t0 + q * m0 && x < BASE
    ensures x == 0
  {
    var k: nat :| m0 * mp + 1 == k * BASE;
    Vanish(t0, q, m0, mp, k, l, x, c);
    SmallMultiple(t0 * k - l * m0 - c, BASE);
  }

  lemma Vanish(t0: nat, q: nat, m0: nat, mp: nat, k: nat, l: nat, x: nat, c: nat)
    requires t0 * mp == q + BASE * l && m0 * mp + 1 == k * BASE && x + BASE * c == t0 + q * m0
    ensures x == (t0 * k - l * m0 - c) * BASE
  {
    calc {
      x + BASE * c + BASE * (l * m0);
      t0 + q * m0 + (BASE * l) * m0;
      { Distribute(m0, q, BASE * l); }
      t0 + (t0 * mp) * m0;
      { Associate(t0, mp, m0); Distribute(t0, 1, mp * m0); }
      t0 * (1 + mp * m0);
      t0 * (k * BASE);
      BASE * (t0 * k);
    }
  }

  /** While t + q m is divided by the base: the first j limbs of the sum have been formed, and the
      last j - 1 of them, shifted down by one, are the first limbs of t. */
  ghost predicate Reducing(t: seq<nat>, was: seq<nat>, q: nat, m: seq<nat>, j: nat, c: nat) {
    && |t| == |was| && 1 <= j <= |m| <= |t| && c < BASE && Proper(t) && t[j..] == was[j..]
    && BASE * V(t[..j - 1]) + W(j) * c == V(was[..j]) + q * V(m[..j])
  }

  lemma ReducingStart(t: seq<nat>, q: nat, m: seq<nat>)
    requires 1 <= |m| <= |t| && Proper(t) && Proper(m) && q < BASE && Limb(t[0], q, m[0], 0) == 0
    ensures Reducing(t, t, q, m, 1, Carry(t[0], q, m[0], 0))
  {
    MaddExact(t[0], q, m[0], 0);
    VStep(t, 0);
    VStep(m, 0);
    WStep(0);
    assert W(0) == 1 && V(t[..0]) == 0 && V(m[..0]) == 0;
    assert W(0) * t[0] == t[0] && W(0) * m[0] == m[0];
  }

  lemma ShiftedLimb(v: nat, w': nat, w: nat, x: nat)
    requires w == w' * BASE
    ensures BASE * (v + w' * x) == BASE * v + w * x
  {
    Distribute(BASE, v, w' * x);
    Associate(BASE, w', x);
  }

  lemma ReducingStep(t: seq<nat>, was: seq<nat>, q: nat, m: seq<nat>, j: nat, c: nat)
    requires Reducing(t, was, q, m, j, c) && j < |m| && q < BASE && Proper(m)
    ensures Reducing(t[j - 1 := Limb(t[j], q, m[j], c)], was, q, m, j + 1, Carry(t[j], q, m[j], c))
  {
    var tj', c' := Limb(t[j], q, m[j], c), Carry(t[j], q, m[j], c);
    var t' := t[j - 1 := tj'];
    MaddExact(t[j], q, m[j], c);
    assert t[j] == t[j..][0] == was[j];
    MulStep(W(j), BASE * V(t[..j - 1]), V(was[..j]), q, V(m[..j]), c, t[j], m[j], tj', c');
    assert t'[..j - 1] == t[..j - 1];
    VStep(t', j - 1);
    VStep(was, j);
    VStep(m, j);
    WStep(j);
    WStep(j - 1);
    ShiftedLimb(V(t[..j - 1]), W(j - 1), W(j), tj');
    assert t'[j + 1..] == t[j..][1..];
  }

  lemma ReducingEnd(t: seq<nat>, was: seq<nat>, q: nat, m: seq<nat>, c: nat, lo: nat, hi: nat)
    requires |t| == |m| + 2 && Reducing(t, was, q, m, |m|, c) && lo + BASE * hi == was[|m|] + c
    ensures t[|m|] == was[|m|] && t[|m| + 1] == was[|m| + 1]
    ensures BASE * V(t[|m| - 1 := lo][|m| := hi][..|m| + 1]) == V(was[..|m| + 1]) + q * V(m)
  {
    var n := |m|;
    var t' := t[n - 1 := lo][n := hi];
    assert t[n] == t[n..][0] && t[n + 1] == t[n..][1];
    assert t'[..n - 1] == t[..n - 1] && m[..n] == m;
    VStep(t', n - 1);
    VStep(t', n);
    VStep(was, n);
    WStep(n - 1);
    ShiftedSum(BASE * V(t[..n - 1]), W(n - 1), W(n), lo, hi, was[n], c, V(t[..n - 1]));
  }

  lemma ShiftedSum(l: nat, w': nat, w: nat, lo: nat, hi: nat, x: nat, c: nat, v: nat)
    requires l == BASE * v && w == w' * BASE && lo + BASE * hi == x + c
    ensures BASE * (v + w' * lo + w * hi) == l + w * c + w * x
  {
    assert w * (lo + BASE * hi) == w * (x + c);
    Distribute(w, lo, BASE * hi);
    Distribute(w, x, c);
    Associate(BASE, w', lo);
    Associate(BASE, w, hi);
    Associate(w, BASE, hi);
    Distribute(BASE, v + w' * lo, w * hi);
    Distribute(BASE, v, w' * lo);
  }

  /** Adds the multiple of m that clears the lowest limb, and divides by the base. */
  method ReduceOne(t: array<nat>, m: seq<nat>, mp: nat) returns (ghost q: nat)
    requires t.Length == |m| + 2 && |m| >= 1 && Proper(t[..]) && Proper(m) && NegInverse(m[0], mp) && t[|m| + 1] == 0
    modifies t
    ensures Proper(t[..]) && t[|m| + 1] == 0 && q < BASE
    ensures BASE * V(t[..|m| + 1]) == old(V(t[..|m| + 1])) + q * V(m)
  {
    var n := |m|;
    ghost var was := t[..];
    LowestVanishes(t[0], m[0], mp);
    var q' := Low(MaddLo(0, t[0], mp));
    q := q';
    ReducingStart(was, q', m);
    FirstCarry(t[0], q', m[0]);
    var lo0 := MaddLo(t[0], q', m[0]);
    var c := ShiftDown(t, was, q', m, MaddHi(lo0 / BASE, q', m[0]));
    TopLimbs(t, was, m, c, q);
  }

  lemma FirstCarry(t: nat, q: nat, m: nat)
    ensures MaddHi(MaddLo(t, q, m) / BASE, q, m) == Carry(t, q, m, 0)
  {
    assert Add64(MaddLo(t, q, m), 0) == MaddLo(t, q, m) by {
      AddZero(t, (Low(q) * Low(m)) % BASE);
    }
  }

  lemma AddZero(x: nat, y: nat)
    ensures Add64(Add64(x, y), 0) == Add64(x, y)
  {
  }

  /** The other limbs. */
  method ShiftDown(t: array<nat>, ghost was: seq<nat>, q: nat, m: seq<nat>, c0: nat) returns (c: nat)
    requires Reducing(t[..], was, q, m, 1, c0) && q < BASE && Proper(m)
    modifies t
    ensures Reducing(t[..], was, q, m, |m|, c)
  {
    c := c0;
    for j := 1 to |m|
      invariant Reducing(t[..], was, q, m, j, c)
    {
      ghost var before, carry := t[..], c;
      ReducingStep(before, was, q, m, j, c);
      var lo := Add64(MaddLo(t[j], q, m[j]), c);
      t[j - 1] := Low(lo);
      c := MaddHi(lo / BASE, q, m[j]);
      assert t[..] == before[j - 1 := Limb(before[j], q, m[j], carry)];
    }
  }

  /** The last two limbs. */
  method TopLimbs(t: array<nat>, ghost was: seq<nat>, m: seq<nat>, c: nat, ghost q: nat)
    requires t.Length == |m| + 2 && Reducing(t[..], was, q, m, |m|, c) && was[|m| + 1] == 0
    modifies t
    ensures Proper(t[..]) && t[|m| + 1] == 0
    ensures BASE * V(t[..|m| + 1]) == V(was[..|m| + 1]) + q * V(m)
  {
    var n := |m|;
    ghost var before := t[..];
    AddSmall(t[n], c);
    var s := Add64(t[n], c);
    ReducingEnd(before, was, q, m, c, Low(s), s / BASE);
    AddSmall(0, s / BASE);
    t[n - 1] := Low(s);
    t[n] := Add64(t[n + 1], s / BASE);
    t[n + 1] := 0;
    assert t[..n + 1] == before[n - 1 := Low(s)][n := s / BASE][..n + 1];
  }

  // ----- Conditional subtraction -----

  ghost predicate Subtracting(t: seq<nat>, m: seq<nat>, d: seq<nat>, borrow: nat) {
    && |t| == |m| && |d| <= |m| && borrow <= 1 && Proper(t) && Proper(m) && Proper(d)
    && V(d) + V(m[..|d|]) == V(t[..|d|]) + W(|d|) * borrow
  }

  /** The limb and the borrow of a subtraction in a 64-bit lane. */
  lemma BorrowExact(t: nat, m: nat, borrow: nat)
    requires t < BASE && m < BASE && borrow <= 1
    ensures var diff := Sub64(Sub64(t, m), borrow);
            && diff / TWO63 <= 1 && Low(diff) + m + borrow == t + BASE * (diff / TWO63)
  {
    if t >= m + borrow {
      assert Sub64(Sub64(t, m), borrow) == t - m - borrow;
    } else {
      assert Sub64(Sub64(t, m), borrow) == TWO64 + t - m - borrow;
    }
  }

  lemma SubtractingStep(t: seq<nat>, m: seq<nat>, d: seq<nat>, borrow: nat, x: nat, borrow': nat)
    requires Subtracting(t, m, d, borrow) && |d| < |m| && x < BASE && borrow' <= 1
    requires x + m[|d|] + borrow == t[|d|] + BASE * borrow'
    ensures Subtracting(t, m, d + [x], borrow')
  {
    var j := |d|;
    var w := W(j);
    ValueMore(d, RADIX, x);
    VStep(m, j);
    VStep(t, j);
    WStep(j);
    assert w * x + w * m[j] + w * borrow == w * t[j] + (w * BASE) * borrow' by {
      assert w * (x + m[j] + borrow) == w * (t[j] + BASE * borrow');
      Distribute(w, x + m[j], borrow);
      Distribute(w, x, m[j]);
      Distribute(w, t[j], BASE * borrow');
      Associate(w, BASE, borrow');
    }
  }

  /** Without a final borrow t is at least m and the difference is exact; with one, t is less. */
  lemma SubtractingEnd(t: seq<nat>, m: seq<nat>, d: seq<nat>, borrow: nat)
    requires Subtracting(t, m, d, borrow) && |d| == |m|
    ensures borrow == 0 ==> V(d) == V(t) - V(m)
    ensures borrow == 1 ==> V(t) < V(m)
  {
    assert t[..|d|] == t && m[..|d|] == m;
    VBound(d);
    assert W(|d|) * 0 == 0 && W(|d|) * 1 == W(|d|);
  }

  /** Subtracts m from t if t is at least m. */
  method SubtractIfNotLess(t: seq<nat>, m: seq<nat>) returns (r: seq<nat>)
    requires |t| == |m| && Proper(t) && Proper(m)
    ensures |r| == |m| && Proper(r) && V(r) == if V(t) >= V(m) then V(t) - V(m) else V(t)
  {
    var borrow: nat, d: seq<nat> := 0, [];
    for j := 0 to |m|
      invariant |d| == j && borrow <= 1
      invariant Subtracting(t, m, d, borrow)
    {
      BorrowExact(t[j], m[j], borrow);
      var diff := Sub64(Sub64(t[j], m[j]), borrow);
      SubtractingStep(t, m, d, borrow, Low(diff), diff / TWO63);
      d, borrow := d + [Low(diff)], diff / TWO63;
    }
    SubtractingEnd(t, m, d, borrow);
    r := if borrow == 0 then d else t;
  }

  // ----- Montgomery product -----

  /** What the caller provides: an odd modulus of which twice the value still fits, and the negated
      inverse of its lowest limb. */
  ghost predicate Modulus(m: seq<nat>, mp: nat) {
    |m| >= 1 && Proper(m) && V(m) % 2 == 1 && 2 * V(m) <= W(|m|) && NegInverse(m[0], mp)
  }

  ghost predicate Reduced(a: seq<nat>, m: seq<nat>) {
    |a| == |m| && Proper(a) && V(a) < V(m)
  }

  /** The accumulator between two rounds. */
  ghost predicate Between(t: seq<nat>, m: seq<nat>) {
    |t| == |m| + 2 && Proper(t) && t[|m|] == 0 && t[|m| + 1] == 0 && V(t[..|m|]) < 2 * V(m)
  }

  lemma RoundBound(t: nat, x: nat, b: nat, q: nat, m: nat, t': nat)
    requires BASE * t' == t + x * b + q * m && t < 2 * m && b < m && x < BASE && q < BASE
    ensures t' < 2 * m
  {
    Monotone(b, m, x);
    Monotone(x, BASE - 1, m);
    Monotone(q, BASE - 1, m);
  }

  lemma TopZero(t: seq<nat>, m: seq<nat>)
    requires |t| == |m| + 2 && V(t[..|m| + 1]) < 2 * V(m) <= W(|m|)
    ensures t[|m|] == 0 && V(t[..|m|]) == V(t[..|m| + 1])
  {
    VStep(t, |m|);
    assert W(|m|) * 1 == W(|m|);
    HighBound(V(t[..|m|]), W(|m|), t[|m|], 1);
  }

  lemma RoundCongruence(w: nat, t: nat, a: nat, b: nat, x: nat, q: nat, m: nat, t': nat)
    requires Congruent(w * t, a * b, m) && BASE * t' == t + x * b + q * m
    ensures Congruent((w * BASE) * t', (a + w * x) * b, m)
  {
    var k: int :| w * t - a * b == k * m;
    Associate(w, BASE, t');
    assert w * (t + x * b + q * m) == w * t + w * (x * b) + w * (q * m) by {
      Distribute(w, t + x * b, q * m);
      Distribute(w, t, x * b);
    }
    Distribute(b, a, w * x);
    Associate(w, x, b);
    Associate(w, q, m);
    Distribute(m, k, w * q);
    assert (w * BASE) * t' - (a + w * x) * b == (k + w * q) * m;
  }

  /** One round: t becomes (t + x b + q m) / BASE. */
  method Round(t: array<nat>, x: nat, b: seq<nat>, m: seq<nat>, mp: nat, ghost a: nat, ghost w: nat)
    requires Modulus(m, mp) && Reduced(b, m) && Between(t[..], m) && x < BASE
    requires Congruent(w * V(t[..|m|]), a * V(b), V(m))
    modifies t
    ensures Between(t[..], m)
    ensures Congruent((w * BASE) * V(t[..|m|]), (a + w * x) * V(b), V(m))
  {
    ghost var n, before := |m|, V(t[..|m|]);
    assert V(t[..n + 1]) == before by {
      assert t[..][..n + 1] == t[..n + 1] && t[..][..n] == t[..n];
      VStep(t[..], n);
      assert W(n) * 0 == 0;
    }
    MultiplyAdd(t, x, b);
    ghost var q := ReduceOne(t, m, mp);
    ghost var after := V(t[..n + 1]);
    RoundBound(before, x, V(b), q, V(m), after);
    RoundCongruence(w, before, a, V(b), x, q, V(m), after);
    assert t[..][..n + 1] == t[..n + 1] && t[..][..n] == t[..n];
    TopZero(t[..], m);
  }
}
