/** Numbers as sequences of limbs, least significant first, and the repacking between limbs of
    64 and of 52 bits. */
module Limbs {
  import opened Arithmetic

  /** The weight of limb j in radix 2^w. */
  ghost function Radix(w: nat, j: nat): (p: nat)
    ensures p > 0
  {
    if j == 0 then 1 else var q := Radix(w, j - 1); Scaled(q, Pow2(w)); q * Pow2(w)
  }

  lemma Scaled(q: nat, p: nat)
    requires q > 0 && p > 0
    ensures q * p > 0
  {
  }

  /** The number with limbs s in radix 2^w. */
  ghost function Value(s: seq<nat>, w: nat): nat {
    if s == [] then 0 else Value(s[..|s| - 1], w) + Radix(w, |s| - 1) * s[|s| - 1]
  }

  ghost predicate LimbsOk(s: seq<nat>, w: nat) {
    forall k :: 0 <= k < |s| ==> s[k] < Pow2(w)
  }

  lemma ValueStep(s: seq<nat>, w: nat, j: nat)
    requires j < |s|
    ensures Value(s[..j + 1], w) == Value(s[..j], w) + Radix(w, j) * s[j]
  {
    assert s[..j + 1][..j] == s[..j];
  }

  lemma ValueMore(s: seq<nat>, w: nat, x: nat)
    ensures Value(s + [x], w) == Value(s, w) + Radix(w, |s|) * x
  {
    assert (s + [x])[..|s|] == s;
  }

  lemma TopBound(x: nat, p: nat, a: nat, b: nat)
    requires x < p && a < b
    ensures x + p * a < p * b
  {
    Monotone(a + 1, b, p);
    Distribute(p, a, 1);
  }

  lemma {:induction false} ValueBound(s: seq<nat>, w: nat)
    requires LimbsOk(s, w)
    ensures Value(s, w) < Radix(w, |s|)
  {
    if s != [] {
      var n := |s| - 1;
      ValueBound(s[..n], w);
      TopBound(Value(s[..n], w), Radix(w, n), s[n], Pow2(w));
    }
  }

  lemma TopLimb(p: nat, x: nat, a: nat, y: nat, b: nat)
    requires x < p && y < p && x + p * a == y + p * b
    ensures a == b && x == y
  {
    Distribute(p, b, a);
    SmallMultiple(b - a, p);
  }

  /** The number determines its limbs. */
  lemma {:induction false} ValueInjective(s: seq<nat>, t: seq<nat>, w: nat)
    requires LimbsOk(s, w) && LimbsOk(t, w) && |s| == |t| && Value(s, w) == Value(t, w)
    ensures s == t
  {
    if s != [] {
      var n := |s| - 1;
      ValueBound(s[..n], w);
      ValueBound(t[..n], w);
      TopLimb(Radix(w, n), Value(s[..n], w), s[n], Value(t[..n], w), t[n]);
      ValueInjective(s[..n], t[..n], w);
      assert s == s[..n] + [s[n]] && t == t[..n] + [t[n]];
    }
  }

  /** Modulo an odd number, the radix can be cancelled. */
  lemma {:induction false} CancelRadix(w: nat, j: nat, x: int, y: int, m: int)
    requires m % 2 == 1 && Congruent(Radix(w, j) * x, Radix(w, j) * y, m)
    ensures Congruent(x, y, m)
  {
    if j > 0 {
      var q, p := Radix(w, j - 1), Pow2(w);
      assert Radix(w, j) * x == q * (p * x) && Radix(w, j) * y == q * (p * y) by {
        Associate(q, p, x);
        Associate(q, p, y);
      }
      CancelRadix(w, j - 1, p * x, p * y, m);
      CancelPow2(w, x, y, m);
    } else {
      assert Radix(w, j) * x == x && Radix(w, j) * y == y;
    }
  }

  // ----- Repacking -----

  /** Bitwise or. */
  function Or(x: nat, y: nat): nat
    decreases x + y
  {
    if x == 0 && y == 0 then 0 else 2 * Or(x / 2, y / 2) + (if x % 2 == 1 || y % 2 == 1 then 1 else 0)
  }

  lemma {:induction false} OrZero(y: nat)
    ensures Or(0, y) == y
  {
    if y > 0 {
      OrZero(y / 2);
    }
  }

  function ShiftLeft(y: nat, k: nat): nat {
    if k == 0 then y else 2 * ShiftLeft(y, k - 1)
  }

  function ShiftRight(x: nat, k: nat): nat {
    if k == 0 then x else ShiftRight(x / 2, k - 1)
  }

  /** The k lowest bits. */
  function LowBits(x: nat, k: nat): nat {
    if k == 0 then 0 else x % 2 + 2 * LowBits(x / 2, k - 1)
  }

  lemma {:induction false} ShiftLeftIs(y: nat, k: nat)
    ensures ShiftLeft(y, k) == y * Pow2(k)
  {
    if k > 0 {
      ShiftLeftIs(y, k - 1);
      assert y * (2 * Pow2(k - 1)) == 2 * (y * Pow2(k - 1));
    }
  }

  lemma {:induction false} SplitBits(x: nat, k: nat)
    ensures x == LowBits(x, k) + Pow2(k) * ShiftRight(x, k) && LowBits(x, k) < Pow2(k)
  {
    if k > 0 {
      SplitBits(x / 2, k - 1);
      Associate(2, Pow2(k - 1), ShiftRight(x / 2, k - 1));
    }
  }

  /** Or-ing in bits above those already there adds them. */
  lemma {:induction false} OrDisjoint(x: nat, y: nat, k: nat)
    requires x < Pow2(k)
    ensures Or(x, ShiftLeft(y, k)) == x + ShiftLeft(y, k)
  {
    if k == 0 {
      OrZero(y);
    } else {
      OrDisjoint(x / 2, y, k - 1);
      var p := ShiftLeft(y, k - 1);
      assert (2 * p) / 2 == p && (2 * p) % 2 == 0;
    }
  }

  /** The accumulator is a word of this many bits. */
  const ACCUMULATOR_BITS: nat := 128

  lemma {:induction false} Pow2Monotone(j: nat, k: nat)
    requires j <= k
    ensures Pow2(j) <= Pow2(k)
    decreases k
  {
    if j < k {
      Pow2Monotone(j, k - 1);
    }
  }

  /** The accumulator holds the bits that were read and not yet written: after src input limbs of
      `wi` bits and the output limbs o of `wo` bits, that is `bits` many. */
  ghost predicate Packing(input: seq<nat>, wi: nat, src: nat, o: seq<nat>, wo: nat, acc: nat, bits: int) {
    && src <= |input| && LimbsOk(o, wo)
    && Value(input[..src], wi) == Value(o, wo) + Radix(wo, |o|) * acc
    && (bits >= 0 ==> acc < Pow2(bits) && Radix(wi, src) == Radix(wo, |o|) * Pow2(bits))
    && (bits < 0 ==> src == |input| && acc == 0)
  }

  /** One more input limb goes into the accumulator. */
  lemma PackIn(input: seq<nat>, wi: nat, src: nat, o: seq<nat>, wo: nat, acc: nat, bits: nat)
    requires Packing(input, wi, src, o, wo, acc, bits) && src < |input| && input[src] < Pow2(wi)
    ensures acc + ShiftLeft(input[src], bits) < Pow2(bits + wi)
    ensures Packing(input, wi, src + 1, o, wo, acc + ShiftLeft(input[src], bits), bits + wi)
  {
    var r, x, b := Radix(wo, |o|), input[src], Pow2(bits);
    ValueStep(input, wi, src);
    Pow2Add(bits, wi);
    TopBound(acc, b, x, Pow2(wi));
    ShiftLeftIs(x, bits);
    assert r * (acc + x * b) == r * acc + (r * b) * x by {
      Distribute(r, acc, x * b);
      Associate(r, b, x);
    }
    Associate(r, b, Pow2(wi));
  }

  /** One more limb comes out of the accumulator. */
  lemma PackOut(input: seq<nat>, wi: nat, src: nat, o: seq<nat>, wo: nat, acc: nat, bits: int)
    requires Packing(input, wi, src, o, wo, acc, bits) && (bits >= wo || src == |input|)
    ensures Packing(input, wi, src, o + [LowBits(acc, wo)], wo, ShiftRight(acc, wo), bits - wo)
  {
    var b, r, low, high := Pow2(wo), Radix(wo, |o|), LowBits(acc, wo), ShiftRight(acc, wo);
    SplitBits(acc, wo);
    ValueMore(o, wo, low);
    assert r * acc == r * low + (r * b) * high by {
      Distribute(r, low, b * high);
      Associate(r, b, high);
    }
    if bits >= wo {
      Pow2Add(wo, bits - wo);
      HighBound(low, b, high, Pow2(bits - wo));
      Associate(r, b, Pow2(bits - wo));
    } else {
      if bits >= 0 {
        Pow2Monotone(bits, wo);
      }
      HighBound(low, b, high, 1);
    }
  }

  lemma HighBound(low: nat, b: nat, high: nat, n: nat)
    requires low + b * high < b * n
    ensures high < n
  {
    Monotone(n, if high >= n then high else n, b);
  }

  /** Input limbs that were not read do not matter modulo the size of the output. */
  lemma {:induction false} HighLimbs(input: seq<nat>, wi: nat, src: nat, j: nat, p: nat, c: nat)
    requires src <= j <= |input| && Radix(wi, src) == p * c
    ensures exists d: nat :: Radix(wi, j) == p * d
    ensures Congruent(Value(input[..j], wi), Value(input[..src], wi), p)
    decreases j
  {
    if j == src {
      CongruentRefl(Value(input[..j], wi), p);
    } else {
      HighLimbs(input, wi, src, j - 1, p, c);
      ValueStep(input, wi, j - 1);
      var d: nat :| Radix(wi, j - 1) == p * d;
      Associate(p, d, Pow2(wi));
      Associate(p, d, input[j - 1]);
      CongruentMultiple(Value(input[..j - 1], wi), d * input[j - 1], p);
      CongruentTrans(Value(input[..j], wi), Value(input[..j - 1], wi), Value(input[..src], wi), p);
    }
  }

  lemma UnreadLimbs(input: seq<nat>, wi: nat, src: nat, o: seq<nat>, wo: nat, acc: nat, bits: int)
    requires Packing(input, wi, src, o, wo, acc, bits)
    ensures Congruent(Value(input, wi), Value(input[..src], wi), Radix(wo, |o|))
  {
    assert input[..|input|] == input;
    if src == |input| {
      CongruentRefl(Value(input, wi), Radix(wo, |o|));
    } else {
      HighLimbs(input, wi, src, |input|, Radix(wo, |o|), Pow2(bits));
    }
  }

  lemma HeldBack(input: seq<nat>, wi: nat, src: nat, o: seq<nat>, wo: nat, acc: nat, bits: int)
    requires Packing(input, wi, src, o, wo, acc, bits)
    ensures Congruent(Value(input[..src], wi), Value(o, wo), Radix(wo, |o|))
  {
    CongruentSum(Value(input[..src], wi), Value(o, wo), Radix(wo, |o|), acc);
  }

  lemma PackEnd(input: seq<nat>, wi: nat, src: nat, o: seq<nat>, wo: nat, acc: nat, bits: int)
    requires Packing(input, wi, src, o, wo, acc, bits)
    ensures Congruent(Value(input, wi), Value(o, wo), Radix(wo, |o|))
  {
    UnreadLimbs(input, wi, src, o, wo, acc, bits);
    HeldBack(input, wi, src, o, wo, acc, bits);
    CongruentTrans(Value(input, wi), Value(input[..src], wi), Value(o, wo), Radix(wo, |o|));
  }

  /** Fills the accumulator from the input; the bits it holds never exceed its width. */
  method Fill(input: seq<nat>, wi: nat, src: nat, ghost o: seq<nat>, wo: nat, acc: nat, bits: int) returns (src': nat, acc': nat, bits': int)
    requires LimbsOk(input, wi) && wi + wo <= ACCUMULATOR_BITS && Packing(input, wi, src, o, wo, acc, bits)
    requires bits <= ACCUMULATOR_BITS
    ensures Packing(input, wi, src', o, wo, acc', bits') && (bits' >= wo || src' == |input|)
    ensures bits' <= ACCUMULATOR_BITS
  {
    src', acc', bits' := src, acc, bits;
    while bits' < wo && src' < |input|
      invariant Packing(input, wi, src', o, wo, acc', bits')
      invariant 0 <= src' <= |input| && bits' <= ACCUMULATOR_BITS
    {
      PackIn(input, wi, src', o, wo, acc', bits');
      OrDisjoint(acc', input[src'], bits');
      acc' := Or(acc', ShiftLeft(input[src'], bits'));
      src', bits' := src' + 1, bits' + wi;
    }
  }

  /** Repacks limbs of `wi` bits into n limbs of `wo` bits; the value is kept, except for bits beyond
      the last output limb. */
  method Repack(input: seq<nat>, wi: nat, n: nat, wo: nat) returns (o: seq<nat>)
    requires LimbsOk(input, wi) && wi + wo <= ACCUMULATOR_BITS
    ensures |o| == n && LimbsOk(o, wo) && Congruent(Value(input, wi), Value(o, wo), Radix(wo, n))
    ensures Value(input, wi) < Radix(wo, n) ==> Value(o, wo) == Value(input, wi)
  {
    o := [];
    var acc: nat, bits: int, src: nat := 0, 0, 0;
    assert Packing(input, wi, 0, o, wo, 0, 0);
    for i := 0 to n
      invariant |o| == i && bits <= ACCUMULATOR_BITS
      invariant Packing(input, wi, src, o, wo, acc, bits)
    {
      src, acc, bits := Fill(input, wi, src, o, wo, acc, bits);
      PackOut(input, wi, src, o, wo, acc, bits);
      o := o + [LowBits(acc, wo)];
      acc, bits := ShiftRight(acc, wo), bits - wo;
    }
    PackEnd(input, wi, src, o, wo, acc, bits);
    ValueBound(o, wo);
    if Value(input, wi) < Radix(wo, n) {
      CongruentReduced(Value(input, wi), Value(o, wo), Radix(wo, n));
    }
  }

  /** Repacking into limbs of another width and back gives the same limbs. */
  method RepackBothWays(input: seq<nat>, wi: nat, n: nat, wo: nat) returns (back: seq<nat>)
    requires LimbsOk(input, wi) && wi + wo <= ACCUMULATOR_BITS && Value(input, wi) < Radix(wo, n)
    ensures back == input
  {
    var o := Repack(input, wi, n, wo);
    ValueBound(input, wi);
    back := Repack(o, wo, |input|, wi);
    ValueInjective(back, input, wi);
  }
}
