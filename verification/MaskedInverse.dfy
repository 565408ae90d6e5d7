/** The vector versions of the modular inverse: the lanes of a register hold independent values, and
    every branch of the scalar loop becomes a masked update of all lanes. */
module MaskedInverse {
  import opened Arithmetic
  import opened ModularInverse

  type Vec = seq<nat>
  type Mask = seq<bool>

  // ----- Lane-wise operations -----

  function EqualTo(x: Vec, c: nat): Mask {
    seq(|x|, i requires 0 <= i < |x| => x[i] == c)
  }

  function Odd(x: Vec): Mask {
    seq(|x|, i requires 0 <= i < |x| => x[i] % 2 == 1)
  }

  function Or(p: Mask, q: Mask): Mask
    requires |p| == |q|
  {
    seq(|p|, i requires 0 <= i < |p| => p[i] || q[i])
  }

  function And(p: Mask, q: Mask): Mask
    requires |p| == |q|
  {
    seq(|p|, i requires 0 <= i < |p| => p[i] && q[i])
  }

  /** The lanes of q that are not in p. */
  function AndNot(p: Mask, q: Mask): Mask
    requires |p| == |q|
  {
    seq(|p|, i requires 0 <= i < |p| => !p[i] && q[i])
  }

  function Not(p: Mask): Mask {
    seq(|p|, i requires 0 <= i < |p| => !p[i])
  }

  /** Takes y in the lanes of the mask and x elsewhere. */
  function Blend(x: Vec, y: Vec, p: Mask): Vec
    requires |x| == |y| == |p|
  {
    seq(|x|, i requires 0 <= i < |x| => if p[i] then y[i] else x[i])
  }

  function ShiftRight(x: Vec): Vec {
    seq(|x|, i requires 0 <= i < |x| => x[i] / 2)
  }

  function Plus(x: Vec, y: Vec): Vec
    requires |x| == |y|
  {
    seq(|x|, i requires 0 <= i < |x| => Add32(x[i], y[i]))
  }

  function Minus(x: Vec, y: Vec): Vec
    requires |x| == |y|
  {
    seq(|x|, i requires 0 <= i < |x| => Sub32(x[i], y[i]))
  }

  /** Comparison of the lanes as signed words, the only one AVX2 has. */
  function GreaterSigned(x: Vec, y: Vec): Mask
    requires |x| == |y|
  {
    seq(|x|, i requires 0 <= i < |x| => Signed32(x[i]) > Signed32(y[i]))
  }

  function AtLeast(x: Vec, y: Vec): Mask
    requires |x| == |y|
  {
    seq(|x|, i requires 0 <= i < |x| => x[i] >= y[i])
  }

  // ----- One iteration -----

  datatype Lanes = Lanes(u: Vec, v: Vec, x1: Vec, x2: Vec) {
    predicate Sized(n: nat) {
      |u| == |v| == |x1| == |x2| == n
    }

    function At(i: nat): State
      requires Sized(|u|) && i < |u|
    {
      State(u[i], v[i], x1[i], x2[i])
    }
  }

  function Finished(l: Lanes): Mask
    requires l.Sized(|l.u|)
  {
    Or(EqualTo(l.u, 1), EqualTo(l.v, 1))
  }

  function HalveWhere(x: Vec, b: Vec, p: Mask): Vec
    requires |x| == |b| == |p|
  {
    Blend(x, Blend(ShiftRight(x), ShiftRight(Plus(x, b)), Odd(x)), p)
  }

  /** x - y modulo b in the lanes of p, where `less` marks the lanes with x below y. */
  function SubtractWhere(x: Vec, y: Vec, b: Vec, less: Mask, p: Mask): Vec
    requires |x| == |y| == |b| == |less| == |p|
  {
    var d := Minus(x, y);
    Blend(x, Blend(d, Plus(d, b), less), p)
  }

  /** The AVX2 version: masks are vectors and comparisons are signed. */
  function StepAvx2(l: Lanes, b: Vec): Lanes
    requires l.Sized(|b|)
  {
    var act := Not(Finished(l));
    var uodd, vodd := Odd(l.u), Odd(l.v);
    var ueven := AndNot(uodd, act);
    var veven := And(AndNot(vodd, act), uodd);
    var bothodd := And(act, And(uodd, vodd));
    var u := Blend(l.u, ShiftRight(l.u), ueven);
    var x1 := HalveWhere(l.x1, b, ueven);
    var v := Blend(l.v, ShiftRight(l.v), veven);
    var x2 := HalveWhere(l.x2, b, veven);
    var vgtu := GreaterSigned(v, u);
    var ugev, vgt := And(bothodd, Not(vgtu)), And(bothodd, vgtu);
    var u' := Blend(u, Minus(u, v), ugev);
    var x1' := SubtractWhere(x1, x2, b, GreaterSigned(x2, x1), ugev);
    var v' := Blend(v, Minus(v, u'), vgt);
    var x2' := SubtractWhere(x2, x1', b, GreaterSigned(x1', x2), vgt);
    Lanes(u', v', x1', x2')
  }

  /** The AVX-512 version: mask registers and unsigned comparisons. */
  function StepAvx512(l: Lanes, b: Vec): Lanes
    requires l.Sized(|b|)
  {
    var act := Not(Finished(l));
    var ueven := AndNot(Odd(l.u), act);
    var veven := AndNot(ueven, AndNot(Odd(l.v), act));
    var u := Blend(l.u, ShiftRight(l.u), ueven);
    var x1 := HalveWhere(l.x1, b, ueven);
    var v := Blend(l.v, ShiftRight(l.v), veven);
    var x2 := HalveWhere(l.x2, b, veven);
    var bothodd := AndNot(ueven, AndNot(veven, act));
    var uge := And(bothodd, AtLeast(u, v));
    var vgt := AndNot(uge, bothodd);
    var u' := Blend(u, Minus(u, v), uge);
    var x1' := SubtractWhere(x1, x2, b, Not(AtLeast(x1, x2)), uge);
    var v' := Blend(v, Minus(v, u'), vgt);
    var x2' := SubtractWhere(x2, x1', b, Not(AtLeast(x2, x1')), vgt);
    Lanes(u', v', x1', x2')
  }

  predicate Small(s: State, b: nat) {
    s.u < TWO31 && s.v < TWO31 && s.x1 < b && s.x2 < b && b < TWO31
  }

  /** Subtracting first and adding the modulus to the wrapped difference is the same. */
  lemma SubtractLate(x: nat, y: nat, b: nat)
    requires x < b && y < b && b < TWO31
    ensures SubMod(x, y, b) == if x < y then Add32(Sub32(x, y), b) else Sub32(x, y)
  {
  }

  lemma LaneAvx2(l: Lanes, b: Vec, i: nat)
    requires l.Sized(|b|) && i < |b| && Small(l.At(i), b[i])
    ensures StepAvx2(l, b).Sized(|b|) && StepAvx2(l, b).At(i) == Step(l.At(i), b[i])
  {
    var s := l.At(i);
    SubtractLate(s.x1, s.x2, b[i]);
    SubtractLate(s.x2, s.x1, b[i]);
  }

  lemma LaneAvx512(l: Lanes, b: Vec, i: nat)
    requires l.Sized(|b|) && i < |b| && Small(l.At(i), b[i])
    ensures StepAvx512(l, b).Sized(|b|) && StepAvx512(l, b).At(i) == Step(l.At(i), b[i])
  {
    var s := l.At(i);
    SubtractLate(s.x1, s.x2, b[i]);
    SubtractLate(s.x2, s.x1, b[i]);
  }

  // ----- The kernels -----

  ghost predicate Inputs(a: Vec, b: Vec) {
    |a| == |b| && forall i :: 0 <= i < |a| ==> Invertible(a[i], b[i])
  }

  function Load(a: Vec, b: Vec): Lanes
    requires |a| == |b|
  {
    Lanes(a, b, seq(|a|, _ => 1), seq(|a|, _ => 0))
  }

  /** Every lane is in the state the scalar loop has after `it` iterations. */
  ghost predicate InStep(a: Vec, b: Vec, l: Lanes, it: nat)
    requires |a| == |b|
  {
    l.Sized(|b|) && forall i {:trigger l.u[i]} :: 0 <= i < |b| ==> l.At(i) == Iterate(Start(a[i], b[i]), b[i], it)
  }

  predicate AllSet(p: Mask) {
    forall i :: 0 <= i < |p| ==> p[i]
  }

  lemma LanesSmall(a: nat, b: nat, it: nat)
    requires Invertible(a, b)
    ensures Small(Iterate(Start(a, b), b, it), b)
  {
    IterateInv(a, b, it);
  }

  /** One iteration of the AVX2 loop. */
  method IterateAvx2(ghost a: Vec, b: Vec, l: Lanes, ghost it: nat) returns (l': Lanes)
    requires Inputs(a, b) && InStep(a, b, l, it)
    ensures InStep(a, b, l', it + 1)
  {
    l' := StepAvx2(l, b);
    forall i | 0 <= i < |b| ensures l'.At(i) == Iterate(Start(a[i], b[i]), b[i], it + 1) {
      assert l.At(i) == Iterate(Start(a[i], b[i]), b[i], it);
      LanesSmall(a[i], b[i], it);
      LaneAvx2(l, b, i);
    }
  }

  /** One iteration of the AVX-512 loop. */
  method IterateAvx512(ghost a: Vec, b: Vec, l: Lanes, ghost it: nat) returns (l': Lanes)
    requires Inputs(a, b) && InStep(a, b, l, it)
    ensures InStep(a, b, l', it + 1)
  {
    l' := StepAvx512(l, b);
    forall i | 0 <= i < |b| ensures l'.At(i) == Iterate(Start(a[i], b[i]), b[i], it + 1) {
      assert l.At(i) == Iterate(Start(a[i], b[i]), b[i], it);
      LanesSmall(a[i], b[i], it);
      LaneAvx512(l, b, i);
    }
  }

  /** A lane that is not finished shows that the step bound has not been reached. */
  lemma StillRunning(a: Vec, b: Vec, l: Lanes, it: nat)
    requires Inputs(a, b) && InStep(a, b, l, it) && !AllSet(Finished(l))
    ensures it < MOST_STEPS
  {
    var i :| 0 <= i < |b| && !Finished(l)[i];
    assert l.At(i) == Iterate(Start(a[i], b[i]), b[i], it);
    IterateWithin(a[i], b[i], it);
  }

  /** Selects and reduces the result of every lane. */
  function Results(l: Lanes, b: Vec, atLeastB: Mask): Vec
    requires l.Sized(|b|) && |atLeastB| == |b|
  {
    var res := Blend(l.x2, l.x1, EqualTo(l.u, 1));
    Blend(res, Minus(res, b), atLeastB)
  }

  /** Every lane gets the inverse of its own value for its own modulus. */
  ghost predicate AllInverses(a: Vec, b: Vec, r: Vec)
    requires Inputs(a, b)
  {
    |r| == |b| && forall i {:trigger r[i]} :: 0 <= i < |b| ==> r[i] == Inverse(a[i], b[i])
  }

  lemma ResultsAreInverses(a: Vec, b: Vec, l: Lanes, it: nat, atLeastB: Mask)
    requires Inputs(a, b) && InStep(a, b, l, it) && AllSet(Finished(l)) && |atLeastB| == |b|
    requires var res := Blend(l.x2, l.x1, EqualTo(l.u, 1));
             forall i {:trigger atLeastB[i]} :: 0 <= i < |b| ==> res[i] < TWO31 ==> atLeastB[i] == (res[i] >= b[i])
    ensures AllInverses(a, b, Results(l, b, atLeastB))
  {
    var r := Results(l, b, atLeastB);
    forall i | 0 <= i < |b| ensures r[i] == Inverse(a[i], b[i]) {
      assert l.At(i) == Iterate(Start(a[i], b[i]), b[i], it);
      assert Finished(l)[i];
      LanesSmall(a[i], b[i], it);
      AnswerAnyTime(a[i], b[i], it);
      assert atLeastB[i] == (Blend(l.x2, l.x1, EqualTo(l.u, 1))[i] >= b[i]);
    }
  }

  /** Selects the result of every lane; comparisons are signed. */
  method FinishAvx2(ghost a: Vec, b: Vec, l: Lanes, ghost it: nat) returns (r: Vec)
    requires Inputs(a, b) && InStep(a, b, l, it) && AllSet(Finished(l))
    ensures AllInverses(a, b, r)
  {
    var res := Blend(l.x2, l.x1, EqualTo(l.u, 1));
    var ge := Not(GreaterSigned(b, res));
    ResultsAreInverses(a, b, l, it, ge);
    r := Results(l, b, ge);
  }

  /** The AVX2 kernel, for any number of lanes; `it` is the number of iterations made. */
  method ModInv8(a: Vec, b: Vec) returns (r: Vec, it: nat)
    requires Inputs(a, b)
    ensures AllInverses(a, b, r) && it <= MOST_STEPS < ITERATION_CAP
  {
    var l := Load(a, b);
    it := 0;
    while it < ITERATION_CAP
      invariant it <= MOST_STEPS
      invariant InStep(a, b, l, it)
    {
      if AllSet(Finished(l)) {
        break;
      }
      StillRunning(a, b, l, it);
      l := IterateAvx2(a, b, l, it);
      it := it + 1;
    }
    r := FinishAvx2(a, b, l, it);
  }

  /** Selects the result of every lane; comparisons are unsigned. */
  method FinishAvx512(ghost a: Vec, b: Vec, l: Lanes, ghost it: nat) returns (r: Vec)
    requires Inputs(a, b) && InStep(a, b, l, it) && AllSet(Finished(l))
    ensures AllInverses(a, b, r)
  {
    var res := Blend(l.x2, l.x1, EqualTo(l.u, 1));
    var ge := AtLeast(res, b);
    ResultsAreInverses(a, b, l, it, ge);
    r := Results(l, b, ge);
  }

  /** The AVX-512 kernel, for any number of lanes; `it` is the number of iterations made. */
  method ModInv16(a: Vec, b: Vec) returns (r: Vec, it: nat)
    requires Inputs(a, b)
    ensures AllInverses(a, b, r) && it <= MOST_STEPS < ITERATION_CAP
  {
    var l := Load(a, b);
    it := 0;
    while it < ITERATION_CAP
      invariant it <= MOST_STEPS
      invariant InStep(a, b, l, it)
    {
      if AllSet(Finished(l)) {
        break;
      }
      StillRunning(a, b, l, it);
      l := IterateAvx512(a, b, l, it);
      it := it + 1;
    }
    r := FinishAvx512(a, b, l, it);
  }
}
