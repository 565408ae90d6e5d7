/** Binary extended Euclid on 32-bit words, one value at a time and as a masked kernel that runs
    many independent values side by side. */
module ModularInverse {
  import opened Arithmetic

  /** The most iterations a masked kernel makes. */
  const ITERATION_CAP := 4096

  // ----- 32-bit words -----

  function Add32(x: nat, y: nat): nat {
    (x + y) % TWO32
  }

  function Sub32(x: nat, y: nat): nat {
    (x - y) % TWO32
  }

  lemma NoWrap(x: nat, y: nat)
    ensures x + y < TWO32 ==> Add32(x, y) == x + y
    ensures y <= x < TWO32 ==> Sub32(x, y) == x - y
  {
  }

  // ----- One value -----

  datatype State = State(u: nat, v: nat, x1: nat, x2: nat)

  predicate Done(s: State) {
    s.u == 1 || s.v == 1
  }

  function Halve(x: nat, b: nat): nat {
    if x % 2 == 1 then Add32(x, b) / 2 else x / 2
  }

  function SubMod(x: nat, y: nat, b: nat): nat {
    if x >= y then Sub32(x, y) else Sub32(Add32(x, b), y)
  }

  /** One iteration; a finished state stays as it is. */
  function Step(s: State, b: nat): State {
    if Done(s) then s
    else if s.u % 2 == 0 then s.(u := s.u / 2, x1 := Halve(s.x1, b))
    else if s.v % 2 == 0 then s.(v := s.v / 2, x2 := Halve(s.x2, b))
    else if s.u >= s.v then s.(u := Sub32(s.u, s.v), x1 := SubMod(s.x1, s.x2, b))
    else s.(v := Sub32(s.v, s.u), x2 := SubMod(s.x2, s.x1, b))
  }

  function Start(a: nat, b: nat): State {
    State(a, b, 1, 0)
  }

  function Iterate(s: State, b: nat, n: nat): State {
    if n == 0 then s else Step(Iterate(s, b, n - 1), b)
  }

  function Answer(s: State, b: nat): nat {
    var res := if s.u == 1 then s.x1 else s.x2;
    if res >= b then Sub32(res, b) else res
  }

  // ----- What the words mean -----

  ghost predicate Divides(d: nat, x: nat) {
    exists k: nat :: x == d * k
  }

  ghost predicate Coprime(x: nat, y: nat) {
    forall d: nat :: Divides(d, x) && Divides(d, y) ==> d == 1
  }

  /** What the caller must provide. */
  ghost predicate Invertible(a: nat, b: nat) {
    1 <= a < b < TWO31 && b % 2 == 1 && Coprime(a, b)
  }

  ghost predicate IsInverse(a: nat, b: nat, r: nat) {
    r < b && Congruent(a * r, 1, b)
  }

  /** The residue x times a is congruent to u. */
  ghost predicate Carries(a: nat, b: nat, x: nat, u: nat) {
    x < b && Congruent(a * x, u, b)
  }

  ghost predicate Inv(a: nat, b: nat, s: State) {
    && 1 <= s.u < TWO31 && 1 <= s.v < TWO31 && Coprime(s.u, s.v)
    && Carries(a, b, s.x1, s.u) && Carries(a, b, s.x2, s.v)
  }

  lemma StartInv(a: nat, b: nat)
    requires Invertible(a, b)
    ensures Inv(a, b, Start(a, b))
  {
    assert a * 1 - a == 0 * b;
    assert a * 0 - b == (-1) * b;
  }

  lemma CoprimeHalf(x: nat, y: nat)
    requires x % 2 == 0 && Coprime(x, y)
    ensures Coprime(x / 2, y)
  {
    forall d: nat | Divides(d, x / 2) && Divides(d, y) ensures d == 1 {
      var k: nat :| x / 2 == d * k;
      assert x == d * (2 * k);
    }
  }

  lemma CoprimeSwap(x: nat, y: nat)
    requires Coprime(x, y)
    ensures Coprime(y, x)
  {
  }

  lemma CoprimeDifference(x: nat, y: nat)
    requires x >= y && Coprime(x, y)
    ensures Coprime(x - y, y)
  {
    forall d: nat | Divides(d, x - y) && Divides(d, y) ensures d == 1 {
      var k: nat :| x - y == d * k;
      var l: nat :| y == d * l;
      assert x == d * (k + l) by {
        assert d * (k + l) == d * k + d * l;
      }
    }
  }

  lemma CongruentShift(a: int, x: int, u: int, b: int, t: int)
    requires Congruent(a * x, u, b)
    ensures Congruent(a * (x + t * b), u, b)
  {
    var k: int :| a * x - u == k * b;
    var j := k + a * t;
    assert j * b == k * b + a * t * b;
    assert a * (x + t * b) == a * x + a * t * b;
  }

  lemma CongruentDifference(a: int, x: int, u: int, y: int, v: int, b: int)
    requires Congruent(a * x, u, b) && Congruent(a * y, v, b)
    ensures Congruent(a * (x - y), u - v, b)
  {
    var k: int :| a * x - u == k * b;
    var l: int :| a * y - v == l * b;
    assert a * (x - y) == a * x - a * y;
    assert (k - l) * b == k * b - l * b;
  }

  lemma Twice(a: int, h: int)
    ensures a * (2 * h) == 2 * (a * h)
  {
  }

  lemma HalveCarries(a: nat, b: nat, x: nat, u: nat)
    requires b % 2 == 1 && b < TWO31 && u % 2 == 0 && Carries(a, b, x, u)
    ensures Carries(a, b, Halve(x, b), u / 2)
  {
    var h := Halve(x, b);
    var t := x % 2;
    CongruentShift(a, x, u, b, t);
    assert x + t * b == 2 * h by {
      NoWrap(x, b);
      assert t * b == if t == 1 then b else 0;
    }
    assert a * (2 * h) == 2 * (a * h) by {
      Twice(a, h);
    }
    CongruentHalf(a * h, u / 2, b);
  }

  lemma SubModCarries(a: nat, b: nat, x: nat, u: nat, y: nat, v: nat)
    requires b < TWO31 && Carries(a, b, x, u) && Carries(a, b, y, v) && v <= u
    ensures Carries(a, b, SubMod(x, y, b), u - v)
  {
    CongruentDifference(a, x, u, y, v, b);
    var t := if x >= y then 0 else 1;
    CongruentShift(a, x - y, u - v, b, t);
    assert SubMod(x, y, b) == x - y + t * b by {
      NoWrap(x, y);
      NoWrap(x, b);
      NoWrap(x + b, y);
    }
  }

  lemma NotEqual(u: nat, v: nat)
    requires Coprime(u, v) && u != 1
    ensures u != v
  {
    assert u == u * 1;
    assert Divides(u, u);
  }

  lemma StepInv(a: nat, b: nat, s: State)
    requires b % 2 == 1 && b < TWO31 && Inv(a, b, s)
    ensures Inv(a, b, Step(s, b))
  {
    if Done(s) {
    } else if s.u % 2 == 0 {
      CoprimeHalf(s.u, s.v);
      HalveCarries(a, b, s.x1, s.u);
    } else if s.v % 2 == 0 {
      CoprimeSwap(s.u, s.v);
      CoprimeHalf(s.v, s.u);
      CoprimeSwap(s.v / 2, s.u);
      HalveCarries(a, b, s.x2, s.v);
    } else {
      NotEqual(s.u, s.v);
      if s.u >= s.v {
        NoWrap(s.u, s.v);
        CoprimeDifference(s.u, s.v);
        SubModCarries(a, b, s.x1, s.u, s.x2, s.v);
      } else {
        NoWrap(s.v, s.u);
        CoprimeSwap(s.u, s.v);
        CoprimeDifference(s.v, s.u);
        CoprimeSwap(s.v - s.u, s.u);
        SubModCarries(a, b, s.x2, s.v, s.x1, s.u);
      }
    }
  }

  lemma {:induction false} IterateInv(a: nat, b: nat, n: nat)
    requires Invertible(a, b)
    ensures Inv(a, b, Iterate(Start(a, b), b, n))
  {
    if n == 0 {
      StartInv(a, b);
    } else {
      IterateInv(a, b, n - 1);
      StepInv(a, b, Iterate(Start(a, b), b, n - 1));
    }
  }

  // ----- How long it takes -----

  /** The state is finished, or at most n steps away from it: the product of the two words halves
      at least every second step. */
  ghost predicate Within(s: State, n: nat) {
    Done(s) || exists k: nat :: Budget(s, k, n)
  }

  ghost predicate Budget(s: State, k: nat, n: nat) {
    s.u * s.v < Pow2(k) && 2 * k - (if s.u % 2 == 1 && s.v % 2 == 1 then 0 else 1) <= n
  }

  lemma HalfProduct(u: nat, v: nat, k: nat)
    requires u % 2 == 0 && u * v < Pow2(k) && u > 1 && v > 1
    ensures k > 0 && (u / 2) * v < Pow2(k - 1)
  {
    assert u * v == 2 * ((u / 2) * v);
    assert u * v >= 2 * v;
  }

  lemma StepWithin(a: nat, b: nat, s: State, n: nat)
    requires b % 2 == 1 && b < TWO31 && Inv(a, b, s) && Within(s, n) && !Done(s)
    ensures n > 0 && Within(Step(s, b), n - 1)
  {
    var k: nat :| Budget(s, k, n);
    var t := Step(s, b);
    if s.u % 2 == 0 {
      HalfProduct(s.u, s.v, k);
      assert Budget(t, k - 1, n - 1);
    } else if s.v % 2 == 0 {
      HalfProduct(s.v, s.u, k);
      assert Budget(t, k - 1, n - 1);
    } else {
      NotEqual(s.u, s.v);
      NoWrap(s.u, s.v);
      NoWrap(s.v, s.u);
      SmallerProducts(s.u, s.v, k);
      OddDifference(s.u, s.v);
      assert Budget(t, k, n - 1);
    }
  }

  lemma OddDifference(u: nat, v: nat)
    requires u % 2 == 1 && v % 2 == 1
    ensures (u - v) % 2 == 0 && (v - u) % 2 == 0
  {
  }

  lemma SmallerProducts(u: nat, v: nat, k: nat)
    requires u * v < Pow2(k) && u > 1 && v > 1
    ensures k > 0
    ensures u >= v ==> (u - v) * v < Pow2(k)
    ensures v >= u ==> u * (v - u) < Pow2(k)
  {
    assert k > 0 by {
      Monotone(1, u, v);
    }
    Monotone(u - v, u, v);
    Monotone(v - u, v, u);
  }

  /** Any input of less than 31 bits needs at most this many steps. */
  const MOST_STEPS: nat := 124

  lemma StartWithin(a: nat, b: nat)
    requires a < TWO31 && b < TWO31
    ensures Within(Start(a, b), MOST_STEPS)
  {
    Pow2Values();
    Monotone(a, TWO31, b);
    Monotone(b, TWO31, TWO31);
    assert a * b < Pow2(62);
    assert Budget(Start(a, b), 62, MOST_STEPS);
  }

  lemma {:induction false} IterateWithin(a: nat, b: nat, n: nat)
    requires Invertible(a, b)
    ensures Done(Iterate(Start(a, b), b, n)) || (n < MOST_STEPS && Within(Iterate(Start(a, b), b, n), MOST_STEPS - n))
  {
    if n == 0 {
      StartWithin(a, b);
    } else {
      IterateWithin(a, b, n - 1);
      var s := Iterate(Start(a, b), b, n - 1);
      if !Done(s) {
        IterateInv(a, b, n - 1);
        StepWithin(a, b, s, MOST_STEPS - (n - 1));
        if n == MOST_STEPS && !Done(Step(s, b)) {
          IterateInv(a, b, n);
          StepWithin(a, b, Step(s, b), 0);
        }
      }
    }
  }

  /** Once finished, further iterations change nothing. */
  lemma {:induction false} IterateStays(s: State, b: nat, n: nat, m: nat)
    requires n <= m && Done(Iterate(s, b, n))
    ensures Iterate(s, b, m) == Iterate(s, b, n)
    decreases m
  {
    if n < m {
      IterateStays(s, b, n, m - 1);
    }
  }

  /** The answer of a finished state is the inverse. */
  lemma AnswerIsInverse(a: nat, b: nat, s: State)
    requires Inv(a, b, s) && Done(s)
    ensures IsInverse(a, b, Answer(s, b))
  {
  }

  /** There is only one inverse. */
  lemma InverseUnique(a: nat, b: nat, r: nat, t: nat)
    requires IsInverse(a, b, r) && IsInverse(a, b, t)
    ensures r == t
  {
    var k: int :| a * r - 1 == k * b;
    var l: int :| a * t - 1 == l * b;
    assert r - t == (k * t - l * r) * b by {
      Associate(a, r, t);
      Associate(a, t, r);
      CrossProducts(a * r, a * t, k, l, b, t, r);
    }
    SmallMultiple(k * t - l * r, b);
  }

  lemma CrossProducts(p: int, q: int, k: int, l: int, b: int, t: int, r: int)
    requires p == k * b + 1 && q == l * b + 1 && p * t == q * r
    ensures r - t == (k * t - l * r) * b
  {
    Distribute(t, k * b, 1);
    Distribute(r, l * b, 1);
    assert (k * b) * t == (k * t) * b;
    assert (l * b) * r == (l * r) * b;
    Distribute(b, k * t, l * r);
  }

  /** The value that every version computes. */
  ghost function Inverse(a: nat, b: nat): (r: nat)
    requires Invertible(a, b)
    ensures IsInverse(a, b, r)
  {
    IterateInv(a, b, MOST_STEPS);
    IterateWithin(a, b, MOST_STEPS);
    AnswerIsInverse(a, b, Iterate(Start(a, b), b, MOST_STEPS));
    Answer(Iterate(Start(a, b), b, MOST_STEPS), b)
  }

  /** A finished state at any time gives that value. */
  lemma AnswerAnyTime(a: nat, b: nat, n: nat)
    requires Invertible(a, b) && Done(Iterate(Start(a, b), b, n))
    ensures Answer(Iterate(Start(a, b), b, n), b) == Inverse(a, b)
  {
    if n <= MOST_STEPS {
      IterateStays(Start(a, b), b, n, MOST_STEPS);
    } else {
      IterateWithin(a, b, MOST_STEPS);
      IterateStays(Start(a, b), b, MOST_STEPS, n);
    }
  }

  /** The scalar routine. */
  method ModInv1(a: nat, b: nat) returns (r: nat, ghost steps: nat)
    requires Invertible(a, b)
    ensures IsInverse(a, b, r) && r == Inverse(a, b) && steps <= MOST_STEPS
  {
    var u: nat, v: nat, x1: nat, x2: nat := a, b, 1, 0;
    steps := 0;
    while u != 1 && v != 1
      invariant State(u, v, x1, x2) == Iterate(Start(a, b), b, steps)
      invariant steps <= MOST_STEPS
      decreases MOST_STEPS - steps
    {
      IterateInv(a, b, steps);
      IterateWithin(a, b, steps);
      if u % 2 == 0 {
        u := u / 2;
        x1 := if x1 % 2 == 1 then Add32(x1, b) / 2 else x1 / 2;
      } else if v % 2 == 0 {
        v := v / 2;
        x2 := if x2 % 2 == 1 then Add32(x2, b) / 2 else x2 / 2;
      } else if u >= v {
        u := Sub32(u, v);
        x1 := if x1 >= x2 then Sub32(x1, x2) else Sub32(Add32(x1, b), x2);
      } else {
        v := Sub32(v, u);
        x2 := if x2 >= x1 then Sub32(x2, x1) else Sub32(Add32(x2, b), x1);
      }
      steps := steps + 1;
    }
    AnswerAnyTime(a, b, steps);
    r := if u == 1 then x1 else x2;
    if r >= b {
      r := Sub32(r, b);
    }
  }

}
