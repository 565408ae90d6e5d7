/** Powers of two, products and congruences. */
module Arithmetic {
  function Pow2(k: nat): (p: nat)
    ensures p > 0
  {
    if k == 0 then 1 else 2 * Pow2(k - 1)
  }

  lemma {:induction false} Pow2Add(j: nat, k: nat)
    ensures Pow2(j + k) == Pow2(j) * Pow2(k)
  {
    if j > 0 {
      Pow2Add(j - 1, k);
      Associate(2, Pow2(j - 1), Pow2(k));
    }
  }

  lemma Pow2Small()
    ensures Pow2(4) == 16 && Pow2(8) == 256 && Pow2(16) == 0x1_0000
  {
    assert Pow2(2) == 4;
    Pow2Add(2, 2);
    Pow2Add(4, 4);
    Pow2Add(8, 8);
  }

  lemma Pow2Values()
    ensures Pow2(62) == 0x4000_0000_0000_0000 && Pow2(52) == 0x10_0000_0000_0000
  {
    Pow2Small();
    Pow2Add(16, 16);
    Pow2Add(16, 4);
    Pow2Add(32, 20);
    Pow2Add(52, 8);
    Pow2Add(60, 2);
  }

  lemma Associate(x: int, y: int, z: int)
    ensures x * (y * z) == (x * y) * z
  {
  }

  lemma Distribute(x: int, y: int, z: int)
    ensures x * (y + z) == x * y + x * z
    ensures (y + z) * x == y * x + z * x
    ensures x * (y - z) == x * y - x * z
    ensures (y - z) * x == y * x - z * x
  {
  }

  lemma Monotone(x: int, y: int, z: int)
    requires x <= y && 0 <= z
    ensures x * z <= y * z && z * x <= z * y
  {
  }

  /** A multiple of b of absolute value less than b is zero. */
  lemma SmallMultiple(j: int, b: int)
    requires -b < j * b < b
    ensures j == 0
  {
    Distribute(b, j, 1);
    Monotone(1, if j >= 1 then j else 1, if b >= 0 then b else 0);
    Monotone(if j <= -1 then j else -1, -1, if b >= 0 then b else 0);
  }

  // ----- Congruences -----

  ghost predicate Congruent(x: int, y: int, m: int) {
    exists k: int :: x - y == k * m
  }

  lemma OddTimesOdd(k: int, b: int)
    requires k % 2 == 1 && b % 2 == 1
    ensures (k * b) % 2 == 1
  {
    var i, j := k / 2, b / 2;
    assert k * b == 2 * (2 * i * j + i + j) + 1;
  }

  /** Modulo an odd number, congruences can be halved. */
  lemma CongruentHalf(x: int, y: int, b: int)
    requires b % 2 == 1 && Congruent(2 * x, 2 * y, b)
    ensures Congruent(x, y, b)
  {
    var k: int :| 2 * x - 2 * y == k * b;
    if k % 2 == 1 {
      OddTimesOdd(k, b);
    }
    var j := k / 2;
    assert x - y == j * b by {
      assert (2 * j) * b == 2 * (j * b);
    }
  }

  lemma CongruentRefl(x: int, m: int)
    ensures Congruent(x, x, m)
  {
    assert x - x == 0 * m;
  }

  lemma CongruentSym(x: int, y: int, m: int)
    requires Congruent(x, y, m)
    ensures Congruent(y, x, m)
  {
    var k: int :| x - y == k * m;
    assert y - x == (-k) * m;
  }

  lemma CongruentTrans(x: int, y: int, z: int, m: int)
    requires Congruent(x, y, m) && Congruent(y, z, m)
    ensures Congruent(x, z, m)
  {
    var k: int :| x - y == k * m;
    var l: int :| y - z == l * m;
    Distribute(m, k, l);
    assert x - z == (k + l) * m;
  }

  lemma CongruentAdd(x: int, y: int, u: int, v: int, m: int)
    requires Congruent(x, y, m) && Congruent(u, v, m)
    ensures Congruent(x + u, y + v, m)
  {
    var k: int :| x - y == k * m;
    var l: int :| u - v == l * m;
    Distribute(m, k, l);
    assert (x + u) - (y + v) == (k + l) * m;
  }

  lemma CongruentTimes(c: int, x: int, y: int, m: int)
    requires Congruent(x, y, m)
    ensures Congruent(c * x, c * y, m)
  {
    var k: int :| x - y == k * m;
    Distribute(c, x, y);
    Associate(c, k, m);
    assert c * x - c * y == (c * k) * m;
  }

  lemma CongruentMultiple(x: int, k: int, m: int)
    ensures Congruent(x + k * m, x, m)
  {
    assert (x + k * m) - x == k * m;
  }

  lemma CongruentSum(x: int, y: int, m: int, k: int)
    requires x == y + m * k
    ensures Congruent(x, y, m)
  {
    assert x - y == k * m;
  }

  /** Two reduced numbers that are congruent are equal. */
  lemma CongruentReduced(x: int, y: int, m: int)
    requires Congruent(x, y, m) && 0 <= x < m && 0 <= y < m
    ensures x == y
  {
    var k: int :| x - y == k * m;
    SmallMultiple(k, m);
  }

  lemma CongruentMod(x: int, m: int)
    requires m > 0
    ensures Congruent(x, x % m, m)
  {
    assert x - x % m == (x / m) * m;
  }

  /** Modulo an odd number, powers of two can be cancelled. */
  lemma {:induction false} CancelPow2(k: nat, x: int, y: int, m: int)
    requires m % 2 == 1 && Congruent(Pow2(k) * x, Pow2(k) * y, m)
    ensures Congruent(x, y, m)
  {
    if k > 0 {
      Associate(2, Pow2(k - 1), x);
      Associate(2, Pow2(k - 1), y);
      CongruentHalf(Pow2(k - 1) * x, Pow2(k - 1) * y, m);
      CancelPow2(k - 1, x, y, m);
    } else {
      assert Pow2(0) * x == x && Pow2(0) * y == y;
    }
  }

  // ----- 32-bit values -----

  const TWO31 := 0x8000_0000
  const TWO32 := 0x1_0000_0000

  /** Conversion to a signed 32-bit value. */
  function Signed32(x: int): (r: int)
    ensures -TWO31 <= r < TWO31 && (-TWO31 <= x < TWO31 ==> r == x)
  {
    (x + TWO31) % TWO32 - TWO31
  }
}
