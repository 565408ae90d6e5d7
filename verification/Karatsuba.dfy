/** Karatsuba multiplication of polynomials over GF(2), in place: the three products share the output
    region, which holds the middle product on top of parts of the other two. */
module Karatsuba {
  import opened XorSets
  import opened Gf2Poly
  import opened Gf2Words

  // ----- Scratch space -----

  /** The words of scratch the recursion uses; below the threshold it uses none. */
  function KaraSpace(n: nat, threshold: nat): nat
    requires threshold >= 5
  {
    if n < threshold then 0 else 3 * ((n + 1) / 2) + KaraSpace((n + 1) / 2, threshold)
  }

  /** The words of scratch the library allocates; `low` is the smaller of two thresholds. */
  function ToomSpace(n: nat, low: nat): nat {
    if n < low then 0 else 5 * n + 29
  }

  lemma {:induction false} SpaceSuffices(n: nat, threshold: nat, low: nat)
    requires threshold >= 5 && low <= threshold
    ensures KaraSpace(n, threshold) <= ToomSpace(n, low)
    ensures KaraSpace(n, threshold) <= 5 * n + 29
  {
    if n >= threshold {
      SpaceSuffices((n + 1) / 2, threshold, low);
    }
  }

  // ----- Base case -----

  /** The products of equal lengths are provided up to this many words. */
  const LARGEST_BASECASE: nat := 9

  /** A length of zero is handled like a length of one. */
  function Effective(n: nat): nat {
    if n == 0 then 1 else n
  }

  /** The operands [a, ae) and [b, be), the output [c, ce) and the scratch [d, de) are in memory; the
      output overlaps no input, and the scratch overlaps nothing. */
  predicate Layout(size: nat, c: nat, ce: nat, a: nat, ae: nat, b: nat, be: nat, d: nat, de: nat) {
    && c <= ce <= size && a <= ae <= size && b <= be <= size && d <= de <= size
    && Apart(c, ce, a, ae) && Apart(c, ce, b, be) && Apart(c, ce, d, de) && Apart(a, ae, d, de) && Apart(b, be, d, de)
  }

  /** The output holds the product of the operands; outside the output and the scratch nothing changed. */
  ghost predicate Multiplied(was: seq<Word>, now: seq<Word>, c: nat, ce: nat, a: nat, ae: nat, b: nat, be: nat, d: nat, de: nat)
  {
    Kept(was, now, c, ce, d, de) && Poly(At(now, c, ce)) == Product(Poly(At(was, a, ae)), Poly(At(was, b, be)))
  }

  /** One of the straight-line products of equal lengths. */
  method MulFixed(mem: array<Word>, c: nat, ce: nat, a: nat, ae: nat, b: nat, be: nat, n: nat, ghost d: nat)
    requires 1 <= n <= LARGEST_BASECASE && ce == c + 2 * n && ae == a + n && be == b + n
    requires Layout(mem.Length, c, ce, a, ae, b, be, d, d)
    modifies mem
    ensures Multiplied(old(mem[..]), mem[..], c, ce, a, ae, b, be, d, d)
  {
    ghost var was := mem[..];
    var x, y := Poly(mem[a..ae]), Poly(mem[b..be]);
    var p := ToWords(Product(x, y), 2 * n);
    WriteWords(mem, c, ce, p);
    FixedProduct(At(was, a, ae), At(was, b, be), n);
  }

  lemma FixedProduct(x: seq<Word>, y: seq<Word>, n: nat)
    requires |x| == |y| == n
    ensures Poly(ToWords(Product(Poly(x), Poly(y)), 2 * n)) == Product(Poly(x), Poly(y))
  {
    PolyBelow(x);
    PolyBelow(y);
    ProductBelow(Poly(x), WORD_BITS * n, Poly(y), WORD_BITS * n);
    PolyToWords(Product(Poly(x), Poly(y)), 2 * n);
  }

  // ----- Assembling the result -----

  /** What the two final loops leave in the output region. */
  ghost function Combined(l: seq<Word>, m: seq<Word>, h: seq<Word>, n2: nat): seq<Word>
    requires |l| == |m| == 2 * n2 && n2 <= |h| <= 2 * n2
  {
    var cc := XorLow(l[n2..], h[..n2]);
    l[..n2] + XorLow(m[..n2], XorLow(cc, l[..n2])) + XorLow(XorLow(m[n2..], cc), h[n2..]) + h[n2..]
  }

  lemma CombinedIsProduct(l: seq<Word>, m: seq<Word>, h: seq<Word>, n2: nat)
    requires |l| == |m| == 2 * n2 && n2 <= |h| <= 2 * n2
    ensures Poly(Combined(l, m, h, n2)) == Assemble(Poly(l), Poly(m), Poly(h), WORD_BITS * n2)
  {
    var k := WORD_BITS * n2;
    var l0, l1, m0, m1, h0, h1 := Poly(l[..n2]), Poly(l[n2..]), Poly(m[..n2]), Poly(m[n2..]), Poly(h[..n2]), Poly(h[n2..]);
    HalvesOf(l, n2);
    HalvesOf(m, n2);
    HalvesOf(h, n2);
    CombinedParts(l, m, h, n2);
    AssembleParts(l0, l1, m0, m1, h0, h1, k);
  }

  lemma HalvesOf(s: seq<Word>, n2: nat)
    requires n2 <= |s|
    ensures Poly(s) == SymDiff(Poly(s[..n2]), Shift(Poly(s[n2..]), WORD_BITS * n2))
  {
    assert s == s[..n2] + s[n2..];
    PolyConcat(s[..n2], s[n2..]);
  }

  /** Four parts at distance k. */
  ghost function Four(x0: set<nat>, x1: set<nat>, x2: set<nat>, x3: set<nat>, k: nat): set<nat> {
    SymDiff(x0, Shift(SymDiff(x1, Shift(SymDiff(x2, Shift(x3, k)), k)), k))
  }

  lemma CombinedParts(l: seq<Word>, m: seq<Word>, h: seq<Word>, n2: nat)
    requires |l| == |m| == 2 * n2 && n2 <= |h| <= 2 * n2
    ensures var (l0, l1, m0, m1, h0, h1) := (Poly(l[..n2]), Poly(l[n2..]), Poly(m[..n2]), Poly(m[n2..]), Poly(h[..n2]), Poly(h[n2..]));
            Poly(Combined(l, m, h, n2))
            == Four(l0, SymDiff(m0, SymDiff(SymDiff(l1, h0), l0)), SymDiff(SymDiff(m1, SymDiff(l1, h0)), h1), h1, WORD_BITS * n2)
  {
    var cc := XorLow(l[n2..], h[..n2]);
    PolyXor(l[n2..], h[..n2]);
    PolyXor(cc, l[..n2]);
    PolyXor(m[..n2], XorLow(cc, l[..n2]));
    PolyXor(m[n2..], cc);
    PolyXor(XorLow(m[n2..], cc), h[n2..]);
    FourWords(l[..n2], XorLow(m[..n2], XorLow(cc, l[..n2])), XorLow(XorLow(m[n2..], cc), h[n2..]), h[n2..], n2);
  }

  lemma FourWords(x0: seq<Word>, x1: seq<Word>, x2: seq<Word>, x3: seq<Word>, n2: nat)
    requires |x0| == |x1| == |x2| == n2
    ensures Poly(x0 + x1 + x2 + x3) == Four(Poly(x0), Poly(x1), Poly(x2), Poly(x3), WORD_BITS * n2)
  {
    PolyConcat(x2, x3);
    PolyConcat(x1, x2 + x3);
    PolyConcat(x0, x1 + (x2 + x3));
    assert x0 + x1 + x2 + x3 == x0 + (x1 + (x2 + x3));
  }

  ghost predicate Has(x: set<nat>, e: int) {
    e >= 0 && e in x
  }

  lemma HasSum(x: set<nat>, y: set<nat>, k: nat, e: int)
    ensures Has(SymDiff(x, Shift(y, k)), e) <==> Has(x, e) != Has(y, e - k)
  {
  }

  lemma HasXor(x: set<nat>, y: set<nat>, e: int)
    ensures Has(SymDiff(x, y), e) <==> Has(x, e) != Has(y, e)
  {
  }

  lemma HasFour(x0: set<nat>, x1: set<nat>, x2: set<nat>, x3: set<nat>, k: nat, e: nat)
    ensures Has(Four(x0, x1, x2, x3, k), e) <==> Has(x0, e) != (Has(x1, e - k) != (Has(x2, e - 2 * k) != Has(x3, e - 3 * k)))
  {
    var s := SymDiff(x2, Shift(x3, k));
    HasSum(x2, x3, k, e - 2 * k);
    HasSum(x1, s, k, e - k);
    HasSum(x0, SymDiff(x1, Shift(s, k)), k, e);
  }

  lemma HasAssemble(low: set<nat>, middle: set<nat>, high: set<nat>, k: nat, e: nat)
    ensures Has(Assemble(low, middle, high, k), e)
            <==> Has(low, e) != ((Has(middle, e - k) != (Has(low, e - k) != Has(high, e - k))) != Has(high, e - 2 * k))
  {
    var mid := SymDiff(middle, SymDiff(low, high));
    HasXor(low, high, e - k);
    HasXor(middle, SymDiff(low, high), e - k);
    HasSum(low, mid, k, e);
    HasSum(SymDiff(low, Shift(mid, k)), high, 2 * k, e);
  }

  lemma AssembleParts(l0: set<nat>, l1: set<nat>, m0: set<nat>, m1: set<nat>, h0: set<nat>, h1: set<nat>, k: nat)
    ensures Four(l0, SymDiff(m0, SymDiff(SymDiff(l1, h0), l0)), SymDiff(SymDiff(m1, SymDiff(l1, h0)), h1), h1, k)
            == Assemble(SymDiff(l0, Shift(l1, k)), SymDiff(m0, Shift(m1, k)), SymDiff(h0, Shift(h1, k)), k)
  {
    forall e: nat ensures e in Four(l0, SymDiff(m0, SymDiff(SymDiff(l1, h0), l0)), SymDiff(SymDiff(m1, SymDiff(l1, h0)), h1), h1, k)
                          <==> e in Assemble(SymDiff(l0, Shift(l1, k)), SymDiff(m0, Shift(m1, k)), SymDiff(h0, Shift(h1, k)), k) {
      PartsMember(l0, l1, m0, m1, h0, h1, k, e);
    }
  }

  lemma PartsMember(l0: set<nat>, l1: set<nat>, m0: set<nat>, m1: set<nat>, h0: set<nat>, h1: set<nat>, k: nat, e: nat)
    ensures Has(Four(l0, SymDiff(m0, SymDiff(SymDiff(l1, h0), l0)), SymDiff(SymDiff(m1, SymDiff(l1, h0)), h1), h1, k), e)
            <==> Has(Assemble(SymDiff(l0, Shift(l1, k)), SymDiff(m0, Shift(m1, k)), SymDiff(h0, Shift(h1, k)), k), e)
  {
    var x1, x2 := SymDiff(m0, SymDiff(SymDiff(l1, h0), l0)), SymDiff(SymDiff(m1, SymDiff(l1, h0)), h1);
    HasFour(l0, x1, x2, h1, k, e);
    assert Has(x1, e - k) <==> (Has(m0, e - k) != ((Has(l1, e - k) != Has(h0, e - k)) != Has(l0, e - k))) by {
      HasXor(l1, h0, e - k);
      HasXor(SymDiff(l1, h0), l0, e - k);
      HasXor(m0, SymDiff(SymDiff(l1, h0), l0), e - k);
    }
    assert Has(x2, e - 2 * k) <==> ((Has(m1, e - 2 * k) != (Has(l1, e - 2 * k) != Has(h0, e - 2 * k))) != Has(h1, e - 2 * k)) by {
      HasXor(l1, h0, e - 2 * k);
      HasXor(m1, SymDiff(l1, h0), e - 2 * k);
      HasXor(SymDiff(m1, SymDiff(l1, h0)), h1, e - 2 * k);
    }
    PartsAssembled(l0, l1, m0, m1, h0, h1, k, e);
  }

  lemma PartsAssembled(l0: set<nat>, l1: set<nat>, m0: set<nat>, m1: set<nat>, h0: set<nat>, h1: set<nat>, k: nat, e: nat)
    ensures Has(Assemble(SymDiff(l0, Shift(l1, k)), SymDiff(m0, Shift(m1, k)), SymDiff(h0, Shift(h1, k)), k), e)
            <==> ((Has(l0, e) != Has(l1, e - k))
                  != (((Has(m0, e - k) != Has(m1, e - 2 * k)) != ((Has(l0, e - k) != Has(l1, e - 2 * k)) != (Has(h0, e - k) != Has(h1, e - 2 * k))))
                      != (Has(h0, e - 2 * k) != Has(h1, e - 3 * k))))
  {
    HasSum(l0, l1, k, e);
    HasSum(l0, l1, k, e - k);
    HasSum(m0, m1, k, e - k);
    HasSum(h0, h1, k, e - k);
    HasSum(h0, h1, k, e - 2 * k);
    HasAssembled(SymDiff(l0, Shift(l1, k)), SymDiff(m0, Shift(m1, k)), SymDiff(h0, Shift(h1, k)), k, e,
                 Has(l0, e) != Has(l1, e - k), Has(m0, e - k) != Has(m1, e - 2 * k), Has(l0, e - k) != Has(l1, e - 2 * k),
                 Has(h0, e - k) != Has(h1, e - 2 * k), Has(h0, e - 2 * k) != Has(h1, e - 3 * k));
  }

  lemma HasAssembled(low: set<nat>, middle: set<nat>, high: set<nat>, k: nat, e: nat, x1: bool, x2: bool, x3: bool, x4: bool, x5: bool)
    requires Has(low, e) == x1 && Has(middle, e - k) == x2 && Has(low, e - k) == x3 && Has(high, e - k) == x4 && Has(high, e - 2 * k) == x5
    ensures Has(Assemble(low, middle, high, k), e) <==> (x1 != ((x2 != (x3 != x4)) != x5))
  {
    HasAssemble(low, middle, high, k, e);
  }
}
