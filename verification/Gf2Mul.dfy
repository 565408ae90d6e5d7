/** Multiplication of polynomials over GF(2) of any lengths: trimming of leading zero words, products by
    single words, and the loop for operands of different lengths, which swaps them as in Euclid's
    algorithm. */
module Gf2Mul {
  import opened XorSets
  import opened Gf2Poly
  import opened Gf2Words
  import opened Karatsuba
  import opened KaratsubaMul

  // ----- Leading zero words -----

  ghost predicate ZeroFrom(s: seq<Word>, k: nat) {
    forall i :: k <= i < |s| ==> s[i] == {}
  }

  lemma PolyTrim(s: seq<Word>, k: nat)
    requires k <= |s| && ZeroFrom(s, k)
    ensures Poly(s) == Poly(s[..k])
  {
    forall e: nat ensures e in Poly(s) <==> e in Poly(s[..k]) {
      PolyMember(s, e);
      PolyMember(s[..k], e);
    }
  }

  /** The words of [p, pe) from q on are zero. */
  ghost predicate ZeroRegion(m: seq<Word>, q: nat, pe: nat) {
    pe <= |m| && forall i {:trigger m[i]} :: q <= i < pe ==> m[i] == {}
  }

  lemma TrimRegion(m: seq<Word>, p: nat, q: nat, pe: nat)
    requires p <= q <= pe <= |m| && ZeroRegion(m, q, pe)
    ensures Poly(At(m, p, pe)) == Poly(At(m, p, q))
  {
    PolyTrim(At(m, p, pe), q - p);
    assert At(m, p, pe)[..q - p] == At(m, p, q);
  }

  /** After the trimming loop: k words are left to multiply. */
  ghost predicate Trimmed(w: seq<Word>, m: seq<Word>, c: nat, ce: nat, a: nat, ae: nat, b: nat, be: nat, n: nat, k: nat) {
    && k <= n && Kept(w, m, c, ce, 0, 0)
    && ZeroRegion(w, a + k, ae) && ZeroRegion(w, b + k, be) && ZeroRegion(m, c + 2 * k, ce)
  }

  method Trim(mem: array<Word>, c: nat, ghost ce: nat, a: nat, ghost ae: nat, b: nat, ghost be: nat, n: nat) returns (k: nat)
    requires ce == c + 2 * n && ae == a + n && be == b + n && Layout(mem.Length, c, ce, a, ae, b, be, 0, 0)
    modifies mem
    ensures Trimmed(old(mem[..]), mem[..], c, ce, a, ae, b, be, n, k)
  {
    ghost var w := mem[..];
    k := n;
    while k > 0 && mem[a + k - 1] == {} && mem[b + k - 1] == {}
      invariant 0 <= k <= n
      invariant Trimmed(w, mem[..], c, ce, a, ae, b, be, n, k)
    {
      mem[c + 2 * k - 1], mem[c + 2 * k - 2] := {}, {};
      k := k - 1;
    }
  }

  lemma TrimmedProduct(w: seq<Word>, m: seq<Word>, m': seq<Word>, c: nat, ce: nat, a: nat, ae: nat, b: nat, be: nat, n: nat, k: nat, d: nat, de: nat,
                       ck: nat, ak: nat, bk: nat)
    requires Layout(|w|, c, ce, a, ae, b, be, d, de) && Trimmed(w, m, c, ce, a, ae, b, be, n, k)
    requires a + k <= ak && b + k <= bk && c + 2 * k <= ck && c <= ck <= ce && a <= ak <= ae && b <= bk <= be
    requires Multiplied(m, m', c, ck, a, ak, b, bk, d, de)
    ensures Multiplied(w, m', c, ce, a, ae, b, be, d, de)
  {
    TrimmedKept(w, m, m', c, ce, d, de, ck);
    KeptSlice(w, m, c, ce, 0, 0, a, ak);
    KeptSlice(w, m, c, ce, 0, 0, b, bk);
    TrimRegion(w, a, ak, ae);
    TrimRegion(w, b, bk, be);
    TrimRegion(m', c, ck, ce);
  }

  lemma TrimmedKept(w: seq<Word>, m: seq<Word>, m': seq<Word>, c: nat, ce: nat, d: nat, de: nat, ck: nat)
    requires Kept(w, m, c, ce, 0, 0) && Kept(m, m', c, ck, d, de) && ck <= ce <= |w| && Apart(c, ce, d, de) && ZeroRegion(m, ck, ce)
    requires c <= ck
    ensures Kept(w, m', c, ce, d, de) && ZeroRegion(m', ck, ce)
  {
  }

  /** The product of operands of n words; leading words that are zero in both are skipped. */
  method MulToom(mem: array<Word>, c: nat, ce: nat, a: nat, ae: nat, b: nat, be: nat, n: nat, stk: nat, ghost se: nat, threshold: nat, ghost low: nat)
    requires 5 <= threshold <= LARGEST_BASECASE + 1 && low <= threshold && n >= 1
    requires ce == c + 2 * n && ae == a + n && be == b + n && se == stk + ToomSpace(n, low)
    requires Layout(mem.Length, c, ce, a, ae, b, be, stk, se)
    modifies mem
    ensures Multiplied(old(mem[..]), mem[..], c, ce, a, ae, b, be, stk, se)
  {
    ghost var w := mem[..];
    var k := Trim(mem, c, ce, a, ae, b, be, n);
    ghost var m := mem[..];
    var e := Effective(k);
    var ck, ak, bk := c + 2 * e, a + e, b + e;
    SpaceSuffices(n, threshold, low);
    SpaceMonotone(k, n, threshold);
    ghost var sk := stk + KaraSpace(k, threshold);
    Kara(mem, c, ck, a, ak, b, bk, k, stk, sk, threshold);
    MoreScratch(m, mem[..], c, ck, a, ak, b, bk, stk, sk, se);
    TrimmedProduct(w, m, mem[..], c, ce, a, ae, b, be, n, k, stk, se, ck, ak, bk);
  }

  lemma MoreScratch(w: seq<Word>, m: seq<Word>, c: nat, ce: nat, a: nat, ae: nat, b: nat, be: nat, d: nat, de: nat, de': nat)
    requires Multiplied(w, m, c, ce, a, ae, b, be, d, de) && de <= de'
    ensures Multiplied(w, m, c, ce, a, ae, b, be, d, de')
  {
  }

  // ----- Adding into a region -----

  lemma RegionParts(w: seq<Word>, d: nat, p: nat, pe: nat, de: nat, k: nat, l: nat)
    requires d <= p <= pe <= de <= |w| && k == WORD_BITS * (p - d) && l == WORD_BITS * (pe - d)
    ensures Poly(At(w, d, de)) == SymDiff(SymDiff(Poly(At(w, d, p)), Shift(Poly(At(w, p, pe)), k)), Shift(Poly(At(w, pe, de)), l))
  {
    PolyJoin(w, d, p, pe, k);
    PolyJoin(w, d, pe, de, l);
  }

  lemma PolyJoin(w: seq<Word>, p: nat, q: nat, r: nat, k: nat)
    requires p <= q <= r <= |w| && k == WORD_BITS * (q - p)
    ensures Poly(At(w, p, r)) == SymDiff(Poly(At(w, p, q)), Shift(Poly(At(w, q, r)), k))
  {
    JoinTwo(w, p, q, r);
    PolyConcat(At(w, p, q), At(w, q, r));
    assert WORD_BITS * |At(w, p, q)| == k;
  }

  /** Words added inside a region change its polynomial by the shifted sum. */
  lemma XorRegion(w: seq<Word>, m: seq<Word>, d: nat, de: nat, p: nat, pe: nat, s: nat, se: nat, t: seq<Word>, k: nat)
    requires d <= p <= pe <= de <= |w| && Kept(w, m, p, pe, s, se) && Apart(d, de, s, se)
    requires At(m, p, pe) == XorLow(At(w, p, pe), t) && |t| <= pe - p && k == WORD_BITS * (p - d)
    ensures Poly(At(m, d, de)) == SymDiff(Poly(At(w, d, de)), Shift(Poly(t), k))
  {
    KeptSlice(w, m, p, pe, s, se, d, p);
    KeptSlice(w, m, p, pe, s, se, pe, de);
    RegionParts(w, d, p, pe, de, k, WORD_BITS * (pe - d));
    RegionParts(m, d, p, pe, de, k, WORD_BITS * (pe - d));
    PolyXor(At(w, p, pe), t);
    ThreeParts(Poly(At(w, d, p)), Poly(At(w, p, pe)), Poly(t), k, Shift(Poly(At(w, pe, de)), WORD_BITS * (pe - d)));
  }

  lemma ThreeParts(x: set<nat>, y: set<nat>, t: set<nat>, k: nat, z: set<nat>)
    ensures SymDiff(SymDiff(x, Shift(SymDiff(y, t), k)), z) == SymDiff(SymDiff(SymDiff(x, Shift(y, k)), z), Shift(t, k))
  {
  }

  method XorWords(mem: array<Word>, p: nat, ghost pe: nat, s: seq<Word>)
    requires pe == p + |s| <= mem.Length
    modifies mem
    ensures At(mem[..], p, pe) == XorLow(At(old(mem[..]), p, pe), s) && Kept(old(mem[..]), mem[..], p, pe, 0, 0)
  {
    ghost var was := mem[..];
    for j := 0 to |s|
      invariant forall k {:trigger mem[k]} :: 0 <= k < mem.Length ==> mem[k] == if p <= k < p + j then XorWord(was[k], s[k - p]) else was[k]
    {
      mem[p + j] := XorWord(mem[p + j], s[j]);
    }
  }

  /** The words of the product of a word and a longer operand. */
  function WordProduct(x: Word, b: seq<Word>): (t: seq<Word>)
    ensures |t| == |b| + 1
  {
    ToWords(Product(Poly([x]), Poly(b)), |b| + 1)
  }

  lemma WordProductIs(x: Word, b: seq<Word>)
    ensures Poly(WordProduct(x, b)) == Product(Poly([x]), Poly(b))
  {
    PolyBelow([x]);
    PolyBelow(b);
    ProductBelow(Poly([x]), WORD_BITS, Poly(b), WORD_BITS * |b|);
    PolyToWords(Product(Poly([x]), Poly(b)), |b| + 1);
  }

  /** Adds x times the operand at b to the words at p; the top word of the product is returned. */
  method AddMul1(mem: array<Word>, p: nat, ghost pe: nat, b: nat, be: nat, x: Word) returns (carry: Word)
    requires b <= be <= mem.Length && pe == p + (be - b) <= mem.Length && Apart(p, pe, b, be)
    modifies mem
    ensures Kept(old(mem[..]), mem[..], p, pe, 0, 0)
    ensures var t := WordProduct(x, At(old(mem[..]), b, be));
            At(mem[..], p, pe) == XorLow(At(old(mem[..]), p, pe), t[..be - b]) && carry == t[be - b]
  {
    var t := WordProduct(x, mem[b..be]);
    XorWords(mem, p, pe, t[..be - b]);
    carry := t[be - b];
  }

  /** The same with the top word added in place. */
  method AddWordMultiple(mem: array<Word>, p: nat, ghost pe: nat, b: nat, be: nat, x: Word)
    requires b <= be <= mem.Length && pe == p + (be - b) + 1 <= mem.Length && Apart(p, pe, b, be)
    modifies mem
    ensures Kept(old(mem[..]), mem[..], p, pe, 0, 0)
    ensures At(mem[..], p, pe) == XorLow(At(old(mem[..]), p, pe), WordProduct(x, At(old(mem[..]), b, be)))
  {
    ghost var w := mem[..];
    ghost var t := WordProduct(x, At(w, b, be));
    ghost var q := p + (be - b);
    var carry := AddMul1(mem, p, q, b, be, x);
    ghost var m := mem[..];
    mem[p + (be - b)] := XorWord(mem[p + (be - b)], carry);
    TopWord(w, m, mem[..], p, q, pe, t);
  }

  lemma TopWord(w: seq<Word>, m: seq<Word>, m': seq<Word>, p: nat, q: nat, pe: nat, t: seq<Word>)
    requires p <= q && pe == q + 1 && pe <= |w| && |t| == pe - p && Kept(w, m, p, q, 0, 0)
    requires At(m, p, q) == XorLow(At(w, p, q), t[..q - p]) && m' == m[q := XorWord(m[q], t[q - p])]
    ensures Kept(w, m', p, pe, 0, 0) && At(m', p, pe) == XorLow(At(w, p, pe), t)
  {
    forall i | 0 <= i < pe - p ensures m'[p + i] == XorLow(At(w, p, pe), t)[i] {
      if i < q - p {
        assert m[p + i] == At(m, p, q)[i];
      }
    }
  }
}
