/** The product of operands of different lengths, block by block. */
module Gf2Unbalanced {
  import opened XorSets
  import opened Gf2Poly
  import opened Gf2Words
  import opened Karatsuba
  import opened Gf2Mul

  /** The output [dst, dste) and the scratch area [stk, ve), of which the last part, from v on, receives
      the product of two blocks. */
  datatype Area = Area(dst: nat, dste: nat, stk: nat, v: nat, ve: nat) {
    predicate Ok(size: nat) {
      dst <= dste <= size && stk <= v <= ve <= size && Apart(dst, dste, stk, ve)
    }

    /** An operand may be read while the area is written. */
    predicate Clear(size: nat, a: nat, ae: nat) {
      a <= ae <= size && Apart(a, ae, dst, dste) && Apart(a, ae, stk, ve)
    }

    /** What remains to be multiplied still fits in the output from ptr on. */
    predicate Fits(size: nat, a: nat, ae: nat, b: nat, be: nat, ptr: nat) {
      Ok(size) && Clear(size, a, ae) && Clear(size, b, be) && dst <= ptr && ptr + (ae - a) + (be - b) == dste
    }
  }

  /** The output plus the product of the remaining operands, shifted by k bits, is the whole product. */
  ghost predicate Accumulated(w: seq<Word>, m: seq<Word>, r: Area, a: nat, ae: nat, b: nat, be: nat, k: nat, total: set<nat>) {
    && Kept(w, m, r.dst, r.dste, r.stk, r.ve)
    && SymDiff(Poly(At(m, r.dst, r.dste)), Shift(Product(Poly(At(w, a, ae)), Poly(At(w, b, be))), k)) == total
  }

  lemma BlockStep(d: set<nat>, d': set<nat>, pa: set<nat>, p1: set<nat>, p2: set<nat>, k: nat, l: nat, k': nat, total: set<nat>)
    requires SymDiff(d, Shift(Product(pa, SymDiff(p1, Shift(p2, l))), k)) == total && k' == k + l
    requires d' == SymDiff(d, Shift(Product(pa, p1), k))
    ensures SymDiff(d', Shift(Product(pa, p2), k')) == total
  {
    var x, y, s := Product(pa, p1), Product(pa, p2), Product(pa, SymDiff(p1, Shift(p2, l)));
    assert s == SymDiff(x, Shift(y, l)) by {
      ProductRight(pa, p1, Shift(p2, l));
      ProductShiftRight(pa, p2, l);
    }
    assert Shift(s, k) == SymDiff(Shift(x, k), Shift(y, k')) by {
      ShiftSum(x, Shift(y, l), k);
      ShiftShift(y, l, k, k');
    }
    SumTwice(d, Shift(x, k), Shift(y, k'));
  }

  lemma SumTwice(d: set<nat>, x: set<nat>, y: set<nat>)
    ensures SymDiff(d, SymDiff(x, y)) == SymDiff(SymDiff(d, x), y)
  {
  }

  /** The output after one more block. */
  lemma BlockOutput(m: seq<Word>, m1: seq<Word>, m2: seq<Word>, r: Area, a: nat, ae: nat, b: nat, bm: nat, ptr: nat, pe: nat, vk: nat, se: nat, k: nat)
    requires r.Ok(|m|) && r.dst <= ptr <= pe <= r.dste && r.v <= vk <= r.ve && r.stk <= se <= r.v && vk - r.v == pe - ptr
    requires k == WORD_BITS * (ptr - r.dst)
    requires Multiplied(m, m1, r.v, vk, a, ae, b, bm, r.stk, se)
    requires Kept(m1, m2, ptr, pe, 0, 0) && At(m2, ptr, pe) == XorLow(At(m1, ptr, pe), At(m1, r.v, vk))
    ensures Kept(m, m2, r.dst, r.dste, r.stk, r.ve)
    ensures Poly(At(m2, r.dst, r.dste)) == SymDiff(Poly(At(m, r.dst, r.dste)), Shift(Product(Poly(At(m, a, ae)), Poly(At(m, b, bm))), k))
  {
    KeptSlice(m, m1, r.v, vk, r.stk, se, r.dst, r.dste);
    XorRegion(m1, m2, r.dst, r.dste, ptr, pe, 0, 0, At(m1, r.v, vk), k);
    BlockKept(m, m1, m2, r, ptr, pe, vk, se);
  }

  lemma BlockKept(m: seq<Word>, m1: seq<Word>, m2: seq<Word>, r: Area, ptr: nat, pe: nat, vk: nat, se: nat)
    requires r.dst <= ptr && pe <= r.dste && r.stk <= r.v && vk <= r.ve && se <= r.ve
    requires Kept(m, m1, r.v, vk, r.stk, se) && Kept(m1, m2, ptr, pe, 0, 0)
    ensures Kept(m, m2, r.dst, r.dste, r.stk, r.ve)
  {
  }

  lemma BlockAdded(w: seq<Word>, m: seq<Word>, m2: seq<Word>, r: Area, a: nat, ae: nat, b: nat, bm: nat, be: nat, k: nat, l: nat, k': nat, total: set<nat>)
    requires r.Clear(|w|, a, ae) && r.Clear(|w|, b, be) && b <= bm <= be && l == WORD_BITS * (bm - b) && k' == k + l
    requires Accumulated(w, m, r, a, ae, b, be, k, total) && Kept(m, m2, r.dst, r.dste, r.stk, r.ve)
    requires Poly(At(m2, r.dst, r.dste)) == SymDiff(Poly(At(m, r.dst, r.dste)), Shift(Product(Poly(At(m, a, ae)), Poly(At(m, b, bm))), k))
    ensures Accumulated(w, m2, r, a, ae, bm, be, k', total)
  {
    KeptSlice(w, m, r.dst, r.dste, r.stk, r.ve, a, ae);
    KeptSlice(w, m, r.dst, r.dste, r.stk, r.ve, b, bm);
    KeptTrans(w, m, m2, r.dst, r.dste, r.stk, r.ve, r.dst, r.dste, r.stk, r.ve);
    PolyJoin(w, b, bm, be, l);
    BlockStep(Poly(At(m, r.dst, r.dste)), Poly(At(m2, r.dst, r.dste)), Poly(At(w, a, ae)), Poly(At(w, b, bm)), Poly(At(w, bm, be)), k, l, k', total);
  }

  lemma BlockLayout(size: nat, r: Area, a: nat, ae: nat, b: nat, bm: nat, be: nat, ptr: nat, pe: nat, vk: nat, se: nat, sa: nat)
    requires r.Fits(size, a, ae, b, be, ptr) && ae == a + sa && bm == b + sa && bm <= be && pe == ptr + 2 * sa
    requires vk == r.v + 2 * sa <= r.ve && r.stk <= se <= r.v
    ensures Layout(size, r.v, vk, a, ae, b, bm, r.stk, se) && pe <= r.dste && Apart(ptr, pe, r.v, vk)
  {
  }

  /** Adds the product of the shorter operand and one block of the longer one. */
  method AddBlock(mem: array<Word>, ghost w: seq<Word>, r: Area, a: nat, ae: nat, b: nat, bm: nat, ghost be: nat, ptr: nat, ghost k: nat,
                  sa: nat, threshold: nat, ghost low: nat, ghost total: set<nat>) returns (ghost k': nat)
    requires 5 <= threshold <= LARGEST_BASECASE + 1 && low <= threshold && |w| == mem.Length
    requires r.Fits(|w|, a, ae, b, be, ptr) && k == WORD_BITS * (ptr - r.dst) && Accumulated(w, mem[..], r, a, ae, b, be, k, total)
    requires sa >= 1 && ae == a + sa && bm == b + sa && bm <= be
    requires r.stk + ToomSpace(sa, low) <= r.v && r.v + 2 * sa <= r.ve
    modifies mem
    ensures k' == WORD_BITS * (ptr + sa - r.dst) && Accumulated(w, mem[..], r, a, ae, bm, be, k', total)
  {
    ghost var m := mem[..];
    MulBlock(mem, r, a, ae, b, bm, be, ptr, k, sa, threshold, low);
    k' := k + WORD_BITS * sa;
    BlockAdded(w, m, mem[..], r, a, ae, b, bm, be, k, WORD_BITS * sa, k', total);
  }

  /** The product of one block goes through the scratch area into the output. */
  method MulBlock(mem: array<Word>, r: Area, a: nat, ae: nat, b: nat, bm: nat, ghost be: nat, ptr: nat, ghost k: nat,
                  sa: nat, threshold: nat, ghost low: nat)
    requires 5 <= threshold <= LARGEST_BASECASE + 1 && low <= threshold
    requires r.Fits(mem.Length, a, ae, b, be, ptr) && k == WORD_BITS * (ptr - r.dst)
    requires sa >= 1 && ae == a + sa && bm == b + sa && bm <= be
    requires r.stk + ToomSpace(sa, low) <= r.v && r.v + 2 * sa <= r.ve
    modifies mem
    ensures Kept(old(mem[..]), mem[..], r.dst, r.dste, r.stk, r.ve)
    ensures Poly(At(mem[..], r.dst, r.dste))
            == SymDiff(Poly(At(old(mem[..]), r.dst, r.dste)), Shift(Product(Poly(At(old(mem[..]), a, ae)), Poly(At(old(mem[..]), b, bm))), k))
  {
    ghost var m := mem[..];
    var vk, pe := r.v + 2 * sa, ptr + 2 * sa;
    ghost var se := r.stk + ToomSpace(sa, low);
    BlockLayout(mem.Length, r, a, ae, b, bm, be, ptr, pe, vk, se, sa);
    MulToom(mem, r.v, vk, a, ae, b, bm, sa, r.stk, se, threshold, low);
    ghost var m1 := mem[..];
    XorInto(mem, ptr, pe, r.v, vk, 2 * sa);
    BlockOutput(m, m1, mem[..], r, a, ae, b, bm, ptr, pe, vk, se, k);
  }

  /** Goes through the longer operand in blocks of the length of the shorter one; returns where the
      remainder, shorter than a block, starts. */
  method AddBlocks(mem: array<Word>, ghost w: seq<Word>, r: Area, a: nat, ae: nat, b: nat, be: nat, ptr: nat, ghost k: nat,
                   sa: nat, threshold: nat, ghost low: nat, ghost total: set<nat>) returns (bi: nat, p: nat, ghost k': nat)
    requires 5 <= threshold <= LARGEST_BASECASE + 1 && low <= threshold && |w| == mem.Length
    requires r.Fits(|w|, a, ae, b, be, ptr) && k == WORD_BITS * (ptr - r.dst) && Accumulated(w, mem[..], r, a, ae, b, be, k, total)
    requires sa >= 1 && ae == a + sa && r.stk + ToomSpace(sa, low) <= r.v && r.v + 2 * sa <= r.ve
    modifies mem
    ensures b <= bi <= be && be - bi < sa && p == ptr + (bi - b) && r.Fits(|w|, a, ae, bi, be, p) && k' == WORD_BITS * (p - r.dst)
    ensures Accumulated(w, mem[..], r, a, ae, bi, be, k', total)
  {
    bi, p, k' := b, ptr, k;
    while bi + sa <= be
      invariant b <= bi <= be && p == ptr + (bi - b) && k' == WORD_BITS * (p - r.dst)
      invariant r.Fits(|w|, a, ae, bi, be, p)
      invariant Accumulated(w, mem[..], r, a, ae, bi, be, k', total)
    {
      var bm := bi + sa;
      k' := AddBlock(mem, w, r, a, ae, bi, bm, be, p, k', sa, threshold, low, total);
      FitsNext(|w|, r, a, ae, bi, bm, be, p, p + sa);
      bi, p := bm, p + sa;
    }
  }

  lemma FitsNext(size: nat, r: Area, a: nat, ae: nat, b: nat, bm: nat, be: nat, p: nat, p': nat)
    requires r.Fits(size, a, ae, b, be, p) && b <= bm <= be && p' == p + (bm - b)
    ensures r.Fits(size, a, ae, bm, be, p')
  {
  }

  lemma Swapped(w: seq<Word>, m: seq<Word>, r: Area, a: nat, ae: nat, b: nat, be: nat, k: nat, total: set<nat>)
    requires Accumulated(w, m, r, a, ae, b, be, k, total)
    ensures Accumulated(w, m, r, b, be, a, ae, k, total)
  {
    ProductCommutes(Poly(At(w, a, ae)), Poly(At(w, b, be)));
  }

  lemma NothingLeft(w: seq<Word>, m: seq<Word>, r: Area, a: nat, b: nat, be: nat, k: nat, total: set<nat>)
    requires Accumulated(w, m, r, a, a, b, be, k, total)
    ensures Poly(At(m, r.dst, r.dste)) == total
  {
    assert At(w, a, a) == [];
    assert Poly([]) == {};
    ProductEmpty(Poly(At(w, b, be)));
    assert Shift({}, k) == {};
  }

  /** A one-word operand is dealt with directly. */
  lemma OneWordLeft(w: seq<Word>, m: seq<Word>, m2: seq<Word>, r: Area, a: nat, ae: nat, b: nat, be: nat, ptr: nat, k: nat, x: Word, total: set<nat>)
    requires r.Fits(|w|, a, ae, b, be, ptr) && ae == a + 1 && k == WORD_BITS * (ptr - r.dst) && Accumulated(w, m, r, a, ae, b, be, k, total)
    requires x == m[a] && Kept(m, m2, ptr, r.dste, 0, 0)
    requires At(m2, ptr, r.dste) == XorLow(At(m, ptr, r.dste), WordProduct(x, At(m, b, be)))
    ensures Kept(w, m2, r.dst, r.dste, r.stk, r.ve) && Poly(At(m2, r.dst, r.dste)) == total
  {
    KeptTrans(w, m, m2, r.dst, r.dste, r.stk, r.ve, ptr, r.dste, 0, 0);
    KeptSlice(w, m, r.dst, r.dste, r.stk, r.ve, a, ae);
    KeptSlice(w, m, r.dst, r.dste, r.stk, r.ve, b, be);
    assert At(w, a, ae) == [x] by {
      assert At(m, a, ae) == [x];
    }
    WordProductIs(x, At(m, b, be));
    XorRegion(m, m2, r.dst, r.dste, ptr, r.dste, 0, 0, WordProduct(x, At(m, b, be)), k);
  }

  lemma ZeroOutput(w: seq<Word>, m: seq<Word>, r: Area, a: nat, ae: nat, b: nat, be: nat)
    requires r.Ok(|w|) && Kept(w, m, r.dst, r.dste, 0, 0) && At(m, r.dst, r.dste) == Zeros(r.dste - r.dst)
    ensures Accumulated(w, m, r, a, ae, b, be, 0, Product(Poly(At(w, a, ae)), Poly(At(w, b, be))))
  {
    PolyZeros(r.dste - r.dst);
    var p := Product(Poly(At(w, a, ae)), Poly(At(w, b, be)));
    assert Shift(p, 0) == p;
    assert SymDiff({}, p) == p;
  }

  /** One turn of the loop: blocks of the longer operand, then the operands change places. */
  ghost predicate Turn(size: nat, r: Area, a: nat, ae: nat, b: nat, be: nat, ptr: nat, k: nat, sa0: nat) {
    r.Fits(size, a, ae, b, be, ptr) && k == WORD_BITS * (ptr - r.dst) && ae - a <= sa0
  }

  method MulUnbalanced(mem: array<Word>, r: Area, a0: nat, ae0: nat, b0: nat, be0: nat, threshold: nat, ghost low: nat)
    requires 5 <= threshold <= LARGEST_BASECASE + 1 && low <= threshold && r.Fits(mem.Length, a0, ae0, b0, be0, r.dst)
    requires r.v == r.stk + ToomSpace(ae0 - a0, low) && r.ve == r.v + 2 * (ae0 - a0)
    modifies mem
    ensures Multiplied(old(mem[..]), mem[..], r.dst, r.dste, a0, ae0, b0, be0, r.stk, r.ve)
  {
    ghost var w := mem[..];
    ghost var total := Product(Poly(At(w, a0, ae0)), Poly(At(w, b0, be0)));
    WriteWords(mem, r.dst, r.dste, Zeros(r.dste - r.dst));
    ZeroOutput(w, mem[..], r, a0, ae0, b0, be0);
    var a, ae, b, be, ptr := a0, ae0, b0, be0, r.dst;
    ghost var k := 0;
    while ae - a > 1
      invariant Turn(|w|, r, a, ae, b, be, ptr, k, ae0 - a0)
      invariant a <= ae
      invariant Accumulated(w, mem[..], r, a, ae, b, be, k, total)
      decreases ae - a
    {
      var bi, p, k1 := AddBlocks(mem, w, r, a, ae, b, be, ptr, k, ae - a, threshold, low, total);
      Swapped(w, mem[..], r, a, ae, bi, be, k1, total);
      a, ae, b, be, ptr, k := bi, be, a, ae, p, k1;
    }
    if ae == a {
      NothingLeft(w, mem[..], r, a, b, be, k, total);
    } else {
      ghost var m := mem[..];
      var x := mem[a];
      AddWordMultiple(mem, ptr, r.dste, b, be, x);
      OneWordLeft(w, m, mem[..], r, a, ae, b, be, ptr, k, x, total);
    }
  }
}
