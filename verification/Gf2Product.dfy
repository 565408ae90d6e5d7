/** The entry point for products of polynomials over GF(2): short operands, equal lengths, different
    lengths, and an output that may be one of the operands. */
module Gf2Product {
  import opened XorSets
  import opened Gf2Poly
  import opened Gf2Words
  import opened Karatsuba
  import opened Gf2Mul
  import opened Gf2Unbalanced

  // ----- Short operands -----

  /** The first i words of a have been multiplied. */
  ghost predicate RowsDone(w: seq<Word>, m: seq<Word>, c: nat, q: nat, ce: nat, a: nat, ai: nat, b: nat, be: nat) {
    && Kept(w, m, c, ce, 0, 0)
    && Poly(At(m, c, q)) == Product(Poly(At(w, a, ai)), Poly(At(w, b, be)))
  }

  /** The product of one word and an operand of nb words; the top word is returned. */
  method Mul1(mem: array<Word>, c: nat, ghost q: nat, b: nat, be: nat, x: Word) returns (carry: Word)
    requires b <= be <= mem.Length && q == c + (be - b) <= mem.Length && Apart(c, q, b, be)
    modifies mem
    ensures Kept(old(mem[..]), mem[..], c, q, 0, 0)
    ensures At(mem[..], c, q) + [carry] == WordProduct(x, At(old(mem[..]), b, be))
  {
    var t := WordProduct(x, mem[b..be]);
    WriteWords(mem, c, q, t[..be - b]);
    carry := t[be - b];
  }

  /** The output after the next word of a: its multiple is added, and its top word appended. */
  lemma NextRow(m: seq<Word>, m1: seq<Word>, m2: seq<Word>, c: nat, p: nat, q: nat, qe: nat, t: seq<Word>, k: nat)
    requires c <= p <= q && qe == q + 1 && qe <= |m| && |t| == qe - p && k == WORD_BITS * (p - c)
    requires Kept(m, m1, p, q, 0, 0) && At(m1, p, q) == XorLow(At(m, p, q), t[..q - p]) && m2 == m1[q := t[q - p]]
    ensures Poly(At(m2, c, qe)) == SymDiff(Poly(At(m, c, q)), Shift(Poly(t), k)) && Kept(m, m2, p, qe, 0, 0)
  {
    var mz, m1z := m[q := {}], m1[q := {}];
    assert At(mz, p, q) == At(m, p, q) && At(m1z, p, q) == At(m1, p, q) && At(mz, c, q) == At(m, c, q);
    assert XorWord(m1z[q], t[q - p]) == t[q - p];
    TopWord(mz, m1z, m2, p, q, qe, t);
    XorRegion(mz, m2, c, qe, p, qe, 0, 0, t, k);
    TrimRegion(mz, c, q, qe);
  }

  lemma RowAdded(x: set<nat>, y: set<nat>, z: set<nat>, k: nat)
    ensures Product(SymDiff(x, Shift(y, k)), z) == SymDiff(Product(x, z), Shift(Product(y, z), k))
  {
    ProductLeft(x, Shift(y, k), z);
    ProductShift(y, k, z);
  }

  lemma RowsNext(w: seq<Word>, m: seq<Word>, m2: seq<Word>, c: nat, p: nat, q: nat, qe: nat, ce: nat, a: nat, ai: nat, aj: nat, b: nat, be: nat, t: seq<Word>, k: nat)
    requires RowsDone(w, m, c, q, ce, a, ai, b, be) && a <= ai < aj <= |w| && aj == ai + 1 && k == WORD_BITS * (ai - a)
    requires c <= p && qe <= ce && Kept(m, m2, p, qe, 0, 0) && Poly(t) == Product(Poly([w[ai]]), Poly(At(w, b, be)))
    requires Poly(At(m2, c, qe)) == SymDiff(Poly(At(m, c, q)), Shift(Poly(t), k))
    ensures RowsDone(w, m2, c, qe, ce, a, aj, b, be)
  {
    KeptTrans(w, m, m2, c, ce, 0, 0, p, qe, 0, 0);
    PolyJoin(w, a, ai, aj, k);
    assert At(w, ai, aj) == [w[ai]];
    RowAdded(Poly(At(w, a, ai)), Poly([w[ai]]), Poly(At(w, b, be)), k);
  }

  /** One more word of a, for the output words from p on. */
  method AddRow(mem: array<Word>, ghost w: seq<Word>, c: nat, p: nat, q: nat, ghost qe: nat, ghost ce: nat, ghost a: nat, ai: nat, ghost aj: nat, ghost ae: nat, b: nat, be: nat)
    requires |w| == mem.Length && Layout(|w|, c, ce, a, ae, b, be, 0, 0) && a <= ai && aj == ai + 1 && aj <= ae
    requires p == c + (ai - a) && q == p + (be - b) && qe == q + 1 && qe <= ce
    requires RowsDone(w, mem[..], c, q, ce, a, ai, b, be)
    modifies mem
    ensures RowsDone(w, mem[..], c, qe, ce, a, aj, b, be)
  {
    ghost var m := mem[..];
    KeptSlice(w, m, c, ce, 0, 0, b, be);
    var x := mem[ai];
    ghost var t := WordProduct(x, At(m, b, be));
    var carry := AddMul1(mem, p, q, b, be, x);
    ghost var m1 := mem[..];
    mem[q] := carry;
    assert mem[..] == m1[q := carry];
    ghost var k := WORD_BITS * (ai - a);
    NextRow(m, m1, mem[..], c, p, q, qe, t, k);
    WordProductIs(x, At(m, b, be));
    RowsNext(w, m, mem[..], c, p, q, qe, ce, a, ai, aj, b, be, t, k);
  }

  /** Operands of different lengths, the first one shorter: one word of it at a time. */
  method MulRows(mem: array<Word>, c: nat, ghost ce: nat, a: nat, ae: nat, b: nat, be: nat)
    requires Layout(mem.Length, c, ce, a, ae, b, be, 0, 0) && a < ae && ce == c + (ae - a) + (be - b)
    modifies mem
    ensures Multiplied(old(mem[..]), mem[..], c, ce, a, ae, b, be, 0, 0)
  {
    ghost var w := mem[..];
    var q: nat := c + (be - b);
    var p1: nat, q1: nat, a1: nat := c + 1, q + 1, a + 1;
    FirstWord(mem, c, q, q1, ce, a, a1, b, be);
    OtherWords(mem, w, c, ce, a, ae, b, be, p1, q1, a1);
  }

  method OtherWords(mem: array<Word>, ghost w: seq<Word>, c: nat, ghost ce: nat, ghost a: nat, ae: nat, b: nat, be: nat, p0: nat, q0: nat, a1: nat)
    requires |w| == mem.Length && Layout(|w|, c, ce, a, ae, b, be, 0, 0) && a < ae && ce == c + (ae - a) + (be - b)
    requires a1 == a + 1 && p0 == c + 1 && q0 == p0 + (be - b) && RowsDone(w, mem[..], c, q0, ce, a, a1, b, be)
    modifies mem
    ensures Multiplied(w, mem[..], c, ce, a, ae, b, be, 0, 0)
  {
    var p: nat, q: nat, ai: nat := p0, q0, a1;
    while ai < ae
      invariant a < ai <= ae && p == c + (ai - a) && q == p + (be - b)
      invariant RowsDone(w, mem[..], c, q, ce, a, ai, b, be)
    {
      var qe: nat, aj: nat := q + 1, ai + 1;
      AddRow(mem, w, c, p, q, qe, ce, a, ai, aj, ae, b, be);
      p, q, ai := p + 1, qe, aj;
    }
    RowsEnd(w, mem[..], c, q, ce, a, ai, ae, b, be);
  }

  lemma RowsEnd(w: seq<Word>, m: seq<Word>, c: nat, q: nat, ce: nat, a: nat, ai: nat, ae: nat, b: nat, be: nat)
    requires RowsDone(w, m, c, q, ce, a, ai, b, be) && q == ce && ai == ae
    ensures Multiplied(w, m, c, ce, a, ae, b, be, 0, 0)
  {
  }

  method FirstWord(mem: array<Word>, c: nat, q: nat, ghost qe: nat, ghost ce: nat, a: nat, ghost a1: nat, b: nat, be: nat)
    requires b <= be <= mem.Length && a < mem.Length && q == c + (be - b) && q < ce <= mem.Length && Apart(c, q, b, be)
    requires qe == q + 1 && a1 == a + 1
    modifies mem
    ensures RowsDone(old(mem[..]), mem[..], c, qe, ce, a, a1, b, be)
  {
    ghost var w := mem[..];
    var x := mem[a];
    var carry := Mul1(mem, c, q, b, be, x);
    ghost var m := mem[..];
    mem[q] := carry;
    assert At(mem[..], c, q + 1) == At(m, c, q) + [carry];
    FirstRow(w, mem[..], c, q, ce, a, b, be, x);
  }

  lemma FirstRow(w: seq<Word>, m: seq<Word>, c: nat, q: nat, ce: nat, a: nat, b: nat, be: nat, x: Word)
    requires c <= q < ce <= |w| && a < |w| && x == w[a] && Kept(w, m, c, q + 1, 0, 0) && At(m, c, q + 1) == WordProduct(x, At(w, b, be))
    ensures RowsDone(w, m, c, q + 1, ce, a, a + 1, b, be)
  {
    WordProductIs(x, At(w, b, be));
    assert At(w, a, a + 1) == [x];
  }

  /** Short operands: equal lengths by straight-line code, different lengths one word at a time. */
  method Basecase(mem: array<Word>, c: nat, ce: nat, a: nat, ae: nat, b: nat, be: nat)
    requires Layout(mem.Length, c, ce, a, ae, b, be, 0, 0) && a < ae && b < be && ce == c + (ae - a) + (be - b)
    requires ae - a == be - b ==> ae - a <= LARGEST_BASECASE
    modifies mem
    ensures Multiplied(old(mem[..]), mem[..], c, ce, a, ae, b, be, 0, 0)
  {
    if ae - a == be - b {
      MulFixed(mem, c, ce, a, ae, b, be, ae - a, 0);
    } else if ae - a < be - b {
      MulRows(mem, c, ce, a, ae, b, be);
    } else {
      ghost var w := mem[..];
      MulRows(mem, c, ce, b, be, a, ae);
      Commuted(w, mem[..], c, ce, a, ae, b, be, 0, 0);
    }
  }

  lemma Commuted(w: seq<Word>, m: seq<Word>, c: nat, ce: nat, a: nat, ae: nat, b: nat, be: nat, d: nat, de: nat)
    requires Multiplied(w, m, c, ce, b, be, a, ae, d, de)
    ensures Multiplied(w, m, c, ce, a, ae, b, be, d, de)
  {
    ProductCommutes(Poly(At(w, a, ae)), Poly(At(w, b, be)));
  }

  /** The scratch words allocated for operands of lengths sa <= sb. */
  function PoolSize(sa: nat, sb: nat, low: nat): nat {
    if sa == sb then ToomSpace(sa, low) else ToomSpace(sa, low) + 2 * sa
  }

  /** The product of operands of lengths sa <= sb into an output that overlaps neither. */
  method MulInto(mem: array<Word>, c: nat, ce: nat, a: nat, ae: nat, b: nat, be: nat, stk: nat, se: nat, threshold: nat, low: nat)
    requires 5 <= threshold <= LARGEST_BASECASE + 1 && low <= threshold
    requires a < ae && b < be && ae - a <= be - b && ce == c + (ae - a) + (be - b) && se == stk + PoolSize(ae - a, be - b, low)
    requires Layout(mem.Length, c, ce, a, ae, b, be, stk, se)
    modifies mem
    ensures Multiplied(old(mem[..]), mem[..], c, ce, a, ae, b, be, stk, se)
  {
    var sa := ae - a;
    ghost var w := mem[..];
    if sa < threshold {
      Basecase(mem, c, ce, a, ae, b, be);
      AnyScratch(w, mem[..], c, ce, a, ae, b, be, stk, se);
    } else if ae - a == be - b {
      MulToom(mem, c, ce, a, ae, b, be, sa, stk, se, threshold, low);
    } else {
      var v := stk + ToomSpace(sa, low);
      MulUnbalanced(mem, Area(c, ce, stk, v, se), a, ae, b, be, threshold, low);
    }
  }

  lemma AnyScratch(w: seq<Word>, m: seq<Word>, c: nat, ce: nat, a: nat, ae: nat, b: nat, be: nat, d: nat, de: nat)
    requires Multiplied(w, m, c, ce, a, ae, b, be, 0, 0)
    ensures Multiplied(w, m, c, ce, a, ae, b, be, d, de)
  {
  }

  method CopyWords(mem: array<Word>, p: nat, pe: nat, q: nat, qe: nat)
    requires p <= pe <= mem.Length && q <= qe <= mem.Length && pe - p == qe - q && Apart(p, pe, q, qe)
    modifies mem
    ensures At(mem[..], p, pe) == At(old(mem[..]), q, qe) && Kept(old(mem[..]), mem[..], p, pe, 0, 0)
  {
    WriteWords(mem, p, pe, mem[q..qe]);
  }

  /** The output starts where an operand does, or overlaps neither. */
  predicate OutputOk(c: nat, ce: nat, a: nat, ae: nat, b: nat, be: nat) {
    c == a || c == b || (Apart(c, ce, a, ae) && Apart(c, ce, b, be))
  }

  /** The product of operands of any positive lengths.  Scratch [stk, se) and, if the output is one of
      the operands, a temporary output [t, te) are allocated. */
  method MulR(mem: array<Word>, c: nat, ce: nat, a: nat, ae: nat, b: nat, be: nat, stk: nat, se: nat, t: nat, te: nat, threshold: nat, low: nat)
    requires 5 <= threshold <= LARGEST_BASECASE + 1 && low <= threshold
    requires a < ae <= mem.Length && b < be <= mem.Length && c <= ce <= mem.Length && ce == c + (ae - a) + (be - b) && OutputOk(c, ce, a, ae, b, be)
    requires se == stk + (if ae - a <= be - b then PoolSize(ae - a, be - b, low) else PoolSize(be - b, ae - a, low))
    requires te == t + (ae - a) + (be - b) && se <= t
    requires Layout(mem.Length, t, te, a, ae, b, be, stk, se) && Apart(c, ce, stk, te)
    modifies mem
    ensures Multiplied(old(mem[..]), mem[..], c, ce, a, ae, b, be, stk, te)
  {
    ghost var w := mem[..];
    if c == a || c == b {
      MulOrdered(mem, t, te, a, ae, b, be, stk, se, threshold, low);
      ghost var m := mem[..];
      CopyWords(mem, c, ce, t, te);
      Copied(w, m, mem[..], c, ce, t, te, a, ae, b, be, stk, se);
    } else {
      MulOrdered(mem, c, ce, a, ae, b, be, stk, se, threshold, low);
      MoreScratch(w, mem[..], c, ce, a, ae, b, be, stk, se, te);
    }
  }

  lemma Copied(w: seq<Word>, m: seq<Word>, m2: seq<Word>, c: nat, ce: nat, t: nat, te: nat, a: nat, ae: nat, b: nat, be: nat, stk: nat, se: nat)
    requires Multiplied(w, m, t, te, a, ae, b, be, stk, se) && stk <= se <= t <= te && Apart(c, ce, stk, te)
    requires At(m2, c, ce) == At(m, t, te) && Kept(m, m2, c, ce, 0, 0)
    ensures Multiplied(w, m2, c, ce, a, ae, b, be, stk, te)
  {
  }

  /** Puts the shorter operand first. */
  method MulOrdered(mem: array<Word>, c: nat, ce: nat, a: nat, ae: nat, b: nat, be: nat, stk: nat, se: nat, threshold: nat, low: nat)
    requires 5 <= threshold <= LARGEST_BASECASE + 1 && low <= threshold
    requires a < ae && b < be && ce == c + (ae - a) + (be - b)
    requires se == stk + (if ae - a <= be - b then PoolSize(ae - a, be - b, low) else PoolSize(be - b, ae - a, low))
    requires Layout(mem.Length, c, ce, a, ae, b, be, stk, se)
    modifies mem
    ensures Multiplied(old(mem[..]), mem[..], c, ce, a, ae, b, be, stk, se)
  {
    if ae - a > be - b {
      ghost var w := mem[..];
      MulInto(mem, c, ce, b, be, a, ae, stk, se, threshold, low);
      Commuted(w, mem[..], c, ce, a, ae, b, be, stk, se);
    } else {
      MulInto(mem, c, ce, a, ae, b, be, stk, se, threshold, low);
    }
  }
}
