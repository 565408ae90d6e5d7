/** Polynomials over GF(2) in machine words, and memory regions holding them. */
module Gf2Words {
  import opened XorSets
  import opened Gf2Poly

  const WORD_BITS: nat := 64

  /** A word, as the set of the positions of its bits; positions from WORD_BITS on mean nothing. */
  type Word = set<nat>

  predicate HasBit(s: seq<Word>, e: nat) {
    e / WORD_BITS < |s| && e % WORD_BITS in s[e / WORD_BITS]
  }

  /** The polynomial with the given words, least significant first. */
  function Poly(s: seq<Word>): set<nat> {
    set e: nat {:trigger HasBit(s, e)} | 0 <= e < WORD_BITS * |s| && HasBit(s, e)
  }

  function XorWord(x: Word, y: Word): Word {
    SymDiff(x, y)
  }

  /** Adds t to the low words of s. */
  function XorLow(s: seq<Word>, t: seq<Word>): (r: seq<Word>)
    ensures |r| == |s|
  {
    seq(|s|, i requires 0 <= i < |s| => if i < |t| then XorWord(s[i], t[i]) else s[i])
  }

  lemma PolyMember(s: seq<Word>, e: nat)
    ensures e in Poly(s) <==> HasBit(s, e)
  {
  }

  lemma PolyBelow(s: seq<Word>)
    ensures Below(Poly(s), WORD_BITS * |s|)
  {
  }

  lemma PolyXor(s: seq<Word>, t: seq<Word>)
    requires |t| <= |s|
    ensures Poly(XorLow(s, t)) == SymDiff(Poly(s), Poly(t))
  {
    forall e: nat ensures e in Poly(XorLow(s, t)) <==> e in SymDiff(Poly(s), Poly(t)) {
      PolyMember(XorLow(s, t), e);
      PolyMember(s, e);
      PolyMember(t, e);
    }
  }

  lemma WordIndex(e: nat, n: nat)
    requires e >= WORD_BITS * n
    ensures (e - WORD_BITS * n) / WORD_BITS == e / WORD_BITS - n && (e - WORD_BITS * n) % WORD_BITS == e % WORD_BITS
  {
  }

  lemma PolyConcat(s: seq<Word>, t: seq<Word>)
    ensures Poly(s + t) == SymDiff(Poly(s), Shift(Poly(t), WORD_BITS * |s|))
  {
    forall e: nat ensures e in Poly(s + t) <==> e in SymDiff(Poly(s), Shift(Poly(t), WORD_BITS * |s|)) {
      PolyMember(s + t, e);
      PolyMember(s, e);
      if e >= WORD_BITS * |s| {
        WordIndex(e, |s|);
        PolyMember(t, e - WORD_BITS * |s|);
      }
    }
  }

  function Zeros(n: nat): seq<Word> {
    seq(n, _ => {})
  }

  lemma PolyZeros(n: nat)
    ensures Poly(Zeros(n)) == {}
  {
    forall e: nat ensures e !in Poly(Zeros(n)) {
      PolyMember(Zeros(n), e);
    }
  }

  predicate BitOf(a: set<nat>, i: nat, k: nat) {
    WORD_BITS * i + k in a
  }

  /** The n low words of a polynomial. */
  function ToWords(a: set<nat>, n: nat): (s: seq<Word>)
    ensures |s| == n
  {
    seq(n, i requires 0 <= i < n => set k: nat {:trigger BitOf(a, i, k)} | k < WORD_BITS && BitOf(a, i, k))
  }

  lemma PolyToWords(a: set<nat>, n: nat)
    requires Below(a, WORD_BITS * n)
    ensures Poly(ToWords(a, n)) == a
  {
    forall e: nat ensures e in Poly(ToWords(a, n)) <==> e in a {
      PolyMember(ToWords(a, n), e);
      assert WORD_BITS * (e / WORD_BITS) + e % WORD_BITS == e;
    }
  }

  // ----- Memory -----

  /** The words in the region [p, pe). */
  ghost function At(w: seq<Word>, p: nat, pe: nat): seq<Word> {
    if p <= pe <= |w| then w[p..pe] else []
  }

  lemma JoinTwo(m: seq<Word>, p: nat, q: nat, r: nat)
    requires p <= q <= r <= |m|
    ensures At(m, p, r) == At(m, p, q) + At(m, q, r)
  {
  }

  /** The regions [p, pe) and [q, qe) have no word in common. */
  predicate Apart(p: nat, pe: nat, q: nat, qe: nat) {
    pe <= q || qe <= p
  }

  /** Only words in one of two regions differ. */
  ghost predicate Kept(s: seq<Word>, t: seq<Word>, c: nat, ce: nat, d: nat, de: nat) {
    |s| == |t| && forall k {:trigger t[k]} :: 0 <= k < |s| && !(c <= k < ce) && !(d <= k < de) ==> s[k] == t[k]
  }

  lemma KeptSlice(s: seq<Word>, t: seq<Word>, c: nat, ce: nat, d: nat, de: nat, p: nat, pe: nat)
    requires Kept(s, t, c, ce, d, de) && p <= pe <= |s| && Apart(p, pe, c, ce) && Apart(p, pe, d, de)
    ensures At(s, p, pe) == At(t, p, pe)
  {
  }

  predicate Inside(p: nat, pe: nat, c: nat, ce: nat, d: nat, de: nat) {
    (c <= p && pe <= ce) || (d <= p && pe <= de) || pe <= p
  }

  lemma KeptTrans(s: seq<Word>, t: seq<Word>, u: seq<Word>, c: nat, ce: nat, d: nat, de: nat, p: nat, pe: nat, q: nat, qe: nat)
    requires Kept(s, t, c, ce, d, de) && Kept(t, u, p, pe, q, qe) && Inside(p, pe, c, ce, d, de) && Inside(q, qe, c, ce, d, de)
    ensures Kept(s, u, c, ce, d, de)
  {
  }

  method WriteWords(mem: array<Word>, p: nat, ghost pe: nat, s: seq<Word>)
    requires pe == p + |s| <= mem.Length
    modifies mem
    ensures At(mem[..], p, pe) == s && Kept(old(mem[..]), mem[..], p, pe, 0, 0)
  {
    ghost var was := mem[..];
    for j := 0 to |s|
      invariant forall k {:trigger mem[k]} :: 0 <= k < mem.Length ==> mem[k] == if p <= k < p + j then s[k - p] else was[k]
    {
      mem[p + j] := s[j];
    }
  }

  /** Xors the words at q into those at p. */
  method XorInto(mem: array<Word>, p: nat, ghost pe: nat, q: nat, ghost qe: nat, l: nat)
    requires pe == p + l <= mem.Length && qe == q + l <= mem.Length && Apart(p, pe, q, qe)
    modifies mem
    ensures At(mem[..], p, pe) == XorLow(At(old(mem[..]), p, pe), At(old(mem[..]), q, qe))
    ensures Kept(old(mem[..]), mem[..], p, pe, 0, 0)
  {
    ghost var was := mem[..];
    for j := 0 to l
      invariant forall k {:trigger mem[k]} :: 0 <= k < mem.Length ==> mem[k] == if p <= k < p + j then XorWord(was[k], was[q + (k - p)]) else was[k]
    {
      mem[p + j] := XorWord(mem[p + j], mem[q + j]);
    }
  }
}
