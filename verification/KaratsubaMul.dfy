/** The recursive multiplication routine and the trimming of leading zero words around it. */
module KaratsubaMul {
  import opened XorSets
  import opened Gf2Poly
  import opened Gf2Words
  import opened Karatsuba

  /** Where the parts are: the halves of a and b start at a0, a1 and b0, b1 and end at a2 and b2; the
      quarters of the output at c0 to c3, its end at c4; three scratch areas at s0 to s2, and the
      scratch left for the recursion from s3 to s4. */
  datatype Places = Places(a0: nat, a1: nat, a2: nat, b0: nat, b1: nat, b2: nat,
                           c0: nat, c1: nat, c2: nat, c3: nat, c4: nat, s0: nat, s1: nat, s2: nat, s3: nat, s4: nat)
  {
    /** Lower halves have n2 words, upper halves h. */
    predicate Ok(size: nat, n2: nat, h: nat) {
      && h <= n2 <= 2 * h
      && a1 == a0 + n2 && a2 == a1 + h && b1 == b0 + n2 && b2 == b1 + h
      && c1 == c0 + n2 && c2 == c1 + n2 && c3 == c2 + n2 && c4 == c2 + 2 * h
      && s1 == s0 + n2 && s2 == s1 + n2 && s3 == s2 + n2 && s3 <= s4
      && Layout(size, c0, c4, a0, a2, b0, b2, s0, s4)
    }
  }

  // ----- The two loops before the middle product -----

  /** The first j words of x are in memory at p. */
  ghost predicate Holds(m: seq<Word>, p: nat, x: seq<Word>, j: nat) {
    p + |x| <= |m| && j <= |x| && forall i {:trigger x[i]} :: 0 <= i < j ==> m[p + i] == x[i]
  }

  lemma HoldsAll(m: seq<Word>, p: nat, pe: nat, x: seq<Word>)
    requires Holds(m, p, x, |x|) && pe == p + |x|
    ensures At(m, p, pe) == x
  {
  }

  /** The sums of the halves of a, of the halves of b, and of the inner quarters of the output. */
  datatype Sums = Sums(aa: seq<Word>, bb: seq<Word>, cc: seq<Word>)

  ghost function SumsOf(w: seq<Word>, f: Places): Sums
  {
    Sums(XorLow(At(w, f.a0, f.a1), At(w, f.a1, f.a2)), XorLow(At(w, f.b0, f.b1), At(w, f.b1, f.b2)), XorLow(At(w, f.c1, f.c2), At(w, f.c2, f.c3)))
  }

  /** The first j words of each sum have been written. */
  ghost predicate Splitting(w: seq<Word>, m: seq<Word>, s: Sums, f: Places, n2: nat, j: nat) {
    && Kept(w, m, f.s0, f.s3, 0, 0) && |s.aa| == |s.bb| == |s.cc| == n2
    && f.s1 == f.s0 + n2 && f.s2 == f.s1 + n2 && f.s3 == f.s2 + n2
    && Holds(m, f.s0, s.aa, j) && Holds(m, f.s1, s.bb, j) && Holds(m, f.s2, s.cc, j)
  }

  method WriteThree(mem: array<Word>, ghost w: seq<Word>, ghost s: Sums, f: Places, n2: nat, j: nat, x: Word, y: Word, z: Word)
    requires Splitting(w, mem[..], s, f, n2, j) && j < n2 && x == s.aa[j] && y == s.bb[j] && z == s.cc[j]
    modifies mem
    ensures Splitting(w, mem[..], s, f, n2, j + 1)
  {
    mem[f.s0 + j], mem[f.s1 + j], mem[f.s2 + j] := x, y, z;
  }

  /** A sum of halves, read from memory in which only the scratch area has changed. */
  lemma SumAt(w: seq<Word>, m: seq<Word>, p: nat, q: nat, qe: nat, d: nat, de: nat, j: nat)
    requires Kept(w, m, d, de, 0, 0) && p <= q <= qe <= |w| && qe - q <= q - p && Apart(p, qe, d, de) && j < q - p
    ensures XorLow(At(w, p, q), At(w, q, qe))[j] == if j < qe - q then XorWord(m[p + j], m[q + j]) else m[p + j]
  {
  }

  lemma SumA(w: seq<Word>, m: seq<Word>, f: Places, n2: nat, h: nat, j: nat)
    requires f.Ok(|w|, n2, h) && Kept(w, m, f.s0, f.s3, 0, 0) && j < n2
    ensures SumsOf(w, f).aa[j] == if j < h then XorWord(m[f.a0 + j], m[f.a1 + j]) else m[f.a0 + j]
  {
    ScratchApart(|w|, f, n2, h);
    HalfSum(w, m, f.a0, f.a1, f.a2, n2, h, f.s0, f.s3, j);
  }

  lemma SumB(w: seq<Word>, m: seq<Word>, f: Places, n2: nat, h: nat, j: nat)
    requires f.Ok(|w|, n2, h) && Kept(w, m, f.s0, f.s3, 0, 0) && j < n2
    ensures SumsOf(w, f).bb[j] == if j < h then XorWord(m[f.b0 + j], m[f.b1 + j]) else m[f.b0 + j]
  {
    ScratchApart(|w|, f, n2, h);
    HalfSum(w, m, f.b0, f.b1, f.b2, n2, h, f.s0, f.s3, j);
  }

  lemma SumC(w: seq<Word>, m: seq<Word>, f: Places, n2: nat, h: nat, j: nat)
    requires f.Ok(|w|, n2, h) && Kept(w, m, f.s0, f.s3, 0, 0) && j < n2
    ensures SumsOf(w, f).cc[j] == XorWord(m[f.c1 + j], m[f.c2 + j])
  {
    ScratchApart(|w|, f, n2, h);
    HalfSum(w, m, f.c1, f.c2, f.c3, n2, n2, f.s0, f.s3, j);
  }

  lemma HalfSum(w: seq<Word>, m: seq<Word>, p: nat, q: nat, qe: nat, n2: nat, h: nat, d: nat, de: nat, j: nat)
    requires Kept(w, m, d, de, 0, 0) && q == p + n2 && qe == q + h && h <= n2 && qe <= |w| && Apart(p, qe, d, de) && j < n2
    ensures XorLow(At(w, p, q), At(w, q, qe))[j] == if j < h then XorWord(m[p + j], m[q + j]) else m[p + j]
  {
    SumAt(w, m, p, q, qe, d, de, j);
  }

  lemma ScratchApart(size: nat, f: Places, n2: nat, h: nat)
    requires f.Ok(size, n2, h)
    ensures Apart(f.a0, f.a2, f.s0, f.s3) && Apart(f.b0, f.b2, f.s0, f.s3) && Apart(f.c1, f.c3, f.s0, f.s3)
    ensures f.a2 <= size && f.b2 <= size && f.c3 <= size
  {
  }

  lemma SplitStart(w: seq<Word>, f: Places, n2: nat, h: nat)
    requires f.Ok(|w|, n2, h)
    ensures Splitting(w, w, SumsOf(w, f), f, n2, 0)
  {
  }

  method SplitBoth(mem: array<Word>, ghost w: seq<Word>, f: Places, n2: nat, h: nat, j: nat)
    requires f.Ok(|w|, n2, h) && j < h && Splitting(w, mem[..], SumsOf(w, f), f, n2, j)
    modifies mem
    ensures Splitting(w, mem[..], SumsOf(w, f), f, n2, j + 1)
  {
    SumA(w, mem[..], f, n2, h, j);
    SumB(w, mem[..], f, n2, h, j);
    SumC(w, mem[..], f, n2, h, j);
    var x, y := XorWord(mem[f.a0 + j], mem[f.a1 + j]), XorWord(mem[f.b0 + j], mem[f.b1 + j]);
    var z := XorWord(mem[f.c1 + j], mem[f.c2 + j]);
    WriteThree(mem, w, SumsOf(w, f), f, n2, j, x, y, z);
  }

  /** Past the end of the shorter upper halves. */
  method SplitLast(mem: array<Word>, ghost w: seq<Word>, f: Places, n2: nat, h: nat, j: nat)
    requires f.Ok(|w|, n2, h) && h <= j < n2 && Splitting(w, mem[..], SumsOf(w, f), f, n2, j)
    modifies mem
    ensures Splitting(w, mem[..], SumsOf(w, f), f, n2, j + 1)
  {
    SumA(w, mem[..], f, n2, h, j);
    SumB(w, mem[..], f, n2, h, j);
    SumC(w, mem[..], f, n2, h, j);
    var x, y, z := mem[f.a0 + j], mem[f.b0 + j], XorWord(mem[f.c1 + j], mem[f.c2 + j]);
    WriteThree(mem, w, SumsOf(w, f), f, n2, j, x, y, z);
  }

  /** Leaves the three sums in the scratch areas. */
  method SplitLoops(mem: array<Word>, f: Places, n2: nat, h: nat)
    requires f.Ok(mem.Length, n2, h)
    modifies mem
    ensures Splitting(old(mem[..]), mem[..], SumsOf(old(mem[..]), f), f, n2, n2)
  {
    ghost var w := mem[..];
    SplitStart(w, f, n2, h);
    var j := 0;
    while j < h
      invariant 0 <= j <= h
      invariant Splitting(w, mem[..], SumsOf(w, f), f, n2, j)
    {
      SplitBoth(mem, w, f, n2, h, j);
      j := j + 1;
    }
    while j < n2
      invariant h <= j <= n2
      invariant Splitting(w, mem[..], SumsOf(w, f), f, n2, j)
    {
      SplitLast(mem, w, f, n2, h, j);
      j := j + 1;
    }
  }

  // ----- The two loops after the middle product -----

  /** The words of [p, pe) from the j-th on are still the old ones. */
  ghost predicate Rest(w: seq<Word>, m: seq<Word>, p: nat, pe: nat, j: nat) {
    |m| == |w| && pe <= |w| && forall i {:trigger m[i]} :: p + j <= i < pe ==> m[i] == w[i]
  }

  /** The new middle quarters. */
  datatype Quarters = Quarters(c1: seq<Word>, c2: seq<Word>)

  ghost function QuartersOf(w: seq<Word>, f: Places): Quarters
  {
    Quarters(XorLow(At(w, f.c1, f.c2), XorLow(At(w, f.s2, f.s3), At(w, f.c0, f.c1))),
             XorLow(XorLow(At(w, f.c2, f.c3), At(w, f.s2, f.s3)), At(w, f.c3, f.c4)))
  }

  ghost predicate Combining(w: seq<Word>, m: seq<Word>, q: Quarters, f: Places, n2: nat, j: nat) {
    && Kept(w, m, f.c1, f.c3, 0, 0) && |q.c1| == |q.c2| == n2 && f.c2 == f.c1 + n2 && f.c3 == f.c2 + n2
    && Holds(m, f.c1, q.c1, j) && Holds(m, f.c2, q.c2, j) && Rest(w, m, f.c1, f.c2, j) && Rest(w, m, f.c2, f.c3, j)
  }

  lemma FirstQuarterWords(w: seq<Word>, f: Places, n2: nat, h: nat, j: nat)
    requires f.Ok(|w|, n2, h) && j < n2
    ensures QuartersOf(w, f).c1[j] == XorWord(w[f.c1 + j], XorWord(w[f.s2 + j], w[f.c0 + j]))
  {
  }

  /** The words of the new quarters, in terms of the old memory. */
  lemma QuarterWords(w: seq<Word>, f: Places, n2: nat, h: nat, j: nat)
    requires f.Ok(|w|, n2, h) && j < n2
    ensures j < 2 * h - n2 ==> QuartersOf(w, f).c2[j] == XorWord(w[f.c2 + j], XorWord(w[f.s2 + j], w[f.c3 + j]))
    ensures j >= 2 * h - n2 ==> QuartersOf(w, f).c2[j] == XorWord(w[f.c2 + j], w[f.s2 + j])
  {
    if j < 2 * h - n2 {
      XorAssociates(w[f.c2 + j], w[f.s2 + j], w[f.c3 + j]);
    }
  }

  lemma QuarterInputs(w: seq<Word>, m: seq<Word>, f: Places, n2: nat, h: nat, j: nat)
    requires f.Ok(|w|, n2, h) && j < n2 && Combining(w, m, QuartersOf(w, f), f, n2, j)
    ensures m[f.c0 + j] == w[f.c0 + j] && m[f.c1 + j] == w[f.c1 + j] && m[f.c2 + j] == w[f.c2 + j] && m[f.s2 + j] == w[f.s2 + j]
    ensures j < 2 * h - n2 ==> m[f.c3 + j] == w[f.c3 + j]
  {
  }

  lemma XorAssociates(x: Word, y: Word, z: Word)
    ensures XorWord(XorWord(x, y), z) == XorWord(x, XorWord(y, z))
  {
  }

  method WriteTwo(mem: array<Word>, ghost w: seq<Word>, ghost q: Quarters, f: Places, n2: nat, j: nat, x: Word, y: Word)
    requires Combining(w, mem[..], q, f, n2, j) && j < n2 && x == q.c1[j] && y == q.c2[j]
    modifies mem
    ensures Combining(w, mem[..], q, f, n2, j + 1)
  {
    mem[f.c1 + j], mem[f.c2 + j] := x, y;
  }

  lemma CombineStart(w: seq<Word>, f: Places, n2: nat, h: nat)
    requires f.Ok(|w|, n2, h)
    ensures Combining(w, w, QuartersOf(w, f), f, n2, 0)
  {
  }

  method CombineBoth(mem: array<Word>, ghost w: seq<Word>, f: Places, n2: nat, h: nat, j: nat)
    requires f.Ok(|w|, n2, h) && j < 2 * h - n2 && Combining(w, mem[..], QuartersOf(w, f), f, n2, j)
    modifies mem
    ensures Combining(w, mem[..], QuartersOf(w, f), f, n2, j + 1)
  {
    QuarterInputs(w, mem[..], f, n2, h, j);
    FirstQuarterWords(w, f, n2, h, j);
    QuarterWords(w, f, n2, h, j);
    var t := mem[f.s2 + j];
    var x, y := XorWord(mem[f.c1 + j], XorWord(t, mem[f.c0 + j])), XorWord(mem[f.c2 + j], XorWord(t, mem[f.c3 + j]));
    WriteTwo(mem, w, QuartersOf(w, f), f, n2, j, x, y);
  }

  /** Past the end of the shorter last quarter. */
  method CombineLast(mem: array<Word>, ghost w: seq<Word>, f: Places, n2: nat, h: nat, j: nat)
    requires f.Ok(|w|, n2, h) && 2 * h - n2 <= j < n2 && Combining(w, mem[..], QuartersOf(w, f), f, n2, j)
    modifies mem
    ensures Combining(w, mem[..], QuartersOf(w, f), f, n2, j + 1)
  {
    QuarterInputs(w, mem[..], f, n2, h, j);
    FirstQuarterWords(w, f, n2, h, j);
    QuarterWords(w, f, n2, h, j);
    var x, y := XorWord(mem[f.c1 + j], XorWord(mem[f.s2 + j], mem[f.c0 + j])), XorWord(mem[f.c2 + j], mem[f.s2 + j]);
    WriteTwo(mem, w, QuartersOf(w, f), f, n2, j, x, y);
  }

  /** Adds the outer parts to the middle quarters. */
  method CombineLoops(mem: array<Word>, f: Places, n2: nat, h: nat)
    requires f.Ok(mem.Length, n2, h)
    modifies mem
    ensures Combining(old(mem[..]), mem[..], QuartersOf(old(mem[..]), f), f, n2, n2)
  {
    ghost var w := mem[..];
    CombineStart(w, f, n2, h);
    var j := 0;
    while j < 2 * h - n2
      invariant 0 <= j <= 2 * h - n2
      invariant Combining(w, mem[..], QuartersOf(w, f), f, n2, j)
    {
      CombineBoth(mem, w, f, n2, h, j);
      j := j + 1;
    }
    while j < n2
      invariant 2 * h - n2 <= j <= n2
      invariant Combining(w, mem[..], QuartersOf(w, f), f, n2, j)
    {
      CombineLast(mem, w, f, n2, h, j);
      j := j + 1;
    }
  }

  // ----- The recursion -----

  lemma {:induction false} SpaceMonotone(m: nat, n: nat, threshold: nat)
    requires threshold >= 5 && m <= n
    ensures KaraSpace(m, threshold) <= KaraSpace(n, threshold)
  {
    if m >= threshold {
      SpaceMonotone((m + 1) / 2, (n + 1) / 2, threshold);
    }
  }

  /** The lower and the upper product are in place. */
  ghost predicate HalfProducts(w: seq<Word>, m: seq<Word>, f: Places)
  {
    && Kept(w, m, f.c0, f.c4, f.s0, f.s4)
    && Poly(At(m, f.c0, f.c2)) == Product(Poly(At(w, f.a0, f.a1)), Poly(At(w, f.b0, f.b1)))
    && Poly(At(m, f.c2, f.c4)) == Product(Poly(At(w, f.a1, f.a2)), Poly(At(w, f.b1, f.b2)))
  }

  lemma HalvesInPlace(w: seq<Word>, w1: seq<Word>, w2: seq<Word>, f: Places, n2: nat, h: nat, e: nat, e': nat)
    requires f.Ok(|w|, n2, h) && f.s3 <= e <= f.s4 && f.s3 <= e' <= f.s4
    requires Kept(w, w1, f.c0, f.c2, f.s3, e) && Kept(w1, w2, f.c2, f.c4, f.s3, e')
    requires Poly(At(w1, f.c0, f.c2)) == Product(Poly(At(w, f.a0, f.a1)), Poly(At(w, f.b0, f.b1)))
    requires Poly(At(w2, f.c2, f.c4)) == Product(Poly(At(w1, f.a1, f.a2)), Poly(At(w1, f.b1, f.b2)))
    ensures HalfProducts(w, w2, f)
  {
    KeptSlice(w, w1, f.c0, f.c2, f.s3, e, f.a1, f.a2);
    KeptSlice(w, w1, f.c0, f.c2, f.s3, e, f.b1, f.b2);
    KeptSlice(w1, w2, f.c2, f.c4, f.s3, e', f.c0, f.c2);
  }

  /** The output quarters after the last loops, with the middle product in place of the inner ones. */
  lemma OutputWords(w: seq<Word>, m: seq<Word>, l: seq<Word>, hi: seq<Word>, f: Places, n2: nat, h: nat)
    requires f.Ok(|w|, n2, h) && Combining(w, m, QuartersOf(w, f), f, n2, n2)
    requires |l| == 2 * n2 && |hi| == 2 * h
    requires At(w, f.c0, f.c1) == l[..n2] && At(w, f.c3, f.c4) == hi[n2..] && At(w, f.s2, f.s3) == XorLow(l[n2..], hi[..n2])
    ensures At(m, f.c0, f.c4) == Combined(l, At(w, f.c1, f.c3), hi, n2)
  {
    var q, mid := QuartersOf(w, f), At(w, f.c1, f.c3);
    HoldsAll(m, f.c1, f.c2, q.c1);
    HoldsAll(m, f.c2, f.c3, q.c2);
    KeptSlice(w, m, f.c1, f.c3, 0, 0, f.c0, f.c1);
    KeptSlice(w, m, f.c1, f.c3, 0, 0, f.c3, f.c4);
    assert mid[..n2] == At(w, f.c1, f.c2) && mid[n2..] == At(w, f.c2, f.c3);
    JoinFour(m, f.c0, f.c1, f.c2, f.c3, f.c4);
  }

  lemma JoinFour(m: seq<Word>, p: nat, q: nat, r: nat, s: nat, t: nat)
    requires p <= q <= r <= s <= t <= |m|
    ensures At(m, p, t) == At(m, p, q) + At(m, q, r) + At(m, r, s) + At(m, s, t)
  {
    JoinTwo(m, p, q, r);
    JoinTwo(m, p, r, s);
    JoinTwo(m, p, s, t);
  }

  /** After the split loops and the middle product. */
  ghost predicate MiddleDone(w: seq<Word>, m: seq<Word>, f: Places) {
    && Kept(w, m, f.c1, f.c3, f.s0, f.s4)
    && Poly(At(m, f.c1, f.c3)) == Product(Poly(SumsOf(w, f).aa), Poly(SumsOf(w, f).bb))
    && At(m, f.s2, f.s3) == SumsOf(w, f).cc
  }

  lemma MiddleInPlace(w: seq<Word>, w1: seq<Word>, w2: seq<Word>, f: Places, n2: nat, h: nat)
    requires f.Ok(|w|, n2, h) && Splitting(w, w1, SumsOf(w, f), f, n2, n2)
    requires Multiplied(w1, w2, f.c1, f.c3, f.s0, f.s1, f.s1, f.s2, f.s3, f.s4)
    ensures MiddleDone(w, w2, f)
  {
    var s := SumsOf(w, f);
    HoldsAll(w1, f.s0, f.s1, s.aa);
    HoldsAll(w1, f.s1, f.s2, s.bb);
    HoldsAll(w1, f.s2, f.s3, s.cc);
    KeptSlice(w1, w2, f.c1, f.c3, f.s3, f.s4, f.s2, f.s3);
    assert Kept(w, w2, f.c1, f.c3, f.s0, f.s4);
  }

  /** The ends of the regions of a call with operands of n words. */
  ghost predicate Ends(c: nat, ce: nat, a: nat, ae: nat, b: nat, be: nat, n: nat, stk: nat, se: nat, threshold: nat)
    requires threshold >= 5
  {
    ce == c + 2 * Effective(n) && ae == a + Effective(n) && be == b + Effective(n) && se == stk + KaraSpace(n, threshold)
  }

  method SplitAndMiddle(mem: array<Word>, f: Places, n2: nat, h: nat, threshold: nat)
    requires 5 <= threshold <= LARGEST_BASECASE + 1 && n2 >= 1
    requires f.Ok(mem.Length, n2, h) && f.s4 == f.s3 + KaraSpace(n2, threshold)
    modifies mem
    ensures MiddleDone(old(mem[..]), mem[..], f)
    decreases n2, 2
  {
    ghost var w := mem[..];
    SplitLoops(mem, f, n2, h);
    ghost var w1 := mem[..];
    Kara(mem, f.c1, f.c3, f.s0, f.s1, f.s1, f.s2, n2, f.s3, f.s4, threshold);
    MiddleInPlace(w, w1, mem[..], f, n2, h);
  }

  method LowAndHigh(mem: array<Word>, f: Places, n2: nat, h: nat, threshold: nat)
    requires 5 <= threshold <= LARGEST_BASECASE + 1 && h >= 1
    requires f.Ok(mem.Length, n2, h) && f.s4 == f.s3 + KaraSpace(n2, threshold)
    modifies mem
    ensures HalfProducts(old(mem[..]), mem[..], f)
    decreases n2, 2
  {
    ghost var w := mem[..];
    Kara(mem, f.c0, f.c2, f.a0, f.a1, f.b0, f.b1, n2, f.s3, f.s4, threshold);
    ghost var w1 := mem[..];
    SpaceMonotone(h, n2, threshold);
    ghost var e := f.s3 + KaraSpace(h, threshold);
    Kara(mem, f.c2, f.c4, f.a1, f.a2, f.b1, f.b2, h, f.s3, e, threshold);
    HalvesInPlace(w, w1, mem[..], f, n2, h, f.s4, e);
  }

  method KaraSteps(mem: array<Word>, f: Places, n2: nat, h: nat, threshold: nat)
    requires 5 <= threshold <= LARGEST_BASECASE + 1 && h >= 1
    requires f.Ok(mem.Length, n2, h) && f.s4 == f.s3 + KaraSpace(n2, threshold)
    modifies mem
    ensures Multiplied(old(mem[..]), mem[..], f.c0, f.c4, f.a0, f.a2, f.b0, f.b2, f.s0, f.s4)
    decreases n2, 3
  {
    ghost var w := mem[..];
    LowAndHigh(mem, f, n2, h, threshold);
    ghost var w1 := mem[..];
    SplitAndMiddle(mem, f, n2, h, threshold);
    ghost var w2 := mem[..];
    CombineLoops(mem, f, n2, h);
    Together(w, w1, w2, mem[..], f, n2, h);
  }

  /** The product of a and b, n words each, into the 2n words of c. */
  method Kara(mem: array<Word>, c: nat, ce: nat, a: nat, ae: nat, b: nat, be: nat, n: nat, stk: nat, ghost se: nat, threshold: nat)
    requires 5 <= threshold <= LARGEST_BASECASE + 1 && Ends(c, ce, a, ae, b, be, n, stk, se, threshold)
    requires Layout(mem.Length, c, ce, a, ae, b, be, stk, se)
    modifies mem
    ensures Multiplied(old(mem[..]), mem[..], c, ce, a, ae, b, be, stk, se)
    decreases n, 1
  {
    if n < threshold {
      MulFixed(mem, c, ce, a, ae, b, be, Effective(n), stk);
    } else {
      var n2 := (n + 1) / 2;
      var s3 := stk + 3 * n2;
      var f := Places(a, a + n2, ae, b, b + n2, be, c, c + n2, c + 2 * n2, c + 3 * n2, ce, stk, stk + n2, stk + 2 * n2, s3,
                      s3 + KaraSpace(n2, threshold));
      assert f.Ok(mem.Length, n2, n - n2);
      KaraSteps(mem, f, n2, n - n2, threshold);
    }
  }

  lemma Together(w: seq<Word>, w1: seq<Word>, w2: seq<Word>, w3: seq<Word>, f: Places, n2: nat, h: nat)
    requires f.Ok(|w|, n2, h) && HalfProducts(w, w1, f) && MiddleDone(w1, w2, f) && Combining(w2, w3, QuartersOf(w2, f), f, n2, n2)
    ensures Multiplied(w, w3, f.c0, f.c4, f.a0, f.a2, f.b0, f.b2, f.s0, f.s4)
  {
    KeptTrans(w, w1, w2, f.c0, f.c4, f.s0, f.s4, f.c1, f.c3, f.s0, f.s4);
    KeptTrans(w, w2, w3, f.c0, f.c4, f.s0, f.s4, f.c1, f.c3, 0, 0);
    TogetherProduct(w, w1, w2, w3, f, n2, h);
  }

  lemma TogetherProduct(w: seq<Word>, w1: seq<Word>, w2: seq<Word>, w3: seq<Word>, f: Places, n2: nat, h: nat)
    requires f.Ok(|w|, n2, h) && HalfProducts(w, w1, f) && MiddleDone(w1, w2, f) && Combining(w2, w3, QuartersOf(w2, f), f, n2, n2)
    ensures Poly(At(w3, f.c0, f.c4)) == Product(Poly(At(w, f.a0, f.a2)), Poly(At(w, f.b0, f.b2)))
  {
    var l, m, hi := At(w1, f.c0, f.c2), At(w2, f.c1, f.c3), At(w1, f.c2, f.c4);
    Survivors(w1, w2, f, n2, h);
    OutputWords(w2, w3, l, hi, f, n2, h);
    CombinedIsProduct(l, m, hi, n2);
    MiddleOperands(w, w1, f, n2, h);
    WholeProduct(At(w, f.a0, f.a1), At(w, f.a1, f.a2), At(w, f.b0, f.b1), At(w, f.b1, f.b2), n2, Poly(l), Poly(m), Poly(hi));
    JoinTwo(w, f.a0, f.a1, f.a2);
    JoinTwo(w, f.b0, f.b1, f.b2);
  }

  /** What the middle product did not overwrite. */
  lemma Survivors(w: seq<Word>, m: seq<Word>, f: Places, n2: nat, h: nat)
    requires f.Ok(|w|, n2, h) && MiddleDone(w, m, f)
    ensures At(m, f.c0, f.c1) == At(w, f.c0, f.c2)[..n2]
    ensures At(m, f.c3, f.c4) == At(w, f.c2, f.c4)[n2..]
    ensures At(m, f.s2, f.s3) == XorLow(At(w, f.c0, f.c2)[n2..], At(w, f.c2, f.c4)[..n2])
  {
    KeptSlice(w, m, f.c1, f.c3, f.s0, f.s4, f.c0, f.c1);
    KeptSlice(w, m, f.c1, f.c3, f.s0, f.s4, f.c3, f.c4);
    JoinTwo(w, f.c0, f.c1, f.c2);
    JoinTwo(w, f.c2, f.c3, f.c4);
  }

  lemma MiddleOperands(w: seq<Word>, m: seq<Word>, f: Places, n2: nat, h: nat)
    requires f.Ok(|w|, n2, h) && Kept(w, m, f.c0, f.c4, f.s0, f.s4)
    ensures Poly(SumsOf(m, f).aa) == SymDiff(Poly(At(w, f.a0, f.a1)), Poly(At(w, f.a1, f.a2)))
    ensures Poly(SumsOf(m, f).bb) == SymDiff(Poly(At(w, f.b0, f.b1)), Poly(At(w, f.b1, f.b2)))
  {
    KeptSlice(w, m, f.c0, f.c4, f.s0, f.s4, f.a0, f.a1);
    KeptSlice(w, m, f.c0, f.c4, f.s0, f.s4, f.a1, f.a2);
    KeptSlice(w, m, f.c0, f.c4, f.s0, f.s4, f.b0, f.b1);
    KeptSlice(w, m, f.c0, f.c4, f.s0, f.s4, f.b1, f.b2);
    PolyXor(At(w, f.a0, f.a1), At(w, f.a1, f.a2));
    PolyXor(At(w, f.b0, f.b1), At(w, f.b1, f.b2));
  }

  lemma WholeProduct(x0: seq<Word>, x1: seq<Word>, y0: seq<Word>, y1: seq<Word>, n2: nat, low: set<nat>, middle: set<nat>, high: set<nat>)
    requires |x0| == |y0| == n2
    requires low == Product(Poly(x0), Poly(y0)) && high == Product(Poly(x1), Poly(y1))
    requires middle == Product(SymDiff(Poly(x0), Poly(x1)), SymDiff(Poly(y0), Poly(y1)))
    ensures Assemble(low, middle, high, WORD_BITS * n2) == Product(Poly(x0 + x1), Poly(y0 + y1))
  {
    PolyConcat(x0, x1);
    PolyConcat(y0, y1);
    KaratsubaIdentity(Poly(x0), Poly(x1), Poly(y0), Poly(y1), WORD_BITS * n2);
  }
}
