/** Garbage collection: every thread takes full pages of earlier generations, copies their live rows to
    its active page, and returns them to the list of empty pages.  The threads' steps interleave. */
module HeapCollection {
  import opened RowHeap
  import opened HeapSteps

  // ----- Taking a page -----

  /** The first full page is of an earlier generation. */
  predicate CanTake(h: Heap, t: nat) {
    && Shape(h) && t < |h.job| && h.job[t].NoJob? && h.full != [] && h.full[0] < |h.pages| && h.generation[h.full[0]] < h.now
  }

  function TakePage(h: Heap, t: nat): Heap
    requires CanTake(h, t)
  {
    var p := h.full[0];
    h.(full := h.full[1..], place := h.place[p := Collected(t)], job := h.job[t := Collect(p, 0, 0)])
  }

  lemma TakePartitioned(h: Heap, t: nat)
    requires CanTake(h, t) && Partitioned(h)
    ensures Partitioned(TakePage(h, t))
  {
    ListedRemove(h.full, h.place, Full, Collected(t));
    ListedOther(h.empty, h.place, Empty, h.full[0], Collected(t));
  }

  lemma TakeFrom(h: Heap, t: nat, p: nat)
    requires CanTake(h, t) && Partitioned(h) && p < |h.pages|
    ensures From(TakePage(h, t), p) == From(h, p)
    ensures TakePage(h, t).place[p].Empty? == h.place[p].Empty?
  {
  }

  lemma TakeInv(h: Heap, t: nat, contents: map<nat, seq<nat>>)
    requires Inv(h, contents) && CanTake(h, t)
    ensures Inv(TakePage(h, t), contents)
  {
    var h' := TakePage(h, t);
    TakePartitioned(h, t);
    SamePages(h, h', contents, t);
    assert GarbageOf(h') == GarbageOf(h);
    assert h'.pages[h.full[0]][..0] == [];
  }

  /** Taking a page changes nothing for records and rows. */
  lemma SamePages(h: Heap, h': Heap, contents: map<nat, seq<nat>>, t: nat)
    requires Shape(h) && Partitioned(h) && PagesOk(h) && RowsOk(h, contents) && CanTake(h, t) && h' == TakePage(h, t)
    ensures PagesOk(h') && RowsOk(h', contents)
  {
    forall p, k | 0 <= p < |h'.pages| && 0 <= k < |h'.pages[p]| ensures RecOk(h', p, k) {
      assert RecOk(h, p, k);
      TakeFrom(h, t, p);
    }
    forall p | 0 <= p < |h'.pages| ensures From(h', p) <= |h'.pages[p]| && Used(h'.pages[p]) <= PAGE_DATA_SIZE {
      TakeFrom(h, t, p);
    }
    forall i | i in h'.rows ensures RowOk(h', contents, i) {
      assert RowOk(h, contents, i);
      TakeFrom(h, t, h.rows[i].page);
    }
  }

  // ----- One record -----

  predicate CanCopy(h: Heap, t: nat) {
    Shape(h) && t < |h.job| && h.job[t].Collect? && h.job[t].page < |h.pages| && h.job[t].bot < |h.pages[h.job[t].page]|
  }

  /** Goes past the record: a destroyed one counts as garbage. */
  function Advance(h: Heap, t: nat, dead: bool): Heap
    requires CanCopy(h, t)
  {
    var j := h.job[t];
    var r := h.pages[j.page][j.bot];
    h.(job := h.job[t := Collect(j.page, j.bot + 1, j.garbage + (if dead then Size(r) else 0))],
       rows := if dead || r.id < 0 then h.rows else h.rows - {r.id as nat})
  }

  lemma AdvanceFrom(h: Heap, t: nat, dead: bool, p: nat)
    requires CanCopy(h, t) && Partitioned(h) && p < |h.pages|
    ensures From(Advance(h, t, dead), p) == From(h, p) + (if p == h.job[t].page then 1 else 0)
    ensures p == h.job[t].page ==> From(h, p) == h.job[t].bot
  {
  }

  lemma AdvancePages(h: Heap, t: nat, dead: bool)
    requires CanCopy(h, t) && Partitioned(h) && PagesOk(h)
    ensures PagesOk(Advance(h, t, dead))
  {
    var h', j := Advance(h, t, dead), h.job[t];
    forall p, k | 0 <= p < |h'.pages| && 0 <= k < |h'.pages[p]| ensures RecOk(h', p, k) {
      assert RecOk(h, p, k);
      assert RecOk(h, j.page, j.bot);
      AdvanceFrom(h, t, dead, p);
      AdvanceFrom(h, t, dead, j.page);
    }
    forall p | 0 <= p < |h'.pages| ensures From(h', p) <= |h'.pages[p]| && Used(h'.pages[p]) <= PAGE_DATA_SIZE {
      AdvanceFrom(h, t, dead, p);
    }
  }

  lemma AdvanceRows(h: Heap, t: nat, dead: bool, contents: map<nat, seq<nat>>)
    requires CanCopy(h, t) && Partitioned(h) && RowsOk(h, contents)
    requires var r := h.pages[h.job[t].page][h.job[t].bot]; dead == (r.id == DEAD) && (!dead ==> r.id >= 0)
    ensures var r := h.pages[h.job[t].page][h.job[t].bot];
            RowsOk(Advance(h, t, dead), if dead then contents else contents - {r.id as nat})
  {
    var h', j := Advance(h, t, dead), h.job[t];
    var r := h.pages[j.page][j.bot];
    var contents' := if dead then contents else contents - {r.id as nat};
    forall i | i in h'.rows ensures RowOk(h', contents', i) {
      AdvanceRow(h, t, dead, contents, i);
    }
  }

  lemma AdvanceRow(h: Heap, t: nat, dead: bool, contents: map<nat, seq<nat>>, i: nat)
    requires CanCopy(h, t) && Partitioned(h) && i in h.rows && i in contents && RowOk(h, contents, i)
    requires h.pages[h.job[t].page][h.job[t].bot].id != i
    ensures From(Advance(h, t, dead), h.rows[i].page) <= h.rows[i].k
  {
    AdvanceFrom(h, t, dead, h.rows[i].page);
  }

  lemma AdvanceWaste(h: Heap, t: nat, dead: bool)
    requires CanCopy(h, t) && Partitioned(h) && WasteExact(h) && dead == (h.pages[h.job[t].page][h.job[t].bot].id == DEAD)
    ensures WasteExact(Advance(h, t, dead))
  {
    var h', j := Advance(h, t, dead), h.job[t];
    var recs := h.pages[j.page];
    assert recs[..j.bot + 1] == recs[..j.bot] + [recs[j.bot]];
    UsedMore(recs[..j.bot], recs[j.bot]);
    assert GarbageOf(h') == GarbageOf(h);
  }

  /** Detaching or skipping the record keeps the invariant; a live row is missing until it is written again. */
  lemma AdvanceInv(h: Heap, t: nat, dead: bool, contents: map<nat, seq<nat>>)
    requires Inv(h, contents) && CanCopy(h, t)
    requires var r := h.pages[h.job[t].page][h.job[t].bot]; dead == (r.id == DEAD) && (!dead ==> r.id >= 0)
    ensures var r := h.pages[h.job[t].page][h.job[t].bot];
            Inv(Advance(h, t, dead), if dead then contents else contents - {r.id as nat})
  {
    AdvancePages(h, t, dead);
    AdvanceRows(h, t, dead, contents);
    AdvanceWaste(h, t, dead);
    assert Partitioned(Advance(h, t, dead));
  }

  /** Copies a live record to the active page of the thread, or skips a destroyed one. */
  function CopyRecord(h: Heap, t: nat): Heap
    requires CanCopy(h, t) && Partitioned(h)
  {
    var r := h.pages[h.job[t].page][h.job[t].bot];
    if r.id == DEAD || r.id < 0 then Advance(h, t, true)
    else
      RoomKeepsJob(h, t, Size(r));
      Append(Advance(MakeRoom(h, t, Size(r)), t, false), t, r)
  }

  /** Making room leaves the page under collection alone. */
  lemma RoomKeepsJob(h: Heap, t: nat, size: nat)
    requires CanCopy(h, t) && Partitioned(h)
    ensures var h' := MakeRoom(h, t, size);
            CanCopy(h', t) && Partitioned(h') && h'.job == h.job && h'.pages[h.job[t].page] == h.pages[h.job[t].page]
  {
    if Used(h.pages[h.active[t]]) + size >= PAGE_DATA_SIZE {
      RefillPartitioned(h, t);
      RefillKeeps(h, t);
    }
  }

  lemma CopyInv(h: Heap, t: nat, contents: map<nat, seq<nat>>)
    requires Inv(h, contents) && CanCopy(h, t)
    ensures Inv(CopyRecord(h, t), contents)
  {
    var p, bot := h.job[t].page, h.job[t].bot;
    var r := h.pages[p][bot];
    assert RecOk(h, p, bot);
    if r.id == DEAD {
      AdvanceInv(h, t, true, contents);
    } else {
      RecordFits(h.pages[p], bot);
      RoomKeepsJob(h, t, Size(r));
      MakeRoomInv(h, t, Size(r), contents);
      MoveInv(MakeRoom(h, t, Size(r)), t, r, contents);
    }
  }

  /** A live record moves to the active page: its row keeps its contents. */
  lemma MoveInv(h: Heap, t: nat, r: Rec, contents: map<nat, seq<nat>>)
    requires Inv(h, contents) && CanCopy(h, t) && r == h.pages[h.job[t].page][h.job[t].bot] && r.id >= 0
    requires Used(h.pages[h.active[t]]) + Size(r) <= PAGE_DATA_SIZE
    ensures Inv(Append(Advance(h, t, false), t, r), contents)
  {
    var i := r.id as nat;
    LiveRecord(h, t, r, contents);
    AdvanceInv(h, t, false, contents);
    RoomAfterAdvance(h, t);
    WriteAgain(Advance(h, t, false), t, i, r.cells, contents);
  }

  lemma RoomAfterAdvance(h: Heap, t: nat)
    requires CanCopy(h, t)
    ensures Advance(h, t, false).pages == h.pages && Advance(h, t, false).active == h.active
  {
  }

  lemma LiveRecord(h: Heap, t: nat, r: Rec, contents: map<nat, seq<nat>>)
    requires Inv(h, contents) && CanCopy(h, t) && r == h.pages[h.job[t].page][h.job[t].bot] && r.id >= 0
    ensures r.id in h.rows && r.id in contents && contents[r.id] == r.cells && contents[r.id as nat := r.cells] == contents
  {
    var p, bot := h.job[t].page, h.job[t].bot;
    assert RecOk(h, p, bot);
    AdvanceFrom(h, t, false, p);
    assert RowOk(h, contents, r.id);
  }

  // ----- Returning a page -----

  predicate CanFinish(h: Heap, t: nat) {
    Shape(h) && t < |h.job| && h.job[t].Collect? && h.job[t].page < |h.pages| && h.job[t].bot == |h.pages[h.job[t].page]|
  }

  function FinishPage(h: Heap, t: nat): Heap
    requires CanFinish(h, t)
  {
    var j := h.job[t];
    h.(waste := h.waste[t := h.waste[t] - j.garbage], empty := [j.page] + h.empty, place := h.place[j.page := Empty], job := h.job[t := NoJob])
  }

  lemma FinishPartitioned(h: Heap, t: nat)
    requires CanFinish(h, t) && Partitioned(h)
    ensures Partitioned(FinishPage(h, t))
  {
    var p := h.job[t].page;
    ListedInsert(h.empty, h.place, Empty, p, 0);
    assert h.empty[..0] + [p] + h.empty[0..] == [p] + h.empty;
    ListedOther(h.full, h.place, Full, p, Empty);
  }

  lemma FinishPages(h: Heap, t: nat, contents: map<nat, seq<nat>>)
    requires CanFinish(h, t) && Partitioned(h) && PagesOk(h) && RowsOk(h, contents)
    ensures PagesOk(FinishPage(h, t)) && RowsOk(FinishPage(h, t), contents)
  {
    var h', page := FinishPage(h, t), h.job[t].page;
    forall p, k | 0 <= p < |h'.pages| && 0 <= k < |h'.pages[p]| ensures RecOk(h', p, k) {
      assert RecOk(h, p, k);
    }
    forall p | 0 <= p < |h'.pages| ensures From(h', p) <= |h'.pages[p]| && Used(h'.pages[p]) <= PAGE_DATA_SIZE {
      assert From(h, p) <= |h.pages[p]|;
    }
    forall i | i in h'.rows ensures RowOk(h', contents, i) {
      assert RowOk(h, contents, i);
      assert h.rows[i].page != page;
    }
  }

  lemma FinishWaste(h: Heap, t: nat)
    requires CanFinish(h, t) && Partitioned(h) && WasteExact(h)
    ensures WasteExact(FinishPage(h, t))
  {
    var h', j := FinishPage(h, t), h.job[t];
    assert h.pages[j.page][..j.bot] == h.pages[j.page];
    var g := GarbageOf(h);
    SumReplaced(h.waste, t, h.waste[t] - j.garbage);
    SumReplaced(g, j.page, 0);
    assert GarbageOf(h') == g[j.page := 0];
  }

  lemma FinishInv(h: Heap, t: nat, contents: map<nat, seq<nat>>)
    requires Inv(h, contents) && CanFinish(h, t)
    ensures Inv(FinishPage(h, t), contents)
  {
    FinishPartitioned(h, t);
    FinishPages(h, t, contents);
    FinishWaste(h, t);
  }

  // ----- Whole collections -----

  predicate Enabled(h: Heap, t: nat) {
    CanTake(h, t) || CanCopy(h, t) || CanFinish(h, t)
  }

  ghost function Step(h: Heap, t: nat): Heap
    requires Shape(h) && Partitioned(h) && Enabled(h, t)
  {
    if CanTake(h, t) then TakePage(h, t) else if CanCopy(h, t) then CopyRecord(h, t) else FinishPage(h, t)
  }

  lemma StepInv(h: Heap, t: nat, contents: map<nat, seq<nat>>)
    requires Inv(h, contents) && Enabled(h, t)
    ensures Inv(Step(h, t), contents)
  {
    if CanTake(h, t) {
      TakeInv(h, t, contents);
    } else if CanCopy(h, t) {
      CopyInv(h, t, contents);
    } else {
      FinishInv(h, t, contents);
    }
  }

  /** One for each full or active page of an earlier generation. */
  ghost function Old(h: Heap): (s: seq<int>)
    requires Shape(h)
    ensures |s| == |h.pages| && forall p :: 0 <= p < |s| ==> 0 <= s[p] <= 1
  {
    seq(|h.pages|, p requires 0 <= p < |h.pages| => if (h.place[p].Full? || h.place[p].Active?) && h.generation[p] < h.now then 1 else 0)
  }

  /** The records left to look at, thread by thread. */
  ghost function Left(h: Heap): (s: seq<int>)
    requires Shape(h)
    ensures |s| == |h.job| && forall t :: 0 <= t < |s| ==> s[t] >= 0
  {
    seq(|h.job|, t requires 0 <= t < |h.job| =>
      if h.job[t].Collect? && h.job[t].page < |h.pages| && h.job[t].bot <= |h.pages[h.job[t].page]|
      then |h.pages[h.job[t].page]| - h.job[t].bot + 1 else 0)
  }

  lemma {:induction false} SumNonNegative(s: seq<int>)
    requires forall i :: 0 <= i < |s| ==> s[i] >= 0
    ensures Sum(s) >= 0
  {
    if s != [] {
      SumNonNegative(s[..|s| - 1]);
    }
  }

  lemma TakeProgress(h: Heap, t: nat)
    requires CanTake(h, t) && Partitioned(h)
    ensures Sum(Old(TakePage(h, t))) < Sum(Old(h))
  {
    var o := Old(h);
    SumReplaced(o, h.full[0], 0);
    assert Old(TakePage(h, t)) == o[h.full[0] := 0];
  }

  lemma FinishProgress(h: Heap, t: nat)
    requires CanFinish(h, t) && Partitioned(h)
    ensures Sum(Old(FinishPage(h, t))) == Sum(Old(h)) && Sum(Left(FinishPage(h, t))) < Sum(Left(h))
  {
    var l := Left(h);
    SumReplaced(l, t, 0);
    assert Left(FinishPage(h, t)) == l[t := 0];
    assert Old(FinishPage(h, t)) == Old(h);
  }

  lemma AdvanceProgress(h: Heap, t: nat, dead: bool)
    requires CanCopy(h, t) && Partitioned(h)
    ensures Sum(Old(Advance(h, t, dead))) == Sum(Old(h)) && Sum(Left(Advance(h, t, dead))) == Sum(Left(h)) - 1
  {
    var l := Left(h);
    SumReplaced(l, t, l[t] - 1);
    assert Left(Advance(h, t, dead)) == l[t := l[t] - 1];
    assert Old(Advance(h, t, dead)) == Old(h);
  }

  lemma AppendProgress(h: Heap, t: nat, r: Rec)
    requires Shape(h) && Partitioned(h) && t < |h.active| && r.id >= 0
    ensures Shape(Append(h, t, r)) && Old(Append(h, t, r)) == Old(h) && Left(Append(h, t, r)) == Left(h)
  {
  }

  /** A new active page is of the current generation, and the old one stays among the old pages. */
  lemma RefillProgress(h: Heap, t: nat)
    requires Shape(h) && Partitioned(h) && t < |h.active|
    ensures Shape(Refill(h, t)) && Sum(Old(Refill(h, t))) == Sum(Old(h)) && Left(Refill(h, t)) == Left(h)
  {
    var h' := Refill(h, t);
    RefillKeeps(h, t);
    RefillGenerations(h, t);
    var o, o' := Old(h), Old(h');
    forall p | 0 <= p < |o| ensures o'[p] == o[p] {
      assert h'.pages[p] == h'.pages[p];
    }
    if |o'| == |o| {
      assert o' == o;
    } else {
      assert h'.pages[|o|] == [];
      assert o' == o + [0];
      SumMore(o, 0);
    }
    forall s | 0 <= s < |h.job| ensures Left(h')[s] == Left(h)[s] {
      if h.job[s].Collect? {
        assert h'.pages[h.job[s].page] == h.pages[h.job[s].page];
      }
    }
  }

  lemma RefillGenerations(h: Heap, t: nat)
    requires Shape(h) && Partitioned(h) && t < |h.active|
    ensures var h' := Refill(h, t);
            && h'.now == h.now && h'.active[t] < |h'.generation| && h'.generation[h'.active[t]] == h'.now && |h'.pages| <= |h.pages| + 1
            && (forall p :: 0 <= p < |h.pages| && !h.place[p].Empty? ==> p < |h'.generation| && h'.generation[p] == h.generation[p])
  {
  }

  lemma CopyProgress(h: Heap, t: nat)
    requires CanCopy(h, t) && Partitioned(h)
    ensures Shape(CopyRecord(h, t)) && Sum(Old(CopyRecord(h, t))) == Sum(Old(h)) && Sum(Left(CopyRecord(h, t))) < Sum(Left(h))
  {
    var r := h.pages[h.job[t].page][h.job[t].bot];
    if r.id == DEAD || r.id < 0 {
      AdvanceProgress(h, t, true);
    } else {
      RoomKeepsJob(h, t, Size(r));
      if Used(h.pages[h.active[t]]) + Size(r) >= PAGE_DATA_SIZE {
        RefillProgress(h, t);
      }
      MoveProgress(MakeRoom(h, t, Size(r)), t, r);
    }
  }

  lemma MoveProgress(h: Heap, t: nat, r: Rec)
    requires CanCopy(h, t) && Partitioned(h) && r.id >= 0
    ensures var h' := Append(Advance(h, t, false), t, r);
            Shape(h') && Sum(Old(h')) == Sum(Old(h)) && Sum(Left(h')) < Sum(Left(h))
  {
    AdvanceProgress(h, t, false);
    AdvancePartitioned(h, t);
    AppendProgress(Advance(h, t, false), t, r);
  }

  lemma AdvancePartitioned(h: Heap, t: nat)
    requires CanCopy(h, t) && Partitioned(h)
    ensures Partitioned(Advance(h, t, false))
  {
  }

  // ----- Destroyed rows -----

  /** A destroyed row takes up space. */
  ghost predicate DeadAt(h: Heap, p: nat, k: nat)
    requires Shape(h)
  {
    p < |h.pages| && !h.place[p].Empty? && k < |h.pages[p]| && h.pages[p][k].id == DEAD
  }

  /** Every destroyed row that takes up space now did so before, in a page that has been left as it was. */
  ghost predicate DeadLeft(h: Heap, h': Heap)
    requires Shape(h) && Shape(h')
  {
    forall p: nat, k: nat {:trigger DeadAt(h', p, k)} :: DeadAt(h', p, k) ==>
      DeadAt(h, p, k) && h.pages[p][k] == h'.pages[p][k] && h.generation[p] == h'.generation[p]
  }

  lemma DeadTransitive(h: Heap, m: Heap, h': Heap)
    requires Shape(h) && Shape(m) && Shape(h') && DeadLeft(h, m) && DeadLeft(m, h')
    ensures DeadLeft(h, h')
  {
    forall p: nat, k: nat {:trigger DeadAt(h', p, k)} | DeadAt(h', p, k)
      ensures DeadAt(h, p, k) && h.pages[p][k] == h'.pages[p][k] && h.generation[p] == h'.generation[p]
    {
      assert DeadAt(m, p, k);
    }
  }

  lemma RefillDead(h: Heap, t: nat)
    requires Shape(h) && Partitioned(h) && t < |h.active|
    ensures Shape(Refill(h, t)) && DeadLeft(h, Refill(h, t))
  {
    var h' := Refill(h, t);
    forall p: nat, k: nat {:trigger DeadAt(h', p, k)} | DeadAt(h', p, k)
      ensures DeadAt(h, p, k) && h.pages[p][k] == h'.pages[p][k] && h.generation[p] == h'.generation[p]
    {
      assert p != h'.active[t];
    }
  }

  lemma AppendDead(h: Heap, t: nat, r: Rec)
    requires Shape(h) && t < |h.active| && h.active[t] < |h.pages| && r.id >= 0
    ensures Shape(Append(h, t, r)) && DeadLeft(h, Append(h, t, r))
  {
  }

  lemma CopyDead(h: Heap, t: nat)
    requires CanCopy(h, t) && Partitioned(h)
    ensures Shape(CopyRecord(h, t)) && DeadLeft(h, CopyRecord(h, t))
  {
    var r := h.pages[h.job[t].page][h.job[t].bot];
    if r.id != DEAD && r.id >= 0 {
      var m := MakeRoom(h, t, Size(r));
      RoomKeepsJob(h, t, Size(r));
      if Used(h.pages[h.active[t]]) + Size(r) >= PAGE_DATA_SIZE {
        RefillDead(h, t);
      }
      var a := Advance(m, t, false);
      assert DeadLeft(m, a);
      AppendDead(a, t, r);
      DeadTransitive(h, m, a);
      DeadTransitive(h, a, CopyRecord(h, t));
    }
  }

  lemma StepDead(h: Heap, t: nat)
    requires Shape(h) && Partitioned(h) && Enabled(h, t)
    ensures Shape(Step(h, t)) && DeadLeft(h, Step(h, t))
  {
    if CanTake(h, t) {
      assert h.place[h.full[0]] == Full;
    } else if CanCopy(h, t) {
      CopyDead(h, t);
    }
  }

  /** From the start of a collection, whichever thread the scheduler lets go on, the collection ends, and
      every live row has kept its contents and its pointer, every page is in one place, the waste counters add
      up, and destroyed rows take up space only in pages that were not collected. */
  lemma CollectionEnds(h: Heap, contents: map<nat, seq<nat>>, pick: (nat, Heap) -> nat) returns (h': Heap)
    requires Inv(h, contents) && forall n, x :: (exists t: nat :: Enabled(x, t)) ==> Enabled(x, pick(n, x))
    ensures Inv(h', contents) && h'.now == h.now && |h'.job| == |h.job|
    ensures forall t :: 0 <= t < |h'.job| ==> h'.job[t].NoJob?
    ensures DeadLeft(h, h')
    ensures |h'.job| > 0 && h'.full != [] ==> h'.full[0] < |h'.generation| && h'.generation[h'.full[0]] >= h'.now
  {
    h' := h;
    var n := 0;
    while exists t: nat :: Enabled(h', t)
      invariant Inv(h', contents)
      invariant h'.now == h.now && |h'.job| == |h.job| && DeadLeft(h, h')
      decreases Pages(h'), Records(h')
    {
      var t := pick(n, h');
      StepInv(h', t, contents);
      StepProgress(h', t);
      StepDead(h', t);
      DeadTransitive(h, h', Step(h', t));
      h', n := Step(h', t), n + 1;
    }
    NothingLeft(h', contents);
  }

  lemma NothingLeft(h: Heap, contents: map<nat, seq<nat>>)
    requires Inv(h, contents) && forall t: nat :: !Enabled(h, t)
    ensures forall t :: 0 <= t < |h.job| ==> h.job[t].NoJob?
    ensures |h.job| > 0 && h.full != [] ==> h.full[0] < |h.generation| && h.generation[h.full[0]] >= h.now
  {
    forall t | 0 <= t < |h.job| ensures h.job[t].NoJob? {
      assert !Enabled(h, t);
    }
    if |h.job| > 0 {
      assert !Enabled(h, 0);
    }
  }

  /** The measure: old pages in use, then records to look at. */
  ghost function Pages(h: Heap): nat {
    if Shape(h) then
      SumNonNegative(Old(h));
      Sum(Old(h))
    else 0
  }

  ghost function Records(h: Heap): nat {
    if Shape(h) then
      SumNonNegative(Left(h));
      Sum(Left(h))
    else 0
  }

  lemma StepProgress(h: Heap, t: nat)
    requires Shape(h) && Partitioned(h) && Enabled(h, t)
    ensures var h' := Step(h, t);
            && Shape(h') && h'.now == h.now && |h'.job| == |h.job|
            && (Pages(h') < Pages(h) || (Pages(h') == Pages(h) && Records(h') < Records(h)))
  {
    if CanTake(h, t) {
      TakeProgress(h, t);
    } else if CanCopy(h, t) {
      CopyProgress(h, t);
    } else {
      FinishProgress(h, t);
    }
  }
}
