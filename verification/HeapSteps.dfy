/** Every operation on the heap keeps the invariant. */
module HeapSteps {
  import opened RowHeap

  // ----- Page lists -----

  lemma ListedInsert(list: seq<nat>, place: seq<Place>, which: Place, p: nat, r: nat)
    requires Listed(list, place, which) && r <= |list| && p < |place| && place[p] != which
    ensures Listed(list[..r] + [p] + list[r..], place[p := which], which)
  {
    var now := list[..r] + [p] + list[r..];
    Inserted(list, p, r);
    forall i | 0 <= i < |now| ensures now[i] < |place| && place[p := which][now[i]] == which {
      assert now[i] in now;
    }
  }

  lemma Inserted(list: seq<nat>, p: nat, r: nat)
    requires r <= |list| && p !in list && forall i, j :: 0 <= i < j < |list| ==> list[i] != list[j]
    ensures var now := list[..r] + [p] + list[r..];
            && (forall q :: q in now <==> q in list || q == p)
            && forall i, j :: 0 <= i < j < |now| ==> now[i] != now[j]
  {
    var now := list[..r] + [p] + list[r..];
    assert list == list[..r] + list[r..];
    forall i, j | 0 <= i < j < |now| ensures now[i] != now[j] {
      assert now[i] == if i < r then list[i] else if i == r then p else list[i - 1];
      assert now[j] == if j < r then list[j] else if j == r then p else list[j - 1];
    }
  }

  lemma ListedRemove(list: seq<nat>, place: seq<Place>, which: Place, x: Place)
    requires Listed(list, place, which) && list != [] && x != which
    ensures Listed(list[1..], place[list[0] := x], which)
  {
    forall q | 0 <= q < |place| && place[list[0] := x][q] == which ensures q in list[1..] {
      assert q in list;
      assert list == [list[0]] + list[1..];
    }
  }

  lemma ListedOther(list: seq<nat>, place: seq<Place>, which: Place, p: nat, x: Place)
    requires Listed(list, place, which) && p < |place| && place[p] != which && x != which
    ensures Listed(list, place[p := x], which)
  {
  }

  lemma ListedMore(list: seq<nat>, place: seq<Place>, which: Place, x: Place)
    requires Listed(list, place, which) && x != which
    ensures Listed(list, place + [x], which)
  {
  }

  // ----- A new active page -----

  /** The two steps by which thread t gets a new active page. */
  function Refill(h: Heap, t: nat): Heap
    requires Shape(h) && Partitioned(h) && t < |h.active|
  {
    GetFreePage(ReleasePage(h, t), t)
  }

  lemma RefillLists(h: Heap, t: nat)
    requires Shape(h) && Partitioned(h) && t < |h.active|
    ensures Shape(Refill(h, t)) && Listed(Refill(h, t).full, Refill(h, t).place, Full) && Listed(Refill(h, t).empty, Refill(h, t).place, Empty)
  {
    var a := ReleasePage(h, t);
    var p := h.active[t];
    ListedInsert(h.full, h.place, Full, p, Position(h.full, h.generation, h.generation[p], |h.full|));
    ListedOther(h.empty, h.place, Empty, p, Full);
    if a.empty != [] {
      ListedRemove(a.empty, a.place, Empty, Active(t));
      ListedOther(a.full, a.place, Full, a.empty[0], Active(t));
    } else {
      ListedMore(a.full, a.place, Full, Active(t));
      ListedMore(a.empty, a.place, Empty, Active(t));
    }
  }

  lemma RefillPartitioned(h: Heap, t: nat)
    requires Shape(h) && Partitioned(h) && t < |h.active|
    ensures Shape(Refill(h, t)) && Partitioned(Refill(h, t))
  {
    RefillLists(h, t);
    RefillThreads(h, t);
    RefillPlaces(h, t);
  }

  lemma RefillThreads(h: Heap, t: nat)
    requires Shape(h) && Partitioned(h) && t < |h.active|
    ensures var h' := Refill(h, t);
            && Shape(h')
            && (forall s :: 0 <= s < |h'.active| ==> h'.active[s] < |h'.pages| && h'.place[h'.active[s]] == Active(s))
            && (forall s :: 0 <= s < |h'.job| && h'.job[s].Collect? ==> h'.job[s].page < |h'.pages| && h'.place[h'.job[s].page] == Collected(s))
  {
  }

  lemma RefillPlaces(h: Heap, t: nat)
    requires Shape(h) && Partitioned(h) && t < |h.active|
    ensures var h' := Refill(h, t);
            && Shape(h')
            && (forall p :: 0 <= p < |h'.pages| && h'.place[p].Active? ==> h'.place[p].t < |h'.active| && h'.active[h'.place[p].t] == p)
            && (forall p :: 0 <= p < |h'.pages| && h'.place[p].Collected? ==>
                  h'.place[p].t < |h'.job| && h'.job[h'.place[p].t].Collect? && h'.job[h'.place[p].t].page == p)
  {
  }

  /** What stays: pages in use keep their records, and only the old and the new active page move. */
  ghost predicate Refilled(h: Heap, h': Heap, t: nat) {
    && Shape(h) && Shape(h') && t < |h.active| == |h'.active| && |h'.pages| >= |h.pages|
    && h'.rows == h.rows && h'.waste == h.waste && h'.job == h.job && h'.active[t] < |h'.pages| && h'.pages[h'.active[t]] == []
    && (forall p {:trigger h'.pages[p]} {:trigger h'.place[p]} :: 0 <= p < |h.pages| && !h.place[p].Empty? ==>
          h'.pages[p] == h.pages[p] && h'.place[p] == (if p == h.active[t] then Full else h.place[p]))
    && (forall p {:trigger h'.pages[p]} {:trigger h'.place[p]} :: 0 <= p < |h'.pages| && (p >= |h.pages| || h.place[p].Empty?) ==>
          if p == h'.active[t] then h'.pages[p] == [] && h'.place[p] == Active(t)
          else p < |h.pages| && h'.place[p].Empty? && h'.pages[p] == h.pages[p])
  }

  lemma RefillKeeps(h: Heap, t: nat)
    requires Shape(h) && Partitioned(h) && t < |h.active|
    ensures Refilled(h, Refill(h, t), t)
  {
  }

  lemma RefillPages(h: Heap, h': Heap, t: nat)
    requires Refilled(h, h', t) && Partitioned(h) && PagesOk(h)
    ensures PagesOk(h')
  {
    forall p, k | 0 <= p < |h'.pages| && 0 <= k < |h'.pages[p]| ensures RecOk(h', p, k) {
      assert RecOk(h, p, k);
    }
    forall p | 0 <= p < |h'.pages| ensures From(h', p) <= |h'.pages[p]| && Used(h'.pages[p]) <= PAGE_DATA_SIZE {
      if p < |h.pages| {
        assert From(h, p) <= |h.pages[p]|;
      }
    }
  }

  lemma RefillRows(h: Heap, h': Heap, t: nat, contents: map<nat, seq<nat>>)
    requires Refilled(h, h', t) && Partitioned(h) && RowsOk(h, contents)
    ensures RowsOk(h', contents)
  {
    forall i | i in h'.rows ensures RowOk(h', contents, i) {
      assert RowOk(h, contents, i);
    }
  }

  lemma RefillWaste(h: Heap, h': Heap, t: nat)
    requires Refilled(h, h', t) && Partitioned(h) && WasteExact(h) && |h'.pages| <= |h.pages| + 1
    requires |h'.pages| > |h.pages| ==> h'.active[t] == |h.pages|
    ensures WasteExact(h')
  {
    var g, g' := GarbageOf(h), GarbageOf(h');
    forall p | 0 <= p < |g| ensures g'[p] == g[p] {
      assert h'.pages[p] == h'.pages[p];
    }
    if |g'| == |g| {
      assert g' == g;
    } else {
      assert h'.pages[|g|] == [];
      assert g' == g + [0];
      SumMore(g, 0);
    }
  }

  lemma RefillInv(h: Heap, t: nat, contents: map<nat, seq<nat>>)
    requires Inv(h, contents) && t < |h.active|
    ensures Inv(Refill(h, t), contents)
  {
    RefillPartitioned(h, t);
    RefillKeeps(h, t);
    RefillPages(h, Refill(h, t), t);
    RefillRows(h, Refill(h, t), t, contents);
    RefillWaste(h, Refill(h, t), t);
  }

  lemma MakeRoomInv(h: Heap, t: nat, size: nat, contents: map<nat, seq<nat>>)
    requires Inv(h, contents) && t < |h.active| && size <= PAGE_DATA_SIZE
    ensures Inv(MakeRoom(h, t, size), contents) && t < |MakeRoom(h, t, size).active|
    ensures var h' := MakeRoom(h, t, size); Used(h'.pages[h'.active[t]]) + size <= PAGE_DATA_SIZE
    ensures MakeRoom(h, t, size).rows == h.rows && MakeRoom(h, t, size).job == h.job && MakeRoom(h, t, size).waste == h.waste
  {
    if Used(h.pages[h.active[t]]) + size >= PAGE_DATA_SIZE {
      RefillInv(h, t, contents);
      RefillKeeps(h, t);
    }
  }

  // ----- Writing a row -----

  lemma AppendRows(h: Heap, t: nat, r: Rec, contents: map<nat, seq<nat>>)
    requires Inv(h, contents) && t < |h.active| && r.id >= 0 && r.id !in h.rows
    ensures Shape(Append(h, t, r)) && RowsOk(Append(h, t, r), contents[r.id := r.cells])
  {
    var h' := Append(h, t, r);
    var contents' := contents[r.id := r.cells];
    forall i | i in h'.rows ensures RowOk(h', contents', i) {
      if i != r.id {
        assert RowOk(h, contents, i);
      }
    }
  }

  lemma AppendPages(h: Heap, t: nat, r: Rec)
    requires Shape(h) && Partitioned(h) && PagesOk(h) && t < |h.active| && r.id >= 0 && r.id !in h.rows
    requires Used(h.pages[h.active[t]]) + Size(r) <= PAGE_DATA_SIZE
    ensures Shape(Append(h, t, r)) && PagesOk(Append(h, t, r))
  {
    var h', a := Append(h, t, r), h.active[t];
    UsedMore(h.pages[a], r);
    forall p, k | 0 <= p < |h'.pages| && 0 <= k < |h'.pages[p]| ensures RecOk(h', p, k) {
      if k < |h.pages[p]| {
        assert RecOk(h, p, k);
      }
    }
    forall p | 0 <= p < |h'.pages| ensures From(h', p) <= |h'.pages[p]| && Used(h'.pages[p]) <= PAGE_DATA_SIZE {
      assert From(h, p) <= |h.pages[p]|;
    }
  }

  lemma AppendWaste(h: Heap, t: nat, r: Rec)
    requires Shape(h) && Partitioned(h) && WasteExact(h) && t < |h.active| && r.id >= 0
    ensures Shape(Append(h, t, r)) && WasteExact(Append(h, t, r))
  {
    UsedMore(h.pages[h.active[t]], r);
    assert GarbageOf(Append(h, t, r)) == GarbageOf(h);
  }

  lemma AppendInv(h: Heap, t: nat, r: Rec, contents: map<nat, seq<nat>>)
    requires Inv(h, contents) && t < |h.active| && r.id >= 0 && r.id !in h.rows
    requires Used(h.pages[h.active[t]]) + Size(r) <= PAGE_DATA_SIZE
    ensures Inv(Append(h, t, r), contents[r.id := r.cells])
  {
    AppendRows(h, t, r, contents);
    AppendPages(h, t, r);
    AppendWaste(h, t, r);
    assert Partitioned(Append(h, t, r));
  }

  /** Allocates row i, which does not exist yet, with the given cells. */
  function NewRow(h: Heap, t: nat, i: nat, cells: seq<nat>): Heap
    requires Shape(h) && Partitioned(h) && t < |h.active|
  {
    RefillPartitioned(h, t);
    Append(MakeRoom(h, t, |cells| + 2), t, Rec(i, cells))
  }

  lemma NewRowInv(h: Heap, t: nat, i: nat, cells: seq<nat>, contents: map<nat, seq<nat>>)
    requires Inv(h, contents) && t < |h.active| && i !in h.rows && |cells| + 2 <= PAGE_DATA_SIZE
    ensures Inv(NewRow(h, t, i, cells), contents[i := cells])
  {
    MakeRoomInv(h, t, |cells| + 2, contents);
    AppendInv(MakeRoom(h, t, |cells| + 2), t, Rec(i, cells), contents);
  }

  /** The heap gets another page only if no page is empty and the row does not fit the active page. */
  lemma NewPageNeeded(h: Heap, t: nat, i: nat, cells: seq<nat>)
    requires Shape(h) && Partitioned(h) && t < |h.active|
    ensures var h' := NewRow(h, t, i, cells);
            && |h.pages| <= |h'.pages| <= |h.pages| + 1
            && (|h'.pages| > |h.pages| ==> h.empty == [] && Used(h.pages[h.active[t]]) + |cells| + 2 >= PAGE_DATA_SIZE)
            && (|h'.empty| < |h.empty| ==> Used(h.pages[h.active[t]]) + |cells| + 2 >= PAGE_DATA_SIZE)
  {
  }

  // ----- Destroying a row -----

  lemma {:induction false} Kill(recs: seq<Rec>, k: nat)
    requires k < |recs| && recs[k].id != DEAD
    ensures Used(recs[k := recs[k].(id := DEAD)]) == Used(recs)
    ensures Garbage(recs[k := recs[k].(id := DEAD)]) == Garbage(recs) + Size(recs[k])
  {
    var n := |recs| - 1;
    var now := recs[k := recs[k].(id := DEAD)];
    if k < n {
      Kill(recs[..n], k);
      assert now[..n] == recs[..n][k := recs[k].(id := DEAD)];
    } else {
      assert now[..n] == recs[..n];
    }
  }

  /** Marks the record of row i; thread t counts the waste. */
  function DestroyRow(h: Heap, t: nat, i: nat): Heap
    requires Shape(h) && t < |h.waste| && i in h.rows && h.rows[i].page < |h.pages| && h.rows[i].k < |h.pages[h.rows[i].page]|
  {
    var q := h.rows[i];
    var r := h.pages[q.page][q.k];
    h.(pages := h.pages[q.page := h.pages[q.page][q.k := r.(id := DEAD)]], waste := h.waste[t := h.waste[t] + Size(r)], rows := h.rows - {i})
  }

  lemma DestroyJobs(h: Heap, t: nat, i: nat, contents: map<nat, seq<nat>>, s: nat)
    requires Inv(h, contents) && t < |h.waste| && i in h.rows && RowOk(h, contents, i) && s < |h.job| && h.job[s].Collect?
    requires h.job[s].page < |h.pages| && h.job[s].bot <= |h.pages[h.job[s].page]|
    ensures h.job[s].garbage == Garbage(DestroyRow(h, t, i).pages[h.job[s].page][..h.job[s].bot])
  {
    var p, bot := h.job[s].page, h.job[s].bot;
    assert DestroyRow(h, t, i).pages[p][..bot] == h.pages[p][..bot];
  }

  /** Row i can be destroyed. */
  ghost predicate Destroyable(h: Heap, t: nat, i: nat) {
    && Shape(h) && t < |h.waste| && i in h.rows && h.rows[i].page < |h.pages| && h.rows[i].k < |h.pages[h.rows[i].page]|
    && !h.place[h.rows[i].page].Empty? && h.pages[h.rows[i].page][h.rows[i].k].id != DEAD
  }

  lemma DestroyUsed(h: Heap, t: nat, i: nat, p: nat)
    requires Destroyable(h, t, i) && p < |h.pages|
    ensures Used(DestroyRow(h, t, i).pages[p]) == Used(h.pages[p])
  {
    Kill(h.pages[h.rows[i].page], h.rows[i].k);
  }

  lemma DestroySum(h: Heap, t: nat, i: nat)
    requires Destroyable(h, t, i) && Sum(h.waste) == Sum(GarbageOf(h))
    ensures Shape(DestroyRow(h, t, i)) && Sum(DestroyRow(h, t, i).waste) == Sum(GarbageOf(DestroyRow(h, t, i)))
  {
    var h', q := DestroyRow(h, t, i), h.rows[i];
    var r, g := h.pages[q.page][q.k], GarbageOf(h);
    Kill(h.pages[q.page], q.k);
    SumReplaced(h.waste, t, h.waste[t] + Size(r));
    SumReplaced(g, q.page, g[q.page] + Size(r));
    var g' := GarbageOf(h');
    forall p | 0 <= p < |g'| ensures g'[p] == g[q.page := g[q.page] + Size(r)][p] {
    }
    assert g' == g[q.page := g[q.page] + Size(r)];
  }

  lemma DestroyWaste(h: Heap, t: nat, i: nat, contents: map<nat, seq<nat>>)
    requires Inv(h, contents) && t < |h.waste| && i in h.rows && RowOk(h, contents, i)
    ensures Shape(DestroyRow(h, t, i)) && WasteExact(DestroyRow(h, t, i))
  {
    var h' := DestroyRow(h, t, i);
    DestroySum(h, t, i);
    forall s | 0 <= s < |h'.job| && h'.job[s].Collect? && h'.job[s].page < |h'.pages| && h'.job[s].bot <= |h'.pages[h'.job[s].page]|
      ensures h'.job[s].garbage == Garbage(h'.pages[h'.job[s].page][..h'.job[s].bot])
    {
      DestroyJobs(h, t, i, contents, s);
    }
  }

  lemma DestroyPages(h: Heap, t: nat, i: nat)
    requires Destroyable(h, t, i) && PagesOk(h)
    ensures Shape(DestroyRow(h, t, i)) && PagesOk(DestroyRow(h, t, i))
  {
    var h' := DestroyRow(h, t, i);
    forall p, k | 0 <= p < |h'.pages| && 0 <= k < |h'.pages[p]| ensures RecOk(h', p, k) {
      assert RecOk(h, p, k);
    }
    forall p | 0 <= p < |h'.pages| ensures From(h', p) <= |h'.pages[p]| && Used(h'.pages[p]) <= PAGE_DATA_SIZE {
      assert From(h, p) <= |h.pages[p]|;
      DestroyUsed(h, t, i, p);
    }
  }

  lemma DestroyRows(h: Heap, t: nat, i: nat, contents: map<nat, seq<nat>>)
    requires Destroyable(h, t, i) && RowsOk(h, contents) && RowOk(h, contents, i)
    ensures Shape(DestroyRow(h, t, i)) && RowsOk(DestroyRow(h, t, i), contents - {i})
  {
    var h' := DestroyRow(h, t, i);
    forall x | x in h'.rows ensures RowOk(h', contents - {i}, x) {
      assert RowOk(h, contents, x);
    }
  }

  lemma DestroyInv(h: Heap, t: nat, i: nat, contents: map<nat, seq<nat>>)
    requires Inv(h, contents) && t < |h.waste| && i in h.rows && RowOk(h, contents, i)
    ensures Inv(DestroyRow(h, t, i), contents - {i})
  {
    DestroyWaste(h, t, i, contents);
    DestroyPages(h, t, i);
    DestroyRows(h, t, i, contents);
    assert Partitioned(DestroyRow(h, t, i));
  }

  /** The old record is destroyed and the new one written, once there is room. */
  function Rewrite(h: Heap, t: nat, i: nat, cells: seq<nat>): Heap
    requires Shape(h) && t < |h.active| && h.active[t] < |h.pages|
    requires i in h.rows && h.rows[i].page < |h.pages| && h.rows[i].k < |h.pages[h.rows[i].page]|
  {
    Append(DestroyRow(h, t, i), t, Rec(i, cells))
  }

  lemma RewriteInv(h: Heap, t: nat, i: nat, cells: seq<nat>, contents: map<nat, seq<nat>>)
    requires Inv(h, contents) && t < |h.active| && i in h.rows && RowOk(h, contents, i)
    requires Used(h.pages[h.active[t]]) + |cells| + 2 <= PAGE_DATA_SIZE
    ensures Inv(Rewrite(h, t, i, cells), contents[i := cells])
  {
    DestroyInv(h, t, i, contents);
    DestroyUsed(h, t, i, h.active[t]);
    WriteAgain(DestroyRow(h, t, i), t, i, cells, contents);
  }

  lemma WriteAgain(gone: Heap, t: nat, i: nat, cells: seq<nat>, contents: map<nat, seq<nat>>)
    requires Inv(gone, contents - {i}) && t < |gone.active| && Used(gone.pages[gone.active[t]]) + |cells| + 2 <= PAGE_DATA_SIZE
    ensures Inv(Append(gone, t, Rec(i, cells)), contents[i := cells])
  {
    MapAgain(contents, i, cells);
    AppendInv(gone, t, Rec(i, cells), contents - {i});
  }

  lemma MapAgain(contents: map<nat, seq<nat>>, i: nat, cells: seq<nat>)
    ensures (contents - {i})[i := cells] == contents[i := cells] && i !in (contents - {i})
  {
  }

  /** Row i gets new cells: room for `most` of them is made, the new record is shrunk to what is needed,
      the old one is destroyed, and the pointer is set. */
  lemma ReplaceRowInv(h: Heap, t: nat, i: nat, most: nat, cells: seq<nat>, contents: map<nat, seq<nat>>)
    requires Inv(h, contents) && t < |h.active| && i in h.rows && |cells| <= most && most + 2 <= PAGE_DATA_SIZE
    ensures var roomy := MakeRoom(h, t, most + 2);
            && Inv(roomy, contents) && i in roomy.rows && RowOk(roomy, contents, i)
            && Inv(Rewrite(roomy, t, i, cells), contents[i := cells])
  {
    MakeRoomInv(h, t, most + 2, contents);
    var roomy := MakeRoom(h, t, most + 2);
    assert RowOk(roomy, contents, i);
    RewriteInv(roomy, t, i, cells, contents);
  }

  // ----- Setting the heap up -----

  /** No page, no row, and no active page yet for any of the T threads. */
  function Bare(T: nat): (h: Heap)
    ensures Shape(h)
  {
    var zeros := seq(T, t requires 0 <= t < T => 0);
    Heap([], [], [], [], [], zeros, zeros, seq(T, t requires 0 <= t < T => NoJob), map[], 0)
  }

  /** The threads of `order` have received their first pages, one after another. */
  function Setup(T: nat, order: seq<nat>): (h: Heap)
    requires forall k :: 0 <= k < |order| ==> order[k] < T
    ensures Shape(h) && |h.active| == T && h.empty == []
  {
    if order == [] then Bare(T) else GetFreePage(Setup(T, order[..|order| - 1]), order[|order| - 1])
  }

  /** Every thread appears once. */
  ghost predicate EachThread(T: nat, order: seq<nat>) {
    && (forall k :: 0 <= k < |order| ==> order[k] < T)
    && (forall i, j :: 0 <= i < j < |order| ==> order[i] != order[j])
    && (forall t :: 0 <= t < T ==> t in order)
  }

  /** The threads of `order` have one empty page each, in that order. */
  ghost predicate OnePageEach(h: Heap, order: seq<nat>) {
    && Shape(h) && |h.pages| == |order| && h.full == [] && h.empty == []
    && forall k :: 0 <= k < |order| ==>
         order[k] < |h.active| && h.pages[k] == [] && h.place[k] == Active(order[k]) && h.active[order[k]] == k
  }

  lemma {:induction false} SetupPages(T: nat, order: seq<nat>)
    requires forall k :: 0 <= k < |order| ==> order[k] < T
    requires forall i, j :: 0 <= i < j < |order| ==> order[i] != order[j]
    ensures var h := Setup(T, order);
            OnePageEach(h, order) && h.rows == map[] && h.job == Bare(T).job && h.waste == Bare(T).waste
  {
    if order != [] {
      SetupPages(T, order[..|order| - 1]);
    }
  }

  lemma SetupPartitioned(h: Heap, order: seq<nat>)
    requires OnePageEach(h, order) && EachThread(|h.active|, order) && forall t :: 0 <= t < |h.job| ==> h.job[t].NoJob?
    ensures Partitioned(h)
  {
    forall t | 0 <= t < |h.active| ensures h.active[t] < |h.pages| && h.place[h.active[t]] == Active(t) {
      assert t in order;
    }
  }

  /** Whatever the order in which the threads of the parallel loop take their pages, the heap is
      ready to hold the empty matrix. */
  lemma SetupInv(T: nat, order: seq<nat>)
    requires EachThread(T, order)
    ensures Inv(Setup(T, order), map[])
  {
    SetupPages(T, order);
    var h := Setup(T, order);
    SetupPartitioned(h, order);
    assert WasteExact(h) by {
      ZeroSum(h.waste);
      ZeroSum(GarbageOf(h));
    }
  }

  lemma {:induction false} ZeroSum(s: seq<int>)
    requires forall k :: 0 <= k < |s| ==> s[k] == 0
    ensures Sum(s) == 0
  {
    if s != [] {
      ZeroSum(s[..|s| - 1]);
    }
  }
}
