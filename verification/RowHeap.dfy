/** The heap that holds the rows of the matrix: pages filled from the bottom, lists of full and of empty
    pages, one active page per thread, and copying garbage collection by all threads at once. */
module RowHeap {

  const PAGE_DATA_SIZE: nat := 0x4_0000 - 4

  /** A record: the number of its row, or -1 when the row was destroyed, and the cells of the row. */
  datatype Rec = Rec(id: int, cells: seq<nat>)

  const DEAD := -1

  /** The cells a record takes: number and size come before the row. */
  function Size(r: Rec): nat {
    |r.cells| + 2
  }

  /** The fill pointer of a page. */
  function Used(recs: seq<Rec>): nat {
    if recs == [] then 0 else Used(recs[..|recs| - 1]) + Size(recs[|recs| - 1])
  }

  /** The cells of a page that belong to destroyed rows. */
  function Garbage(recs: seq<Rec>): nat {
    if recs == [] then 0 else Garbage(recs[..|recs| - 1]) + (if recs[|recs| - 1].id == DEAD then Size(recs[|recs| - 1]) else 0)
  }

  /** A row pointer: a page and a record in it. */
  datatype Ptr = Ptr(page: nat, k: nat)

  /** Where a page is: in one of the lists, active for a thread, or being collected by one. */
  datatype Place = Full | Empty | Active(t: nat) | Collected(t: nat)

  datatype Job = NoJob | Collect(page: nat, bot: nat, garbage: nat)

  datatype Heap = Heap(pages: seq<seq<Rec>>, generation: seq<nat>, place: seq<Place>, full: seq<nat>, empty: seq<nat>,
                       active: seq<nat>, waste: seq<int>, job: seq<Job>, rows: map<nat, Ptr>, now: nat)

  function Sum(s: seq<int>): int {
    if s == [] then 0 else Sum(s[..|s| - 1]) + s[|s| - 1]
  }

  lemma {:induction false} SumReplaced(s: seq<int>, i: nat, x: int)
    requires i < |s|
    ensures Sum(s[i := x]) == Sum(s) - s[i] + x
  {
    var n := |s| - 1;
    if i < n {
      SumReplaced(s[..n], i, x);
      assert s[i := x][..n] == s[..n][i := x];
    } else {
      assert s[i := x][..n] == s[..n];
    }
  }

  lemma SumMore(s: seq<int>, x: int)
    ensures Sum(s + [x]) == Sum(s) + x
  {
    assert (s + [x])[..|s|] == s;
  }

  lemma UsedMore(recs: seq<Rec>, r: Rec)
    ensures Used(recs + [r]) == Used(recs) + Size(r) && Garbage(recs + [r]) == Garbage(recs) + (if r.id == DEAD then Size(r) else 0)
  {
    assert (recs + [r])[..|recs|] == recs;
  }

  lemma {:induction false} RecordFits(recs: seq<Rec>, k: nat)
    requires k < |recs|
    ensures Size(recs[k]) <= Used(recs)
  {
    if k < |recs| - 1 {
      RecordFits(recs[..|recs| - 1], k);
    }
  }

  // ----- What always holds -----

  predicate Shape(h: Heap) {
    |h.pages| == |h.generation| == |h.place| && |h.active| == |h.waste| == |h.job|
  }

  ghost predicate Listed(list: seq<nat>, place: seq<Place>, which: Place) {
    && (forall i, j :: 0 <= i < j < |list| ==> list[i] != list[j])
    && (forall i :: 0 <= i < |list| ==> list[i] < |place| && place[list[i]] == which)
    && (forall p :: 0 <= p < |place| && place[p] == which ==> p in list)
  }

  /** Every page is in exactly one place, as the lists and the threads say. */
  ghost predicate Partitioned(h: Heap)
    requires Shape(h)
  {
    && Listed(h.full, h.place, Full) && Listed(h.empty, h.place, Empty)
    && (forall t :: 0 <= t < |h.active| ==> h.active[t] < |h.pages| && h.place[h.active[t]] == Active(t))
    && (forall t :: 0 <= t < |h.job| && h.job[t].Collect? ==> h.job[t].page < |h.pages| && h.place[h.job[t].page] == Collected(t))
    && (forall p :: 0 <= p < |h.pages| && h.place[p].Active? ==> h.place[p].t < |h.active| && h.active[h.place[p].t] == p)
    && (forall p :: 0 <= p < |h.pages| && h.place[p].Collected? ==>
          h.place[p].t < |h.job| && h.job[h.place[p].t].Collect? && h.job[h.place[p].t].page == p)
  }

  /** The first record of a page that has not been dealt with by a collection under way. */
  ghost function From(h: Heap, p: nat): nat
    requires Shape(h) && p < |h.pages|
  {
    if h.place[p].Collected? && h.place[p].t < |h.job| && h.job[h.place[p].t].Collect? then h.job[h.place[p].t].bot else 0
  }

  /** Record k of page p, unless dead or dealt with, is where the pointer of its row points. */
  ghost predicate RecOk(h: Heap, p: nat, k: nat)
    requires Shape(h) && p < |h.pages| && k < |h.pages[p]|
  {
    var r := h.pages[p][k];
    r.id == DEAD || (r.id >= 0 && (!h.place[p].Empty? && k >= From(h, p) ==> r.id in h.rows && h.rows[r.id] == Ptr(p, k)))
  }

  ghost predicate PagesOk(h: Heap)
    requires Shape(h)
  {
    && (forall p, k :: 0 <= p < |h.pages| && 0 <= k < |h.pages[p]| ==> RecOk(h, p, k))
    && (forall p {:trigger h.pages[p]} :: 0 <= p < |h.pages| ==> From(h, p) <= |h.pages[p]| && Used(h.pages[p]) <= PAGE_DATA_SIZE)
  }

  /** The pointer of row i leads to its contents. */
  ghost predicate RowOk(h: Heap, contents: map<nat, seq<nat>>, i: nat)
    requires Shape(h) && i in h.rows && i in contents
  {
    var q := h.rows[i];
    && q.page < |h.pages| && !h.place[q.page].Empty? && From(h, q.page) <= q.k < |h.pages[q.page]|
    && h.pages[q.page][q.k] == Rec(i, contents[i])
  }

  ghost predicate RowsOk(h: Heap, contents: map<nat, seq<nat>>)
    requires Shape(h)
  {
    h.rows.Keys == contents.Keys && forall i :: i in h.rows ==> RowOk(h, contents, i)
  }

  /** The garbage in each page; an empty page has none. */
  ghost function GarbageOf(h: Heap): (g: seq<int>)
    requires Shape(h)
    ensures |g| == |h.pages|
  {
    seq(|h.pages|, p requires 0 <= p < |h.pages| => if h.place[p].Empty? then 0 else Garbage(h.pages[p]))
  }

  /** The waste counters, which may be negative one by one, add up to the cells of destroyed rows. */
  ghost predicate WasteExact(h: Heap)
    requires Shape(h)
  {
    && Sum(h.waste) == Sum(GarbageOf(h))
    && forall t :: 0 <= t < |h.job| && h.job[t].Collect? && h.job[t].page < |h.pages| && h.job[t].bot <= |h.pages[h.job[t].page]| ==>
         h.job[t].garbage == Garbage(h.pages[h.job[t].page][..h.job[t].bot])
  }

  ghost predicate Inv(h: Heap, contents: map<nat, seq<nat>>) {
    Shape(h) && Partitioned(h) && PagesOk(h) && RowsOk(h, contents) && WasteExact(h)
  }

  // ----- Page lists -----

  /** Where a page goes in the list of full pages: before the last one that is not of a later
      generation, or at the end. */
  function Position(full: seq<nat>, generation: seq<nat>, g: nat, k: nat): (r: nat)
    requires k <= |full| && forall i :: 0 <= i < |full| ==> full[i] < |generation|
    ensures r <= |full|
  {
    if k == 0 then |full|
    else if g < generation[full[k - 1]] then Position(full, generation, g, k - 1)
    else k - 1
  }

  /** Declares the active page of thread t full. */
  function ReleasePage(h: Heap, t: nat): Heap
    requires Shape(h) && t < |h.active| && h.active[t] < |h.pages| && forall i :: 0 <= i < |h.full| ==> h.full[i] < |h.pages|
  {
    var p := h.active[t];
    var r := Position(h.full, h.generation, h.generation[p], |h.full|);
    h.(full := h.full[..r] + [p] + h.full[r..], place := h.place[p := Full])
  }

  /** Provides an empty page to thread t, from the list or newly allocated. */
  function GetFreePage(h: Heap, t: nat): Heap
    requires Shape(h) && t < |h.active| && forall i :: 0 <= i < |h.empty| ==> h.empty[i] < |h.pages|
  {
    if h.empty != [] then
      var p := h.empty[0];
      h.(empty := h.empty[1..], place := h.place[p := Active(t)], active := h.active[t := p],
         pages := h.pages[p := []], generation := h.generation[p := h.now])
    else
      h.(pages := h.pages + [[]], generation := h.generation + [h.now], place := h.place + [Active(t)], active := h.active[t := |h.pages|])
  }

  /** Makes room for a record of the given size in the active page. */
  function MakeRoom(h: Heap, t: nat, size: nat): Heap
    requires Shape(h) && Partitioned(h) && t < |h.active|
  {
    if Used(h.pages[h.active[t]]) + size >= PAGE_DATA_SIZE then GetFreePage(ReleasePage(h, t), t) else h
  }

  /** Appends a record to the active page and points its row to it. */
  function Append(h: Heap, t: nat, r: Rec): Heap
    requires Shape(h) && t < |h.active| && h.active[t] < |h.pages| && r.id >= 0
  {
    var p := h.active[t];
    h.(pages := h.pages[p := h.pages[p] + [r]], rows := h.rows[r.id := Ptr(p, |h.pages[p]|)])
  }
}
