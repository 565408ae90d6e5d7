/** What holds in every run of the master and its workers. */
module SmProtocol {
  import opened Collections
  import opened SmAppend

  // ----- The situations of a worker -----

  /** Nothing was ever sent. */
  predicate Untouched(p: Peer) {
    p == FRESH
  }

  /** The answer was collected, the next message is about to be sent. */
  predicate Collected(p: Peer) {
    p.batch == [] && p.rels == [] && p.posted == p.done && p.work.Idle? && !p.left && p.finishes == 0
  }

  /** A batch was sent: not taken yet, being worked on, or answered. */
  ghost predicate HasTask(c: Config, p: Peer) {
    && p.batch != [] && p.rels == p.batch && !p.left && p.finishes == 0
    && (if p.posted == p.done then p.work.Idle? && p.returned == Values(c.f, p.batch)
        else p.posted == p.done + 1 && (p.work.Idle? || p.work == Busy(p.batch)))
  }

  /** The finish message was sent; the worker has received it once, or not yet. */
  predicate Finishing(p: Peer) {
    p.batch == [] && p.rels == [] && p.posted == p.done + 1 && p.work.Idle? && p.finishes == (if p.left then 1 else 0)
  }

  ghost predicate PeerOk(c: Config, s: State, j: nat)
    requires j < |s.peers|
  {
    var p := s.peers[j];
    if j == s.k && s.phase.Sending? then Collected(p) && (s.turn == 0 ==> Untouched(p))
    else if j == s.k && s.phase.Receiving? then HasTask(c, p)
    else if s.turn == 0 && j >= s.k then Untouched(p)
    else (HasTask(c, p) && !(s.eof >= 2 && j < s.k)) || (Finishing(p) && s.eof > 0)
  }

  /** The lines that workers a to b - 1 hold. */
  ghost function Pending(peers: seq<Peer>, a: nat, b: nat): seq<string>
    requires b <= |peers|
    decreases b
  {
    if a >= b then [] else Pending(peers, a, b - 1) + peers[b - 1].rels
  }

  /** The lines that the workers hold, in the order in which they will be collected when worker k is next. */
  ghost function InOrder(peers: seq<Peer>, k: nat): seq<string>
    requires k <= |peers|
  {
    Pending(peers, k, |peers|) + Pending(peers, 0, k)
  }

  /** Nothing is lost or reordered: printed lines, lines held by the workers and lines not read yet make
      up the input. */
  ghost predicate Conserved(c: Config, s: State)
    requires s.k <= |s.peers| && s.pos <= |c.input|
  {
    && Printed(s.out) + (InOrder(s.peers, s.k) + RelLines(c.input[s.pos..])) == RelLines(c.input)
    && PrintedComments(s.out) + CommentLines(c.input[s.pos..]) == CommentLines(c.input)
    && OwnValues(s.out, c.f)
  }

  ghost predicate Inv(c: Config, s: State) {
    && s.k <= |s.peers| && s.pos <= |c.input| && s.eof <= 3 && (s.k == |s.peers| ==> s.phase.Start?)
    && (s.phase.Receiving? ==> s.turn > 0) && (s.eof > 0 ==> s.pos == |c.input|) && (s.eof >= 2 ==> s.turn > 0)
    && (s.eof == 3 ==> s.k == 0 && s.phase.Start? && forall j :: 0 <= j < |s.peers| ==> Finishing(s.peers[j]))
    && (forall j :: 0 <= j < |s.peers| ==> PeerOk(c, s, j))
    && Conserved(c, s)
  }

  lemma {:induction false} PendingSame(p: seq<Peer>, q: seq<Peer>, a: nat, b: nat)
    requires b <= |p| && b <= |q| && forall j :: a <= j < b ==> p[j].rels == q[j].rels
    ensures Pending(p, a, b) == Pending(q, a, b)
    decreases b
  {
    if a < b {
      PendingSame(p, q, a, b - 1);
    }
  }

  lemma {:induction false} PendingFirst(p: seq<Peer>, a: nat, b: nat)
    requires a < b <= |p|
    ensures Pending(p, a, b) == p[a].rels + Pending(p, a + 1, b)
    decreases b
  {
    if a + 1 < b {
      PendingFirst(p, a, b - 1);
    } else {
      assert Pending(p, a, b - 1) == [] && Pending(p, a + 1, b) == [];
    }
  }

  lemma {:induction false} PendingNone(p: seq<Peer>, a: nat, b: nat)
    requires b <= |p| && forall j :: a <= j < b ==> p[j].rels == []
    ensures Pending(p, a, b) == []
    decreases b
  {
    if a < b {
      PendingNone(p, a, b - 1);
    }
  }

  lemma InitialInv(c: Config, n: nat)
    requires n > 0
    ensures Inv(c, Initial(n))
  {
    PendingNone(Initial(n).peers, 0, n);
    assert c.input[0..] == c.input;
  }

  // ----- Worker steps -----

  lemma WorkerInv(c: Config, s: State, j: nat)
    requires Inv(c, s) && WorkerEnabled(s, j)
    ensures Inv(c, WorkerStep(c, s, j))
  {
    var t := WorkerStep(c, s, j);
    assert PeerOk(c, s, j);
    forall i | 0 <= i < |t.peers| ensures PeerOk(c, t, i) {
      assert PeerOk(c, s, i);
    }
    PendingSame(s.peers, t.peers, s.k, |s.peers|);
    PendingSame(s.peers, t.peers, 0, s.k);
  }

  // ----- Master steps -----

  /** The master can make the step as far as its data are concerned. */
  lemma MasterReady(c: Config, s: State)
    requires Inv(c, s) && MasterEnabled(s)
    ensures s.phase.Receiving? ==> s.k < |s.peers| && s.peers[s.k].returned == Values(c.f, s.peers[s.k].rels)
    ensures s.phase.Receiving? ==> |s.peers[s.k].rels| == |s.peers[s.k].returned|
  {
    if s.phase.Receiving? {
      assert PeerOk(c, s, s.k);
    }
  }

  lemma TurnInv(c: Config, s: State)
    requires Inv(c, s) && MasterEnabled(s) && s.k == |s.peers|
    ensures Inv(c, MasterStep(c, s))
  {
    var t := MasterStep(c, s);
    forall j | 0 <= j < |s.peers| ensures PeerOk(c, t, j) && (t.eof == 3 ==> Finishing(s.peers[j])) {
      assert PeerOk(c, s, j);
    }
    PendingNone(s.peers, |s.peers|, |s.peers|);
    assert Pending(s.peers, 0, 0) == [];
  }

  lemma OrderSkip(p: seq<Peer>, k: nat)
    requires k < |p| && p[k].rels == []
    ensures InOrder(p, k + 1) == InOrder(p, k)
  {
    PendingFirst(p, k, |p|);
  }

  lemma OrderTake(p: seq<Peer>, k: nat, x: Peer)
    requires k < |p| && x.rels == []
    ensures InOrder(p, k) == p[k].rels + InOrder(p[k := x], k)
  {
    var q := p[k := x];
    PendingFirst(p, k, |p|);
    PendingFirst(q, k, |p|);
    PendingSame(p, q, k + 1, |p|);
    PendingSame(p, q, 0, k);
  }

  lemma OrderPut(p: seq<Peer>, k: nat, x: Peer)
    requires k < |p| && p[k].rels == []
    ensures InOrder(p[k := x], k + 1) == InOrder(p, k) + x.rels
  {
    var q := p[k := x];
    PendingFirst(p, k, |p|);
    PendingSame(p, q, k + 1, |p|);
    PendingSame(p, q, 0, k);
  }

  lemma StartStepInv(c: Config, s: State)
    requires Inv(c, s) && MasterEnabled(s) && s.k < |s.peers| && s.phase.Start?
    ensures Inv(c, MasterStep(c, s))
  {
    var t := MasterStep(c, s);
    assert PeerOk(c, s, s.k);
    forall j | 0 <= j < |s.peers| ensures PeerOk(c, t, j) {
      assert PeerOk(c, s, j);
    }
    if t.k != s.k {
      OrderSkip(s.peers, s.k);
    }
  }

  lemma ReceiveInv(c: Config, s: State)
    requires Inv(c, s) && MasterEnabled(s) && s.phase.Receiving?
    requires s.k < |s.peers| && s.peers[s.k].returned == Values(c.f, s.peers[s.k].rels)
    ensures Inv(c, MasterStep(c, s))
  {
    var t, p := MasterStep(c, s), s.peers[s.k];
    assert PeerOk(c, s, s.k);
    forall j | 0 <= j < |s.peers| ensures PeerOk(c, t, j) {
      assert PeerOk(c, s, j);
    }
    ConsumeSpec(s.out, p.rels, c.f);
    OrderTake(s.peers, s.k, t.peers[s.k]);
    var held, rest := InOrder(t.peers, s.k), RelLines(c.input[s.pos..]);
    Regroup(p.rels, held, rest);
    Regroup(Printed(s.out), p.rels, held + rest);
  }

  lemma SendFinishInv(c: Config, s: State)
    requires Inv(c, s) && MasterEnabled(s) && s.phase.Sending? && s.eof != 0
    ensures Inv(c, MasterStep(c, s))
  {
    var t, p := MasterStep(c, s), s.peers[s.k];
    assert PeerOk(c, s, s.k);
    forall j | 0 <= j < |s.peers| ensures PeerOk(c, t, j) {
      assert PeerOk(c, s, j);
    }
    OrderPut(s.peers, s.k, t.peers[s.k]);
    assert InOrder(s.peers, s.k) + [] == InOrder(s.peers, s.k);
  }

  lemma SendBatchInv(c: Config, s: State)
    requires Inv(c, s) && MasterEnabled(s) && s.phase.Sending? && s.eof == 0 && c.size > 0
    ensures Inv(c, MasterStep(c, s))
  {
    var t, p := MasterStep(c, s), s.peers[s.k];
    var r0 := Read(s.pos, [], s.out);
    ProduceSpec(c.input, c.size, r0, c.f);
    var r := Produce(c.input, c.size, r0);
    assert PeerOk(c, s, s.k);
    forall j | 0 <= j < |s.peers| ensures PeerOk(c, t, j) {
      assert PeerOk(c, s, j);
    }
    OrderPut(s.peers, s.k, t.peers[s.k]);
    Regroup(InOrder(s.peers, s.k), r.batch, RelLines(c.input[r.pos..]));
    assert r0.batch + RelLines(c.input[s.pos..]) == RelLines(c.input[s.pos..]);
  }

  lemma MasterInv(c: Config, s: State)
    requires Inv(c, s) && MasterEnabled(s) && c.size > 0
    ensures s.phase.Receiving? ==> |s.peers[s.k].rels| == |s.peers[s.k].returned|
    ensures Inv(c, MasterStep(c, s))
  {
    MasterReady(c, s);
    if s.k == |s.peers| {
      TurnInv(c, s);
    } else if s.phase.Start? {
      StartStepInv(c, s);
    } else if s.phase.Receiving? {
      ReceiveInv(c, s);
    } else if s.eof != 0 {
      SendFinishInv(c, s);
    } else {
      SendBatchInv(c, s);
    }
  }

  // ----- Runs -----

  datatype Action = Master | Worker(j: nat)

  predicate Enabled(s: State, a: Action) {
    if a.Master? then MasterEnabled(s) else WorkerEnabled(s, a.j)
  }

  ghost function Next(c: Config, s: State, a: Action): State
    requires Inv(c, s) && c.size > 0 && Enabled(s, a)
  {
    if a.Master? then
      MasterReady(c, s);
      MasterStep(c, s)
    else WorkerStep(c, s, a.j)
  }

  lemma NextInv(c: Config, s: State, a: Action)
    requires Inv(c, s) && c.size > 0 && Enabled(s, a)
    ensures Inv(c, Next(c, s, a))
  {
    if a.Master? {
      MasterInv(c, s);
    } else {
      WorkerInv(c, s, a.j);
    }
  }

  /** When the master waits, the worker it waits for has a batch to answer and can go on. */
  lemma WaitsForWork(c: Config, s: State)
    requires Inv(c, s) && !Ended(s) && !MasterEnabled(s)
    ensures s.k < |s.peers| && s.peers[s.k].batch != [] && WorkerEnabled(s, s.k)
  {
    assert PeerOk(c, s, s.k);
  }

  /** Nobody can go on only when the master has left its loop and every worker has received exactly one
      finish message. */
  lemma StuckMeansOver(c: Config, s: State)
    requires Inv(c, s) && forall a :: !Enabled(s, a)
    ensures Ended(s) && forall j :: 0 <= j < |s.peers| ==> s.peers[j].left && s.peers[j].finishes == 1
  {
    assert !Enabled(s, Master);
    if !Ended(s) {
      WaitsForWork(c, s);
      assert Enabled(s, Worker(s.k));
    }
    forall j | 0 <= j < |s.peers| ensures s.peers[j].left && s.peers[j].finishes == 1 {
      assert Finishing(s.peers[j]);
      assert !Enabled(s, Worker(j));
    }
  }

  /** At the end every relation line was printed once, in the order of the input and with its own values. */
  lemma EndedOutput(c: Config, s: State)
    requires Inv(c, s) && Ended(s)
    ensures Printed(s.out) == RelLines(c.input) && PrintedComments(s.out) == CommentLines(c.input) && OwnValues(s.out, c.f)
  {
    PendingNone(s.peers, 0, |s.peers|);
    assert Pending(s.peers, 0, 0) == [];
    assert c.input[s.pos..] == [];
  }

  // ----- Every run ends -----

  ghost function Remaining(c: Config, s: State): nat
    requires s.pos <= |c.input| && s.eof <= 3
  {
    |c.input| - s.pos + (3 - s.eof)
  }

  ghost function ToGo(s: State): nat
    requires s.k <= |s.peers|
  {
    var phase := if s.phase.Start? then 2 else if s.phase.Receiving? then 1 else 0;
    if s.eof == 0 then if s.k == |s.peers| then 3 else phase
    else 3 * (|s.peers| - s.k) + phase
  }

  ghost function PeerWork(p: Peer): nat {
    if p.left then 0 else if p.work.Busy? then 1 else if p.posted != p.done then 2 else 0
  }

  ghost function WorkLeft(peers: seq<Peer>): nat {
    if peers == [] then 0 else WorkLeft(peers[..|peers| - 1]) + PeerWork(peers[|peers| - 1])
  }

  lemma {:induction false} WorkReplaced(p: seq<Peer>, j: nat, x: Peer)
    requires j < |p|
    ensures WorkLeft(p[j := x]) == WorkLeft(p) - PeerWork(p[j]) + PeerWork(x)
  {
    var n := |p| - 1;
    if j < n {
      WorkReplaced(p[..n], j, x);
      assert p[j := x][..n] == p[..n][j := x];
    } else {
      assert p[j := x][..n] == p[..n];
    }
  }

  lemma WorkerProgress(c: Config, s: State, j: nat)
    requires Inv(c, s) && WorkerEnabled(s, j)
    ensures WorkLeft(WorkerStep(c, s, j).peers) < WorkLeft(s.peers)
  {
    assert PeerOk(c, s, j);
    WorkReplaced(s.peers, j, WorkerStep(c, s, j).peers[j]);
  }

  lemma MasterProgress(c: Config, s: State)
    requires Inv(c, s) && MasterEnabled(s) && c.size > 0 && |s.peers| > 0
    requires s.phase.Receiving? ==> |s.peers[s.k].rels| == |s.peers[s.k].returned|
    ensures var t := MasterStep(c, s);
            t.pos <= |c.input| && t.eof <= 3 && t.k <= |t.peers|
            && (Remaining(c, t) < Remaining(c, s) || (Remaining(c, t) == Remaining(c, s) && ToGo(t) < ToGo(s)))
  {
    if s.k < |s.peers| && s.phase.Sending? && s.eof == 0 {
      ProduceSpec(c.input, c.size, Read(s.pos, [], s.out), c.f);
    }
  }

  /** From any reachable state, whatever the scheduler picks among the steps that are enabled, the run
      comes to its end, with the output complete. */
  lemma RunsEnd(c: Config, s: State, pick: (nat, State) -> Action) returns (t: State)
    requires Inv(c, s) && c.size > 0 && |s.peers| > 0
    requires forall n, x :: (exists a :: Enabled(x, a)) ==> Enabled(x, pick(n, x))
    ensures Inv(c, t) && Ended(t) && |t.peers| == |s.peers|
    ensures Printed(t.out) == RelLines(c.input) && PrintedComments(t.out) == CommentLines(c.input) && OwnValues(t.out, c.f)
    ensures forall j :: 0 <= j < |t.peers| ==> t.peers[j].left && t.peers[j].finishes == 1
  {
    t := s;
    var n := 0;
    while exists a :: Enabled(t, a)
      invariant Inv(c, t) && |t.peers| == |s.peers|
      decreases Remaining(c, t), ToGo(t), WorkLeft(t.peers)
    {
      var a := pick(n, t);
      NextInv(c, t, a);
      if a.Master? {
        MasterReady(c, t);
        MasterProgress(c, t);
      } else {
        WorkerProgress(c, t, a.j);
      }
      t, n := Next(c, t, a), n + 1;
    }
    StuckMeansOver(c, t);
    EndedOutput(c, t);
  }

  /** The program without workers: every line is answered as it is read. */
  function Sequential(input: seq<string>, f: string -> string): seq<Out> {
    if input == [] then []
    else [if IsComment(input[0]) then Comment(input[0]) else Relation(input[0], f(input[0]))] + Sequential(input[1..], f)
  }

  lemma {:induction false} SequentialPrints(out: seq<Out>, input: seq<string>, f: string -> string)
    requires OwnValues(out, f)
    ensures Printed(out + Sequential(input, f)) == Printed(out) + RelLines(input) && OwnValues(out + Sequential(input, f), f)
    decreases |input|
  {
    if input != [] {
      var x := if IsComment(input[0]) then Comment(input[0]) else Relation(input[0], f(input[0]));
      var rest := Sequential(input[1..], f);
      PrintedMore(out, x);
      SequentialPrints(out + [x], input[1..], f);
      Regroup(out, [x], rest);
      assert Sequential(input, f) == [x] + rest;
      var line := if IsComment(input[0]) then [] else [input[0]];
      Regroup(Printed(out), line, RelLines(input[1..]));
      assert RelLines(input) == line + RelLines(input[1..]);
    } else {
      assert out + [] == out;
    }
  }

  /** A run with any number of workers prints the relations that the sequential program prints. */
  lemma SameAsSequential(c: Config, n: nat, pick: (nat, State) -> Action) returns (t: State)
    requires c.size > 0 && n > 0
    requires forall k, x :: (exists a :: Enabled(x, a)) ==> Enabled(x, pick(k, x))
    ensures Ended(t) && Printed(t.out) == Printed(Sequential(c.input, c.f)) && OwnValues(t.out, c.f)
  {
    InitialInv(c, n);
    t := RunsEnd(c, Initial(n), pick);
    SequentialPrints([], c.input, c.f);
    assert [] + Sequential(c.input, c.f) == Sequential(c.input, c.f);
  }
}
