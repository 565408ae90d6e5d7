/** The master and the workers of `sm_append`: batches of relation lines are handed to workers in turn,
    and the lines are printed with their values when the worker's answer is collected.  Workers run
    concurrently; a run is any interleaving of steps of the master and of the workers. */
module SmAppend {

  // ----- Lines -----

  predicate IsComment(line: string) {
    |line| > 0 && line[0] == '#'
  }

  function RelLines(s: seq<string>): seq<string> {
    if s == [] then [] else (if IsComment(s[0]) then [] else [s[0]]) + RelLines(s[1..])
  }

  function CommentLines(s: seq<string>): seq<string> {
    if s == [] then [] else (if IsComment(s[0]) then [s[0]] else []) + CommentLines(s[1..])
  }

  datatype Out = Comment(text: string) | Relation(line: string, value: string)

  /** The lines of the relations printed. */
  function Printed(out: seq<Out>): seq<string> {
    if out == [] then [] else Printed(out[..|out| - 1]) + (if out[|out| - 1].Relation? then [out[|out| - 1].line] else [])
  }

  function PrintedComments(out: seq<Out>): seq<string> {
    if out == [] then [] else PrintedComments(out[..|out| - 1]) + (if out[|out| - 1].Comment? then [out[|out| - 1].text] else [])
  }

  ghost predicate OwnValues(out: seq<Out>, f: string -> string) {
    forall i :: 0 <= i < |out| && out[i].Relation? ==> out[i].value == f(out[i].line)
  }

  function Values(f: string -> string, lines: seq<string>): (v: seq<string>)
    ensures |v| == |lines|
  {
    seq(|lines|, i requires 0 <= i < |lines| => f(lines[i]))
  }

  lemma PrintedMore(out: seq<Out>, x: Out)
    ensures Printed(out + [x]) == Printed(out) + (if x.Relation? then [x.line] else [])
    ensures PrintedComments(out + [x]) == PrintedComments(out) + (if x.Comment? then [x.text] else [])
  {
    assert (out + [x])[..|out|] == out;
  }

  // ----- Reading a batch -----

  datatype Read = Read(pos: nat, batch: seq<string>, out: seq<Out>)

  /** Reads lines until the batch is full or the input ends; comments are printed at once. */
  function Produce(input: seq<string>, size: nat, r: Read): Read
    requires r.pos <= |input|
    decreases |input| - r.pos
  {
    if |r.batch| >= size || r.pos == |input| then r
    else
      var line := input[r.pos];
      Produce(input, size,
              if IsComment(line) then Read(r.pos + 1, r.batch, r.out + [Comment(line)]) else Read(r.pos + 1, r.batch + [line], r.out))
  }

  /** What reading from r to p has done. */
  ghost predicate ReadOk(input: seq<string>, size: nat, r: Read, p: Read, f: string -> string)
    requires r.pos <= |input|
  {
    && r.pos <= p.pos <= |input| && |p.batch| <= size && (|p.batch| < size ==> p.pos == |input|) && (|r.batch| < |p.batch| ==> r.pos < p.pos)
    && p.batch + RelLines(input[p.pos..]) == r.batch + RelLines(input[r.pos..])
    && PrintedComments(p.out) + CommentLines(input[p.pos..]) == PrintedComments(r.out) + CommentLines(input[r.pos..])
    && Printed(p.out) == Printed(r.out) && OwnValues(p.out, f)
  }

  lemma ReadLine(input: seq<string>, size: nat, r: Read, r': Read, p: Read, f: string -> string)
    requires r.pos < |input| && r'.pos == r.pos + 1
    requires var line := input[r.pos];
             if IsComment(line) then r'.batch == r.batch && r'.out == r.out + [Comment(line)] else r'.batch == r.batch + [line] && r'.out == r.out
    requires ReadOk(input, size, r', p, f)
    ensures ReadOk(input, size, r, p, f)
  {
    var line := input[r.pos];
    assert input[r.pos..][0] == line && input[r.pos..][1..] == input[r.pos + 1..];
    PrintedMore(r.out, Comment(line));
  }

  lemma {:induction false} ProduceSpec(input: seq<string>, size: nat, r: Read, f: string -> string)
    requires r.pos <= |input| && |r.batch| <= size && OwnValues(r.out, f)
    ensures ReadOk(input, size, r, Produce(input, size, r), f)
    decreases |input| - r.pos
  {
    if |r.batch| < size && r.pos < |input| {
      var line := input[r.pos];
      var r' := if IsComment(line) then Read(r.pos + 1, r.batch, r.out + [Comment(line)]) else Read(r.pos + 1, r.batch + [line], r.out);
      ProduceSpec(input, size, r', f);
      ReadLine(input, size, r, r', Produce(input, size, r'), f);
    }
  }

  /** The reading loop. */
  method ProduceLoop(input: seq<string>, size: nat, r: Read) returns (p: Read, eof: bool)
    requires r.pos <= |input|
    ensures p == Produce(input, size, r) && (eof <==> |p.batch| < size)
  {
    p := r;
    while |p.batch| < size && p.pos < |input|
      invariant p.pos <= |input| && Produce(input, size, p) == Produce(input, size, r)
      decreases |input| - p.pos
    {
      var line := input[p.pos];
      if IsComment(line) {
        p := Read(p.pos + 1, p.batch, p.out + [Comment(line)]);
      } else {
        p := Read(p.pos + 1, p.batch + [line], p.out);
      }
    }
    eof := |p.batch| < size;
  }

  /** Prints the relations of a batch with the returned values. */
  function Consume(out: seq<Out>, rels: seq<string>, answers: seq<string>): seq<Out>
    requires |rels| == |answers|
  {
    if rels == [] then out
    else Consume(out, rels[..|rels| - 1], answers[..|rels| - 1]) + [Relation(rels[|rels| - 1], answers[|rels| - 1])]
  }

  lemma {:induction false} ConsumeSpec(out: seq<Out>, rels: seq<string>, f: string -> string)
    requires OwnValues(out, f)
    ensures var out' := Consume(out, rels, Values(f, rels));
            Printed(out') == Printed(out) + rels && PrintedComments(out') == PrintedComments(out) && OwnValues(out', f)
  {
    if rels != [] {
      var n := |rels| - 1;
      ConsumeSpec(out, rels[..n], f);
      var before := Consume(out, rels[..n], Values(f, rels[..n]));
      assert Values(f, rels)[..n] == Values(f, rels[..n]);
      PrintedMore(before, Relation(rels[n], f(rels[n])));
      assert Printed(out) + rels == (Printed(out) + rels[..n]) + [rels[n]];
    }
  }

  // ----- The protocol -----

  datatype Work = Idle | Busy(batch: seq<string>)

  /** What the master and one worker share.  A task is outstanding while `posted` exceeds `done`. */
  datatype Peer = Peer(batch: seq<string>, rels: seq<string>, returned: seq<string>, posted: nat, done: nat, work: Work, left: bool,
                       finishes: nat)

  datatype Phase = Start | Receiving | Sending

  datatype Config = Config(input: seq<string>, size: nat, f: string -> string)

  datatype State = State(pos: nat, out: seq<Out>, peers: seq<Peer>, turn: nat, k: nat, eof: nat, phase: Phase)

  const FRESH := Peer([], [], [], 0, 0, Idle, false, 0)

  function Initial(n: nat): State {
    State(0, [], seq(n, _ => FRESH), 0, 0, 0, Start)
  }

  predicate Ended(s: State) {
    s.eof > 2
  }

  /** The master is inside its loop; it waits while the batch of the current worker is outstanding. */
  predicate MasterEnabled(s: State) {
    !Ended(s) && s.k <= |s.peers| && (s.phase.Receiving? ==> s.k < |s.peers| && s.peers[s.k].posted <= s.peers[s.k].done)
  }

  function MasterStep(c: Config, s: State): State
    requires MasterEnabled(s) && s.pos <= |c.input| && (s.k == |s.peers| ==> s.phase.Start?)
    requires s.phase.Receiving? ==> |s.peers[s.k].rels| == |s.peers[s.k].returned|
  {
    if s.k == |s.peers| then
      s.(turn := s.turn + 1, k := 0, eof := if s.eof == 0 then 0 else s.eof + 1)
    else
      var p := s.peers[s.k];
      match s.phase
      case Start =>
        if s.eof != 0 && s.turn != 0 && p.batch == [] then s.(k := s.k + 1)
        else s.(phase := if s.turn != 0 then Receiving else Sending)
      case Receiving =>
        s.(out := Consume(s.out, p.rels, p.returned), peers := s.peers[s.k := p.(batch := [], rels := [])], phase := Sending)
      case Sending =>
        if s.eof != 0 then
          s.(peers := s.peers[s.k := p.(posted := p.posted + 1)], k := s.k + 1, phase := Start)
        else
          var r := Produce(c.input, c.size, Read(s.pos, [], s.out));
          s.(pos := r.pos, out := r.out, peers := s.peers[s.k := p.(batch := r.batch, rels := r.batch, posted := p.posted + 1)],
             k := s.k + 1, eof := if |r.batch| < c.size then 1 else 0, phase := Start)
  }

  predicate WorkerEnabled(s: State, j: nat) {
    j < |s.peers| && !s.peers[j].left && (s.peers[j].work.Busy? || s.peers[j].posted != s.peers[j].done)
  }

  /** A worker takes its task, or leaves on an empty one, or returns the values. */
  function WorkerStep(c: Config, s: State, j: nat): State
    requires WorkerEnabled(s, j)
  {
    var p := s.peers[j];
    s.(peers := s.peers[j :=
      match p.work
      case Idle => if p.batch == [] then p.(left := true, finishes := p.finishes + 1) else p.(work := Busy(p.batch))
      case Busy(b) => p.(returned := Values(c.f, b), done := p.done + 1, work := Idle)])
  }
}
