/** The text form of history lines: `sreportn` prints them, `parse_hisfile_line` reads them.
    Indices are 32-bit: a number is converted to a signed 32-bit value before it is printed, and
    the reader accumulates in a signed 32-bit value. */
module HistoryText {
  import opened Arithmetic
  import opened SpanningTree
  import opened MergeTree
  import opened HistoryLines
  import opened Elimination

  predicate InRange(x: int) {
    -TWO31 <= x < TWO31
  }

  function Digit(d: nat): char
    requires d < 10
  {
    '0' + d as char
  }

  /** Decimal digits of a natural number. */
  function Digits(n: nat): (s: string)
    ensures |s| >= 1 && forall c :: c in s ==> '0' <= c <= '9'
  {
    if n < 10 then [Digit(n)] else Digits(n / 10) + [Digit(n % 10)]
  }

  function Number(x: int): string {
    if x < 0 then "-" + Digits(-x) else Digits(x)
  }

  /** The first n numbers of a line, separated by spaces. */
  function Joined(ind: seq<int>, n: nat): string
    requires n <= |ind|
  {
    if n == 0 then ""
    else if n == 1 then Number(Signed32(ind[0]))
    else Joined(ind, n - 1) + " " + Number(Signed32(ind[n - 1]))
  }

  function LineText(ind: seq<int>): string {
    Joined(ind, |ind|) + "\n"
  }

  /** Prints one line: the numbers with a space after each but the last, then a newline. */
  method ReportLine(ind: seq<int>) returns (str: string)
    ensures str == LineText(ind)
  {
    str := "";
    for i := 0 to |ind|
      invariant str == Joined(ind, i) + (if 0 < i < |ind| then " " else "")
    {
      str := str + Number(Signed32(ind[i]));
      if i < |ind| - 1 {
        str := str + " ";
      }
    }
    str := str + "\n";
  }

  /** Reads numbers up to a newline or a '#'; returns them and what is left. */
  function Scan(t: string, acc: seq<int>): (r: (seq<int>, string))
    requires |acc| >= 1
    ensures |r.0| >= |acc|
  {
    if t == "" || t[0] == '\n' || t[0] == '#' then (acc, t)
    else if t[0] == ' ' then Scan(t[1..], acc + [0])
    else
      var last := |acc| - 1;
      Scan(t[1..], acc[last := Signed32(10 * acc[last] + (t[0] as int - '0' as int))])
  }

  /** The index of the pivot column that follows a '#'. */
  function Column(t: string, j: nat): nat {
    if t == "" || t[0] == '\n' then j else Column(t[1..], (10 * j + (t[0] as int - '0' as int)) % TWO32)
  }

  /** What a line says: the number of indices, the indices, and the pivot column (TWO32 - 1 if none). */
  datatype Parsed = Parsed(ni: nat, ind: seq<int>, j: nat)

  function Parse(t: string): Parsed {
    var negative := t != "" && t[0] == '-';
    var (acc, rest) := Scan(if negative then t[1..] else t, [0]);
    var ind := acc[0 := if negative then Signed32(-acc[0]) else acc[0]];
    if rest != "" && rest[0] == '#' then Parsed(|ind| - 1, ind, Column(rest[1..], 0)) else Parsed(|ind|, ind, TWO32 - 1)
  }

  /** The scanning loop of `parse_hisfile_line`. */
  method ParseHisfileLine(t: string) returns (p: Parsed)
    requires exists k :: 0 <= k < |t| && t[k] == '\n'
    ensures p == Parse(t)
  {
    var k, negative := 0, false;
    if t[0] == '-' {
      negative := true;
      k := 1;
    }
    ghost var from := k;
    var ind: seq<int> := [0];
    while k < |t| && t[k] != '\n' && t[k] != '#'
      invariant from <= k <= |t| && |ind| >= 1
      invariant Scan(t[from..], [0]) == Scan(t[k..], ind)
    {
      assert t[k..][1..] == t[k + 1..];
      if t[k] == ' ' {
        ind := ind + [0];
      } else {
        var last := |ind| - 1;
        ind := ind[last := Signed32(10 * ind[last] + (t[k] as int - '0' as int))];
      }
      k := k + 1;
    }
    assert Scan(t[from..], [0]) == (ind, t[k..]);
    assert t[from..] == if negative then t[1..] else t;
    ind := ind[0 := if negative then Signed32(-ind[0]) else ind[0]];
    if k < |t| && t[k] == '#' {
      var j := ReadColumn(t, k + 1);
      assert t[k..][1..] == t[k + 1..];
      p := Parsed(|ind| - 1, ind, j);
    } else {
      p := Parsed(|ind|, ind, TWO32 - 1);
    }
  }

  method ReadColumn(t: string, from: nat) returns (j: nat)
    requires from <= |t|
    ensures j == Column(t[from..], 0)
  {
    j := 0;
    var k := from;
    while k < |t| && t[k] != '\n'
      invariant from <= k <= |t|
      invariant Column(t[from..], 0) == Column(t[k..], j)
    {
      assert t[k..][1..] == t[k + 1..];
      j := (10 * j + (t[k] as int - '0' as int)) % TWO32;
      k := k + 1;
    }
  }

  // ----- Round trip -----

  lemma {:induction false} ScanDigits(n: nat, rest: string, acc: seq<int>)
    requires n <= TWO31
    ensures Scan(Digits(n) + rest, acc + [0]) == Scan(rest, acc + [Signed32(n)])
    decreases n
  {
    if n < 10 {
      ScanOne(n, rest, acc, 0);
    } else {
      var d := [Digit(n % 10)];
      assert Digits(n) + rest == Digits(n / 10) + (d + rest);
      ScanDigits(n / 10, d + rest, acc);
      ScanOne(n % 10, rest, acc, n / 10);
    }
  }

  lemma ScanOne(d: nat, rest: string, acc: seq<int>, v: int)
    requires d < 10
    ensures Scan([Digit(d)] + rest, acc + [v]) == Scan(rest, acc + [Signed32(10 * v + d)])
  {
    var t := [Digit(d)] + rest;
    assert t[0] == Digit(d) && t[1..] == rest;
    assert (acc + [v])[|acc| := Signed32(10 * v + d)] == acc + [Signed32(10 * v + d)];
  }

  lemma ScanNext(x: nat, rest: string, acc: seq<int>)
    requires x < TWO31 && |acc| >= 1
    ensures Scan(" " + Digits(x) + rest, acc) == Scan(rest, acc + [x])
  {
    var t := " " + Digits(x) + rest;
    assert t[0] == ' ' && t[1..] == Digits(x) + rest;
    ScanDigits(x, rest, acc);
  }

  /** Reading the numbers after the first, none of which carries a sign. */
  lemma {:induction false} ScanJoined(line: seq<int>, n: nat, rest: string)
    requires 1 <= n <= |line| && forall k :: 0 <= k < |line| ==> 0 <= line[k] <= TWO31 && (k > 0 ==> line[k] < TWO31)
    ensures Scan(Unsigned(line, n) + rest, [0]) == Scan(rest, [Signed32(line[0])] + line[1..n])
  {
    if n == 1 {
      ScanDigits(line[0], rest, []);
      assert [] + [0] == [0] && [] + [Signed32(line[0])] == [Signed32(line[0])] + line[1..1];
    } else {
      var x := line[n - 1];
      var tail := " " + Digits(x) + rest;
      LastNumber(line, n, rest);
      ScanJoined(line, n - 1, tail);
      var acc := [Signed32(line[0])] + line[1..n - 1];
      ScanNext(x, rest, acc);
    }
  }

  lemma LastNumber(line: seq<int>, n: nat, rest: string)
    requires 2 <= n <= |line| && forall k :: 0 <= k < |line| ==> line[k] >= 0
    ensures Unsigned(line, n) + rest == Unsigned(line, n - 1) + (" " + Digits(line[n - 1]) + rest)
    ensures ([Signed32(line[0])] + line[1..n - 1]) + [line[n - 1]] == [Signed32(line[0])] + line[1..n]
  {
  }

  /** The text of a line whose leading sign has been read. */
  function Unsigned(line: seq<int>, n: nat): string
    requires 1 <= n <= |line| && forall k :: 0 <= k < |line| ==> line[k] >= 0
  {
    if n == 1 then Digits(line[0]) else Unsigned(line, n - 1) + " " + Digits(line[n - 1])
  }

  lemma {:induction false} JoinedIsUnsigned(line: seq<int>, n: nat)
    requires LineOk(line) && 1 <= n <= |line| && forall k :: 0 <= k < |line| ==> InRange(line[k])
    ensures Joined(line, n) == (if line[0] < 0 then "-" else "") + Unsigned(line[0 := Abs(line[0])], n)
  {
    if n > 1 {
      JoinedIsUnsigned(line, n - 1);
    }
  }

  function Abs(x: int): nat {
    if x < 0 then -x else x
  }

  /** The text of a line is an optional sign followed by unsigned numbers. */
  lemma TextBody(line: seq<int>)
    requires LineOk(line) && forall k :: 0 <= k < |line| ==> InRange(line[k])
    ensures var body := Unsigned(line[0 := Abs(line[0])], |line|) + "\n";
            && LineText(line) == (if line[0] < 0 then "-" else "") + body
            && body[0] != '-'
  {
    JoinedIsUnsigned(line, |line|);
    UnsignedStart(line[0 := Abs(line[0])], |line|);
  }

  lemma ScanBody(line: seq<int>)
    requires LineOk(line) && forall k :: 0 <= k < |line| ==> InRange(line[k])
    ensures Scan(Unsigned(line[0 := Abs(line[0])], |line|) + "\n", [0]) == ([Signed32(Abs(line[0]))] + line[1..], "\n")
  {
    var abs := line[0 := Abs(line[0])];
    ScanJoined(abs, |line|, "\n");
    assert abs[1..|line|] == line[1..];
  }

  lemma ReadBack(line: seq<int>)
    requires LineOk(line) && forall k :: 0 <= k < |line| ==> InRange(line[k])
    ensures Parse(LineText(line)) == Parsed(|line|, line, TWO32 - 1)
  {
    var body := Unsigned(line[0 := Abs(line[0])], |line|) + "\n";
    var acc := [Signed32(Abs(line[0]))] + line[1..];
    TextBody(line);
    ScanBody(line);
    SignRestored(line);
    ParseBody(LineText(line), line[0] < 0, body, acc);
  }

  lemma SignRestored(line: seq<int>)
    requires |line| >= 1 && InRange(line[0])
    ensures var acc := [Signed32(Abs(line[0]))] + line[1..];
            |acc| == |line| && acc[0 := if line[0] < 0 then Signed32(-acc[0]) else acc[0]] == line
  {
    var acc := [Signed32(Abs(line[0]))] + line[1..];
    assert acc[0 := line[0]] == line;
  }

  /** Parsing a text whose body is known. */
  lemma ParseBody(t: string, negative: bool, body: string, acc: seq<int>)
    requires body != "" && body[0] != '-' && t == (if negative then "-" else "") + body && |acc| >= 1 && Scan(body, [0]) == (acc, "\n")
    ensures Parse(t) == Parsed(|acc|, acc[0 := if negative then Signed32(-acc[0]) else acc[0]], TWO32 - 1)
  {
    if negative {
      assert t[0] == '-' && t[1..] == body;
    } else {
      assert t == body;
    }
  }

  /** Printed lines are read back exactly when every number fits in a signed 32-bit index: rows
      from 2^31 on would be read back as something else. */
  lemma LineRoundTrip(line: seq<int>)
    requires LineOk(line)
    ensures Parse(LineText(line)) == Parsed(|line|, line, TWO32 - 1) <==> forall k :: 0 <= k < |line| ==> InRange(line[k])
  {
    if forall k :: 0 <= k < |line| ==> InRange(line[k]) {
      ReadBack(line);
    } else {
      ParseInRange(LineText(line));
    }
  }

  lemma {:induction false} ColumnDigits(n: nat, rest: string)
    requires n < TWO32
    ensures Column(Digits(n) + rest, 0) == Column(rest, n)
    decreases n
  {
    var q, r := n / 10, n % 10;
    assert (10 * q + r) % TWO32 == n;
    ColumnOne(r, rest, q);
    if n >= 10 {
      var tail := [Digit(r)] + rest;
      assert Digits(n) + rest == Digits(q) + tail;
      ColumnDigits(q, tail);
    }
  }

  lemma ColumnOne(d: nat, rest: string, v: nat)
    requires d < 10
    ensures Column([Digit(d)] + rest, v) == Column(rest, (10 * v + d) % TWO32)
  {
    var t := [Digit(d)] + rest;
    assert t[0] == Digit(d) && t[1..] == rest;
  }

  /** The text of a line followed by its pivot column. */
  function WithColumn(line: seq<int>, j: nat): string {
    Joined(line, |line|) + " #" + Digits(j) + "\n"
  }

  /** With a pivot column, the numbers, their count and the column are read back; the space before the '#' leaves
      one more number, 0, which is not counted. */
  lemma ColumnRoundTrip(line: seq<int>, j: nat)
    requires LineOk(line) && j < TWO32 && forall k :: 0 <= k < |line| ==> InRange(line[k])
    ensures Parse(WithColumn(line, j)) == Parsed(|line|, line + [0], j)
  {
    var tail := "#" + Digits(j) + "\n";
    var body := Unsigned(line[0 := Abs(line[0])], |line|) + (" " + tail);
    WithColumnBody(line, j);
    ScanSuffixed(line, tail);
    ColumnTail(j);
    SignRestored(line);
    ParseSuffixed(WithColumn(line, j), line, j, body, [Signed32(Abs(line[0]))] + line[1..], tail);
  }

  lemma ColumnTail(j: nat)
    requires j < TWO32
    ensures var tail := "#" + Digits(j) + "\n"; tail != "" && tail[0] == '#' && Column(tail[1..], 0) == j
  {
    var tail := "#" + Digits(j) + "\n";
    assert tail[1..] == Digits(j) + "\n";
    ColumnDigits(j, "\n");
  }

  lemma WithColumnBody(line: seq<int>, j: nat)
    requires LineOk(line) && forall k :: 0 <= k < |line| ==> InRange(line[k])
    ensures var body := Unsigned(line[0 := Abs(line[0])], |line|) + (" " + ("#" + Digits(j) + "\n"));
            body != "" && body[0] != '-' && WithColumn(line, j) == (if line[0] < 0 then "-" else "") + body
  {
    JoinedIsUnsigned(line, |line|);
    UnsignedStart(line[0 := Abs(line[0])], |line|);
  }

  lemma ScanSuffixed(line: seq<int>, tail: string)
    requires LineOk(line) && tail != "" && tail[0] == '#' && forall k :: 0 <= k < |line| ==> InRange(line[k])
    ensures Scan(Unsigned(line[0 := Abs(line[0])], |line|) + (" " + tail), [0]) == ([Signed32(Abs(line[0]))] + line[1..] + [0], tail)
  {
    var abs := line[0 := Abs(line[0])];
    ScanJoined(abs, |line|, " " + tail);
    assert abs[1..|line|] == line[1..];
    assert (" " + tail)[1..] == tail;
  }

  lemma ParseSuffixed(t: string, line: seq<int>, j: nat, body: string, acc: seq<int>, tail: string)
    requires |line| >= 1 && |acc| == |line| && acc[0 := if line[0] < 0 then Signed32(-acc[0]) else acc[0]] == line
    requires body != "" && body[0] != '-' && t == (if line[0] < 0 then "-" else "") + body
    requires tail != "" && tail[0] == '#' && Scan(body, [0]) == (acc + [0], tail) && Column(tail[1..], 0) == j
    ensures Parse(t) == Parsed(|line|, line + [0], j)
  {
    if line[0] < 0 {
      assert t[0] == '-' && t[1..] == body;
    } else {
      assert t == body;
    }
    var now := if line[0] < 0 then Signed32(-acc[0]) else acc[0];
    assert (acc + [0])[0 := now] == acc[0 := now] + [0];
  }

  /** The failing inputs: a line that destroys a row from 2^31 (0x8000_0000) on is read back as one
      that destroys nothing. */
  lemma LargeIndexMisread(i: nat)
    requires TWO31 <= i < TWO32
    ensures LineOk([i]) && Parse(LineText([i])) == Parsed(1, [i - TWO32], TWO32 - 1)
    ensures LineOps([i]) == [Drop(i)] && LineOps([i - TWO32]) == []
  {
    SameText(i);
    LineRoundTrip([i - TWO32]);
    assert [i][1..] == [] && [i - TWO32][1..] == [];
  }

  lemma SameText(i: nat)
    requires TWO31 <= i < TWO32
    ensures LineText([i]) == LineText([i - TWO32])
  {
    assert Joined([i], 1) == Joined([i - TWO32], 1);
  }

  lemma {:induction false} UnsignedStart(line: seq<int>, n: nat)
    requires 1 <= n <= |line| && forall k :: 0 <= k < |line| ==> line[k] >= 0
    ensures |Unsigned(line, n)| >= 1 && Unsigned(line, n)[0] != '-'
  {
    if n > 1 {
      UnsignedStart(line, n - 1);
    } else {
      assert Digits(line[0])[0] in Digits(line[0]);
    }
  }

  lemma {:induction false} ScanInRange(t: string, acc: seq<int>)
    requires |acc| >= 1 && forall k :: 0 <= k < |acc| ==> InRange(acc[k])
    ensures forall k :: 0 <= k < |Scan(t, acc).0| ==> InRange(Scan(t, acc).0[k])
    decreases |t|
  {
    if t == "" || t[0] == '\n' || t[0] == '#' {
    } else if t[0] == ' ' {
      ScanInRange(t[1..], acc + [0]);
    } else {
      var last := |acc| - 1;
      ScanInRange(t[1..], acc[last := Signed32(10 * acc[last] + (t[0] as int - '0' as int))]);
    }
  }

  lemma ParseInRange(t: string)
    ensures forall k :: 0 <= k < |Parse(t).ind| ==> InRange(Parse(t).ind[k])
  {
    ScanInRange(if t != "" && t[0] == '-' then t[1..] else t, [0]);
  }

  // ----- The buffer of a merge is large enough -----

  /** (MERGE_LEVEL_MAX - 1) * (2 * 10 + 3): two numbers of ten digits, two separators and a sign per line. */
  const MERGE_CHAR_MAX: nat := 713

  lemma {:induction false} DigitsLength(n: nat, k: nat)
    requires k >= 1 && n < Pow10(k)
    ensures |Digits(n)| <= k
  {
    if k > 1 && n >= 10 {
      DigitsLength(n / 10, k - 1);
    }
  }

  function Pow10(k: nat): nat {
    if k == 0 then 1 else 10 * Pow10(k - 1)
  }

  lemma TenDigits(n: nat)
    requires n <= TWO31
    ensures |Digits(n)| <= 10
  {
    assert Pow10(5) == 100_000;
    assert Pow10(10) == 10_000_000_000;
    DigitsLength(n, 10);
  }

  ghost function TextOf(lines: seq<seq<int>>): string {
    if lines == [] then "" else TextOf(lines[..|lines| - 1]) + LineText(lines[|lines| - 1])
  }

  lemma EdgeLineLength(ind: seq<nat>, tree: seq<Edge>, i: nat)
    requires EdgesIn(tree, |ind|) && i < |tree| && forall k :: 0 <= k < |ind| ==> ind[k] < TWO31
    ensures |LineText(EdgeLine(ind, tree, i))| <= if i == 0 then 22 else 23
  {
    var line := EdgeLine(ind, tree, i);
    TenDigits(Abs(line[0]));
    TenDigits(line[1]);
    assert Joined(line, 2) == Joined(line, 1) + " " + Number(Signed32(line[1]));
  }

  lemma TextOfStep(lines: seq<seq<int>>, line: seq<int>)
    ensures |TextOf(lines + [line])| == |TextOf(lines)| + |LineText(line)|
  {
    assert (lines + [line])[..|lines|] == lines;
  }

  /** The lines for the last edges down to edge i take at most 23 characters each, 22 for edge 0. */
  ghost predicate ShortText(ind: seq<nat>, tree: seq<Edge>, i: nat)
    requires EdgesIn(tree, |ind|) && i <= |tree|
  {
    |TextOf(EdgeLines(ind, tree, |tree| - i))| <= 23 * (|tree| - i) - (if i == 0 then 1 else 0)
  }

  lemma ShortTextStep(ind: seq<nat>, tree: seq<Edge>, i: nat)
    requires EdgesIn(tree, |ind|) && i < |tree| && forall k :: 0 <= k < |ind| ==> ind[k] < TWO31
    requires ShortText(ind, tree, i + 1)
    ensures ShortText(ind, tree, i)
  {
    var line := EdgeLine(ind, tree, i);
    EdgeLinesStep(ind, tree, i);
    TextOfStep(EdgeLines(ind, tree, |tree| - 1 - i), line);
    EdgeLineLength(ind, tree, i);
  }

  lemma EdgeTextLength(ind: seq<nat>, tree: seq<Edge>)
    requires EdgesIn(tree, |ind|) && tree != [] && forall k :: 0 <= k < |ind| ==> ind[k] < TWO31
    ensures |TextOf(EdgeLines(ind, tree, |tree|))| <= 23 * |tree| - 1
  {
    assert EdgeLines(ind, tree, 0) == [];
    for i := |tree| downto 0
      invariant ShortText(ind, tree, i)
    {
      ShortTextStep(ind, tree, i);
    }
  }

  lemma SingleTextLength(i: nat)
    requires i < TWO31
    ensures |TextOf([[i]])| <= 11
  {
    TenDigits(i);
    TextOfStep([], [i]);
    assert [] + [[i as int]] == [[i as int]];
  }

  lemma OneRowTextLength(ind: seq<nat>, tree: seq<Edge>)
    requires |ind| == 1 && EdgesIn(tree, 1) && ind[0] < TWO31
    ensures |TextOf(MergeLines(ind, tree))| <= 11
  {
    assert MergeLines(ind, tree) == [[ind[0] as int]];
    SingleTextLength(ind[0]);
  }

  lemma SeveralTextLength(ind: seq<nat>, tree: seq<Edge>)
    requires 2 <= |ind| <= MERGE_LEVEL_MAX && |tree| == |ind| - 1 && EdgesIn(tree, |ind|)
    requires forall k :: 0 <= k < |ind| ==> ind[k] < TWO31
    ensures |TextOf(MergeLines(ind, tree))| <= 712
  {
    EdgeTextLength(ind, tree);
    var lines := EdgeLines(ind, tree, |tree|);
    assert MergeLines(ind, tree) == lines;
    assert |TextOf(lines)| <= 712;
  }

  /** The text of any merge, with its terminating zero, fits the buffer of MERGE_CHAR_MAX bytes. */
  lemma MergeTextFits(ind: seq<nat>, tree: seq<Edge>)
    requires 1 <= |ind| <= MERGE_LEVEL_MAX && |tree| == |ind| - 1 && EdgesIn(tree, |ind|)
    requires forall k :: 0 <= k < |ind| ==> ind[k] < TWO31
    ensures |TextOf(MergeLines(ind, tree))| < MERGE_CHAR_MAX
  {
    if |ind| == 1 {
      OneRowTextLength(ind, tree);
    } else {
      SeveralTextLength(ind, tree);
    }
  }
}
