/** The reader of the summaries: main in src/post-processing/mpi_p2p_merge.cpp, and what it makes of the
    logs that Process writes. */
module PointToPointMerge {
  import opened Decimal
  import opened Text
  import opened PointToPoint

  function Stol(s: string): (n: Number)
    ensures n.Number? ==> LONG_MIN <= n.value <= LONG_MAX
  {
    ReadInteger(s, LONG_MIN, LONG_MAX)
  }

  /** The k-th extraction; a failed one leaves its string empty. */
  function Word(ws: seq<string>, k: nat): string { if k < |ws| then ws[k] else "" }

  function ToSizeT(v: int): (u: nat)
    ensures u < SIZE_T && (v - u) % SIZE_T == 0
  {
    v % SIZE_T
  }

  /** One of the pairs of matrices: sent_count and sent_bytes, or recv_count and recv_bytes. */
  datatype Table = Table(calls: seq<seq<nat>>, bytes: seq<seq<nat>>)

  predicate Square(m: seq<seq<nat>>, n: nat) { |m| == n && forall i :: 0 <= i < n ==> |m[i]| == n }

  predicate Fits(t: Table, n: nat) { Square(t.calls, n) && Square(t.bytes, n) }

  function At(t: Table, n: nat, i: nat, j: nat): Tally
    requires Fits(t, n) && i < n && j < n
  {
    Tally(t.calls[i][j], t.bytes[i][j])
  }

  predicate Mentions(line: string, dir: Direction) { Contains(line, Keyword(dir)) }

  /** The three numbers of the line are there, and its rank is a column of the matrices. */
  predicate Readable(line: string, n: nat) {
    var ws := Words(line);
    && Stol(Word(ws, 1)).Number? && Stol(Word(ws, 5)).Number? && Stol(Word(ws, 7)).Number?
    && 0 <= Stol(Word(ws, 5)).value < n
  }

  function ColumnOf(line: string, n: nat): (j: nat)
    requires Readable(line, n)
    ensures j < n
  {
    Stol(Word(Words(line), 5)).value
  }

  function TallyOf(line: string, n: nat): Tally
    requires Readable(line, n)
  {
    Tally(ToSizeT(Stol(Word(Words(line), 7)).value), ToSizeT(Stol(Word(Words(line), 1)).value))
  }

  /** The line causes no exception and no access outside the matrices. */
  predicate Accepted(line: string, n: nat) {
    Mentions(line, Sent) || Mentions(line, Received) ==> Readable(line, n)
  }

  predicate AllAccepted(lines: seq<string>, n: nat) { forall k :: 0 <= k < |lines| ==> Accepted(lines[k], n) }

  /** What one line makes of cell j of its rank's row. */
  function AfterLine(line: string, dir: Direction, n: nat, j: nat, cell: Tally): Tally
    requires Accepted(line, n)
  {
    if Mentions(line, dir) && ColumnOf(line, n) == j then TallyOf(line, n) else cell
  }

  function AfterLines(lines: seq<string>, dir: Direction, n: nat, j: nat, cell: Tally): Tally
    requires AllAccepted(lines, n)
  {
    if lines == [] then cell
    else AfterLine(lines[|lines|-1], dir, n, j, AfterLines(lines[..|lines|-1], dir, n, j, cell))
  }

  // ---------------------------------------------------------------------------------------------
  // The reader.

  function Put(m: seq<seq<nat>>, n: nat, i: nat, j: nat, v: nat): (r: seq<seq<nat>>)
    requires Square(m, n) && i < n && j < n
    ensures Square(r, n)
  {
    var row: seq<nat> := m[i][j := v];
    m[i := row]
  }

  /** Row i of the new table is the old one with this line applied; the other rows are untouched. */
  ghost predicate LineApplied(old_: Table, new_: Table, line: string, dir: Direction, n: nat, i: nat)
    requires Accepted(line, n)
  {
    && Fits(old_, n) && Fits(new_, n)
    && (forall k, j :: 0 <= k < n && 0 <= j < n && k != i ==> At(new_, n, k, j) == At(old_, n, k, j))
    && (i < n ==> forall j :: 0 <= j < n ==> At(new_, n, i, j) == AfterLine(line, dir, n, j, At(old_, n, i, j)))
  }

  /** One of the two branches of the reading loop. When it fails the program ends without output. */
  method ReadLine(line: string, dir: Direction, n: nat, i: nat, t: Table) returns (ok: bool, r: Table)
    requires Fits(t, n) && i < n
    ensures ok <==> (Mentions(line, dir) ==> Readable(line, n))
    ensures Accepted(line, n) ==> LineApplied(t, r, line, dir, n, i)
  {
    ok, r := true, t;
    if Contains(line, Keyword(dir)) {
      var ws := Words(line);
      var bytes, rank, calls := Stol(Word(ws, 1)), Stol(Word(ws, 5)), Stol(Word(ws, 7));
      if !calls.Number? || !rank.Number? || !(0 <= rank.value < n) { return false, t; }
      var counted := Put(r.calls, n, i, rank.value, ToSizeT(calls.value));
      if !bytes.Number? { return false, t; }
      r := Table(counted, Put(r.bytes, n, i, rank.value, ToSizeT(bytes.value)));
    }
  }

  lemma AcceptedPrefix(lines: seq<string>, line: string, n: nat)
    ensures AllAccepted(lines + [line], n) <==> AllAccepted(lines, n) && Accepted(line, n)
  {
    assert (lines + [line])[|lines|] == line;
    if AllAccepted(lines + [line], n) {
      forall k | 0 <= k < |lines| ensures Accepted(lines[k], n) {
        assert (lines + [line])[k] == lines[k];
      }
    }
  }

  lemma AcceptedConcat(a: seq<string>, b: seq<string>, n: nat)
    ensures AllAccepted(a + b, n) <==> AllAccepted(a, n) && AllAccepted(b, n)
  {
    if AllAccepted(a + b, n) {
      forall k | 0 <= k < |a| ensures Accepted(a[k], n) { assert (a + b)[k] == a[k]; }
      forall k | 0 <= k < |b| ensures Accepted(b[k], n) { assert (a + b)[|a| + k] == b[k]; }
    }
  }

  lemma OneMoreLine(lines: seq<string>, line: string, dir: Direction, n: nat, j: nat, cell: Tally)
    requires AllAccepted(lines, n) && Accepted(line, n)
    ensures AllAccepted(lines + [line], n)
    ensures AfterLines(lines + [line], dir, n, j, cell) ==
        AfterLine(line, dir, n, j, AfterLines(lines, dir, n, j, cell))
  {
    AcceptedPrefix(lines, line, n);
    assert (lines + [line])[..|lines|] == lines;
  }

  /** Row i of the new table is the old one with all these lines applied; the other rows are untouched. */
  ghost predicate LinesApplied(old_: Table, new_: Table, lines: seq<string>, dir: Direction, n: nat, i: nat)
    requires AllAccepted(lines, n)
  {
    && Fits(old_, n) && Fits(new_, n)
    && (forall k, j :: 0 <= k < n && 0 <= j < n && k != i ==> At(new_, n, k, j) == At(old_, n, k, j))
    && (i < n ==> forall j :: 0 <= j < n ==> At(new_, n, i, j) == AfterLines(lines, dir, n, j, At(old_, n, i, j)))
  }

  lemma ApplyOneMore(a: Table, b: Table, c: Table, lines: seq<string>, line: string, dir: Direction, n: nat, i: nat)
    requires AllAccepted(lines, n) && Accepted(line, n)
    requires LinesApplied(a, b, lines, dir, n, i) && LineApplied(b, c, line, dir, n, i)
    ensures AllAccepted(lines + [line], n) && LinesApplied(a, c, lines + [line], dir, n, i)
  {
    AcceptedPrefix(lines, line, n);
    if i < n {
      forall j | 0 <= j < n
        ensures At(c, n, i, j) == AfterLines(lines + [line], dir, n, j, At(a, n, i, j))
      {
        OneMoreLine(lines, line, dir, n, j, At(a, n, i, j));
        hide AfterLines, AfterLine, AllAccepted, Accepted;
      }
    }
  }

  /** std::getline: the text up to the next newline, which is dropped. */
  method GetLine(input: string) returns (line: string, rest: string)
    requires input != ""
    ensures Lines(input) == [line] + Lines(rest) && |rest| < |input|
  {
    LinesOf(input);
    LinesOf("");
    hide *;
    var k := Find(input, '\n');
    line := input[..k];
    rest := if k < |input| then input[k+1..] else "";
    assert k == |input| ==> line == input && [input] + [] == [input];
  }

  /** The while loop over one log file, whose numbers go into row i. */
  method ReadLog(text: string, n: nat, i: nat, sent0: Table, received0: Table)
    returns (ok: bool, sent: Table, received: Table)
    requires i < n && Fits(sent0, n) && Fits(received0, n)
    ensures ok <==> AllAccepted(Lines(text), n)
    ensures ok ==> LinesApplied(sent0, sent, Lines(text), Sent, n, i)
    ensures ok ==> LinesApplied(received0, received, Lines(text), Received, n, i)
  {
    ok, sent, received := true, sent0, received0;
    var input := text;
    ghost var seen: seq<string> := [];
    assert LinesApplied(sent0, sent, [], Sent, n, i) && LinesApplied(received0, received, [], Received, n, i);
    assert Lines("") == [];
    hide *;
    while input != ""
      invariant Lines(text) == seen + Lines(input)
      invariant AllAccepted(seen, n) && Fits(sent, n) && Fits(received, n)
      invariant LinesApplied(sent0, sent, seen, Sent, n, i)
      invariant LinesApplied(received0, received, seen, Received, n, i)
      decreases |input|
    {
      var line, rest := GetLine(input);
      Regroup(seen, [line], Lines(rest));
      AcceptedPrefix(seen, line, n);
      AcceptedConcat(seen + [line], Lines(rest), n);
      var sent1, received1;
      ok, sent1, received1 := ReadBoth(line, n, i, sent, received);
      if !ok { return; }
      ApplyOneMore(sent0, sent, sent1, seen, line, Sent, n, i);
      ApplyOneMore(received0, received, received1, seen, line, Received, n, i);
      sent, received, input, seen := sent1, received1, rest, seen + [line];
    }
    assert Lines(text) == seen by { assert input == "" && seen + [] == seen; }
  }

  /** The body of the reading loop. */
  method ReadBoth(line: string, n: nat, i: nat, sent0: Table, received0: Table)
    returns (ok: bool, sent: Table, received: Table)
    requires i < n && Fits(sent0, n) && Fits(received0, n)
    ensures ok <==> Accepted(line, n)
    ensures ok ==> Fits(sent, n) && LineApplied(sent0, sent, line, Sent, n, i)
    ensures ok ==> Fits(received, n) && LineApplied(received0, received, line, Received, n, i)
  {
    received := received0;
    ok, sent := ReadLine(line, Sent, n, i, sent0);
    if !ok { return; }
    ok, received := ReadLine(line, Received, n, i, received0);
  }

  /** The log file of a rank, if it could be opened. */
  datatype Log = Missing | Log(text: string)

  ghost predicate Good(log: Log, n: nat) { log.Log? ==> AllAccepted(Lines(log.text), n) }

  ghost function CellOf(log: Log, dir: Direction, n: nat, j: nat): Tally
    requires Good(log, n)
  {
    if log.Missing? then Tally(0, 0) else AfterLines(Lines(log.text), dir, n, j, Tally(0, 0))
  }

  ghost predicate AllGood(logs: seq<Log>, n: nat, m: nat)
    requires m <= |logs|
  {
    forall i :: 0 <= i < m ==> Good(logs[i], n)
  }

  /** The first m rows hold what the first m logs say, and the others are zero. */
  ghost predicate Filled(t: Table, logs: seq<Log>, dir: Direction, n: nat, m: nat)
    requires m <= n == |logs| && AllGood(logs, n, m)
  {
    && Fits(t, n)
    && forall i, j :: 0 <= i < n && 0 <= j < n ==>
        At(t, n, i, j) == if i < m then CellOf(logs[i], dir, n, j) else Tally(0, 0)
  }

  lemma FillRow(a: Table, b: Table, logs: seq<Log>, dir: Direction, n: nat, m: nat)
    requires m < n == |logs| && AllGood(logs, n, m) && Good(logs[m], n)
    requires Filled(a, logs, dir, n, m)
    requires if logs[m].Missing? then a == b else LinesApplied(a, b, Lines(logs[m].text), dir, n, m)
    ensures AllGood(logs, n, m + 1) && Filled(b, logs, dir, n, m + 1)
  {
    hide AfterLines, Lines, AllAccepted;
  }

  method Zeros(n: nat) returns (m: seq<seq<nat>>)
    ensures Square(m, n) && forall i, j :: 0 <= i < n && 0 <= j < n ==> m[i][j] == 0
  {
    m := [];
    for i := 0 to n
      invariant |m| == i && forall k :: 0 <= k < i ==> |m[k]| == n && forall j :: 0 <= j < n ==> m[k][j] == 0
    {
      var tmp: seq<nat> := [];
      for j := 0 to n
        invariant |tmp| == j && forall k :: 0 <= k < j ==> tmp[k] == 0
      {
        tmp := tmp + [0];
      }
      m := m + [tmp];
    }
  }

  /** One round of the loop over the log files. */
  method ReadFile(n: nat, logs: seq<Log>, i: nat, sent0: Table, received0: Table)
    returns (ok: bool, sent: Table, received: Table)
    requires i < n == |logs| && AllGood(logs, n, i)
    requires Filled(sent0, logs, Sent, n, i) && Filled(received0, logs, Received, n, i)
    ensures ok <==> AllGood(logs, n, i + 1)
    ensures ok ==> Filled(sent, logs, Sent, n, i + 1) && Filled(received, logs, Received, n, i + 1)
  {
    ok, sent, received := true, sent0, received0;
    if logs[i].Log? {
      ok, sent, received := ReadLog(logs[i].text, n, i, sent0, received0);
      if !ok {
        assert !Good(logs[i], n);
        return;
      }
    }
    FillRow(sent0, sent, logs, Sent, n, i);
    FillRow(received0, received, logs, Received, n, i);
    hide *;
  }

  /** main, for the n logs zs.000.log and so on: the matrices it writes, if it gets that far. */
  method Merge(n: nat, logs: seq<Log>) returns (done: bool, sent: Table, received: Table)
    requires |logs| == n
    ensures done <==> AllGood(logs, n, n)
    ensures done ==> Filled(sent, logs, Sent, n, n) && Filled(received, logs, Received, n, n)
  {
    var sentCount := Zeros(n);
    var recvCount := Zeros(n);
    var sentBytes := Zeros(n);
    var recvBytes := Zeros(n);
    sent, received, done := Table(sentCount, sentBytes), Table(recvCount, recvBytes), true;
    assert AllGood(logs, n, 0);
    assert Filled(sent, logs, Sent, n, 0) && Filled(received, logs, Received, n, 0);
    assert forall i, m :: 0 <= i <= m <= n && AllGood(logs, n, m) ==> AllGood(logs, n, i);
    hide *;
    for i := 0 to n
      invariant done && AllGood(logs, n, i)
      invariant Filled(sent, logs, Sent, n, i) && Filled(received, logs, Received, n, i)
    {
      done, sent, received := ReadFile(n, logs, i, sent, received);
      if !done { return; }
    }
  }
}
