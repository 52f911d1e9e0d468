/** The totals survive the text: from src/software.h through the log to src/post-processing/mpi_p2p_merge.cpp. */
module PointToPointRoundTrip {
  import opened Decimal
  import opened Text
  import opened PointToPoint
  import opened PointToPointMerge

  /** nranks is a uint32_t. */
  const UINT32 := 0x1_0000_0000

  /** A total that the reader takes: the peer is a rank of the run and std::stol can hold the numbers. */
  predicate InRange(peer: int, tally: Tally, n: nat) {
    0 <= peer < n && tally.calls <= LONG_MAX && tally.bytes <= LONG_MAX
  }

  // ---------------------------------------------------------------------------------------------
  // One line.

  lemma DigitsWord(n: nat)
    ensures IsWord(Digits(n)) && forall c :: c in Digits(n) ==> IsDigit(c)
  {
    DigitsRead(n);
  }

  lemma IntWord(v: int)
    ensures IsWord(IntText(v)) && forall c :: c in IntText(v) ==> IsDigit(c) || c == '-'
  {
    DigitsWord(if v < 0 then -v else v);
  }

  lemma {:induction false} LastWord(w: string)
    requires IsWord(w)
    ensures Words(" " + w) == [w]
  {
    SpaceFirst(w);
    WordFirst(w, "");
    assert w + "" == w && Words("") == [];
  }

  /** The words of a line made of these pieces. */
  lemma PiecesRead(k: string, b: string, bytes: string, p: string, rank: string, r: string, to: string, c: string,
                   calls: string,
                   kw: string, bytesWord: string, rankWord: string, toWord: string, callsWord: string)
    requires IsWord(kw) && IsWord(b) && IsWord(p) && IsWord(r) && IsWord(c)
    requires IsWord(bytesWord) && IsWord(rankWord) && IsWord(toWord) && IsWord(callsWord)
    requires k == kw + " " && bytes == " " + bytesWord + " " && rank == " " + rankWord + " " && to == " " + toWord + " "
    requires calls == " " + callsWord
    ensures var ws := Words(k + (b + (bytes + (p + (rank + (r + (to + (c + calls))))))));
      Word(ws, 1) == b && Word(ws, 5) == r && Word(ws, 7) == c
      && ws == [kw, b, bytesWord, p, rankWord, r, toWord, c, callsWord]
  {
    hide *;
    var s7 := c + calls;
    LastWord(callsWord); WordFirst(c, calls);
    SpacedWord(to, toWord, s7);
    var s5 := r + (to + s7);
    WordFirst(r, to + s7);
    SpacedWord(rank, rankWord, s5);
    var s3 := p + (rank + s5);
    WordFirst(p, rank + s5);
    SpacedWord(bytes, bytesWord, s3);
    var s1 := b + (bytes + s3);
    WordFirst(b, bytes + s3);
    SpaceFirst(s1);
    WordFirst(kw, " " + s1);
    Regroup(kw, " ", s1);
    Seventh(kw, b, bytesWord, p, rankWord, r, toWord, c, callsWord, Words(k + s1));
  }

  lemma Seventh(w0: string, w1: string, w2: string, w3: string, w4: string, w5: string, w6: string, w7: string,
                w8: string, ws: seq<string>)
    requires ws == [w0] + ([w1] + ([w2] + ([w3] + ([w4] + ([w5] + ([w6] + ([w7] + [w8])))))))
    ensures ws == [w0, w1, w2, w3, w4, w5, w6, w7, w8]
    ensures Word(ws, 1) == w1 && Word(ws, 5) == w5 && Word(ws, 7) == w7
  {}

  lemma Literals()
    ensures IsWord("bytes") && IsWord("rank") && IsWord("in") && IsWord("calls")
    ensures " bytes " == " " + "bytes" + " " && " rank " == " " + "rank" + " " && " in " == " " + "in" + " "
    ensures " calls" == " " + "calls"
  {}

  lemma FourWords()
    ensures IsWord("Sent") && IsWord("Received") && IsWord(Preposition(Sent)) && IsWord(Preposition(Received))
  {
  }

  lemma KeywordWord(dir: Direction) returns (kw: string)
    ensures IsWord(kw) && Keyword(dir) == kw + " " && IsWord(Preposition(dir))
    ensures kw == if dir == Sent then "Sent" else "Received"
  {
    kw := if dir == Sent then "Sent" else "Received";
    assert Keyword(dir) == kw + " ";
    hide *;
    FourWords();
  }

  /** A line of the summary word by word. */
  lemma LineWords(dir: Direction, peer: int, tally: Tally)
    ensures var ws := Words(LineText(dir, peer, tally));
      Word(ws, 1) == Digits(tally.bytes) && Word(ws, 5) == IntText(peer) && Word(ws, 7) == Digits(tally.calls)
    ensures Words(LineText(dir, peer, tally)) ==
      [if dir == Sent then "Sent" else "Received", Digits(tally.bytes), "bytes", if dir == Sent then "to" else "from",
       "rank", IntText(peer), "in", Digits(tally.calls), "calls"]
  {
    assert Preposition(dir) == if dir == Sent then "to" else "from";
    hide Words, Digits, IntText, Preposition, Keyword, IsWord, Word;
    DigitsWord(tally.bytes); DigitsWord(tally.calls); IntWord(peer);
    var kw := KeywordWord(dir);
    Literals();
    PiecesRead(Keyword(dir), Digits(tally.bytes), " bytes ", Preposition(dir), " rank ", IntText(peer), " in ",
               Digits(tally.calls), " calls",
               kw, "bytes", "rank", "in", "calls");
  }

  lemma NotInPieces(x: char, k: string, b: string, bytes: string, p: string, rank: string, r: string, to: string,
                    c: string, calls: string)
    requires x !in k && x !in b && x !in bytes && x !in p && x !in rank && x !in r && x !in to && x !in c && x !in calls
    ensures x !in k + (b + (bytes + (p + (rank + (r + (to + (c + calls)))))))
  {}

  lemma LineLacks(dir: Direction, peer: int, tally: Tally, x: char)
    requires x == '\n' || x == if dir == Sent then 'R' else 'S'
    ensures x !in LineText(dir, peer, tally)
  {
    DigitsWord(tally.bytes); DigitsWord(tally.calls); IntWord(peer);
    hide Digits, IntText;
    NotInPieces(x, Keyword(dir), Digits(tally.bytes), " bytes ", Preposition(dir), " rank ", IntText(peer), " in ",
                Digits(tally.calls), " calls");
  }

  /** A summary line is one line, and only the branch for its direction sees it. */
  lemma LineMentions(dir: Direction, peer: int, tally: Tally)
    ensures var line := LineText(dir, peer, tally);
      '\n' !in line && Mentions(line, Sent) == dir.Sent? && Mentions(line, Received) == dir.Received?
  {
    var line := LineText(dir, peer, tally);
    var other := if dir == Sent then 'R' else 'S';
    assert Keyword(dir) <= line;
    assert other in Keyword(if dir == Sent then Received else Sent);
    hide LineText;
    LineLacks(dir, peer, tally, '\n');
    LineLacks(dir, peer, tally, other);
    NotContained(line, Keyword(if dir == Sent then Received else Sent), other);
  }

  lemma LineReads(dir: Direction, peer: int, tally: Tally, n: nat)
    requires n < UINT32 && tally.calls < SIZE_T && tally.bytes < SIZE_T
    ensures Readable(LineText(dir, peer, tally), n) <==> InRange(peer, tally, n)
    ensures InRange(peer, tally, n) ==> ColumnOf(LineText(dir, peer, tally), n) == peer
    ensures InRange(peer, tally, n) ==> TallyOf(LineText(dir, peer, tally), n) == tally
  {
    LineWords(dir, peer, tally);
    IntegerReads(peer, LONG_MIN, LONG_MAX);
    IntegerReads(tally.calls, LONG_MIN, LONG_MAX);
    IntegerReads(tally.bytes, LONG_MIN, LONG_MAX);
    hide ReadInteger, LineText, Words, Digits;
  }

  // ---------------------------------------------------------------------------------------------
  // One summary.

  ghost function LineList(dir: Direction, m: map<int, Tally>, peers: seq<int>): seq<string>
    requires AllIn(peers, m)
  {
    seq(|peers|, i requires 0 <= i < |peers| => LineText(dir, peers[i], m[peers[i]]))
  }

  lemma FirstInList(dir: Direction, m: map<int, Tally>, peer: int, rest: seq<int>)
    requires peer in m && AllIn(rest, m)
    ensures AllIn([peer] + rest, m)
    ensures LineList(dir, m, [peer] + rest) == [LineText(dir, peer, m[peer])] + LineList(dir, m, rest)
  {
    hide LineText;
    assert forall i :: 0 < i <= |rest| ==> ([peer] + rest)[i] == rest[i-1];
  }

  lemma {:induction false} PeerLinesRead(dir: Direction, m: map<int, Tally>, peers: seq<int>)
    requires AllIn(peers, m)
    ensures Ended(PeerLines(dir, m, peers)) && Lines(PeerLines(dir, m, peers)) == LineList(dir, m, peers)
  {
    if peers == [] {
      LinesOf("");
    } else {
      var peer, rest := peers[0], peers[1..];
      assert [peer] + rest == peers && AllIn(rest, m) && peer in m;
      hide *;
      FirstInList(dir, m, peer, rest);
      FirstPeer(dir, m, peer, rest);
      PeerLinesRead(dir, m, rest);
      TextOfOneMore(LineText(dir, peer, m[peer]), PeerLines(dir, m, rest)) by { LineMentions(dir, peer, m[peer]); }
    }
  }

  lemma LeastRises(d: int, s: set<int>, rest: seq<int>)
    requires IsLeast(d, s) && forall x :: x in rest ==> x in s && x != d
    requires forall i, j :: 0 <= i < j < |rest| ==> rest[i] < rest[j]
    ensures var all := [d] + rest; forall i, j :: 0 <= i < j < |all| ==> all[i] < all[j]
  {
    var all := [d] + rest;
    forall i, j | 0 <= i < j < |all| ensures all[i] < all[j] {
      assert all[j] == rest[j-1] && rest[j-1] in rest;
      if i > 0 { assert all[i] == rest[i-1]; }
    }
  }

  /** The peers come in increasing order. */
  lemma {:induction false} AscendingRises(s: set<int>)
    ensures forall i, j :: 0 <= i < j < |Ascending(s)| ==> Ascending(s)[i] < Ascending(s)[j]
  {
    if s != {} {
      HasLeast(s);
      var d :| IsLeast(d, s);
      AscendingFrom(d, s);
      AscendingRises(s - {d});
      hide *;
      LeastRises(d, s, Ascending(s - {d}));
    }
  }

  lemma TextOfOneMore(line: string, rest: string)
    requires '\n' !in line && Ended(rest)
    ensures Ended(line + "\n" + rest) && Lines(line + "\n" + rest) == [line] + Lines(rest)
  {
    OneLine(line);
    assert Ended(line + "\n") && Ended(line + "\n" + rest);
    hide *;
    LinesConcat(line + "\n", rest);
  }

  /** The map holds 64-bit counters. */
  ghost predicate Bounded(m: map<int, Tally>) { forall r :: r in m ==> m[r].calls < SIZE_T && m[r].bytes < SIZE_T }

  ghost predicate AllInRange(m: map<int, Tally>, n: nat) { forall r :: r in m ==> InRange(r, m[r], n) }

  ghost predicate PeersInRange(m: map<int, Tally>, peers: seq<int>, n: nat)
    requires AllIn(peers, m)
  {
    forall i :: 0 <= i < |peers| ==> InRange(peers[i], m[peers[i]], n)
  }

  lemma ListReads(dir: Direction, m: map<int, Tally>, peers: seq<int>, n: nat)
    requires n < UINT32 && Bounded(m) && AllIn(peers, m)
    ensures AllAccepted(LineList(dir, m, peers), n) <==> PeersInRange(m, peers, n)
  {
    var lines := LineList(dir, m, peers);
    forall i | 0 <= i < |peers| ensures Accepted(lines[i], n) <==> InRange(peers[i], m[peers[i]], n) {
      LineReads(dir, peers[i], m[peers[i]], n);
      LineMentions(dir, peers[i], m[peers[i]]);
      hide LineText, Readable, InRange, Mentions;
    }
  }

  lemma ListOneMore(dir: Direction, m: map<int, Tally>, peers: seq<int>, last: int)
    requires AllIn(peers + [last], m)
    ensures AllIn(peers, m) && last in m
    ensures LineList(dir, m, peers + [last]) == LineList(dir, m, peers) + [LineText(dir, last, m[last])]
  {
    assert (peers + [last])[|peers|] == last;
    assert forall i :: 0 <= i < |peers| ==> (peers + [last])[i] == peers[i];
  }

  lemma LineCell(dir: Direction, peer: int, tally: Tally, of: Direction, n: nat, j: nat, cell: Tally)
    requires n < UINT32 && tally.calls < SIZE_T && tally.bytes < SIZE_T && InRange(peer, tally, n)
    ensures Accepted(LineText(dir, peer, tally), n)
    ensures AfterLine(LineText(dir, peer, tally), of, n, j, cell) == if of == dir && j == peer then tally else cell
  {
    LineReads(dir, peer, tally, n);
    LineMentions(dir, peer, tally);
    hide LineText, Readable, InRange, Mentions, ColumnOf, TallyOf;
  }

  /** Reading one line per peer puts the peers' tallies into their columns and leaves the others. */
  lemma {:induction false} ListCells(dir: Direction, m: map<int, Tally>, peers: seq<int>, of: Direction, n: nat,
                                     j: nat, cell: Tally)
    requires n < UINT32 && Bounded(m) && AllIn(peers, m) && PeersInRange(m, peers, n)
    ensures AllAccepted(LineList(dir, m, peers), n)
    ensures AfterLines(LineList(dir, m, peers), of, n, j, cell) == if of == dir && j in peers then m[j] else cell
  {
    ListReads(dir, m, peers, n);
    if peers != [] {
      var k := |peers| - 1;
      var front, last := peers[..k], peers[k];
      assert front + [last] == peers && (j in peers <==> j in front || j == last);
      assert last in m && AllIn(front, m) && PeersInRange(m, front, n);
      assert InRange(last, m[last], n) && m[last].calls < SIZE_T && m[last].bytes < SIZE_T;
      hide *;
      ListCells(dir, m, front, of, n, j, cell);
      ListOneMore(dir, m, front, last);
      var before := AfterLines(LineList(dir, m, front), of, n, j, cell);
      LineCell(dir, last, m[last], of, n, j, before);
      OneMoreLine(LineList(dir, m, front), LineText(dir, last, m[last]), of, n, j, cell);
    }
  }

  lemma AllLinesRead(dir: Direction, m: map<int, Tally>, n: nat)
    requires n < UINT32 && Bounded(m)
    ensures Ended(AllLines(dir, m))
    ensures AllAccepted(Lines(AllLines(dir, m)), n) <==> AllInRange(m, n)
  {
    var peers := Ascending(m.Keys);
    AscendingIn(m.Keys, m);
    PeerLinesRead(dir, m, peers);
    ListReads(dir, m, peers, n);
    if PeersInRange(m, peers, n) {
      forall r | r in m ensures InRange(r, m[r], n) { assert r in peers; }
    }
    hide PeerLines, LineList, Lines, Ascending, InRange;
  }

  lemma AllLinesCells(dir: Direction, m: map<int, Tally>, of: Direction, n: nat, j: nat, cell: Tally)
    requires n < UINT32 && Bounded(m) && AllInRange(m, n)
    ensures AllAccepted(Lines(AllLines(dir, m)), n)
    ensures AfterLines(Lines(AllLines(dir, m)), of, n, j, cell) == if of == dir && j in m then m[j] else cell
  {
    var peers := Ascending(m.Keys);
    AscendingIn(m.Keys, m);
    PeerLinesRead(dir, m, peers);
    assert PeersInRange(m, peers, n);
    ListCells(dir, m, peers, of, n, j, cell);
    assert j in peers <==> j in m;
    hide PeerLines, LineList, Lines, Ascending, InRange, AfterLines, AllAccepted;
  }

  // ---------------------------------------------------------------------------------------------
  // Lines that are not summary lines, and concatenation.

  /** A line of the log that mentions neither keyword. */
  predicate Unrelated(line: string) {
    '\n' !in line && !Mentions(line, Sent) && !Mentions(line, Received)
  }

  lemma UnrelatedSkipped(line: string, of: Direction, n: nat, j: nat, cell: Tally)
    requires Unrelated(line)
    ensures AllAccepted([line], n) && AfterLines([line], of, n, j, cell) == cell
  {
    assert [line][..0] == [] && [line][0] == line;
    hide Mentions;
  }

  lemma {:induction false} AfterConcat(a: seq<string>, b: seq<string>, of: Direction, n: nat, j: nat, cell: Tally)
    requires AllAccepted(a, n) && AllAccepted(b, n)
    ensures AllAccepted(a + b, n)
    ensures AfterLines(a + b, of, n, j, cell) == AfterLines(b, of, n, j, AfterLines(a, of, n, j, cell))
  {
    AcceptedConcat(a, b, n);
    if b == [] {
      assert a + b == a;
    } else {
      var front, last := b[..|b|-1], b[|b|-1];
      assert front + [last] == b;
      hide *;
      AcceptedPrefix(front, last, n);
      AfterConcat(a, front, of, n, j, cell);
      OneMoreLine(front, last, of, n, j, AfterLines(a, of, n, j, cell));
      OneMoreLine(a + front, last, of, n, j, cell);
      Regroup(a, front, [last]);
    }
  }

  lemma LacksBoth(s: string)
    requires 'e' !in s && '\n' !in s
    ensures Unrelated(s)
  {
    assert 'e' in Keyword(Sent) && 'e' in Keyword(Received);
    NotContained(s, Keyword(Sent), 'e');
    NotContained(s, Keyword(Received), 'e');
  }

  lemma HeadingLacks()
    ensures 'e' !in HEADING && '\n' !in HEADING
  {}

  /** The reader gets through this text. */
  ghost predicate Passes(text: string, n: nat) { AllAccepted(Lines(text), n) }

  /** Reading this text turns cell j of the row from `before` into `after`. */
  ghost predicate Turns(text: string, of: Direction, n: nat, j: nat, before: Tally, after: Tally) {
    Passes(text, n) && AfterLines(Lines(text), of, n, j, before) == after
  }

  lemma PassesConcat(a: string, b: string, n: nat)
    requires Ended(a)
    ensures Passes(a + b, n) <==> Passes(a, n) && Passes(b, n)
  {
    hide Lines, AllAccepted, Ended;
    LinesConcat(a, b);
    AcceptedConcat(Lines(a), Lines(b), n);
  }

  lemma TurnsConcat(a: string, b: string, of: Direction, n: nat, j: nat, before: Tally, between: Tally, after: Tally)
    requires Ended(a) && Turns(a, of, n, j, before, between) && Turns(b, of, n, j, between, after)
    ensures Turns(a + b, of, n, j, before, after)
  {
    hide Lines, AllAccepted, AfterLines, Ended;
    LinesConcat(a, b);
    AfterConcat(Lines(a), Lines(b), of, n, j, before);
  }

  lemma UnrelatedText(line: string, of: Direction, n: nat, j: nat, cell: Tally)
    requires Unrelated(line)
    ensures Ended(line + "\n") && Turns(line + "\n", of, n, j, cell, cell)
  {
    assert (line + "\n")[|line|] == '\n';
    OneLine(line);
    UnrelatedSkipped(line, of, n, j, cell);
    hide Lines, AllAccepted, AfterLines;
  }

  lemma EndedConcat(a: string, b: string)
    requires Ended(a) && Ended(b)
    ensures Ended(a + b)
  {
    if b == "" { assert a + b == a; }
  }

  function TitleText(): string { "\n" + (HEADING + "\n") }

  lemma TitleLines()
    ensures Ended(TitleText()) && Lines(TitleText()) == ["", "P2P Communication Summary:"]
    ensures Ended("\n") && Lines("\n") == [""]
  {
    HeadingLacks();
    assert "" + "\n" == "\n" && HEADING == "P2P Communication Summary:";
    assert Ended("\n") && Ended(HEADING + "\n");
    hide *;
    OneLine("");
    OneLine(HEADING);
    LinesConcat("\n", HEADING + "\n");
    EndedConcat("\n", HEADING + "\n");
    TitleIs();
  }

  lemma TitleIs()
    ensures TitleText() == "\n" + (HEADING + "\n")
  {
  }

  /** The summary line by line: an empty line, the heading, the sends in increasing order of their peers, the
      receives likewise, and an empty line. */
  lemma SummaryLines(sent: map<int, Tally>, received: map<int, Tally>)
    ensures AllIn(Ascending(sent.Keys), sent) && AllIn(Ascending(received.Keys), received)
    ensures forall m, i, j :: (m == sent || m == received) && 0 <= i < j < |Ascending(m.Keys)| ==>
      Ascending(m.Keys)[i] < Ascending(m.Keys)[j]
    ensures Lines(SummaryText(sent, received)) == ["", "P2P Communication Summary:"]
      + LineList(Sent, sent, Ascending(sent.Keys)) + LineList(Received, received, Ascending(received.Keys)) + [""]
  {
    var a, b := AllLines(Sent, sent), AllLines(Received, received);
    AscendingIn(sent.Keys, sent);
    AscendingIn(received.Keys, received);
    assert a == PeerLines(Sent, sent, Ascending(sent.Keys));
    assert b == PeerLines(Received, received, Ascending(received.Keys));
    assert SummaryText(sent, received) == TitleText() + a + b + "\n";
    hide *;
    AscendingRises(sent.Keys);
    AscendingRises(received.Keys);
    TitleLines();
    PeerLinesRead(Sent, sent, Ascending(sent.Keys));
    PeerLinesRead(Received, received, Ascending(received.Keys));
    LinesConcat(TitleText(), a);
    EndedConcat(TitleText(), a);
    LinesConcat(TitleText() + a, b);
    EndedConcat(TitleText() + a, b);
    LinesConcat(TitleText() + a + b, "\n");
  }

  lemma TitleTurns(of: Direction, n: nat, j: nat, cell: Tally)
    ensures Ended(TitleText()) && Turns(TitleText(), of, n, j, cell, cell)
    ensures Ended("\n") && Turns("\n", of, n, j, cell, cell)
  {
    LacksBoth("");
    HeadingLacks();
    LacksBoth(HEADING);
    assert "" + "\n" == "\n";
    assert TitleText() == "\n" + (HEADING + "\n");
    hide *;
    UnrelatedText("", of, n, j, cell);
    UnrelatedText(HEADING, of, n, j, cell);
    TurnsConcat("\n", HEADING + "\n", of, n, j, cell, cell, cell);
    EndedConcat("\n", HEADING + "\n");
  }

  function Replaced(m: map<int, Tally>, j: int, cell: Tally): Tally { if j in m then m[j] else cell }

  lemma SummaryPasses(sent: map<int, Tally>, received: map<int, Tally>, n: nat)
    requires n < UINT32 && Bounded(sent) && Bounded(received)
    ensures Ended(SummaryText(sent, received))
    ensures Passes(SummaryText(sent, received), n) <==> AllInRange(sent, n) && AllInRange(received, n)
  {
    var a, b := AllLines(Sent, sent), AllLines(Received, received);
    TitleTurns(Sent, n, 0, Tally(0, 0));
    AllLinesRead(Sent, sent, n);
    AllLinesRead(Received, received, n);
    assert SummaryText(sent, received) == TitleText() + a + b + "\n";
    assert Passes(a, n) <==> AllInRange(sent, n);
    assert Passes(b, n) <==> AllInRange(received, n);
    assert Passes(TitleText(), n) && Passes("\n", n);
    hide *;
    PassesConcat(TitleText(), a, n);
    EndedConcat(TitleText(), a);
    PassesConcat(TitleText() + a, b, n);
    EndedConcat(TitleText() + a, b);
    PassesConcat(TitleText() + a + b, "\n", n);
    EndedConcat(TitleText() + a + b, "\n");
  }

  lemma SummaryTurns(sent: map<int, Tally>, received: map<int, Tally>, of: Direction, n: nat, j: nat, cell: Tally)
    requires n < UINT32 && Bounded(sent) && Bounded(received) && AllInRange(sent, n) && AllInRange(received, n)
    ensures Turns(SummaryText(sent, received), of, n, j, cell, Replaced(if of == Sent then sent else received, j, cell))
  {
    var a, b := AllLines(Sent, sent), AllLines(Received, received);
    var mid := if of == Sent then Replaced(sent, j, cell) else cell;
    var end := if of == Sent then mid else Replaced(received, j, cell);
    TitleTurns(of, n, j, cell);
    TitleTurns(of, n, j, end);
    AllLinesRead(Sent, sent, n);
    AllLinesRead(Received, received, n);
    AllLinesCells(Sent, sent, of, n, j, cell);
    AllLinesCells(Received, received, of, n, j, mid);
    assert SummaryText(sent, received) == TitleText() + a + b + "\n";
    assert Turns(a, of, n, j, cell, mid);
    assert Turns(b, of, n, j, mid, end);
    hide *;
    TurnsConcat(TitleText(), a, of, n, j, cell, cell, mid);
    EndedConcat(TitleText(), a);
    TurnsConcat(TitleText() + a, b, of, n, j, cell, mid, end);
    EndedConcat(TitleText() + a, b);
    TurnsConcat(TitleText() + a + b, "\n", of, n, j, cell, end, end);
  }

  // ---------------------------------------------------------------------------------------------
  // A whole log: the summaries of one process, which may be printed several times, among other lines.

  datatype Chunk =
    | Other(line: string)
    | Summary(sent: seq<Transfer>, received: seq<Transfer>, sentBytes: map<int, Tally>, recvBytes: map<int, Tally>)

  /** The histories at the time of the last summary. */
  function LastHistory(chunks: seq<Chunk>, dir: Direction): seq<Transfer> {
    if chunks == [] then []
    else
      var c := chunks[|chunks|-1];
      if c.Other? then LastHistory(chunks[..|chunks|-1], dir) else HistoryOf(c, dir)
  }

  function HistoryOf(c: Chunk, dir: Direction): seq<Transfer>
    requires c.Summary?
  {
    if dir == Sent then c.sent else c.received
  }

  function TalliesOf(c: Chunk, dir: Direction): map<int, Tally>
    requires c.Summary?
  {
    if dir == Sent then c.sentBytes else c.recvBytes
  }

  /** Other lines mention no keyword, and each summary shows tallies of histories that only grow. */
  ghost predicate Wrote(chunks: seq<Chunk>) {
    chunks != [] ==>
      var front, c := chunks[..|chunks|-1], chunks[|chunks|-1];
      && Wrote(front)
      && (c.Other? ==> Unrelated(c.line))
      && (c.Summary? ==> Tallies(c.sentBytes, c.sent) && Tallies(c.recvBytes, c.received))
      && (c.Summary? ==> LastHistory(front, Sent) <= c.sent && LastHistory(front, Received) <= c.received)
  }

  ghost function ChunkText(c: Chunk): string {
    if c.Other? then c.line + "\n" else SummaryText(c.sentBytes, c.recvBytes)
  }

  ghost function LogText(chunks: seq<Chunk>): string {
    if chunks == [] then "" else LogText(chunks[..|chunks|-1]) + ChunkText(chunks[|chunks|-1])
  }

  /** Every printed total is one the reader takes. */
  ghost predicate InRangeThroughout(chunks: seq<Chunk>, n: nat) {
    chunks != [] ==> InRangeThroughout(chunks[..|chunks|-1], n) && ChunkInRange(chunks[|chunks|-1], n)
  }

  ghost predicate ChunkInRange(c: Chunk, n: nat) {
    c.Summary? ==> AllInRange(c.sentBytes, n) && AllInRange(c.recvBytes, n)
  }

  lemma TalliesBounded(m: map<int, Tally>, history: seq<Transfer>)
    requires Tallies(m, history)
    ensures Bounded(m)
  {}

  /** A later summary supersedes an earlier one, also for peers that it does not list. */
  lemma Superseded(before: seq<Transfer>, after: seq<Transfer>, m: map<int, Tally>, j: int)
    requires before <= after && Tallies(m, after)
    ensures Replaced(m, j, Totals(before, j)) == Totals(after, j)
  {
    CallsGrow(before, after, j);
    NoCalls(before, j);
    NoCalls(after, j);
  }

  /** The reader gets through a log exactly when every printed total is in range. */
  lemma {:induction false} LogPasses(chunks: seq<Chunk>, n: nat)
    requires n < UINT32 && Wrote(chunks)
    ensures Ended(LogText(chunks))
    ensures Passes(LogText(chunks), n) <==> InRangeThroughout(chunks, n)
  {
    if chunks == [] {
      LinesOf("");
    } else {
      var k := |chunks| - 1;
      var c := chunks[k];
      LogPasses(chunks[..k], n);
      assert InRangeThroughout(chunks, n) <==> InRangeThroughout(chunks[..k], n) && ChunkInRange(c, n);
      assert Wrote(chunks[..k]);
      assert LogText(chunks) == LogText(chunks[..k]) + ChunkText(c);
      ChunkPasses(chunks, n);
      hide *;
      PassesConcat(LogText(chunks[..k]), ChunkText(c), n);
      EndedConcat(LogText(chunks[..k]), ChunkText(c));
    }
  }

  lemma ChunkPasses(chunks: seq<Chunk>, n: nat)
    requires n < UINT32 && Wrote(chunks) && chunks != []
    ensures var c := chunks[|chunks|-1];
      && Ended(ChunkText(c))
      && (Passes(ChunkText(c), n) <==> ChunkInRange(c, n))
  {
    var c := chunks[|chunks|-1];
    if c.Other? {
      UnrelatedText(c.line, Sent, n, 0, Tally(0, 0));
    } else {
      TalliesBounded(c.sentBytes, c.sent);
      TalliesBounded(c.recvBytes, c.received);
      SummaryPasses(c.sentBytes, c.recvBytes, n);
    }
    hide SummaryText, Bounded, Tallies, AllInRange, Ended, Lines, AllAccepted;
  }

  lemma ChunkTurns(chunks: seq<Chunk>, of: Direction, n: nat, j: nat)
    requires n < UINT32 && Wrote(chunks) && chunks != []
    requires ChunkInRange(chunks[|chunks|-1], n)
    ensures Turns(ChunkText(chunks[|chunks|-1]), of, n, j,
                  Totals(LastHistory(chunks[..|chunks|-1], of), j), Totals(LastHistory(chunks, of), j))
  {
    var front, c := chunks[..|chunks|-1], chunks[|chunks|-1];
    var before := LastHistory(front, of);
    if c.Other? {
      UnrelatedText(c.line, of, n, j, Totals(before, j));
    } else {
      TalliesBounded(c.sentBytes, c.sent);
      TalliesBounded(c.recvBytes, c.received);
      SummaryTurns(c.sentBytes, c.recvBytes, of, n, j, Totals(before, j));
      Superseded(before, HistoryOf(c, of), TalliesOf(c, of), j);
    }
    hide SummaryText, Bounded, Tallies, AllInRange, Turns, Totals, Replaced;
  }

  /** What the reader makes of a log: the totals of everything recorded up to the last summary. */
  lemma {:induction false} LogReads(chunks: seq<Chunk>, of: Direction, n: nat, j: nat)
    requires n < UINT32 && Wrote(chunks) && InRangeThroughout(chunks, n)
    ensures Turns(LogText(chunks), of, n, j, Tally(0, 0), Totals(LastHistory(chunks, of), j))
  {
    if chunks == [] {
      LinesOf("");
    } else {
      var k := |chunks| - 1;
      LogReads(chunks[..k], of, n, j);
      ChunkTurns(chunks, of, n, j);
      LogPasses(chunks[..k], n);
      assert LogText(chunks) == LogText(chunks[..k]) + ChunkText(chunks[k]);
      hide *;
      TurnsConcat(LogText(chunks[..k]), ChunkText(chunks[k]), of, n, j, Tally(0, 0),
                  Totals(LastHistory(chunks[..k], of), j), Totals(LastHistory(chunks, of), j));
    }
  }

  // ---------------------------------------------------------------------------------------------
  // The matrices of a whole run.

  /** Log i is missing or was written by rank i. */
  ghost predicate Written(logs: seq<Log>, runs: seq<seq<Chunk>>) {
    |logs| == |runs| && forall i :: 0 <= i < |logs| ==>
      Wrote(runs[i]) && if logs[i].Missing? then runs[i] == [] else logs[i].text == LogText(runs[i])
  }

  /** The merger finishes exactly when every printed total is in range. */
  lemma MergeFinishes(logs: seq<Log>, runs: seq<seq<Chunk>>)
    requires |logs| < UINT32 && Written(logs, runs)
    ensures AllGood(logs, |logs|, |logs|) <==> forall i :: 0 <= i < |logs| ==> InRangeThroughout(runs[i], |logs|)
  {
    forall i | 0 <= i < |logs| ensures Good(logs[i], |logs|) <==> InRangeThroughout(runs[i], |logs|) {
      LogPasses(runs[i], |logs|);
    }
  }

  lemma TotalsExact(history: seq<Transfer>, j: int)
    ensures Calls(history, j) < SIZE_T ==> Totals(history, j).calls == Calls(history, j)
    ensures Bytes(history, j) < SIZE_T ==> Totals(history, j).bytes == Bytes(history, j)
    ensures Calls(history, j) == 0 ==> Totals(history, j) == Tally(0, 0)
  {
    NoCalls(history, j);
  }

  lemma RowExact(log: Log, run: seq<Chunk>, dir: Direction, n: nat, j: nat)
    requires n < UINT32 && Wrote(run) && if log.Missing? then run == [] else log.text == LogText(run)
    requires Good(log, n)
    ensures CellOf(log, dir, n, j) == Totals(LastHistory(run, dir), j)
  {
    if log.Log? {
      LogPasses(run, n);
      LogReads(run, dir, n, j);
    }
  }

  /** Entry (i, j) of the matrices is exactly what rank i recorded for rank j: the calls and the bytes of
      the history at its last summary, and zero if there is no such transfer. */
  lemma MatricesExact(logs: seq<Log>, runs: seq<seq<Chunk>>, t: Table, dir: Direction, i: nat, j: nat)
    requires |logs| < UINT32 && Written(logs, runs) && i < |logs| && j < |logs|
    requires AllGood(logs, |logs|, |logs|) && Filled(t, logs, dir, |logs|, |logs|)
    ensures var history := LastHistory(runs[i], dir);
      var cell := At(t, |logs|, i, j);
      && (Calls(history, j) < SIZE_T ==> cell.calls == Calls(history, j))
      && (Bytes(history, j) < SIZE_T ==> cell.bytes == Bytes(history, j))
      && (Calls(history, j) == 0 ==> cell == Tally(0, 0))
  {
    assert Good(logs[i], |logs|);
    assert At(t, |logs|, i, j) == CellOf(logs[i], dir, |logs|, j);
    assert Wrote(runs[i]) && if logs[i].Missing? then runs[i] == [] else logs[i].text == LogText(runs[i]);
    hide *;
    RowExact(logs[i], runs[i], dir, |logs|, j);
    TotalsExact(LastHistory(runs[i], dir), j);
  }


  lemma TwoTotals(t: Transfer, r: int)
    ensures Calls([t, t], r) == if r == t.peer then 2 else 0
    ensures Bytes([t, t], r) == if r == t.peer then 2 * t.bytes else 0
  {
    assert [] + [t] == [t] && [t] + [t] == [t, t];
    assert Calls([], r) == 0 && Bytes([], r) == 0;
    hide *;
    OneMore([], t, r);
    OneMore([t], t, r);
  }

  /** What two transfers of the same size with one peer leave. */
  lemma TwoTransfers(t: Transfer)
    requires 2 * t.bytes < SIZE_T
    ensures Tallies(map[t.peer := Tally(2, 2 * t.bytes)], [t, t])
  {
    forall r
      ensures Calls([t, t], r) == if r == t.peer then 2 else 0
      ensures Bytes([t, t], r) == if r == t.peer then 2 * t.bytes else 0
    {
      TwoTotals(t, r);
    }
    assert Totals([t, t], t.peer) == Tally(2, 2 * t.bytes);
    hide Calls, Bytes, Totals;
  }

  /** A log with one summary and nothing received. */
  lemma OneSummary(sent: seq<Transfer>, sentBytes: map<int, Tally>, n: nat) returns (run: seq<Chunk>)
    requires Tallies(sentBytes, sent)
    ensures Wrote(run) && (InRangeThroughout(run, n) ==> AllInRange(sentBytes, n)) && LastHistory(run, Sent) == sent
  {
    run := [Summary(sent, [], sentBytes, map[])];
    assert run[..0] == [];
    hide AllInRange, Bytes;
  }

  /** Of two ranks the first wrote its log, with a total out of range, and the second wrote none. */
  lemma OneOfTwo(run: seq<Chunk>)
    requires Wrote(run) && !InRangeThroughout(run, 2)
    ensures Written([Log(LogText(run)), Missing], [run, []]) && !AllGood([Log(LogText(run)), Missing], 2, 2)
  {
    var logs, runs := [Log(LogText(run)), Missing], [run, []];
    assert Wrote([]) && runs[0] == run && logs[0].text == LogText(run);
    hide Wrote, InRangeThroughout, LogText, Good;
    assert Written(logs, runs);
    MergeFinishes(logs, runs);
  }

  /** Two sends of 2^62 bytes from rank 0 to rank 1: their total is printed, and the merger fails on it. */
  lemma LargeTotal() returns (logs: seq<Log>, runs: seq<seq<Chunk>>)
    ensures Written(logs, runs) && |logs| == 2 && !AllGood(logs, 2, 2)
    ensures LastHistory(runs[0], Sent) == [Transfer(1, 0x4000_0000_0000_0000), Transfer(1, 0x4000_0000_0000_0000)]
  {
    var sent := [Transfer(1, 0x4000_0000_0000_0000), Transfer(1, 0x4000_0000_0000_0000)];
    var sentBytes := map[1 := Tally(2, 2 * 0x4000_0000_0000_0000)];
    TwoTransfers(Transfer(1, 0x4000_0000_0000_0000));
    assert 1 in sentBytes && !InRange(1, sentBytes[1], 2) && !AllInRange(sentBytes, 2);
    hide *;
    var run := OneSummary(sent, sentBytes, 2);
    logs, runs := [Log(LogText(run)), Missing], [run, []];
    OneOfTwo(run);
  }
}
