/** Point-to-point totals: how Process in src/software.h records them and prints its summary. */
module PointToPoint {
  import opened Decimal
  import opened Collections
  import opened Text

  /** A size_t holds 64 bits. */
  const SIZE_T := 0x1_0000_0000_0000_0000

  datatype Direction = Sent | Received

  /** One recorded send or receive. */
  datatype Transfer = Transfer(peer: int, bytes: nat)

  /** The std::pair<size_t, size_t> kept for a peer. */
  datatype Tally = Tally(calls: nat, bytes: nat)

  /** How many transfers with this peer there were. */
  function Calls(history: seq<Transfer>, peer: int): nat {
    if history == [] then 0
    else Calls(history[..|history|-1], peer) + if history[|history|-1].peer == peer then 1 else 0
  }

  /** How many bytes went to or came from this peer. */
  function Bytes(history: seq<Transfer>, peer: int): nat {
    if history == [] then 0
    else
      var last := history[|history|-1];
      Bytes(history[..|history|-1], peer) + if last.peer == peer then last.bytes else 0
  }

  /** The totals as 64-bit counters hold them. */
  function Totals(history: seq<Transfer>, peer: int): Tally {
    Tally(Calls(history, peer) % SIZE_T, Bytes(history, peer) % SIZE_T)
  }

  /** The map holds exactly the peers of the history, each with its totals. */
  ghost predicate Tallies(m: map<int, Tally>, history: seq<Transfer>) {
    && (forall r :: r in m <==> Calls(history, r) > 0)
    && (forall r :: r in m ==> m[r] == Totals(history, r))
  }

  method Record(m: map<int, Tally>, rank: int, bytes: nat, ghost history: seq<Transfer>) returns (r: map<int, Tally>)
    requires Tallies(m, history)
    ensures Tallies(r, history + [Transfer(rank, bytes)])
  {
    r := m;
    if rank !in r {
      r := r[rank := Tally(0, 0)];
    }
    assert r[rank] == Totals(history, rank) by { NoCalls(history, rank); }
    var tmp := r[rank];
    tmp := tmp.(calls := (tmp.calls + 1) % SIZE_T);
    tmp := tmp.(bytes := (tmp.bytes + bytes) % SIZE_T);
    r := r[rank := tmp];
    OneMore(history, Transfer(rank, bytes), rank);
    hide Calls, Bytes;
    AddWraps(Calls(history, rank), 1);
    AddWraps(Bytes(history, rank), bytes);
    TalliesGrow(m, r, history, Transfer(rank, bytes));
  }

  lemma AddWraps(a: nat, b: nat)
    ensures (a % SIZE_T + b) % SIZE_T == (a + b) % SIZE_T
  {}

  lemma TalliesGrow(m: map<int, Tally>, r: map<int, Tally>, history: seq<Transfer>, t: Transfer)
    requires Tallies(m, history)
    requires forall p :: p in r <==> p in m || p == t.peer
    requires forall p :: p in m && p != t.peer ==> r[p] == m[p]
    requires r[t.peer] == Totals(history + [t], t.peer)
    ensures Tallies(r, history + [t])
  {
    forall p
      ensures Calls(history + [t], p) == Calls(history, p) + (if t.peer == p then 1 else 0)
      ensures p != t.peer ==> Totals(history + [t], p) == Totals(history, p)
    {
      OneMore(history, t, p);
    }
  }

  lemma OneMore(history: seq<Transfer>, t: Transfer, peer: int)
    ensures Calls(history + [t], peer) == Calls(history, peer) + (if t.peer == peer then 1 else 0)
    ensures Bytes(history + [t], peer) == Bytes(history, peer) + (if t.peer == peer then t.bytes else 0)
  {
    assert (history + [t])[..|history|] == history;
  }

  lemma {:induction false} NoCalls(history: seq<Transfer>, peer: int)
    ensures Calls(history, peer) == 0 ==> Bytes(history, peer) == 0
  {
    if history != [] { NoCalls(history[..|history|-1], peer); }
  }

  lemma {:induction false} CallsGrow(before: seq<Transfer>, after: seq<Transfer>, peer: int)
    requires before <= after
    ensures Calls(before, peer) <= Calls(after, peer)
  {
    if before != after { CallsGrow(before, after[..|after|-1], peer); }
  }

  // ---------------------------------------------------------------------------------------------
  // The summary text.

  function Keyword(dir: Direction): string {
    match dir case Sent => "Sent " case Received => "Received "
  }

  function Preposition(dir: Direction): string {
    match dir case Sent => "to" case Received => "from"
  }

  function LineText(dir: Direction, peer: int, tally: Tally): string {
    Keyword(dir) + (Digits(tally.bytes) + (" bytes " + (Preposition(dir) + (" rank " + (IntText(peer)
    + (" in " + (Digits(tally.calls) + " calls")))))))
  }

  ghost predicate IsLeast(d: int, s: set<int>) { d in s && forall e :: e in s ==> d <= e }

  lemma {:induction false} HasLeast(s: set<int>)
    requires s != {}
    ensures exists d :: IsLeast(d, s)
  {
    var x := SomeElement(s);
    if s == {x} {
      assert IsLeast(x, s);
    } else {
      HasLeast(s - {x});
      var d :| IsLeast(d, s - {x});
      var least := if x < d then x else d;
      forall e | e in s ensures least <= e {
        if e != x { assert e in s - {x}; }
      }
      assert IsLeast(least, s);
    }
  }

  /** The keys of a std::map in iteration order. */
  ghost function Ascending(s: set<int>): (r: seq<int>)
    ensures forall d :: d in r <==> d in s
  {
    if s == {} then [] else
    HasLeast(s);
    var d :| IsLeast(d, s);
    [d] + Ascending(s - {d})
  }

  lemma AscendingFrom(d: int, s: set<int>)
    requires IsLeast(d, s)
    ensures Ascending(s) == [d] + Ascending(s - {d})
  {}

  ghost predicate AllIn(peers: seq<int>, m: map<int, Tally>) { forall i :: 0 <= i < |peers| ==> peers[i] in m }

  lemma AscendingIn(s: set<int>, m: map<int, Tally>)
    requires s <= m.Keys
    ensures AllIn(Ascending(s), m)
  {
    forall i | 0 <= i < |Ascending(s)| ensures Ascending(s)[i] in m {
      assert Ascending(s)[i] in s;
    }
  }

  /** One line for each of these peers. */
  ghost function PeerLines(dir: Direction, m: map<int, Tally>, peers: seq<int>): string
    requires AllIn(peers, m)
  {
    if peers == [] then ""
    else LineText(dir, peers[0], m[peers[0]]) + "\n" + PeerLines(dir, m, peers[1..])
  }

  lemma FirstPeer(dir: Direction, m: map<int, Tally>, d: int, peers: seq<int>)
    requires d in m && AllIn(peers, m)
    ensures AllIn([d] + peers, m)
    ensures PeerLines(dir, m, [d] + peers) == LineText(dir, d, m[d]) + "\n" + PeerLines(dir, m, peers)
  {
    assert ([d] + peers)[1..] == peers;
  }

  ghost function AllLines(dir: Direction, m: map<int, Tally>): string {
    AscendingIn(m.Keys, m);
    PeerLines(dir, m, Ascending(m.Keys))
  }

  const HEADING := "P2P Communication Summary:"

  ghost function SummaryText(sent: map<int, Tally>, received: map<int, Tally>): string {
    "\n" + (HEADING + "\n") + AllLines(Sent, sent) + AllLines(Received, received) + "\n"
  }

  lemma LeastFirst(dir: Direction, m: map<int, Tally>, d: int, s: set<int>)
    requires s <= m.Keys && IsLeast(d, s)
    ensures d in m && AllIn(Ascending(s), m) && AllIn(Ascending(s - {d}), m)
    ensures PeerLines(dir, m, Ascending(s)) == LineText(dir, d, m[d]) + "\n" + PeerLines(dir, m, Ascending(s - {d}))
  {
    AscendingFrom(d, s);
    AscendingIn(s, m);
    AscendingIn(s - {d}, m);
    FirstPeer(dir, m, d, Ascending(s - {d}));
  }

  method WriteLines(dir: Direction, m: map<int, Tally>) returns (text: string)
    ensures text == AllLines(dir, m)
  {
    text := "";
    var rest := m.Keys;
    ghost var tail := AllLines(dir, m);
    AscendingIn(rest, m);
    assert PeerLines(dir, m, []) == "" && Ascending({}) == [];
    assert tail == PeerLines(dir, m, Ascending(rest));
    hide *;
    while rest != {}
      invariant rest <= m.Keys && AllIn(Ascending(rest), m)
      invariant tail == PeerLines(dir, m, Ascending(rest))
      invariant AllLines(dir, m) == text + tail
    {
      var d := PickLeast(rest);
      LeastFirst(dir, m, d, rest);
      var line := LineText(dir, d, m[d]) + "\n";
      rest := rest - {d};
      tail := PeerLines(dir, m, Ascending(rest));
      Regroup(text, line, tail);
      text := text + line;
    }
  }

  /** Where the iterator of a std::map stands: at the least key still to come. */
  method PickLeast(s: set<int>) returns (d: int)
    requires s != {}
    ensures IsLeast(d, s) && d in s
  {
    d := AnyOf(s);
    var rest := s - {d};
    while rest != {}
      invariant d in s && rest <= s
      invariant forall e :: e in s ==> d <= e || e in rest
      decreases |rest|
    {
      var e := AnyOf(rest);
      if e < d { d := e; }
      rest := rest - {e};
    }
  }

  class Process {
    var sentBytes: map<int, Tally>
    var recvBytes: map<int, Tally>
    ghost var sent: seq<Transfer>
    ghost var received: seq<Transfer>

    ghost predicate Valid()
      reads this
    {
      Tallies(sentBytes, sent) && Tallies(recvBytes, received)
    }

    constructor ()
      ensures Valid() && sent == [] && received == []
    {
      sentBytes, recvBytes, sent, received := map[], map[], [], [];
    }

    method RecordSentBytes(rank: int, bytes: nat)
      requires Valid()
      modifies this
      ensures Valid() && sent == old(sent) + [Transfer(rank, bytes)] && received == old(received)
    {
      sentBytes := Record(sentBytes, rank, bytes, sent);
      sent := sent + [Transfer(rank, bytes)];
    }

    method RecordRecvBytes(rank: int, bytes: nat)
      requires Valid()
      modifies this
      ensures Valid() && received == old(received) + [Transfer(rank, bytes)] && sent == old(sent)
    {
      recvBytes := Record(recvBytes, rank, bytes, received);
      received := received + [Transfer(rank, bytes)];
    }

    /** The end of toString. */
    method Summary() returns (text: string)
      ensures text == SummaryText(sentBytes, recvBytes)
    {
      text := "\n" + (HEADING + "\n");
      var a := WriteLines(Sent, sentBytes);
      var b := WriteLines(Received, recvBytes);
      text := text + a + b + "\n";
    }
  }
}
