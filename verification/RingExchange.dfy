/** The message protocol of examples/random_walk.cpp over all ranks at once. Sends are rendezvous
    sends: a transfer needs the sender at MPI_Send and its successor at MPI_Probe/MPI_Recv, which is
    the strictest completion rule sections 3.4 and 3.5 of the MPI 3.1 standard allow. Ranks move
    independently and may be in different rounds. */
module RingExchange {
  import opened RandomWalk

  /** Where a rank is in its round: about to walk, at its first blocking call, at its second. */
  datatype Phase = Walking | First | Second

  /** `finished` is a history variable: the walkers that stopped here, in order. */
  datatype Rank = Rank(round: nat, phase: Phase, incoming: seq<Walker>, outgoing: seq<Walker>, finished: seq<Walker>)

  datatype Action = Compute(r: nat) | Transfer(sender: nat)

  type Ring = seq<Rank>

  /** Even ranks send first, odd ranks receive first. */
  predicate AtSend(r: nat, k: Rank) { k.phase == if r % 2 == 0 then First else Second }
  predicate AtReceive(r: nat, k: Rank) { k.phase == if r % 2 == 0 then Second else First }

  function Advance(k: Rank): Rank {
    if k.phase == First then k.(phase := Second) else k.(phase := Walking, round := k.round + 1)
  }

  predicate Enabled(c: Config, s: Ring, a: Action)
    requires c.Valid() && |s| == c.ranks
  {
    match a
    case Compute(r) => r < c.ranks && s[r].phase == Walking && s[r].round < c.Rounds()
    case Transfer(r) => r < c.ranks && AtSend(r, s[r]) && AtReceive(c.Next(r), s[c.Next(r)])
  }

  function ComputeRank(c: Config, r: nat, k: Rank): Rank
    requires c.Valid()
  {
    Rank(k.round, First, WalkedAll(c, r, k.incoming), k.outgoing + Emitted(c, r, k.incoming),
         k.finished + Settled(c, r, k.incoming))
  }

  function SendRank(k: Rank): Rank {
    Advance(k.(outgoing := []))
  }

  function ReceiveRank(k: Rank, message: seq<Walker>): Rank {
    Advance(k.(incoming := message))
  }

  function Apply(c: Config, s: Ring, a: Action): (s': Ring)
    requires c.Valid() && |s| == c.ranks && Enabled(c, s, a)
    ensures |s'| == |s|
  {
    match a
    case Compute(r) => s[r := ComputeRank(c, r, s[r])]
    case Transfer(r) =>
      var t := c.Next(r);
      var sent := s[r := SendRank(s[r])];
      sent[t := ReceiveRank(sent[t], s[r].outgoing)]
  }

  ghost predicate ValidStart(c: Config, start: seq<seq<Walker>>) {
    && c.Valid() && |start| == c.ranks
    && forall r, i :: 0 <= r < c.ranks && 0 <= i < |start[r]| ==>
         start[r][i].location == c.Start(r) && 0 <= start[r][i].stepsLeft <= c.maxWalk
  }

  function InitRing(start: seq<seq<Walker>>): Ring {
    seq(|start|, r requires 0 <= r < |start| => Rank(0, Walking, start[r], [], []))
  }

  /** An interleaving: the states it passes and the actions between them. */
  ghost predicate Execution(c: Config, start: seq<seq<Walker>>, states: seq<Ring>, actions: seq<Action>) {
    && ValidStart(c, start)
    && |states| == |actions| + 1
    && states[0] == InitRing(start)
    && (forall i :: 0 <= i < |states| ==> |states[i]| == c.ranks)
    && (forall i :: 0 <= i < |actions| ==>
          Enabled(c, states[i], actions[i]) && states[i+1] == Apply(c, states[i], actions[i]))
  }

  predicate AllDone(c: Config, s: Ring)
    requires c.Valid()
  {
    forall r :: 0 <= r < |s| ==> s[r].round == c.Rounds()
  }

  ghost predicate CanMove(c: Config, s: Ring)
    requires c.Valid() && |s| == c.ranks
  {
    exists a :: Enabled(c, s, a)
  }

  // ---------------------------------------------------------------------------------------------
  // The round-by-round meaning of the program, without any interleaving.

  /** What rank r starts round m with, and the message it sends in round m. */
  function In(c: Config, start: seq<seq<Walker>>, r: nat, m: nat): seq<Walker>
    requires c.Valid() && |start| == c.ranks && r < c.ranks
    decreases m, 0
  {
    if m == 0 then start[r] else Message(c, start, c.Prev(r), m - 1)
  }

  function Message(c: Config, start: seq<seq<Walker>>, r: nat, m: nat): seq<Walker>
    requires c.Valid() && |start| == c.ranks && r < c.ranks
    decreases m, 1
  {
    Emitted(c, r, In(c, start, r, m))
  }

  /** The walkers that stop at rank r in its first m rounds. */
  function FinishedIn(c: Config, start: seq<seq<Walker>>, r: nat, m: nat): seq<Walker>
    requires c.Valid() && |start| == c.ranks && r < c.ranks
  {
    if m == 0 then [] else FinishedIn(c, start, r, m - 1) + Settled(c, r, In(c, start, r, m - 1))
  }

  /** Rank r is where the round-by-round program would have it, whatever the interleaving was. */
  ghost predicate OnSchedule(c: Config, start: seq<seq<Walker>>, r: nat, k: Rank)
    requires c.Valid() && |start| == c.ranks && r < c.ranks
  {
    && k.round <= c.Rounds()
    && (k.round == c.Rounds() ==> k.phase == Walking)
    && k.finished == FinishedIn(c, start, r, if k.phase == Walking then k.round else k.round + 1)
    && k.outgoing == (if Sends(r, k) > k.round || k.phase == Walking then [] else Message(c, start, r, k.round))
    && (Receives(r, k) > k.round ==> k.incoming == In(c, start, r, k.round + 1))
    && (k.phase == Walking ==> k.incoming == In(c, start, r, k.round))
    && (k.phase != Walking && Receives(r, k) == k.round ==> k.incoming == WalkedAll(c, r, In(c, start, r, k.round)))
  }

  /** Completed sends and receives of a rank. */
  function Sends(r: nat, k: Rank): nat { k.round + if k.phase == Second && r % 2 == 0 then 1 else 0 }
  function Receives(r: nat, k: Rank): nat { k.round + if k.phase == Second && r % 2 == 1 then 1 else 0 }

  ghost predicate Inv(c: Config, start: seq<seq<Walker>>, s: Ring) {
    && c.Valid() && |start| == c.ranks == |s|
    && (forall r :: 0 <= r < c.ranks ==> OnSchedule(c, start, r, s[r]))
    && (forall r :: 0 <= r < c.ranks ==> Sends(r, s[r]) == Receives(c.Next(r), s[c.Next(r)]))
  }

  lemma InitInv(c: Config, start: seq<seq<Walker>>)
    requires ValidStart(c, start)
    ensures Inv(c, start, InitRing(start))
  {
  }

  lemma ComputeOnSchedule(c: Config, start: seq<seq<Walker>>, r: nat, k: Rank)
    requires c.Valid() && |start| == c.ranks && r < c.ranks
    requires OnSchedule(c, start, r, k) && k.phase == Walking && k.round < c.Rounds()
    ensures OnSchedule(c, start, r, ComputeRank(c, r, k))
    ensures Sends(r, ComputeRank(c, r, k)) == Sends(r, k) && Receives(r, ComputeRank(c, r, k)) == Receives(r, k)
  {
    assert [] + Emitted(c, r, k.incoming) == Message(c, start, r, k.round);
    hide Emitted, WalkedAll, Settled;
  }

  lemma InvAt(c: Config, start: seq<seq<Walker>>, s: Ring, r: nat)
    requires Inv(c, start, s) && r < c.ranks
    ensures c.Next(r) < c.ranks && OnSchedule(c, start, r, s[r])
    ensures Sends(r, s[r]) == Receives(c.Next(r), s[c.Next(r)])
  {
    hide OnSchedule, Sends, Receives;
    NextPrev(c, r);
  }

  lemma Computed(c: Config, s: Ring, r: nat)
    requires c.Valid() && |s| == c.ranks && Enabled(c, s, Compute(r))
    ensures r < c.ranks && s[r].phase == Walking && s[r].round < c.Rounds()
    ensures var s' := Apply(c, s, Compute(r));
      |s'| == |s| && forall x :: 0 <= x < |s| ==> s'[x] == if x == r then ComputeRank(c, r, s[r]) else s[x]
  {
    hide ComputeRank;
  }

  /** Where every rank is on schedule and has sent and received as often as before, the invariant stays. */
  lemma InvKept(c: Config, start: seq<seq<Walker>>, s: Ring, s': Ring)
    requires Inv(c, start, s) && |s'| == |s|
    requires forall x :: 0 <= x < c.ranks ==> OnSchedule(c, start, x, s'[x])
    requires forall x :: 0 <= x < c.ranks ==>
      Sends(x, s'[x]) == Sends(x, s[x]) && Receives(x, s'[x]) == Receives(x, s[x])
    ensures Inv(c, start, s')
  {
    hide OnSchedule, Sends, Receives;
    forall x | 0 <= x < c.ranks ensures Sends(x, s'[x]) == Receives(c.Next(x), s'[c.Next(x)]) {
      InvAt(c, start, s, x);
    }
  }

  lemma ComputeKeepsInv(c: Config, start: seq<seq<Walker>>, s: Ring, r: nat)
    requires Inv(c, start, s) && Enabled(c, s, Compute(r))
    ensures Inv(c, start, Apply(c, s, Compute(r)))
  {
    var s' := Apply(c, s, Compute(r));
    assert c.Valid() && |start| == c.ranks == |s|;
    hide *;
    Computed(c, s, r);
    InvAt(c, start, s, r);
    ComputeOnSchedule(c, start, r, s[r]);
    forall x | 0 <= x < c.ranks
      ensures OnSchedule(c, start, x, s'[x])
      ensures Sends(x, s'[x]) == Sends(x, s[x]) && Receives(x, s'[x]) == Receives(x, s[x])
    {
      InvAt(c, start, s, x);
    }
    InvKept(c, start, s, s');
  }

  lemma SendOnSchedule(c: Config, start: seq<seq<Walker>>, r: nat, k: Rank)
    requires c.Valid() && |start| == c.ranks && r < c.ranks
    requires OnSchedule(c, start, r, k) && AtSend(r, k)
    ensures k.outgoing == Message(c, start, r, k.round)
    ensures OnSchedule(c, start, r, SendRank(k))
    ensures Sends(r, SendRank(k)) == Sends(r, k) + 1 == k.round + 1
    ensures Receives(r, SendRank(k)) == Receives(r, k)
  {
    hide In, Message, FinishedIn, WalkedAll, c.Rounds;
  }

  lemma ReceiveOnSchedule(c: Config, start: seq<seq<Walker>>, r: nat, k: Rank)
    requires c.Valid() && |start| == c.ranks && r < c.ranks
    requires OnSchedule(c, start, r, k) && AtReceive(r, k)
    ensures var k' := ReceiveRank(k, In(c, start, r, k.round + 1));
      && OnSchedule(c, start, r, k')
      && Receives(r, k') == Receives(r, k) + 1 == k.round + 1 && Sends(r, k') == Sends(r, k)
  {
    hide In, Message, FinishedIn, WalkedAll;
  }

  lemma TransferEnabled(c: Config, s: Ring, r: nat)
    requires c.Valid() && |s| == c.ranks && Enabled(c, s, Transfer(r))
    ensures r < c.ranks && c.Next(r) < c.ranks && r != c.Next(r)
    ensures AtSend(r, s[r]) && AtReceive(c.Next(r), s[c.Next(r)])
  {
    NextPrev(c, r);
  }

  lemma Transferred(c: Config, s: Ring, r: nat)
    requires c.Valid() && |s| == c.ranks && Enabled(c, s, Transfer(r))
    ensures var s', t := Apply(c, s, Transfer(r)), c.Next(r);
      && |s'| == |s| && r < |s| && t < |s|
      && s'[r] == SendRank(s[r]) && s'[t] == ReceiveRank(s[t], s[r].outgoing)
      && forall x :: 0 <= x < |s| && x != r && x != t ==> s'[x] == s[x]
  {
    TransferEnabled(c, s, r);
    hide SendRank, ReceiveRank;
  }

  /** What a rank starts round m + 1 with is the message its predecessor sends in round m. */
  lemma NextRoundsInput(c: Config, start: seq<seq<Walker>>, r: nat, m: nat)
    requires c.Valid() && |start| == c.ranks && r < c.ranks
    ensures c.Next(r) < c.ranks && In(c, start, c.Next(r), m + 1) == Message(c, start, r, m)
  {
    NextPrev(c, r);
    hide Message;
  }

  lemma ReceivedIs(k: Rank, message: seq<Walker>)
    ensures ReceiveRank(k, message).incoming == message
  {
  }

  /** A transfer only ever joins ranks that are in the same round, and carries that round's message. */
  lemma TransferMatchesRounds(c: Config, start: seq<seq<Walker>>, s: Ring, r: nat)
    requires Inv(c, start, s) && Enabled(c, s, Transfer(r))
    ensures r != c.Next(r) && c.Next(r) < c.ranks
    ensures s[r].round == s[c.Next(r)].round
    ensures s[r].outgoing == Message(c, start, r, s[r].round)
    ensures In(c, start, c.Next(r), s[c.Next(r)].round + 1) == s[r].outgoing
    ensures Apply(c, s, Transfer(r))[c.Next(r)].incoming == In(c, start, c.Next(r), s[c.Next(r)].round + 1)
  {
    var t := c.Next(r);
    assert c.Valid() && |start| == c.ranks == |s|;
    hide *;
    TransferEnabled(c, s, r);
    Transferred(c, s, r);
    ReceivedIs(s[t], s[r].outgoing);
    NextRoundsInput(c, start, r, s[t].round);
    InvAt(c, start, s, r);
    InvAt(c, start, s, t);
    SendOnSchedule(c, start, r, s[r]);
    ReceiveOnSchedule(c, start, t, s[t]);
  }

  lemma TransferKeepsInv(c: Config, start: seq<seq<Walker>>, s: Ring, r: nat)
    requires Inv(c, start, s) && Enabled(c, s, Transfer(r))
    ensures Inv(c, start, Apply(c, s, Transfer(r)))
  {
    var t := c.Next(r);
    var s' := Apply(c, s, Transfer(r));
    TransferEnabled(c, s, r);
    Transferred(c, s, r);
    TransferMatchesRounds(c, start, s, r);
    InvAt(c, start, s, r);
    InvAt(c, start, s, t);
    hide OnSchedule, Sends, Receives, SendRank, ReceiveRank, AtSend, AtReceive, In, Message, Apply, Enabled;
    SendOnSchedule(c, start, r, s[r]);
    ReceiveOnSchedule(c, start, t, s[t]);
    LinksKept(c, s, s', r);
    forall x | 0 <= x < c.ranks ensures OnSchedule(c, start, x, s'[x]) {
      if x != r && x != t { InvAt(c, start, s, x); }
    }
  }

  /** One more send of r and one more receive of its successor keep every neighbour pair balanced. */
  lemma LinksKept(c: Config, s: Ring, s': Ring, r: nat)
    requires c.Valid() && |s| == |s'| == c.ranks && r < c.ranks && c.Next(r) != r
    requires forall x :: 0 <= x < c.ranks ==> Sends(x, s[x]) == Receives(c.Next(x), s[c.Next(x)])
    requires forall x :: 0 <= x < c.ranks && x != r && x != c.Next(r) ==> s'[x] == s[x]
    requires Sends(r, s'[r]) == Sends(r, s[r]) + 1 && Receives(r, s'[r]) == Receives(r, s[r])
    requires var t := c.Next(r); Receives(t, s'[t]) == Receives(t, s[t]) + 1 && Sends(t, s'[t]) == Sends(t, s[t])
    ensures forall x :: 0 <= x < c.ranks ==> Sends(x, s'[x]) == Receives(c.Next(x), s'[c.Next(x)])
  {
    forall x | 0 <= x < c.ranks
      ensures Sends(x, s'[x]) == Receives(c.Next(x), s'[c.Next(x)])
    {
      NextPrev(c, x);
      NextPrev(c, r);
      var y := c.Next(x);
      assert y == c.Next(r) <==> x == r;
      assert Sends(x, s'[x]) == Sends(x, s[x]) + if x == r then 1 else 0;
      assert Receives(y, s'[y]) == Receives(y, s[y]) + if x == r then 1 else 0;
    }
  }

  lemma {:induction false} ExecutionInv(c: Config, start: seq<seq<Walker>>, states: seq<Ring>, actions: seq<Action>,
                                        i: nat)
    requires Execution(c, start, states, actions) && i < |states|
    ensures Inv(c, start, states[i])
  {
    if i == 0 {
      InitInv(c, start);
    } else {
      ExecutionInv(c, start, states, actions, i - 1);
      match actions[i-1]
      case Compute(r) => ComputeKeepsInv(c, start, states[i-1], r);
      case Transfer(r) => TransferKeepsInv(c, start, states[i-1], r);
    }
  }
}
