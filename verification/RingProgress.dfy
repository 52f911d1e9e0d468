/** Progress of the ring exchange over whole runs: no interleaving blocks, and all end alike. */
module RingProgress {
  import opened RandomWalk
  import opened RingExchange

  // ---------------------------------------------------------------------------------------------
  // Deadlock freedom.

  function Position(k: Rank): nat {
    3 * k.round + (match k.phase case Walking => 0 case First => 1 case Second => 2)
  }

  lemma {:induction false} RearmostRank(s: Ring) returns (r: nat)
    requires s != []
    ensures r < |s| && forall x :: 0 <= x < |s| ==> Position(s[r]) <= Position(s[x])
  {
    if |s| == 1 {
      r := 0;
    } else {
      var n := |s| - 1;
      r := RearmostRank(s[..n]);
      assert forall x :: 0 <= x < n ==> s[..n][x] == s[x];
      if Position(s[n]) < Position(s[r]) { r := n; }
    }
  }

  /** The part of the invariant that says who may move. */
  ghost predicate Control(c: Config, rounds: nat, s: Ring) {
    && c.Valid() && |s| == c.ranks
    && (forall r :: 0 <= r < c.ranks ==> s[r].round <= rounds && (s[r].round == rounds ==> s[r].phase == Walking))
    && (forall r :: 0 <= r < c.ranks ==> Sends(r, s[r]) == Receives(c.Next(r), s[c.Next(r)]))
  }

  lemma InvControls(c: Config, start: seq<seq<Walker>>, s: Ring)
    requires Inv(c, start, s)
    ensures Control(c, c.Rounds(), s)
  {
    forall r | 0 <= r < c.ranks
      ensures s[r].round <= c.Rounds() && (s[r].round == c.Rounds() ==> s[r].phase == Walking)
    {
      assert OnSchedule(c, start, r, s[r]);
    }
  }

  predicate Unblocked(c: Config, rounds: nat, s: Ring, r: nat)
    requires c.Valid() && |s| == c.ranks && r < c.ranks
  {
    || (s[r].phase == Walking && s[r].round < rounds)
    || (AtSend(r, s[r]) && AtReceive(c.Next(r), s[c.Next(r)]))
  }

  /** A rearmost rank that must receive finds its predecessor walking or at the matching send. */
  lemma ReceiverMoves(c: Config, rounds: nat, s: Ring, r: nat, p: nat)
    requires Control(c, rounds, s) && c.ranks >= 2 && r < c.ranks && s[r].round < rounds
    requires p == c.Prev(r) && Position(s[r]) <= Position(s[p])
    requires AtReceive(r, s[r])
    ensures Unblocked(c, rounds, s, p)
  {
    NextPrev(c, r);
    assert Sends(p, s[p]) == Receives(c.Next(p), s[c.Next(p)]);
  }

  /** A rearmost rank that must send finds its successor walking or at the matching receive, except
      that two even neighbours may both be sending; then the one after them can receive. */
  lemma SenderMoves(c: Config, rounds: nat, s: Ring, r: nat, t: nat, u: nat)
    requires Control(c, rounds, s) && c.ranks >= 2 && r < c.ranks && s[r].round < rounds
    requires t == c.Next(r) && u == c.Next(t)
    requires Position(s[r]) <= Position(s[t]) && Position(s[r]) <= Position(s[u])
    requires AtSend(r, s[r])
    ensures Unblocked(c, rounds, s, r) || Unblocked(c, rounds, s, t) || Unblocked(c, rounds, s, u)
  {
    NextPrev(c, r);
    NextPrev(c, t);
    assert Sends(r, s[r]) == Receives(t, s[t]) && Sends(t, s[t]) == Receives(u, s[u]);
    if s[t].phase != Walking && !AtReceive(t, s[t]) {
      assert r % 2 == 0 && t == 0 && u == 1;
    }
  }

  lemma NotStuck(c: Config, s: Ring)
    requires c.Valid() && Control(c, c.Rounds(), s) && c.ranks >= 2 && !AllDone(c, s)
    ensures CanMove(c, s)
  {
    var r := RearmostRank(s);
    var y :| 0 <= y < |s| && s[y].round != c.Rounds();
    var rounds := c.Rounds();
    assert s[r].round < rounds by {
      assert Position(s[r]) <= Position(s[y]);
    }
    NextPrev(c, r);
    NextPrev(c, c.Next(r));
    var x := r;
    if AtSend(r, s[r]) {
      SenderMoves(c, rounds, s, r, c.Next(r), c.Next(c.Next(r)));
      x := if Unblocked(c, rounds, s, r) then r
           else if Unblocked(c, rounds, s, c.Next(r)) then c.Next(r) else c.Next(c.Next(r));
    } else if AtReceive(r, s[r]) {
      x := c.Prev(r);
      ReceiverMoves(c, rounds, s, r, x);
    }
    assert Unblocked(c, rounds, s, x);
    assert Enabled(c, s, Compute(x)) || Enabled(c, s, Transfer(x));
  }

  ghost predicate NeverStuck(c: Config, start: seq<seq<Walker>>)
    requires c.Valid()
  {
    forall states, actions, i :: Execution(c, start, states, actions) && 0 <= i < |states| ==>
      AllDone(c, states[i]) || CanMove(c, states[i])
  }

  /** A lone rank sends to itself and waits for ever. */
  lemma LoneRankIsStuck(c: Config, start: seq<seq<Walker>>)
    requires ValidStart(c, start) && c.ranks == 1
    ensures !NeverStuck(c, start)
  {
    var s0 := InitRing(start);
    var s1 := Apply(c, s0, Compute(0));
    assert Execution(c, start, [s0, s1], [Compute(0)]);
    assert [s0, s1][1] == s1 && s1[0].round != c.Rounds();
    forall a ensures !Enabled(c, s1, a) {
    }
  }

  /** No interleaving of the exchange blocks before every rank has done all its rounds, exactly when
      there are at least two ranks; in particular not on odd rings, where two even ranks meet. */
  lemma DeadlockFreedom(c: Config, start: seq<seq<Walker>>)
    requires ValidStart(c, start)
    ensures NeverStuck(c, start) <==> c.ranks >= 2
  {
    if c.ranks >= 2 {
      forall states, actions, i | Execution(c, start, states, actions) && 0 <= i < |states|
        ensures AllDone(c, states[i]) || CanMove(c, states[i])
      {
        ExecutionInv(c, start, states, actions, i);
        InvControls(c, start, states[i]);
        if !AllDone(c, states[i]) { NotStuck(c, states[i]); }
      }
    } else {
      LoneRankIsStuck(c, start);
    }
  }

  /** Whenever a message is received, both ends are in the same round and it is the predecessor's
      message of that round. */
  lemma MessagesMatchRounds(c: Config, start: seq<seq<Walker>>, states: seq<Ring>, actions: seq<Action>, i: nat, r: nat)
    requires Execution(c, start, states, actions) && i < |actions| && actions[i] == Transfer(r)
    ensures r < c.ranks && c.Next(r) < c.ranks
    ensures states[i][r].round == states[i][c.Next(r)].round
    ensures states[i+1][c.Next(r)].incoming == Message(c, start, r, states[i][r].round)
  {
    ExecutionInv(c, start, states, actions, i);
    assert Enabled(c, states[i], actions[i]);
    NextPrev(c, r);
    TransferMatchesRounds(c, start, states[i], r);
  }

  // ---------------------------------------------------------------------------------------------
  // Every run ends, and always after the same number of actions.

  function Weight(k: Rank): nat {
    4 * k.round + (match k.phase case Walking => 0 case First => 2 case Second => 3)
  }

  function TotalWeight(s: Ring): nat {
    if s == [] then 0 else TotalWeight(s[..|s|-1]) + Weight(s[|s|-1])
  }

  lemma {:induction false} WeightUpdate(s: Ring, r: nat, k: Rank)
    requires r < |s|
    ensures TotalWeight(s[r := k]) == TotalWeight(s) - Weight(s[r]) + Weight(k)
  {
    var n := |s| - 1;
    if r == n {
      assert s[r := k][..n] == s[..n];
    } else {
      assert s[r := k][..n] == s[..n][r := k];
      WeightUpdate(s[..n], r, k);
    }
  }

  lemma OneMoreRound(rounds: nat, n: nat)
    ensures 4 * (rounds * (n + 1)) == 4 * (rounds * n) + 4 * rounds
  {
  }

  lemma {:induction false} WeightBound(s: Ring, rounds: nat)
    requires forall r :: 0 <= r < |s| ==> s[r].round <= rounds && (s[r].round == rounds ==> s[r].phase == Walking)
    ensures TotalWeight(s) <= 4 * (rounds * |s|)
    ensures TotalWeight(s) == 4 * (rounds * |s|) <==> forall r :: 0 <= r < |s| ==> s[r].round == rounds
  {
    if s != [] {
      var n := |s| - 1;
      assert forall r :: 0 <= r < n ==> s[..n][r] == s[r];
      assert TotalWeight(s) == TotalWeight(s[..n]) + Weight(s[n]);
      assert Weight(s[n]) <= 4 * rounds && (Weight(s[n]) == 4 * rounds <==> s[n].round == rounds);
      hide *;
      WeightBound(s[..n], rounds);
      OneMoreRound(rounds, n);
    }
  }

  lemma {:induction false} InitWeight(s: Ring)
    requires forall r :: 0 <= r < |s| ==> s[r].round == 0 && s[r].phase == Walking
    ensures TotalWeight(s) == 0
  {
    if s != [] { InitWeight(s[..|s|-1]); }
  }

  lemma {:induction false} WeightCountsActions(c: Config, start: seq<seq<Walker>>, states: seq<Ring>,
                                               actions: seq<Action>, i: nat)
    requires Execution(c, start, states, actions) && i < |states|
    ensures TotalWeight(states[i]) == 2 * i
  {
    if i == 0 {
      InitWeight(states[0]);
    } else {
      WeightCountsActions(c, start, states, actions, i - 1);
      ActionWeighsTwo(c, states[i-1], actions[i-1]);
    }
  }

  lemma ActionWeighsTwo(c: Config, s: Ring, a: Action)
    requires c.Valid() && |s| == c.ranks && Enabled(c, s, a)
    ensures TotalWeight(Apply(c, s, a)) == TotalWeight(s) + 2
  {
    match a
    case Compute(r) => WeightUpdate(s, r, ComputeRank(c, r, s[r]));
    case Transfer(r) =>
      var t := c.Next(r);
      assert r != t;
      WeightUpdate(s, r, SendRank(s[r]));
      WeightUpdate(s[r := SendRank(s[r])], t, ReceiveRank(s[t], s[r].outgoing));
  }

  lemma Halve(total: nat, n: nat)
    ensures 2 * n <= 4 * total <==> n <= 2 * total
    ensures 2 * n == 4 * total <==> n == 2 * total
  {
  }

  /** Every interleaving is finite: after exactly 2 * rounds * ranks actions all ranks are done, and
      never earlier. */
  lemma RunLength(c: Config, start: seq<seq<Walker>>, states: seq<Ring>, actions: seq<Action>)
    requires Execution(c, start, states, actions)
    ensures |actions| <= 2 * (c.Rounds() * c.ranks)
    ensures AllDone(c, states[|actions|]) <==> |actions| == 2 * (c.Rounds() * c.ranks)
  {
    var s := states[|actions|];
    ExecutionInv(c, start, states, actions, |actions|);
    InvControls(c, start, s);
    WeightCountsActions(c, start, states, actions, |actions|);
    WeightBound(s, c.Rounds());
    Halve(c.Rounds() * c.ranks, |actions|);
  }
}
