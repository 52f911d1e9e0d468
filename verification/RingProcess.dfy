/** One process of examples/random_walk.cpp: its buffers, the blocking calls, and the round loop of main. */
module RingProcess {
  import opened RandomWalk
  import opened RingExchange
  import opened RingConservation

  /** The ghost fields place the process in its round, as RingExchange does for a rank. */
  class Process {
    const c: Config
    const rank: nat
    var incoming: seq<Walker>
    var outgoing: seq<Walker>
    ghost var round: nat
    ghost var phase: Phase
    ghost var finished: seq<Walker>

    ghost predicate Valid() { c.Valid() && rank < c.ranks }

    /** The process as one rank of the ring. */
    ghost function AsRank(): Rank
      reads this
    {
      Rank(round, phase, incoming, outgoing, finished)
    }

    constructor (c: Config, rank: nat, walkers: seq<Walker>)
      requires c.Valid() && rank < c.ranks
      ensures Valid() && this.c == c && this.rank == rank && AsRank() == Rank(0, Walking, walkers, [], [])
    {
      this.c, this.rank := c, rank;
      incoming, outgoing := walkers, [];
      round, phase, finished := 0, Walking, [];
    }

    /** walk(&incoming_walkers[i], ...): one step at a time, in place. */
    method Walk(i: nat)
      requires Valid() && i < |incoming|
      modifies this`incoming, this`outgoing
      ensures incoming == old(incoming)[i := Walked(c, rank, old(incoming)[i])]
      ensures outgoing == old(outgoing) + Emitted(c, rank, [old(incoming)[i]])
    {
      ghost var w0 := incoming[i];
      ghost var buffer := incoming;
      assert [w0][..0] == [];
      assert Emitted(c, rank, [w0]) ==
        if Leaves(c, rank, w0) && w0.stepsLeft > 0 then [Walked(c, rank, w0)] else [];
      var end := c.Start(rank) + c.Size(rank);
      while incoming[i].stepsLeft > 0
        invariant |incoming| == |buffer| && incoming == buffer[i := incoming[i]]
        invariant outgoing == old(outgoing)
        invariant incoming[i].location + incoming[i].stepsLeft == w0.location + w0.stepsLeft
        invariant incoming[i].stepsLeft == w0.stepsLeft || 0 <= incoming[i].stepsLeft < w0.stepsLeft
        invariant w0.location <= end ==> incoming[i].location <= end
        decreases incoming[i].stepsLeft
      {
        if incoming[i].location == end {
          if incoming[i].location == c.domain {
            incoming := incoming[i := incoming[i].(location := 0)];
          }
          outgoing := outgoing + [incoming[i]];
          break;
        } else {
          incoming := incoming[i := incoming[i].(stepsLeft := incoming[i].stepsLeft - 1)];
          incoming := incoming[i := incoming[i].(location := incoming[i].location + 1)];
        }
      }
    }

    /** The loop that processes all incoming walkers: the Compute action of the ring. */
    method WalkAll()
      requires Valid() && phase == Walking
      modifies this
      ensures AsRank() == ComputeRank(c, rank, old(AsRank()))
    {
      ghost var ws := incoming;
      var i := 0;
      while i < |incoming|
        modifies this`incoming, this`outgoing
        invariant 0 <= i <= |incoming| == |ws|
        invariant forall k :: 0 <= k < |ws| ==> incoming[k] == if k < i then Walked(c, rank, ws[k]) else ws[k]
        invariant outgoing == old(outgoing) + Emitted(c, rank, ws[..i])
      {
        EmittedMore(c, rank, ws, i);
        hide Walked, WalkedAll, Emitted;
        Walk(i);
        i := i + 1;
      }
      assert ws[..i] == ws;
      hide Walked, Emitted, Settled;
      assert incoming == WalkedAll(c, rank, ws);
      finished, phase := finished + Settled(c, rank, ws), First;
    }

    /** MPI_Send followed by clear: the sender's half of a Transfer. The message leaves, the buffer is empty,
        and the process is at its next call or round. */
    method SendOutgoing() returns (message: seq<Walker>)
      requires AtSend(rank, AsRank())
      modifies this`outgoing, this`phase, this`round
      ensures message == old(outgoing) && AsRank() == SendRank(old(AsRank()))
    {
      message := outgoing;
      outgoing := [];
      if phase == First { phase := Second; } else { phase, round := Walking, round + 1; }
    }

    /** MPI_Probe, resize and MPI_Recv: the receiver's half of a Transfer. */
    method ReceiveIncoming(message: seq<Walker>)
      requires AtReceive(rank, AsRank())
      modifies this`incoming, this`phase, this`round
      ensures AsRank() == ReceiveRank(old(AsRank()), message)
    {
      incoming := message;
      if phase == First { phase := Second; } else { phase, round := Walking, round + 1; }
    }

    /** One round of main, given the message that arrives in it. */
    method Round(message: seq<Walker>, ghost start: seq<seq<Walker>>) returns (sent: seq<Walker>)
      requires Valid() && |start| == c.ranks && OnSchedule(c, start, rank, AsRank())
      requires phase == Walking && round < c.Rounds() && message == In(c, start, rank, round + 1)
      modifies this
      ensures OnSchedule(c, start, rank, AsRank()) && phase == Walking && round == old(round) + 1
      ensures sent == Message(c, start, rank, old(round))
    {
      ComputeOnSchedule(c, start, rank, AsRank());
      WalkAll();
      hide OnSchedule, ComputeRank;
      if rank % 2 == 0 {
        SendOnSchedule(c, start, rank, AsRank());
        sent := SendOutgoing();
        ReceiveOnSchedule(c, start, rank, AsRank());
        ReceiveIncoming(message);
      } else {
        ReceiveOnSchedule(c, start, rank, AsRank());
        ReceiveIncoming(message);
        SendOnSchedule(c, start, rank, AsRank());
        sent := SendOutgoing();
      }
    }

    /** The round loop of main. Whatever the interleaving of the ring was, a process whose predecessor's
        messages are those of the round-by-round program sends the messages of that program itself, and
        ends with its walkers settled and its buffers as that program leaves them. */
    method Run(messages: seq<seq<Walker>>, ghost start: seq<seq<Walker>>) returns (sent: seq<seq<Walker>>)
      requires Valid() && ValidStart(c, start) && AsRank() == Rank(0, Walking, start[rank], [], [])
      requires |messages| == c.Rounds()
      requires forall m :: 0 <= m < c.Rounds() ==> messages[m] == Message(c, start, c.Prev(rank), m)
      modifies this
      ensures |sent| == c.Rounds() && forall m :: 0 <= m < c.Rounds() ==> sent[m] == Message(c, start, rank, m)
      ensures OnSchedule(c, start, rank, AsRank()) && round == c.Rounds()
      ensures incoming == [] && outgoing == [] && finished == FinishedIn(c, start, rank, c.Rounds())
    {
      sent := [];
      NextPrev(c, rank);
      assert OnSchedule(c, start, rank, AsRank());
      for m := 0 to c.Rounds()
        invariant OnSchedule(c, start, rank, AsRank()) && phase == Walking && round == m
        invariant |sent| == m && forall k :: 0 <= k < m ==> sent[k] == Message(c, start, rank, k)
      {
        assert messages[m] == In(c, start, rank, m + 1);
        hide OnSchedule, Message;
        var message := Round(messages[m], start);
        sent := sent + [message];
      }
      RoundsSuffice(c, start, rank);
    }
  }
}
