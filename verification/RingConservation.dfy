/** What the ring exchange does to the walkers over whole runs. */
module RingConservation {
  import opened RandomWalk
  import opened RingExchange

  // ---------------------------------------------------------------------------------------------
  // Enough rounds.

  lemma {:induction false} EmittedComeFrom(c: Config, r: nat, ws: seq<Walker>, x: Walker)
    requires c.Valid() && x in Emitted(c, r, ws)
    ensures exists w :: w in ws && Leaves(c, r, w) && w.stepsLeft > 0 && x == Walked(c, r, w)
  {
    var n := |ws| - 1;
    if x in Emitted(c, r, ws[..n]) {
      EmittedComeFrom(c, r, ws[..n], x);
    } else {
      assert ws[n] in ws;
    }
  }

  /** A walker that arrives at a rank in round m stands exactly on the first position of its slice and
      has used up at least m shares of its steps. */
  lemma {:induction false} Arrivals(c: Config, start: seq<seq<Walker>>, r: nat, m: nat, w: Walker)
    requires ValidStart(c, start) && r < c.ranks && w in In(c, start, r, m)
    ensures w.location == c.Start(r)
    ensures 0 <= w.stepsLeft <= c.maxWalk - m * c.Share()
    ensures m > 0 ==> w.stepsLeft > 0
    decreases m
  {
    if m > 0 {
      var p := c.Prev(r);
      NextPrev(c, r);
      SubdomainsTile(c, p);
      EmittedComeFrom(c, p, In(c, start, p, m - 1), w);
      var v :| v in In(c, start, p, m - 1) && Leaves(c, p, v) && v.stepsLeft > 0 && w == Walked(c, p, v);
      Arrivals(c, start, p, m - 1, v);
      assert m * c.Share() == (m - 1) * c.Share() + c.Share();
    }
  }

  /** No walker survives the computed number of rounds. */
  lemma RoundsSuffice(c: Config, start: seq<seq<Walker>>, r: nat)
    requires ValidStart(c, start) && r < c.ranks
    ensures In(c, start, r, c.Rounds()) == []
    ensures Message(c, start, r, c.Rounds() - 1) == []
  {
    var q := c.Share();
    assert c.Rounds() * q == c.maxWalk / q * q + q > c.maxWalk;
    if In(c, start, r, c.Rounds()) != [] {
      Arrivals(c, start, r, c.Rounds(), In(c, start, r, c.Rounds())[0]);
    }
    var t := c.Next(r);
    NextPrev(c, r);
    assert In(c, start, t, c.Rounds()) == Message(c, start, r, c.Rounds() - 1);
    if In(c, start, t, c.Rounds()) != [] {
      Arrivals(c, start, t, c.Rounds(), In(c, start, t, c.Rounds())[0]);
    }
  }

  /** One walker at the start of the domain with the longest walk. */
  function LongWalk(c: Config): seq<seq<Walker>>
    requires c.Valid()
  {
    seq(c.ranks, r requires 0 <= r < c.ranks => if r == 0 then [Walker(c.Start(0), c.maxWalk)] else [])
  }

  /** It takes one share of its steps in each round. */
  lemma {:induction false} LongWalkArrives(c: Config, m: nat)
    requires c.Valid() && m < c.ranks && m * c.Share() < c.maxWalk
    ensures ValidStart(c, LongWalk(c))
    ensures In(c, LongWalk(c), m, m) == [Walker(c.Start(m), c.maxWalk - m * c.Share())]
  {
    assert c.Start(0) == 0;
    if m > 0 {
      var p, q := m - 1, c.Share();
      assert m * q == p * q + q;
      LongWalkArrives(c, p);
      NextPrev(c, p);
      SubdomainsTile(c, p);
      assert In(c, LongWalk(c), m, m) == Emitted(c, p, In(c, LongWalk(c), p, p));
      PassedOn(c, p, Walker(c.Start(p), c.maxWalk - p * q));
    }
  }

  lemma PassedOn(c: Config, p: nat, w: Walker)
    requires c.Valid() && p < c.ranks - 1 && w.location == c.Start(p) && w.stepsLeft > c.Share()
    ensures Emitted(c, p, [w]) == [Walker(c.Wrap(c.End(p)), w.stepsLeft - c.Share())]
  {
    assert [w][..0] == [];
    assert c.End(p) - c.Start(p) == c.Share();
  }

  /** The computed number of rounds is needed: unless the longest walk is a whole number of shares, some walker
      is still received after one round less, if the ring is long enough for it to stay in full slices. */
  lemma RoundsNeeded(c: Config)
    requires c.Valid() && c.Rounds() <= c.ranks && c.maxWalk % c.Share() != 0
    ensures ValidStart(c, LongWalk(c)) && In(c, LongWalk(c), c.Rounds() - 1, c.Rounds() - 1) != []
  {
    var m, q := c.Rounds() - 1, c.Share();
    assert c.maxWalk == c.maxWalk / q * q + c.maxWalk % q;
    LongWalkArrives(c, m);
  }

  // ---------------------------------------------------------------------------------------------
  // Conservation: the walk over the ring is one walk on a circle.

  /** How many of these walkers have property p. */
  function Count(p: Walker -> bool, ws: seq<Walker>): nat {
    if ws == [] then 0 else Count(p, ws[..|ws|-1]) + if p(ws[|ws|-1]) then 1 else 0
  }

  lemma {:induction false} CountConcat(p: Walker -> bool, a: seq<Walker>, b: seq<Walker>)
    ensures Count(p, a + b) == Count(p, a) + Count(p, b)
    decreases |b|
  {
    if b == [] {
      assert a + b == a;
    } else {
      assert (a + b)[..|a + b| - 1] == a + b[..|b|-1];
      CountConcat(p, a, b[..|b|-1]);
    }
  }

  /** A property that no walk changes, on any rank. */
  ghost predicate WalkInvariant(c: Config, p: Walker -> bool)
    requires c.Valid()
  {
    forall r: nat, w :: p(Walked(c, r, w)) == p(w)
  }

  /** The last walker of a buffer either settles or is passed on. */
  lemma LastWalker(c: Config, r: nat, ws: seq<Walker>)
    requires c.Valid() && ws != []
    ensures var n, w := |ws| - 1, Walked(c, r, ws[|ws|-1]);
      var a, b := Settled(c, r, ws[..n]), Emitted(c, r, ws[..n]);
      || (Settled(c, r, ws) == a + [w] && Emitted(c, r, ws) == b)
      || (Settled(c, r, ws) == a && Emitted(c, r, ws) == b + [w])
  {
    hide Walked, Leaves;
  }

  lemma CountMore(p: Walker -> bool, ws: seq<Walker>, w: Walker)
    ensures Count(p, ws + [w]) == Count(p, ws) + if p(w) then 1 else 0
  {
    assert (ws + [w])[..|ws|] == ws;
  }

  lemma CountLast(p: Walker -> bool, ws: seq<Walker>)
    requires ws != []
    ensures Count(p, ws) == Count(p, ws[..|ws|-1]) + if p(ws[|ws|-1]) then 1 else 0
  {
  }

  lemma {:induction false} WalkersSplit(c: Config, p: Walker -> bool, r: nat, ws: seq<Walker>)
    requires c.Valid() && WalkInvariant(c, p)
    ensures Count(p, ws) == Count(p, Settled(c, r, ws)) + Count(p, Emitted(c, r, ws))
  {
    if ws != [] {
      var n := |ws| - 1;
      var w := Walked(c, r, ws[n]);
      assert p(w) == p(ws[n]);
      hide *;
      WalkersSplit(c, p, r, ws[..n]);
      LastWalker(c, r, ws);
      CountLast(p, ws);
      CountMore(p, Settled(c, r, ws[..n]), w);
      CountMore(p, Emitted(c, r, ws[..n]), w);
    }
  }

  /** Does the incoming buffer hold walkers that still have to be processed, or stale copies? */
  predicate BufferIsLive(r: nat, k: Rank) { k.phase == Walking || (k.phase == Second && r % 2 == 1) }

  /** The walkers a rank is responsible for: finished here, waiting to be sent, or just received. */
  function Held(r: nat, k: Rank): seq<Walker> {
    k.finished + k.outgoing + if BufferIsLive(r, k) then k.incoming else []
  }

  function AllHeld(p: Walker -> bool, s: Ring): nat {
    if s == [] then 0 else AllHeld(p, s[..|s|-1]) + Count(p, Held(|s| - 1, s[|s|-1]))
  }

  lemma {:induction false} HeldUpdate(p: Walker -> bool, s: Ring, r: nat, k: Rank)
    requires r < |s|
    ensures AllHeld(p, s[r := k]) + Count(p, Held(r, s[r])) == AllHeld(p, s) + Count(p, Held(r, k))
  {
    var n := |s| - 1;
    if r == n {
      assert s[r := k][..n] == s[..n];
    } else {
      assert s[r := k][..n] == s[..n][r := k];
      HeldUpdate(p, s[..n], r, k);
    }
  }

  lemma ComputeConserves(c: Config, p: Walker -> bool, r: nat, k: Rank)
    requires c.Valid() && WalkInvariant(c, p) && k.phase == Walking
    ensures Count(p, Held(r, ComputeRank(c, r, k))) == Count(p, Held(r, k))
  {
    var e, t := Emitted(c, r, k.incoming), Settled(c, r, k.incoming);
    WalkersSplit(c, p, r, k.incoming);
    CountConcat(p, k.finished + k.outgoing, k.incoming);
    CountConcat(p, k.finished, k.outgoing);
    CountConcat(p, k.finished + t, k.outgoing + e);
    CountConcat(p, k.finished, t);
    CountConcat(p, k.outgoing, e);
    assert Held(r, ComputeRank(c, r, k)) == (k.finished + t) + (k.outgoing + e);
  }

  lemma SendConserves(p: Walker -> bool, r: nat, k: Rank)
    requires AtSend(r, k)
    ensures Count(p, Held(r, k)) == Count(p, Held(r, SendRank(k))) + Count(p, k.outgoing)
  {
    var live := if BufferIsLive(r, k) then k.incoming else [];
    CountConcat(p, k.finished + k.outgoing, live);
    CountConcat(p, k.finished, k.outgoing);
    CountConcat(p, k.finished, live);
    assert Held(r, SendRank(k)) == k.finished + live;
  }

  lemma ReceiveConserves(p: Walker -> bool, r: nat, k: Rank, message: seq<Walker>)
    requires AtReceive(r, k)
    ensures Count(p, Held(r, ReceiveRank(k, message))) == Count(p, Held(r, k)) + Count(p, message)
  {
    assert Held(r, k) == k.finished + k.outgoing;
    CountConcat(p, k.finished + k.outgoing, message);
  }

  lemma ActionConserves(c: Config, p: Walker -> bool, s: Ring, a: Action)
    requires c.Valid() && WalkInvariant(c, p) && |s| == c.ranks && Enabled(c, s, a)
    ensures AllHeld(p, Apply(c, s, a)) == AllHeld(p, s)
  {
    match a
    case Compute(r) =>
      HeldUpdate(p, s, r, ComputeRank(c, r, s[r]));
      ComputeConserves(c, p, r, s[r]);
    case Transfer(r) =>
      var t := c.Next(r);
      assert r != t;
      HeldUpdate(p, s, r, SendRank(s[r]));
      HeldUpdate(p, s[r := SendRank(s[r])], t, ReceiveRank(s[t], s[r].outgoing));
      SendConserves(p, r, s[r]);
      ReceiveConserves(p, t, s[t], s[r].outgoing);
  }

  function Created(p: Walker -> bool, start: seq<seq<Walker>>): nat {
    if start == [] then 0 else Created(p, start[..|start|-1]) + Count(p, start[|start|-1])
  }

  lemma {:induction false} InitHeld(p: Walker -> bool, start: seq<seq<Walker>>)
    ensures AllHeld(p, InitRing(start)) == Created(p, start)
  {
    if start != [] {
      var n := |start| - 1;
      assert InitRing(start)[..n] == InitRing(start[..n]);
      InitHeld(p, start[..n]);
      assert Held(n, InitRing(start)[n]) == start[n];
    }
  }

  /** In every state of every interleaving, the walkers finished, waiting and in flight are the
      walkers created: as many of them have any property that walking keeps. */
  lemma {:induction false} WalkersConserved(c: Config, p: Walker -> bool, start: seq<seq<Walker>>,
                                            states: seq<Ring>, actions: seq<Action>, i: nat)
    requires Execution(c, start, states, actions) && i < |states| && WalkInvariant(c, p)
    ensures AllHeld(p, states[i]) == Created(p, start)
  {
    if i == 0 {
      InitHeld(p, start);
    } else {
      WalkersConserved(c, p, start, states, actions, i - 1);
      ActionConserves(c, p, states[i-1], actions[i-1]);
    }
  }

  lemma AddModulus(x: int, d: nat)
    requires d > 0
    ensures (x - d) % d == x % d
  {
    var j, k := x / d, (x - d) / d;
    assert d * (j - 1 - k) == (x - d) % d - x % d;
    if j - 1 - k >= 1 { MulMono(d, 1, j - 1 - k); }
    if j - 1 - k <= -1 { MulMono(d, 1, -(j - 1 - k)); }
  }

  /** Bound for point v of the circle. */
  function BoundFor(c: Config, v: int): Walker -> bool
    requires c.Valid()
  {
    w => c.Destination(w) == v
  }

  /** A walker that is wrapped is bound for the same point as before. */
  lemma DestinationIsInvariant(c: Config, v: int)
    requires c.Valid()
    ensures WalkInvariant(c, BoundFor(c, v))
  {
    forall r: nat, w ensures c.Destination(Walked(c, r, w)) == c.Destination(w) {
      var x := Walked(c, r, w);
      if x.location + x.stepsLeft != w.location + w.stepsLeft {
        assert x.location + x.stepsLeft == w.location + w.stepsLeft - c.domain;
        AddModulus(w.location + w.stepsLeft, c.domain);
      }
    }
  }

  /** A walker at the start of a slice that is not passed on stops within the slice. */
  lemma StopsInSlice(c: Config, r: nat, w: Walker)
    requires c.Valid() && w.location == c.Start(r) && w.stepsLeft >= 0 && !(Leaves(c, r, w) && w.stepsLeft > 0)
    ensures var x := Walked(c, r, w); x.stepsLeft == 0 && c.Start(r) <= x.location <= c.End(r)
  {
    hide c.Share;
  }

  lemma {:induction false} SettledStop(c: Config, r: nat, ws: seq<Walker>)
    requires c.Valid() && forall w :: w in ws ==> w.location == c.Start(r) && w.stepsLeft >= 0
    ensures forall w :: w in Settled(c, r, ws) ==> w.stepsLeft == 0 && c.Start(r) <= w.location <= c.End(r)
  {
    if ws != [] {
      var last := ws[|ws|-1];
      SettledStop(c, r, ws[..|ws|-1]);
      if !(Leaves(c, r, last) && last.stepsLeft > 0) { StopsInSlice(c, r, last); }
      hide Walked, Leaves, c.Start, c.End;
    }
  }

  /** Every walker that has stopped on a rank lies in its slice or on the end of it. */
  lemma {:induction false} FinishedStop(c: Config, start: seq<seq<Walker>>, r: nat, m: nat)
    requires ValidStart(c, start) && r < c.ranks
    ensures forall w :: w in FinishedIn(c, start, r, m) ==> w.stepsLeft == 0 && c.Start(r) <= w.location <= c.End(r)
  {
    if m > 0 {
      FinishedStop(c, start, r, m - 1);
      forall w | w in In(c, start, r, m - 1) ensures w.location == c.Start(r) && w.stepsLeft >= 0 {
        Arrivals(c, start, r, m - 1, w);
      }
      SettledStop(c, r, In(c, start, r, m - 1));
    }
  }

  /** The outcome of the whole program, whatever the interleaving: nothing is left in any buffer, every
      walker has stopped on the rank whose slice it stopped in, and the stopping points are those of
      independent walks on one circle. */
  lemma WalkOnACircle(c: Config, start: seq<seq<Walker>>, states: seq<Ring>, actions: seq<Action>)
    requires Execution(c, start, states, actions) && AllDone(c, states[|actions|])
    ensures var s := states[|actions|];
      && (forall r :: 0 <= r < c.ranks ==> s[r].incoming == [] && s[r].outgoing == [])
      && (forall r, w :: 0 <= r < c.ranks && w in s[r].finished ==>
            w.stepsLeft == 0 && c.Start(r) <= w.location <= c.End(r))
      && (forall v :: AllHeld(BoundFor(c, v), s) == Created(BoundFor(c, v), start))
  {
    var s := states[|actions|];
    ExecutionInv(c, start, states, actions, |actions|);
    forall v ensures AllHeld(BoundFor(c, v), s) == Created(BoundFor(c, v), start) {
      DestinationIsInvariant(c, v);
      WalkersConserved(c, BoundFor(c, v), start, states, actions, |actions|);
    }
    forall r | 0 <= r < c.ranks
      ensures s[r].incoming == [] && s[r].outgoing == []
      ensures forall w :: w in s[r].finished ==> w.stepsLeft == 0 && c.Start(r) <= w.location <= c.End(r)
    {
      assert OnSchedule(c, start, r, s[r]);
      RoundsSuffice(c, start, r);
      FinishedStop(c, start, r, c.Rounds());
    }
  }

  /** Two complete interleavings leave every rank in the same state. */
  lemma InterleavingsAgree(c: Config, start: seq<seq<Walker>>, states: seq<Ring>, actions: seq<Action>,
                           states': seq<Ring>, actions': seq<Action>)
    requires Execution(c, start, states, actions) && AllDone(c, states[|actions|])
    requires Execution(c, start, states', actions') && AllDone(c, states'[|actions'|])
    ensures states[|actions|] == states'[|actions'|]
  {
    ExecutionInv(c, start, states, actions, |actions|);
    ExecutionInv(c, start, states', actions', |actions'|);
    forall r | 0 <= r < c.ranks
      ensures states[|actions|][r] == states'[|actions'|][r]
    {
      assert OnSchedule(c, start, r, states[|actions|][r]) && OnSchedule(c, start, r, states'[|actions'|][r]);
    }
  }
}
