/** The ring-exchange random walk of examples/random_walk.cpp: the decomposition of a circular
    domain over ranks, and the work one rank does on its own walkers. */
module RandomWalk {

  datatype Walker = Walker(location: int, stepsLeft: int)

  /** `domain`, `ranks` and `maxWalk` are domain_size, world_size and max_walk_size. */
  datatype Config = Config(domain: nat, ranks: nat, maxWalk: nat) {
    predicate Valid() { 1 <= ranks <= domain }

    // The size every subdomain has, before the remainder goes to the last rank.
    function Share(): (q: nat)
      requires Valid()
      ensures q >= 1 && q * ranks <= domain
    {
      domain / ranks
    }

    function Start(r: nat): nat
      requires Valid()
    {
      Share() * r
    }

    function Size(r: nat): nat
      requires Valid()
    {
      Share() + if r == ranks - 1 then domain % ranks else 0
    }

    function End(r: nat): nat
      requires Valid()
    {
      Start(r) + Size(r)
    }

    function Next(r: nat): nat
      requires r < ranks
    {
      (r + 1) % ranks
    }

    function Prev(r: nat): nat
      requires r < ranks
    {
      if r == 0 then ranks - 1 else r - 1
    }

    // maximum_sends_recvs
    function Rounds(): (n: nat)
      requires Valid()
      ensures n >= 1
    {
      maxWalk / Share() + 1
    }

    /** Where a walker that is passed on arrives: a walker at the end of the domain is wrapped. */
    function Wrap(location: int): int { if location == domain then 0 else location }

    /** The point of the circle at which a walker will stop. */
    function Destination(w: Walker): int
      requires Valid()
    {
      (w.location + w.stepsLeft) % domain
    }
  }

  lemma NextIs(c: Config, r: nat)
    requires r < c.ranks
    ensures c.Next(r) == if r == c.ranks - 1 then 0 else r + 1
  {
    if r == c.ranks - 1 { assert (r + 1) % c.ranks == 0; } else { SmallModulus(r + 1, c.ranks); }
  }

  lemma SmallModulus(a: nat, n: nat)
    requires a < n
    ensures a % n == a
  {
  }

  lemma NextPrev(c: Config, r: nat)
    requires c.Valid() && r < c.ranks
    ensures c.Next(r) < c.ranks && c.Prev(r) < c.ranks
    ensures c.Prev(c.Next(r)) == r && c.Next(c.Prev(r)) == r
    ensures c.Next(r) == if r == c.ranks - 1 then 0 else r + 1
  {
    NextIs(c, r);
    NextIs(c, c.Prev(r));
    hide c.Next;
  }

  /** The slices in terms of the share q and what remains for the last rank. */
  lemma SliceEnds(c: Config, r: nat)
    requires c.Valid() && r < c.ranks
    ensures c.domain == c.Share() * c.ranks + c.domain % c.ranks
    ensures c.Start(r) == c.Share() * r && c.Start(0) == 0
    ensures c.End(r) == c.Share() * r + c.Share() + if r == c.ranks - 1 then c.domain % c.ranks else 0
  {
  }

  lemma LastShare(q: nat, r: nat)
    ensures q * (r + 1) == q * r + q
  {
  }

  /** The subdomains tile the circle: where one ends, after wrapping, the next rank's begins. */
  lemma SubdomainsTile(c: Config, r: nat)
    requires c.Valid() && r < c.ranks
    ensures c.Wrap(c.End(r)) == c.Start(c.Next(r))
    ensures c.End(r) <= c.domain
    ensures c.End(r) == c.domain <==> r == c.ranks - 1
  {
    var q := c.Share();
    NextIs(c, r);
    SliceEnds(c, r);
    LastShare(q, r);
    if r < c.ranks - 1 {
      SliceEnds(c, r + 1);
      LastShare(q, r + 1);
      MulMono(q, r + 2, c.ranks);
    }
    hide c.Share, c.Start, c.Size, c.End, c.Next;
  }

  lemma MulMono(q: nat, a: nat, b: nat)
    requires a <= b
    ensures q * a <= q * b
  {
  }

  /** A walker with steps left leaves exactly when it runs out of slice before it runs out of steps. */
  predicate Leaves(c: Config, r: nat, w: Walker)
    requires c.Valid()
  {
    w.location <= c.End(r) && w.stepsLeft > c.End(r) - w.location
  }

  /** The walker after one call of `walk`, without the intermediate steps. */
  function Walked(c: Config, r: nat, w: Walker): Walker
    requires c.Valid()
  {
    if w.stepsLeft <= 0 then w
    else if Leaves(c, r, w) then Walker(c.Wrap(c.End(r)), w.stepsLeft - (c.End(r) - w.location))
    else Walker(w.location + w.stepsLeft, 0)
  }

  function WalkedAll(c: Config, r: nat, ws: seq<Walker>): seq<Walker>
    requires c.Valid()
  {
    seq(|ws|, i requires 0 <= i < |ws| => Walked(c, r, ws[i]))
  }

  /** The walkers a rank passes on, in order. */
  function Emitted(c: Config, r: nat, ws: seq<Walker>): seq<Walker>
    requires c.Valid()
  {
    if ws == [] then [] else
    Emitted(c, r, ws[..|ws|-1]) +
    if Leaves(c, r, ws[|ws|-1]) && ws[|ws|-1].stepsLeft > 0 then [Walked(c, r, ws[|ws|-1])] else []
  }

  lemma EmittedMore(c: Config, r: nat, ws: seq<Walker>, i: nat)
    requires c.Valid() && i < |ws|
    ensures Emitted(c, r, ws[..i+1]) == Emitted(c, r, ws[..i]) + Emitted(c, r, [ws[i]])
  {
    assert ws[..i+1][..i] == ws[..i] && [ws[i]][..0] == [];
  }

  /** The walkers that finish on this rank, in order. */
  function Settled(c: Config, r: nat, ws: seq<Walker>): seq<Walker>
    requires c.Valid()
  {
    if ws == [] then [] else
    Settled(c, r, ws[..|ws|-1]) +
    if Leaves(c, r, ws[|ws|-1]) && ws[|ws|-1].stepsLeft > 0 then [] else [Walked(c, r, ws[|ws|-1])]
  }
}
