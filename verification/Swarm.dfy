/** The availability array over the life of a swarm: peers join, announce chunks and leave. */
module Swarm {
  import opened Powers
  import opened Bins
  import opened BinMaps
  import opened Find
  import Avail

  /** The peers known to have a chunk. */
  ghost function Holders(peers: set<BinMap>, i: nat): set<BinMap>
    reads peers
  {
    set p | p in peers && p.Has(i)
  }

  class Transfer {
    var avail: Avail.Availability
    var peers: set<BinMap>
    ghost var topped: iset<nat>

    /** Chunks that were never at the top level are at the level of their number of holders. */
    ghost predicate Counted()
      requires avail.Valid()
      reads this, avail, avail.rarity, peers
    {
      (forall i: nat :: avail.Level(i) == avail.Top() ==> i in topped) &&
      (forall i: nat :: i !in topped ==> avail.Level(i) == |Holders(peers, i)|)
    }

    ghost predicate Valid()
      reads this, avail, avail.rarity, peers
    {
      avail.Valid() &&
      (forall p :: p in peers ==> p !in avail.rarity && p.Valid()) &&
      (forall p, i: nat :: p in peers && p.Has(i) ==> i < LIMIT) &&
      Counted()
    }

    constructor (connections: nat)
      requires connections >= 2
      ensures Valid() && fresh(avail) && fresh(avail.rarity) && peers == {} && topped == iset{}
      ensures avail.Top() == connections - 1
    {
      avail := new Avail.Availability(connections);
      peers := {};
      topped := iset{};
      new;
      hide BinMap.Valid, BinMap.Has, Avail.Availability.Valid;
      NobodyHas();
    }

    lemma NobodyHas()
      requires peers == {} && avail.Valid() && avail.Top() > 0 && topped == iset{} && forall i: nat :: avail.Level(i) == 0
      ensures Counted()
    {
      hide BinMap.Valid, BinMap.Has;
      forall i: nat ensures |Holders(peers, i)| == 0 {
        assert Holders(peers, i) == {};
      }
    }

    /** A new channel: its peer is not known to have anything. */
    method Join() returns (p: BinMap)
      requires Valid()
      modifies this`peers
      ensures Valid() && fresh(p) && topped == old(topped) && peers == old(peers) + {p} && forall i: nat :: !p.Has(i)
    {
      hide BinMap.Valid, BinMap.Has, Avail.Availability.Valid, Avail.Availability.Level;
      p := new BinMap();
      peers := peers + {p};
      forall i: nat ensures Holders(peers, i) == old(Holders(peers, i)) {
      }
    }

    /** The two updates of OnHave, the availability first. */
    method Announce(p: BinMap, bin: Bin)
      requires avail.Valid() && p in peers && bin.Ok() && bin.End() <= LIMIT
      requires forall q :: q in peers ==> q !in avail.rarity && q.Valid()
      modifies avail.rarity, p
      ensures avail.Valid()
      ensures forall q :: q in peers ==> q.Valid()
      ensures forall q, i: nat :: q in peers ==> (q.Has(i) <==> old(q.Has(i)) || (q == p && bin.Has(i)))
      ensures forall i: nat :: avail.Level(i) == if bin.Has(i) && !old(p.Has(i)) then Avail.Raise(old(avail.Level(i)), avail.Top()) else old(avail.Level(i))
    {
      hide BinMap.Valid, BinMap.Has, Avail.Availability.Valid, Avail.Availability.Level, P, Bin.Has;
      avail.Set(p, bin);
      p.Set(bin);
    }

    /** OnHave: a peer announces a bin. */
    method OnHave(p: BinMap, bin: Bin)
      requires Valid() && p in peers && bin.Ok() && bin.End() <= LIMIT
      modifies this`topped, avail.rarity, p
      ensures Valid() && avail == old(avail) && peers == old(peers)
      ensures forall i: nat :: p.Has(i) <==> old(p.Has(i)) || bin.Has(i)
      ensures forall i: nat :: i in topped <==> i in old(topped) || avail.Level(i) == avail.Top()
    {
      hide BinMap.Valid, BinMap.Has, Avail.Availability.Valid, Avail.Availability.Level, P, Bin.Has, Bin.Ok;
      Announce(p, bin);
      InRange(bin);
      topped := topped + iset i: nat | avail.Level(i) == avail.Top();
      forall i: nat ensures |Holders(peers, i)| == |old(Holders(peers, i))| + (if bin.Has(i) && !old(p.Has(i)) then 1 else 0) {
        OneMore(old(Holders(peers, i)), Holders(peers, i), p, bin.Has(i));
      }
    }

    /** Close: the peer's chunks are taken out of the availability. */
    method Leave(p: BinMap)
      requires Valid() && p in peers
      modifies this`peers, avail.rarity
      ensures Valid() && avail == old(avail) && peers == old(peers) - {p} && topped == old(topped)
    {
      hide BinMap.Valid, BinMap.Has, Avail.Availability.Valid, Avail.Availability.Level, P;
      avail.RemoveBinmap(p);
      peers := peers - {p};
      forall i: nat ensures |Holders(peers, i)| == |old(Holders(peers, i))| - (if p.Has(i) then 1 else 0) {
        OneLess(old(Holders(peers, i)), Holders(peers, i), p);
      }
    }
  }

  lemma InRange(bin: Bin)
    requires bin.End() <= LIMIT
    ensures forall i: nat :: bin.Has(i) ==> i < LIMIT
  {
  }

  lemma OneMore<T>(before: set<T>, after: set<T>, p: T, has: bool)
    requires after == if has then before + {p} else before
    ensures |after| == |before| + (if has && p !in before then 1 else 0)
  {
    if p in before {
      assert before + {p} == before;
    }
  }

  lemma OneLess<T>(before: set<T>, after: set<T>, p: T)
    requires after == before - {p}
    ensures |after| == |before| - (if p in before then 1 else 0)
  {
    if p !in before {
      assert before - {p} == before;
    }
  }
}
