/** The HAVE loop of sendrecv.cpp: what a channel announces out of a map that only grows. */
module Have {
  import opened Powers
  import opened Bins
  import opened BinMaps
  import opened Queries
  import opened Find
  import opened Complement

  /** Everything announced so far is in the map it is announced from. */
  ghost predicate Within(sent: BinMap, own: BinMap)
    reads sent, own
  {
    forall i: nat :: sent.Has(i) ==> own.Has(i)
  }

  /** A filled bin's cover is filled, and lies in the map. */
  lemma FilledCover(own: BinMap, ack: Bin)
    requires own.Valid() && ack.Ok() && AllFilled(own, ack)
    ensures own.root.Contains(ack)
    ensures forall r: Bin :: Covers(own, r, ack) ==> AllFilled(own, r)
  {
    hide BinMap.Valid, BinMap.Has;
    RootOf(own);
    if !own.root.Contains(ack) {
      OutsideOrAround(own.root, ack);
      assert false;
    }
    assert ack.Has(ack.base);
  }

  lemma RootOf(m: BinMap)
    requires m.Valid()
    ensures m.root.Ok() && forall i: nat :: m.Has(i) ==> m.root.Has(i)
  {
  }

  /** One round: the widest filled bin around the first chunk not announced, or NONE. */
  method NextHave(sent: BinMap, own: BinMap) returns (ack: Bin, ghost first: nat)
    requires sent != own && sent.Valid() && own.Valid() && Within(sent, own) && forall i: nat :: own.Has(i) ==> i < LIMIT
    modifies sent
    ensures sent.Valid() && Within(sent, own)
    ensures ack == NONE ==> Missing(sent, own) == old(Missing(sent, own)) && forall i: nat :: own.Has(i) ==> sent.Has(i)
    ensures ack != NONE ==> ack.Ok() && AllFilled(own, ack) && Missing(sent, own) < old(Missing(sent, own))
    ensures forall i: nat :: sent.Has(i) <==> old(sent.Has(i)) || (ack != NONE && ack.Has(i))
    ensures ack != NONE ==> ack.Has(first) && own.Has(first) && !old(sent.Has(first)) && Widest(own, ack)
    ensures ack != NONE ==> forall i: nat :: own.Has(i) && !old(sent.Has(i)) ==> first <= i
  {
    hide BinMap.Valid, BinMap.Has, P, Aligned, Bin.Has, Bin.Ok, Bin.Contains, Widest;
    AllSpace(own);
    first := 0;
    ack := FindLow(sent, own, ALL);
    if ack != NONE {
      first := ack.base;
      assert AllFilled(own, ack);
      FilledCover(own, ack);
      NotNone(ack);
      var c := Cover(own, ack);
      CoveringWidest(own, c, ack);
      Inside(ack, c, first);
      ack := c;
      sent.Set(ack);
      assert first in old(Missing(sent, own)) && first !in Missing(sent, own);
    }
  }

  lemma AllSpace(m: BinMap)
    requires m.Valid()
    ensures ALL.Ok() && forall i: nat :: m.Has(i) ==> ALL.Has(i)
  {
    ZeroAligned(63);
  }

  lemma NotNone(b: Bin)
    requires b.Ok()
    ensures b != NONE && b.Has(b.base)
  {
  }

  lemma Inside(ack: Bin, c: Bin, i: nat)
    requires ack.Has(i)
    ensures c.base <= ack.base && ack.End() <= c.End() ==> c.Has(i)
    ensures c.Ok() ==> c != NONE
  {
  }

  /** AddHave: at most four covers; fewer only when everything has been announced. */
  method AddHave(sent: BinMap, own: BinMap) returns (haves: seq<Bin>)
    requires sent != own && sent.Valid() && own.Valid() && Within(sent, own) && forall i: nat :: own.Has(i) ==> i < LIMIT
    modifies sent
    ensures sent.Valid() && Within(sent, own) && |haves| <= 4
    ensures forall k :: 0 <= k < |haves| ==> haves[k].Ok() && AllFilled(own, haves[k]) && Widest(own, haves[k])
    ensures forall i: nat :: sent.Has(i) <==> old(sent.Has(i)) || exists k :: 0 <= k < |haves| && haves[k].Has(i)
    ensures |Missing(sent, own)| + |haves| <= |old(Missing(sent, own))|
    ensures |haves| < 4 ==> forall i: nat :: own.Has(i) ==> sent.Has(i)
  {
    hide BinMap.Valid, BinMap.Has, P, Aligned, Bin.Has, Bin.Ok, Missing, Widest;
    haves := [];
    var count := 0;
    while count < 4
      invariant 0 <= count <= 4 && |haves| == count
      invariant sent.Valid() && Within(sent, own)
      invariant forall k :: 0 <= k < |haves| ==> haves[k].Ok() && AllFilled(own, haves[k]) && Widest(own, haves[k])
      invariant forall i: nat :: sent.Has(i) <==> old(sent.Has(i)) || exists k :: 0 <= k < |haves| && haves[k].Has(i)
      invariant |Missing(sent, own)| + |haves| <= |old(Missing(sent, own))|
    {
      ghost var before := Missing(sent, own);
      ghost var first;
      var ack;
      ack, first := NextHave(sent, own);
      if ack == NONE {
        break;
      }
      Fewer(Missing(sent, own), before);
      ghost var was := haves;
      haves := haves + [ack];
      assert forall k :: 0 <= k < |was| ==> haves[k] == was[k];
      assert haves[|was|] == ack;
      count := count + 1;
    }
  }

  lemma Fewer(a: set<nat>, b: set<nat>)
    requires a < b
    ensures |a| < |b|
  {
    assert b == a + (b - a) && b - a != {};
    assert |b| == |a| + |b - a|;
  }
}
