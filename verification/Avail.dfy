/** avail.cpp: one bin map per availability level; chunks move between the maps as peers announce and leave. */
module Avail {
  import opened Powers
  import opened Bins
  import opened BinMaps
  import opened Queries
  import opened Find
  import opened Complement

  /** One more peer has a chunk; the top level is never left. */
  function Raise(l: nat, top: nat): nat {
    if l < top then l + 1 else l
  }

  /** One peer fewer has a chunk; the top level is never left. */
  function Lower(l: nat, top: nat): nat {
    if 0 < l < top then l - 1 else l
  }

  class Availability {
    var rarity: seq<BinMap>

    /** The maps are different objects and share no chunk. */
    ghost predicate Valid()
      reads this, rarity
    {
      |rarity| >= 2 &&
      (forall j, k :: 0 <= j < k < |rarity| ==> rarity[j] != rarity[k]) &&
      (forall k :: 0 <= k < |rarity| ==> rarity[k].Valid()) &&
      (forall i: nat, j, k :: 0 <= j < k < |rarity| && rarity[j].Has(i) ==> !rarity[k].Has(i))
    }

    function Top(): nat
      reads this
    {
      if rarity == [] then 0 else |rarity| - 1
    }

    /** Chunk i is at level l: in the map of that level, or in none when the level is 0. */
    ghost predicate At(i: nat, l: nat)
      reads this, rarity
    {
      l < |rarity| && (l > 0 ==> rarity[l].Has(i)) && forall k :: 1 <= k < |rarity| && k != l ==> !rarity[k].Has(i)
    }

    /** No chunk of the bin is above level idx. */
    ghost predicate Below(bin: Bin, idx: nat)
      reads this, rarity
    {
      forall i: nat, l: nat :: bin.Has(i) && At(i, l) ==> l <= idx
    }

    /** Every chunk is at exactly one level. */
    lemma OneLevel(i: nat)
      requires Valid()
      ensures exists l: nat :: At(i, l)
      ensures forall l: nat, m: nat :: At(i, l) && At(i, m) ==> l == m
    {
      hide BinMap.Valid, BinMap.Has;
      if k :| 1 <= k < |rarity| && rarity[k].Has(i) {
        assert At(i, k);
      } else {
        assert At(i, 0);
      }
    }

    /** The level of a chunk. */
    ghost function Level(i: nat): (r: nat)
      requires Valid()
      reads this, rarity
      ensures r <= Top() && forall l: nat :: At(i, l) <==> l == r
    {
      OneLevel(i);
      var l: nat :| At(i, l);
      l
    }

    /** Takes a bin, filled at one level, to a neighbouring level. */
    method Move(bin: Bin, from: nat, to: nat)
      requires Valid() && bin.Ok() && from < |rarity| && to < |rarity| && from != to && AllFilled(rarity[from], bin)
      modifies rarity
      ensures Valid()
      ensures forall i: nat, l: nat :: !bin.Has(i) ==> (At(i, l) <==> old(At(i, l)))
      ensures forall i: nat, l: nat :: bin.Has(i) && old(At(i, l)) ==> l == from
      ensures forall i: nat :: bin.Has(i) ==> At(i, to)
    {
      hide BinMap.Valid, BinMap.Has, P, Aligned;
      assert AllEmpty(rarity[to], bin);
      rarity[from].Reset(bin);
      rarity[to].Set(bin);
    }

    /** Puts a bin that is at no level at level 1. */
    method Place(bin: Bin)
      requires Valid() && bin.Ok() && AllEmpty(rarity[0], bin) && Below(bin, 0)
      modifies rarity
      ensures Valid()
      ensures forall i: nat, l: nat :: !bin.Has(i) ==> (At(i, l) <==> old(At(i, l)))
      ensures forall i: nat :: bin.Has(i) ==> At(i, 1)
    {
      hide BinMap.Valid, BinMap.Has, P, Aligned;
      forall i: nat | bin.Has(i) ensures At(i, 0) {
        OneLevel(i);
      }
      rarity[1].Set(bin);
    }

    /** Below a level whose map is empty on the bin. */
    lemma NextBelow(bin: Bin, idx: nat)
      requires Valid() && Below(bin, idx) && 0 < idx < |rarity| && AllEmpty(rarity[idx], bin)
      ensures Below(bin, idx - 1)
    {
      hide BinMap.Valid, BinMap.Has;
    }

    lemma HalvesBelow(bin: Bin, idx: nat)
      requires Below(bin, idx) && bin.layer > 0
      ensures Below(bin.Left(), idx) && Below(bin.Right(), idx)
    {
      hide At;
      assert forall i: nat :: bin.Left().Has(i) || bin.Right().Has(i) ==> bin.Has(i);
    }

    /** initRarity: nothing is available. */
    constructor (connections: nat)
      requires connections >= 2
      ensures Valid() && fresh(rarity) && |rarity| == connections
      ensures forall i: nat :: Level(i) == 0
    {
      rarity := [];
      new;
      hide BinMap.Valid, BinMap.Has;
      for n := 0 to connections
        invariant |rarity| == n && fresh(rarity)
        invariant forall j, k :: 0 <= j < k < |rarity| ==> rarity[j] != rarity[k]
        invariant forall k :: 0 <= k < |rarity| ==> rarity[k].Valid()
        invariant forall i: nat, k :: 0 <= k < |rarity| ==> !rarity[k].Has(i)
      {
        var m := new BinMap();
        rarity := rarity + [m];
      }
    }

    /** setBin: every chunk of the bin goes up one level. */
    method SetBin(bin: Bin, idx: nat)
      requires Valid() && bin.Ok() && idx < |rarity| && Below(bin, idx)
      modifies rarity
      ensures Valid()
      ensures forall i: nat, l: nat :: !bin.Has(i) ==> (At(i, l) <==> old(At(i, l)))
      ensures forall i: nat, l: nat :: bin.Has(i) && old(At(i, l)) ==> At(i, Raise(l, Top()))
      decreases idx, bin.layer
    {
      hide BinMap.Valid, BinMap.Has, P, Aligned, At;
      var empty := IsEmptyBin(rarity[idx], bin);
      if empty {
        if idx == 0 {
          Place(bin);
        } else {
          NextBelow(bin, idx);
          SetBin(bin, idx - 1);
        }
        return;
      }
      var filled := IsFilledBin(rarity[idx], bin);
      assert forall i: nat, l: nat :: old(At(i, l)) <==> At(i, l);
      if filled {
        if idx == |rarity| - 1 {
          AtTop(bin);
          return;
        }
        Move(bin, idx, idx + 1);
      } else {
        NotBase(rarity[idx], bin);
        HalvesOk(bin);
        HalvesBelow(bin, idx);
        SetBin(bin.Left(), idx);
        SetBin(bin.Right(), idx);
      }
    }

    /** removeBin: every chunk of the bin goes down one level. */
    method RemoveBin(bin: Bin, idx: nat)
      requires Valid() && bin.Ok() && idx < |rarity| && Below(bin, idx)
      modifies rarity
      ensures Valid()
      ensures forall i: nat, l: nat :: !bin.Has(i) ==> (At(i, l) <==> old(At(i, l)))
      ensures forall i: nat, l: nat :: bin.Has(i) && old(At(i, l)) ==> At(i, Lower(l, Top()))
      decreases idx, bin.layer
    {
      hide BinMap.Valid, BinMap.Has, P, Aligned, At;
      if idx == 0 {
        return;
      }
      var empty := IsEmptyBin(rarity[idx], bin);
      if empty {
        NextBelow(bin, idx);
        RemoveBin(bin, idx - 1);
        return;
      }
      var filled := IsFilledBin(rarity[idx], bin);
      assert forall i: nat, l: nat :: old(At(i, l)) <==> At(i, l);
      if filled {
        if idx == |rarity| - 1 {
          AtTop(bin);
          return;
        }
        Move(bin, idx, idx - 1);
      } else {
        NotBase(rarity[idx], bin);
        HalvesOk(bin);
        HalvesBelow(bin, idx);
        RemoveBin(bin.Left(), idx);
        RemoveBin(bin.Right(), idx);
      }
    }

    lemma AtTop(bin: Bin)
      requires Valid() && AllFilled(rarity[|rarity| - 1], bin)
      ensures forall i: nat, l: nat :: bin.Has(i) && At(i, l) ==> l == |rarity| - 1
    {
      hide BinMap.Valid, BinMap.Has;
    }

    /** set: every chunk of the target that the peer was not known to have goes up one level. */
    method Set(binmap: BinMap, target: Bin)
      requires Valid() && binmap.Valid() && binmap !in rarity && target.Ok() && target.End() <= LIMIT
      modifies rarity
      ensures Valid()
      ensures forall i: nat :: Level(i) == if target.Has(i) && !binmap.Has(i) then Raise(old(Level(i)), Top()) else old(Level(i))
    {
      hide BinMap.Valid, BinMap.Has, P, Aligned, At, Availability.Valid, Bin.Has, Raise;
      var filled := IsFilledBin(binmap, target);
      if filled {
        AlreadyKnown(binmap, target);
        return;
      }
      var tmp := new BinMap();
      tmp.Set(target);
      var more := true;
      while more
        invariant Valid() && tmp.Valid() && fresh(tmp)
        invariant forall i: nat :: tmp.Has(i) ==> target.Has(i)
        invariant forall i: nat :: Level(i) == if target.Has(i) && !binmap.Has(i) && !tmp.Has(i) then Raise(old(Level(i)), Top()) else old(Level(i))
        invariant !more ==> forall i: nat :: tmp.Has(i) ==> binmap.Has(i)
        decreases more, Missing(binmap, tmp)
      {
        more := RaiseNext(binmap, tmp, target);
      }
    }

    /** One round: the next bin of the target that the peer lacks goes up a level. */
    method RaiseNext(binmap: BinMap, tmp: BinMap, target: Bin) returns (more: bool)
      requires Valid() && binmap.Valid() && tmp.Valid() && binmap !in rarity && tmp !in rarity && tmp != binmap
      requires target.Ok() && target.End() <= LIMIT && forall i: nat :: tmp.Has(i) ==> target.Has(i)
      modifies rarity, tmp
      ensures Valid() && tmp.Valid()
      ensures forall i: nat :: tmp.Has(i) ==> old(tmp.Has(i))
      ensures forall i: nat :: old(tmp.Has(i)) && !tmp.Has(i) ==> !binmap.Has(i)
      ensures forall i: nat :: Level(i) == if old(tmp.Has(i)) && !tmp.Has(i) then Raise(old(Level(i)), Top()) else old(Level(i))
      ensures if more then Missing(binmap, tmp) < old(Missing(binmap, tmp)) else forall i: nat :: tmp.Has(i) ==> binmap.Has(i)
    {
      hide BinMap.Valid, BinMap.Has, P, Aligned, At, Availability.Valid, Bin.Has, Raise;
      Low(tmp, target);
      var bin := FindLow(binmap, tmp, target);
      if bin == NONE {
        return false;
      }
      RaiseBin(bin);
      tmp.Reset(bin);
      return true;
    }

    /** One round: the bin found goes up a level. */
    method RaiseBin(bin: Bin)
      requires Valid() && bin.Ok()
      modifies rarity
      ensures Valid()
      ensures forall i: nat :: Level(i) == if bin.Has(i) then Raise(old(Level(i)), Top()) else old(Level(i))
    {
      hide BinMap.Valid, BinMap.Has, At, Bin.Has, Raise;
      AllBelow(bin);
      SetBin(bin, |rarity| - 1);
    }

    /** removeBinmap of a leecher: every chunk of its map goes down one level. */
    method RemoveBinmap(binmap: BinMap)
      requires Valid() && binmap.Valid() && binmap !in rarity && forall i: nat :: binmap.Has(i) ==> i < LIMIT
      modifies rarity
      ensures Valid()
      ensures forall i: nat :: Level(i) == if binmap.Has(i) then Lower(old(Level(i)), Top()) else old(Level(i))
    {
      hide BinMap.Valid, BinMap.Has, P, Aligned, At, Availability.Valid, Bin.Has, Lower;
      var full := IsFilled(binmap);
      if full {
        NotAll(binmap);
        assert false;
      }
      var none := IsEmpty(binmap);
      if none {
        return;
      }
      var tmp := new BinMap();
      var more := true;
      while more
        invariant Valid() && tmp.Valid() && fresh(tmp)
        invariant forall i: nat :: tmp.Has(i) ==> binmap.Has(i)
        invariant forall i: nat :: Level(i) == if tmp.Has(i) then Lower(old(Level(i)), Top()) else old(Level(i))
        invariant !more ==> forall i: nat :: binmap.Has(i) ==> tmp.Has(i)
        decreases more, Missing(tmp, binmap)
      {
        more := LowerNext(binmap, tmp);
      }
    }

    /** One round: the next bin of the peer's map goes down a level. */
    method LowerNext(binmap: BinMap, tmp: BinMap) returns (more: bool)
      requires Valid() && binmap.Valid() && tmp.Valid() && binmap !in rarity && tmp !in rarity && tmp != binmap
      requires forall i: nat :: binmap.Has(i) ==> i < LIMIT
      modifies rarity, tmp
      ensures Valid() && tmp.Valid()
      ensures forall i: nat :: old(tmp.Has(i)) ==> tmp.Has(i)
      ensures forall i: nat :: tmp.Has(i) && !old(tmp.Has(i)) ==> binmap.Has(i)
      ensures forall i: nat :: Level(i) == if tmp.Has(i) && !old(tmp.Has(i)) then Lower(old(Level(i)), Top()) else old(Level(i))
      ensures if more then Missing(tmp, binmap) < old(Missing(tmp, binmap)) else forall i: nat :: binmap.Has(i) ==> tmp.Has(i)
    {
      hide BinMap.Valid, BinMap.Has, P, Aligned, At, Availability.Valid, Bin.Has, Lower;
      WholeRange();
      Everywhere(binmap);
      var bin := FindLow(tmp, binmap, ALL);
      if bin == NONE {
        return false;
      }
      LowerBin(bin);
      tmp.Set(bin);
      return true;
    }

    /** One round: the bin found goes down a level. */
    method LowerBin(bin: Bin)
      requires Valid() && bin.Ok()
      modifies rarity
      ensures Valid()
      ensures forall i: nat :: Level(i) == if bin.Has(i) then Lower(old(Level(i)), Top()) else old(Level(i))
    {
      hide BinMap.Valid, BinMap.Has, At, Bin.Has, Lower;
      AllBelow(bin);
      RemoveBin(bin, |rarity| - 1);
    }

    lemma AllBelow(bin: Bin)
      requires |rarity| >= 2
      ensures Below(bin, |rarity| - 1)
    {
      hide BinMap.Valid, BinMap.Has;
    }
  }

  lemma AlreadyKnown(binmap: BinMap, target: Bin)
    requires AllFilled(binmap, target)
    ensures forall i: nat :: target.Has(i) ==> binmap.Has(i)
  {
  }

  lemma Low(m: BinMap, target: Bin)
    requires target.End() <= LIMIT
    ensures forall i: nat :: target.Has(i) ==> i < LIMIT
  {
  }

  /** A map below the limit is not the filled map of every chunk there is. */
  lemma NotAll(m: BinMap)
    requires m.Valid() && forall i: nat :: m.Has(i) ==> i < LIMIT
    ensures !(m.root == ALL && AllFilled(m, m.root))
  {
    hide BinMap.Valid, BinMap.Has;
    PowerMonotone(32, 63);
    SmallPowers();
    assert ALL.Has(LIMIT) && !m.Has(LIMIT);
  }

  lemma WholeRange()
    ensures ALL.Ok()
  {
    ZeroAligned(63);
  }

  /** A map holds no chunk outside the 63-bit space. */
  lemma Everywhere(m: BinMap)
    requires m.Valid()
    ensures forall i: nat :: m.Has(i) ==> ALL.Has(i)
  {
  }

  /** A base bin is either empty or filled. */
  lemma NotBase(m: BinMap, bin: Bin)
    requires !AllEmpty(m, bin) && !AllFilled(m, bin)
    ensures bin.layer > 0
  {
  }
}
