/** find_complement and find_match over whole maps. */
module Complement {
  import opened Powers
  import opened Bits
  import opened Bins
  import opened Words
  import opened Trees
  import opened Cells
  import opened BinMaps
  import opened Queries
  import opened Leaf
  import opened Order
  import opened Flow
  import opened Find

  // ------------------------------------------------------------------
  // A range that is one bitmap of the source

  /** The leaf search on a range below the bitmap layer, where the bitmap has been cut to the range. */
  lemma LowAnswer(rng: Bin, w: Word, twist: nat, want: iset<nat>)
    requires rng.Ok() && rng.layer <= 4 && w != EMPTY
    requires rng.V() % 64 < 63 && WordAnd(w, Mask(rng.V() % 64)) == w
    requires forall i: nat :: rng.Has(i) ==> (i in want <==> Bit(w, i % 32))
    ensures LeafFind(rng, w, twist) != NONE && Answer(LeafFind(rng, w, twist), rng, want, twist)
  {
    hide P, Bit, LeafFind, Mask, WordAnd, Aligned, Floor, Block, Safe, Right;
    LowEmpty(rng, w);
    var x: nat :| rng.Has(x) && Bit(w, x % 32);
    LowNotFull(rng, w);
    LeafSpec(rng, w, twist);
    forall c: nat | IsFirst(c, rng, want, twist) ensures Found(c, LeafFind(rng, w, twist), rng, want) {
      LowFound(c, rng, w, twist, want);
    }
  }

  lemma LowFound(c: nat, rng: Bin, w: Word, twist: nat, want: iset<nat>)
    requires rng.Ok() && rng.layer <= 4 && w != EMPTY && w != FILLED && IsFirst(c, rng, want, twist)
    requires rng.V() % 64 < 63 && WordAnd(w, Mask(rng.V() % 64)) == w
    requires forall i: nat :: rng.Has(i) ==> (i in want <==> Bit(w, i % 32))
    ensures Found(c, LeafFind(rng, w, twist), rng, want)
  {
    hide P, Bit, LeafFind, Mask, WordAnd, Aligned, Floor, Block, Rank, Bounded, Largest;
    var r := LeafFind(rng, w, twist);
    LeafSpec(rng, w, twist);
    BlockSpec(rng, twist);
    SmallPowers();
    PowerMonotone(rng.layer, 4);
    assert !WholeBlock(c, rng, want) by {
      assert !(rng.Has(Floor(c, 5)) && rng.Has(Floor(c, 5) + 31));
    }
    if c < LIMIT {
      if rng.End() > LIMIT {
        WideHalf(rng);
        assert false;
      }
      var d := LeafFirstLow(rng, w, twist);
      UpSpec(rng, 5);
      assert rng.Up(5).base == Floor(rng.base, 5);
      forall i: nat | rng.Up(5).Has(i) && Bit(w, i % 32) ensures rng.Has(i) {
        MaskInBlock(rng, i);
        AndBit(w, Mask(rng.V() % 64), i % 32);
      }
      FirstOne(c, d, rng, want, twist);
      assert r.Has(r.base) && r.Has(r.End() - 1);
      BoundedLargest(r, rng, w, want);
    }
  }

  lemma LowNotFull(rng: Bin, w: Word)
    requires rng.Ok() && rng.layer <= 4 && rng.V() % 64 < 63 && WordAnd(w, Mask(rng.V() % 64)) == w
    ensures w != FILLED
  {
    hide P, Bit, Mask, WordAnd, Aligned, Floor;
    SmallPowers();
    PowerMonotone(rng.layer, 4);
    var o := if rng.base % 32 == 0 then 31 else 0;
    MaskBits(rng, o);
    AndBit(w, Mask(rng.V() % 64), o);
    FilledBits(o);
  }

  /** The leaf search on any range that is a pattern of the source. */
  lemma PatternAnswer(rng: Bin, w: Word, m: Word, twist: nat, want: iset<nat>)
    requires rng.Ok() && w != EMPTY
    requires rng.layer <= 5 ==> rng.V() % 64 < 63 && WordAnd(w, Mask(rng.V() % 64)) == w
    requires forall i: nat :: rng.Has(i) ==> (i in want <==> Bit(w, i % 32))
    ensures LeafFind(rng, w, twist) != NONE && Answer(LeafFind(rng, w, twist), rng, want, twist)
  {
    hide P, Bit, LeafFind, Mask, WordAnd, Aligned, Floor;
    if rng.layer >= 5 {
      LeafAnswer(rng, w, twist, want);
    } else {
      LowAnswer(rng, w, twist, want);
    }
  }

  /** Combining keeps a bitmap inside the mask it was cut with. */
  lemma CombineInside(s: Word, d: Word, m: Word, matching: bool)
    requires WordAnd(s, m) == s
    ensures WordAnd(Combine(s, d, matching), m) == Combine(s, d, matching)
  {
    hide Bit, Combine, WordAnd;
    var l, r := WordAnd(Combine(s, d, matching), m), Combine(s, d, matching);
    forall i: nat | i < 32 ensures Bit(l, i) <==> Bit(r, i) {
      AndBit(Combine(s, d, matching), m, i);
      AndBit(s, m, i);
      CombineBits(s, d, matching, i);
    }
    SmallPowers();
    BitsDetermine(l, r, 32);
  }

  lemma AndBit(a: Word, b: Word, i: nat)
    ensures Bit(WordAnd(a, b), i) <==> Bit(a, i) && Bit(b, i)
  {
    BitOps(a, b, i);
  }

  /** A range that is a pattern of the source against a bitmap of the destination. */
  method FindPattern(rng: Bin, dbm: Word, w: Word, destination: BinMap, source: BinMap, twist: nat, matching: bool) returns (r: Bin)
    requires Pattern(source, rng, w) && Solid(destination, rng, dbm)
    ensures Answer(r, rng, Want(destination, source, matching), twist)
  {
    hide P, Bit, LeafFind, Mask, WordAnd, Aligned, Floor, Combine;
    ghost var want := Want(destination, source, matching);
    var c := Combine(w, dbm, matching);
    CombineOn(rng, w, dbm, matching, want);
    if c != EMPTY {
      if rng.layer <= 5 {
        MaskBits(rng, 0);
        CombineInside(w, dbm, Mask(rng.V() % 64), matching);
      }
      PatternAnswer(rng, c, EMPTY, twist, want);
      r := LeafFind(rng, c, twist);
    } else {
      NothingThere(rng, c, want);
      r := NONE;
    }
  }

  // ------------------------------------------------------------------
  // A bitmap of the source around the whole destination

  /** The part of the twist that chooses among the copies of the destination's root inside a half. */
  function Selects(twist: nat, half: Bin, droot: Bin): nat {
    Floor(twist % P(half.layer), droot.layer)
  }

  ghost predicate Around(half: Bin, d: BinMap)
    reads d
  {
    half.Ok() && half.base == 0 && half.layer > d.root.layer
  }

  /** The destination has a chunk. */
  ghost predicate Started(d: BinMap)
    reads d
  {
    !AllEmpty(d, d.root)
  }

  /** A bin around the destination's root is not wanted as a whole. */
  lemma LackingRoot(bin: Bin, d: BinMap, want: iset<nat>)
    requires Started(d) && d.root.Ok() && bin.base <= d.root.base && d.root.End() <= bin.End() && forall i: nat :: i in want ==> !d.Has(i)
    ensures Lacking(bin, want)
  {
    hide BinMap.Has;
    var i: nat :| d.root.Has(i) && d.Has(i);
    assert bin.Has(i);
  }

  lemma RootLargest(d: BinMap, bin: Bin, want: iset<nat>)
    requires d.Valid() && Started(d) && d.root.layer < 63 && forall i: nat :: i in want ==> !d.Has(i)
    ensures Largest(d.root, bin, want) && Largest(d.root.Sibling(), bin, want)
  {
    hide Refs, Holds, NoSharing, Chain, Distinct, TreeHas, Aligned, Floor, BinMap.Has, P, Bin.Parent;
    RootFits(d);
    ParentOk(d.root);
    HalvesOk(d.root.Parent());
    HalfParent(d.root.Parent());
    LackingRoot(d.root.Parent(), d, want);
    HalfLargest(d.root.Parent(), d.root, bin, want);
    HalfLargest(d.root.Parent(), d.root.Sibling(), bin, want);
  }

  lemma RootFits(m: BinMap)
    requires m.Valid()
    ensures m.root.Ok()
  {
  }

  /** Nothing is wanted outside a root that holds all that is wanted. */
  lemma OnlyInside(m: BinMap, bin: Bin, want: iset<nat>)
    requires m.Valid() && forall i: nat :: i in want ==> m.Has(i)
    ensures Largest(m.root, bin, want)
  {
    hide Refs, Holds, NoSharing, Chain, Distinct, TreeHas, Aligned, Floor, BinMap.Has, P, Bin.Parent;
    RootFits(m);
    OwnLargest(m.root, want);
    var i: nat :| m.root.Parent().Has(i) && !(m.root.Has(i) && i in want);
    if i in want {
      OnlyInRoot(m, i);
    }
  }

  lemma OnlyInRoot(m: BinMap, i: nat)
    requires m.Valid() && m.Has(i)
    ensures m.root.Has(i)
  {
  }

  /** A non-empty bitmap around the destination's root always has a wanted chunk, as high as its last block. */
  lemma AroundHasLast(half: Bin, w: Word, d: BinMap) returns (i: nat)
    requires d.Valid() && Around(half, d) && w != EMPTY
    ensures half.Has(i) && i in WantFrom(d, w, false) && i + 32 >= half.End()
  {
    hide P, Bit, Refs, Holds, NoSharing, Chain, Distinct, TreeHas, Aligned, Floor;
    HalvesOk(half);
    SmallPowers();
    PowerMonotone(5, half.layer - 1);
    var last := Bin(5, half.End() - 32);
    assert last.Ok() by {
      PowerAligned(5, half.layer);
      PowerAligned(5, 5);
      AlignedDifference(half.End(), 32, 5);
    }
    i := BitsSeparate(last, w, EMPTY);
    ZeroBits(i % 32);
    PowerMonotone(d.root.layer, half.layer - 1);
    assert !d.root.Has(i);
  }

  /** If all wanted chunks are below the limit, so is the half. */
  lemma AroundLimit(half: Bin, w: Word, d: BinMap)
    requires d.Valid() && Around(half, d) && w != EMPTY
    requires forall i: nat :: half.Has(i) && i in WantFrom(d, w, false) ==> i < LIMIT
    ensures half.End() <= LIMIT
  {
    hide P, Bit, Refs, Holds, NoSharing, Chain, Distinct, TreeHas, Aligned, Floor;
    var i := AroundHasLast(half, w, d);
    Power31();
    if half.layer > 31 {
      PowerMonotone(31, half.layer);
      assert false;
    }
    PowerMonotone(half.layer, 31);
  }

  lemma OutsideWanted(d: BinMap, w: Word, i: nat)
    requires !d.root.Has(i)
    ensures i in WantFrom(d, w, false) <==> Bit(w, i % 32)
  {
  }

  /** When the twist does not choose another copy of the destination's root, that root comes first, then its sibling. */
  lemma RootFirst(half: Bin, d: BinMap, twist: nat, b: Bin, want: iset<nat>)
    requires d.Valid() && Around(half, d) && Selects(twist, half, d.root) == 0
    requires b == d.root || (b == d.root.Sibling() && forall i: nat :: d.root.Has(i) ==> i !in want)
    ensures Later(b, half, want, twist)
  {
    hide P, Refs, Holds, NoSharing, Chain, Distinct, TreeHas, Aligned, Floor, Rank;
    var l, tw := d.root.layer, twist % P(half.layer);
    RootSibling(d.root);
    SiblingLayer(d.root);
    DoubleP(l);
    FloorSpec(tw, l);
    var top := if b == d.root then l else l + 1;
    forall i: nat, j: nat | half.Has(i) && !b.Has(i) && i in want && b.Has(j) ensures Rank(j, twist) < Rank(i, twist) {
      RankIn(half, twist, i);
      RankIn(half, twist, j);
      RankBelow(j, i, tw, top);
    }
  }

  /** Numbers below and above a power of two stay so when only lower digits change. */
  lemma RankBelow(j: nat, i: nat, tw: nat, l: nat)
    requires j < P(l) <= i && tw < P(l)
    ensures Xor(j, tw) < Xor(i, tw)
  {
    hide P, Xor, Aligned, Floor;
    XorBound(j, tw, l);
    FloorSpec(i, l);
    XorParts(Floor(i, l), i - Floor(i, l), 0, tw, l) by {
      ZeroAligned(l);
    }
    XorZero(Floor(i, l));
    ZeroAligned(l);
    if Floor(i, l) > 0 {
      AlignedStep(0, Floor(i, l), l);
    }
  }

  /** The answer in the destination's sibling bin, which the destination cannot hold. */
  lemma SiblingAnswer(half: Bin, w: Word, d: BinMap, twist: nat)
    requires d.Valid() && Around(half, d) && w != EMPTY && Started(d) && Selects(twist, half, d.root) == 0
    requires forall i: nat :: d.root.Has(i) ==> i !in WantFrom(d, w, false)
    ensures var r := LeafFind(d.root.Sibling(), w, twist); r != NONE && Answer(r, half, WantFrom(d, w, false), twist)
  {
    hide P, Bit, LeafFind, Refs, Holds, NoSharing, Chain, Distinct, TreeHas, Aligned, Floor, WantFrom, Later, Selects, Started, Largest;
    var want := WantFrom(d, w, false);
    RootSibling(d.root);
    var s := d.root.Sibling();
    forall i: nat | s.Has(i) ensures i in want <==> Bit(w, i % 32) {
      OutsideWanted(d, w, i);
    }
    LeafAnswer(s, w, twist, want);
    SiblingInside(half, d);
    SiblingLayer(d.root);
    RootFirst(half, d, twist, s, want);
    NotFrom(d, w);
    RootLargest(d, half, want);
    AnswerUp(LeafFind(s, w, twist), s, half, want, want, twist);
  }

  lemma NotFrom(d: BinMap, w: Word)
    ensures forall i: nat :: i in WantFrom(d, w, false) ==> !d.Has(i)
  {
  }

  lemma SiblingInside(half: Bin, d: BinMap)
    requires d.Valid() && Around(half, d)
    ensures d.root.Sibling().Ok() && d.root.Sibling().End() <= half.End()
  {
    hide Refs, Holds, NoSharing, Chain, Distinct, TreeHas, Aligned;
    RootSibling(d.root);
    PowerMonotone(d.root.layer + 1, half.layer);
    SiblingLayer(d.root);
  }

  lemma SiblingLayer(b: Bin)
    ensures b.Sibling().layer == b.layer
  {
  }

  /** The answer in another copy of the destination's root, chosen by the twist. */
  lemma CopyAnswer(half: Bin, w: Word, d: BinMap, twist: nat)
    requires d.Valid() && Around(half, d) && w != EMPTY && w != FILLED
    requires Selects(twist, half, d.root) != 0
    ensures var r := LeafFind(half, w, twist); r != NONE && Answer(r, half, WantFrom(d, w, false), twist)
  {
    hide P, Bit, LeafFind, Refs, Holds, NoSharing, Chain, Distinct, TreeHas, Aligned, Floor, WantFrom, Block, Safe, Right;
    var want := WantFrom(d, w, false);
    LeafSpec(half, w, twist);
    var x := AroundHasLast(half, w, d);
    if Tame(half, want, twist) {
      forall c: nat | IsFirst(c, half, want, twist) ensures Found(c, LeafFind(half, w, twist), half, want) {
        CopyFound(c, half, w, d, twist);
      }
    }
  }

  lemma CopyFound(c: nat, half: Bin, w: Word, d: BinMap, twist: nat)
    requires d.Valid() && Around(half, d) && w != EMPTY && w != FILLED
    requires Selects(twist, half, d.root) != 0 && Tame(half, WantFrom(d, w, false), twist) && IsFirst(c, half, WantFrom(d, w, false), twist)
    ensures Found(c, LeafFind(half, w, twist), half, WantFrom(d, w, false))
  {
    hide P, Bit, LeafFind, Refs, Holds, NoSharing, Chain, Distinct, TreeHas, Aligned, Floor, WantFrom, Block, BlockNumber, Rank, Selects, BinMap.Valid, WholeBlock, Bounded, Largest;
    var want, r := WantFrom(d, w, false), LeafFind(half, w, twist);
    if twist >= LIMIT {
      AroundLimit(half, w, d);
    }
    AroundLayer(half, d);
    LeafSpec(half, w, twist);
    BlockSpec(half, twist);
    var e := LeafFirst(half, w, twist);
    SelectsBelow(twist, half, d.root);
    assert Block(half, twist) >= d.root.End();
    forall i: nat | Block(half, twist) <= i < Block(half, twist) + 32 ensures i in want <==> Bit(w, i % 32) {
      OutsideWanted(d, w, i);
    }
    forall i: nat | half.Has(i) && i in want ensures Bit(w, i % 32) {
      WantedBit(d, w, i);
    }
    FirstOne(c, e, half, want, twist);
    BoundedLargest(r, half, w, want);
  }

  lemma AroundLayer(half: Bin, d: BinMap)
    requires d.Valid() && Around(half, d)
    ensures half.layer >= 6 && d.root.layer >= 6 && d.root.Ok() && d.root.base == 0
  {
    hide P, Refs, Holds, NoSharing, Chain, Distinct, TreeHas, Aligned, Floor;
  }

  lemma WantedBit(d: BinMap, w: Word, i: nat)
    requires i in WantFrom(d, w, false)
    ensures Bit(w, i % 32)
  {
  }

  /** The selected block lies behind the destination's root. */
  lemma SelectsBelow(twist: nat, half: Bin, droot: Bin)
    requires droot.layer >= 6 && Selects(twist, half, droot) != 0
    ensures Floor(twist % P(half.layer), 5) >= P(droot.layer)
    ensures twist % P(half.layer) >= P(droot.layer)
  {
    hide P, Aligned, Floor;
    var t := twist % P(half.layer);
    var f := Floor(t, droot.layer);
    FloorSpec(t, droot.layer);
    ZeroAligned(droot.layer);
    AlignedStep(0, f, droot.layer);
    FloorSpec(t, 5);
    AlignedBelow(f, 5, droot.layer);
    if Floor(t, 5) < f {
      AlignedStep(Floor(t, 5), f, 5);
      assert false;
    }
  }

  /** The answer in a full half: the bin of the highest bit of the twist. */
  lemma FlowAnswer(half: Bin, d: BinMap, twist: nat)
    requires d.Valid() && Around(half, d) && Started(d)
    requires Selects(twist, half, d.root) != 0
    ensures var s := FlowDown(twist % P(half.layer));
      var r := Decode(s + 1 + s / 2); r != NONE && Answer(r, half, WantFrom(d, FILLED, false), twist)
  {
    hide P, Bit, Refs, Holds, NoSharing, Chain, Distinct, TreeHas, Aligned, Floor, WantFrom, FlowDown, Decode, Started, Largest, Lacking;
    var t := twist % P(half.layer);
    SelectsBelow(twist, half, d.root);
    var k := Highest(t);
    if k >= half.layer {
      PowerMonotone(half.layer, k);
      assert false;
    }
    if k < d.root.layer {
      PowerMonotone(k + 1, d.root.layer);
      assert false;
    }
    FlowBin(t, k);
    var r := Bin(k, P(k));
    PowerMonotone(k + 1, half.layer);
    PowerMonotone(d.root.layer, k);
    PowerAligned(k, k);
    DoubleP(k);
    var want := WantFrom(d, FILLED, false);
    forall i: nat | r.Has(i) ensures i in want {
      OutsideWanted(d, FILLED, i);
      FilledBits(i % 32);
    }
    NotFrom(d, FILLED);
    FlowLargest(half, d, k, want);
    assert r.Has(P(k)) && half.Has(P(k));
    forall c: nat | IsFirst(c, half, want, twist) ensures Found(c, r, half, want) {
      SmallPowers();
      FlowFirst(c, half, want, twist);
      PowerMonotone(5, k);
      BlockInside(r, t);
    }
  }

  lemma FlowLargest(half: Bin, d: BinMap, k: nat, want: iset<nat>)
    requires d.Valid() && Started(d) && d.root.layer <= k < 63 && forall i: nat :: i in want ==> !d.Has(i)
    ensures Largest(Bin(k, P(k)), half, want)
  {
    hide Refs, Holds, NoSharing, Chain, Distinct, TreeHas, Aligned, Floor, BinMap.Has, Started, Lacking;
    var u := Bin(k + 1, 0);
    ZeroAligned(k + 1);
    PowerMonotone(d.root.layer, k + 1);
    PowerMonotone(k + 1, 63);
    RootFits(d);
    LackingRoot(u, d, want);
    DoubleP(k);
    HalfLargest(u, Bin(k, P(k)), half, want);
  }

  /** The first chunk of all is the one with the digits of the twist. */
  lemma FlowFirst(c: nat, half: Bin, want: iset<nat>, twist: nat)
    requires half.Ok() && half.base == 0 && IsFirst(c, half, want, twist) && twist % P(half.layer) in want
    ensures c == twist % P(half.layer)
  {
    hide P, Aligned, Floor, Rank;
    var t := twist % P(half.layer);
    RankIn(half, twist, t);
    RankIn(half, twist, c);
    XorSelf(t);
    assert Rank(t, twist) <= Rank(c, twist);
    RankOne(c, t, twist);
  }

  lemma DoubleP(k: nat)
    ensures P(k + 1) == 2 * P(k)
  {
  }

  /** A bitmap of the source over a half that contains the destination's root and more. */
  method FindAround(half: Bin, w: Word, destination: BinMap, twist: nat) returns (r: Bin)
    requires destination.Valid() && Around(half, destination) && Started(destination) && w != EMPTY
    ensures r != NONE && Answer(r, half, WantFrom(destination, w, false), twist)
  {
    hide P, Bit, LeafFind, Refs, Holds, NoSharing, Chain, Distinct, TreeHas, Aligned, Floor, WantFrom, FlowDown, Decode, CellOver, Started, Largest, Lacking;
    if Selects(twist, half, destination.root) == 0 {
      RootCell(destination);
      ChunkInRoot(destination);
      LackingFrom(destination, ROOT_REF, destination.root, w, false);
      r := FindRefBits(destination.root, ROOT_REF, destination, w, twist, false);
      if r != NONE {
        InsideAround(half, destination);
        NotFrom(destination, w);
        AroundLayer(half, destination);
        RootLargest(destination, half, WantFrom(destination, w, false));
        RootFirst(half, destination, twist, destination.root, WantFrom(destination, w, false));
        AnswerUp(r, destination.root, half, WantFrom(destination, w, false), WantFrom(destination, w, false), twist);
        return;
      }
      SiblingAnswer(half, w, destination, twist);
      r := LeafFind(destination.root.Sibling(), w, twist);
    } else if w != FILLED {
      CopyAnswer(half, w, destination, twist);
      r := LeafFind(half, w, twist);
    } else {
      var s := FlowDown(twist % P(half.layer));
      FlowAnswer(half, destination, twist);
      r := Decode(s + 1 + s / 2);
    }
  }

  lemma ChunkInRoot(d: BinMap)
    requires Started(d)
    ensures !AllEmpty(d, d.root)
  {
  }

  lemma InsideAround(half: Bin, d: BinMap)
    requires d.Valid() && Around(half, d)
    ensures d.root.End() <= half.End()
  {
    PowerMonotone(d.root.layer, half.layer);
  }

  // ------------------------------------------------------------------
  // Cells of the source around the whole destination

  /** All entries of the stack are strictly around the destination's root. */
  ghost predicate AllAround(stack: seq<Frame>, d: BinMap)
    reads d
  {
    forall k :: 0 <= k < |stack| ==> stack[k].bin.base == 0 && stack[k].bin.layer > d.root.layer
  }

  /** A referenced cell of the source always holds a chunk. */
  lemma RefHasChunk(s: BinMap, ref: nat, bin: Bin) returns (i: nat)
    requires s.Valid() && CellOver(s, ref, bin) && ref != ROOT_REF
    ensures bin.Has(i) && s.Has(i)
  {
    hide Refs, Holds, NoSharing, Chain, Distinct, Bit, P, Aligned, Floor, TreeHas, HasNode, NodeAt, BinAt, CanonicalHalf;
    NotRoot(s.tree, s.root, bin.base, bin.layer);
    CanonicalNode(s.tree, s.root, bin.base, bin.layer);
    NodeFits(s.tree, s.root, bin.base, bin.layer);
    BinAtSpec(s.root, bin.base, bin.layer);
    var n := NodeAt(s.tree, s.root, bin.base, bin.layer);
    i := NotPeriodic(n, bin, EMPTY);
    ZeroBits(i % 32);
    PutHas(s.tree, s.root, bin.base, bin.layer, n, i);
  }

  /** The right half of a bin around the destination's root: the answer is whatever the source has there. */
  method FindRight(half: Bin, h: CellHalf, destination: BinMap, source: BinMap, twist: nat) returns (r: Bin)
    requires destination.Valid() && source.Valid() && half.Ok() && half.layer >= 5 && half.base >= destination.root.End()
    requires (h.Ref? ==> h.r != ROOT_REF && CellOver(source, h.r, half)) && (h.Bitmap? ==> Solid(source, half, h.w))
    requires h != Bitmap(EMPTY)
    ensures r != NONE && Answer(r, half, Want(destination, source, false), twist)
  {
    hide P, Bit, LeafFind, Refs, Holds, NoSharing, Chain, Distinct, TreeHas, Aligned, Floor, CellOver, Lacking, Largest;
    ghost var want := Want(destination, source, false);
    forall i: nat ensures !Bit(EMPTY, i % 32) {
      ZeroBits(i % 32);
    }
    if h.Ref? {
      ghost var i := RefHasChunk(source, h.r, half);
      CellSolid(source, h.r, half);
      LackingFilled(source, half, WantBits(EMPTY, source, false));
      r := FindBitsRef(half, EMPTY, h.r, source, twist, false);
      assert i in WantBits(EMPTY, source, false);
      AnswerUp(r, half, half, WantBits(EMPTY, source, false), want, twist);
    } else {
      LeafAnswer(half, h.w, twist, want);
      r := LeafFind(half, h.w, twist);
    }
  }

  /** The left half: the destination's root itself, or a bitmap around it. */
  method FindLeft(half: Bin, h: CellHalf, destination: BinMap, source: BinMap, twist: nat) returns (r: Bin)
    requires destination.Valid() && source.Valid() && half.Ok() && half.base == 0 && half.layer >= destination.root.layer
    requires (h.Ref? ==> CellOver(source, h.r, half)) && (h.Bitmap? ==> Solid(source, half, h.w))
    requires Started(destination) && (half == destination.root || h.Bitmap?)
    ensures Answer(r, half, Want(destination, source, false), twist)
  {
    hide P, Bit, LeafFind, Refs, Holds, NoSharing, Chain, Distinct, TreeHas, Aligned, Floor, CellOver, Lacking, Largest, Started;
    ghost var want := Want(destination, source, false);
    forall i: nat ensures !Bit(EMPTY, i % 32) {
      ZeroBits(i % 32);
    }
    if h == Bitmap(EMPTY) {
      r := NONE;
    } else if half == destination.root {
      RootCell(destination);
      RootFits(destination);
      ChunkInRoot(destination);
      if h.Ref? {
        LackingRoot(destination.root, destination, want);
        r := FindRefs(destination.root, ROOT_REF, destination, h.r, source, twist, false);
      } else {
        LackingFrom(destination, ROOT_REF, destination.root, h.w, false);
        r := FindRefBits(destination.root, ROOT_REF, destination, h.w, twist, false);
        if r != NONE {
          AnswerUp(r, half, half, WantFrom(destination, h.w, false), want, twist);
        }
      }
    } else {
      r := FindAround(half, h.w, destination, twist);
      AnswerUp(r, half, half, WantFrom(destination, h.w, false), want, twist);
    }
  }

  /** The walk down the source toward the destination's root. */
  method FindOuter(bin: Bin, sref: nat, destination: BinMap, source: BinMap, twist: nat) returns (r: Bin)
    requires destination.Valid() && source.Valid() && CellOver(source, sref, bin) && Around(bin, destination) && Started(destination)
    ensures Answer(r, bin, Want(destination, source, false), twist)
  {
    hide Refs, Holds, NoSharing, Chain, Distinct, Bit, P, Aligned, Floor, TreeHas, CanonicalHalf, Size, HasNode, NodeAt, BinAt, CellsBelow, Total, Ahead, Later, Turned, Lined, Precedes, LeafFind, CellOver, Want, Lacking, Largest, Started;
    ghost var want := Want(destination, source, false);
    var stack := [Push(bin, sref, 0, twist)];
    FirstFrame(source, stack, bin, true);
    CellLayers(source, sref, bin);
    FirstLine(stack, bin, twist);
    while stack != []
      invariant StackOver(source, stack, bin, true) && AllAround(stack, destination)
      invariant Lined(stack, twist) && forall i: nat :: bin.Has(i) && i in want ==> Ahead(stack, i)
      invariant |stack| <= 64
      decreases Total(source, stack, true)
    {
      var f := stack[|stack| - 1];
      PopStack(source, stack, bin, true);
      CellHalves(source, f.sref, f.bin);
      CellLayers(source, f.sref, f.bin);
      AroundHalves(f.bin, destination);
      LinePop(stack, twist);
      LackingAround(f.bin, destination, source);
      stack := Popped(stack);
      var h := if f.IsLeft() then source.cells[f.sref].left else source.cells[f.sref].right;
      var half := f.Half();
      if f.IsLeft() {
        if half != destination.root && h.Ref? {
          var child := Push(half, h.r, 0, twist);
          PushStack(source, stack, child, bin, true);
          LinePush(stack, child, twist);
          stack := stack + [child];
        } else {
          r := FindLeft(half, h, destination, source, twist);
          if r != NONE {
            HalfLargest(f.bin, half, bin, want);
            LineLater(half, bin, stack, want, twist);
            AnswerUp(r, half, bin, want, want, twist);
            return;
          }
        }
      } else if h != Bitmap(EMPTY) {
        r := FindRight(half, h, destination, source, twist);
        HalfLargest(f.bin, half, bin, want);
        LineLater(half, bin, stack, want, twist);
        AnswerUp(r, half, bin, want, want, twist);
        return;
      } else {
        NotWanted(source, destination, half);
      }
    }
    NoneLeft(bin, want, twist);
    r := NONE;
  }

  lemma LackingAround(bin: Bin, d: BinMap, s: BinMap)
    requires d.Valid() && Started(d) && bin.Ok() && bin.base == 0 && bin.layer > d.root.layer
    ensures Lacking(bin, Want(d, s, false))
  {
    hide Refs, Holds, NoSharing, Chain, Distinct, TreeHas, Aligned, Started, Lacking, BinMap.Has, P;
    RootFits(d);
    InsideAround(bin, d);
    LackingRoot(bin, d, Want(d, s, false));
  }

  lemma NotWanted(s: BinMap, d: BinMap, half: Bin)
    requires Solid(s, half, EMPTY)
    ensures forall i: nat :: half.Has(i) ==> i !in Want(d, s, false)
  {
    forall i: nat ensures !Bit(EMPTY, i % 32) {
      ZeroBits(i % 32);
    }
  }

  /** The halves of a bin strictly around the destination's root. */
  lemma AroundHalves(b: Bin, d: BinMap)
    requires d.Valid() && b.Ok() && b.base == 0 && b.layer > d.root.layer
    ensures b.Left().Ok() && b.Right().Ok() && b.Left().base == 0 && b.Left().layer >= d.root.layer
    ensures b.Left() != d.root ==> b.Left().layer > d.root.layer
    ensures b.Right().base >= d.root.End()
  {
    hide Refs, Holds, NoSharing, Chain, Distinct, TreeHas;
    HalvesOk(b);
    PowerMonotone(d.root.layer, b.layer - 1);
  }

  // ------------------------------------------------------------------
  // The two searches

  /** A full source cell over a range that the destination does not have. */
  lemma FullAnswer(rng: Bin, sref: nat, destination: BinMap, source: BinMap, twist: nat, matching: bool)
    requires source.Valid() && CellOver(source, sref, rng)
    requires Solid(destination, rng, if matching then FILLED else EMPTY)
    ensures sref < |source.cells|
    ensures source.cells[sref] == Used(Bitmap(FILLED), Bitmap(FILLED)) ==> Answer(rng, rng, Want(destination, source, matching), twist) && rng != NONE
  {
    hide Refs, Holds, NoSharing, Chain, Distinct, Bit, P, Aligned, Floor, TreeHas, CanonicalHalf, Size, HasNode, NodeAt, BinAt, CellsBelow, Largest;
    CellHalves(source, sref, rng);
    CellLayers(source, sref, rng);
    forall i: nat ensures Bit(FILLED, i % 32) && !Bit(EMPTY, i % 32) {
      ZeroBits(i % 32);
      FilledBits(i % 32);
    }
    if source.cells[sref] == Used(Bitmap(FILLED), Bitmap(FILLED)) {
      forall i: nat | rng.Has(i) ensures source.Has(i) {
        assert rng.Left().Has(i) || rng.Right().Has(i);
      }
      assert rng.Has(rng.base);
      OwnLargest(rng, Want(destination, source, matching));
      forall c: nat | rng.Has(c) ensures WholeBlock(c, rng, Want(destination, source, matching)) {
        BlockInside(rng, c);
      }
    }
  }

  /** The source's part of the range against a destination that is one bitmap there. */
  method AgainstBits(rng: Bin, isRef: bool, sref: nat, w: Word, dbm: Word, destination: BinMap, source: BinMap, twist: nat, matching: bool) returns (r: Bin)
    requires source.Valid() && rng.Ok() && Solid(destination, rng, dbm)
    requires if isRef then CellOver(source, sref, rng) else Pattern(source, rng, w)
    ensures Answer(r, rng, Want(destination, source, matching), twist)
  {
    hide Refs, Holds, NoSharing, Chain, Distinct, Bit, P, Aligned, Floor, TreeHas, CanonicalHalf, CellOver, Pattern, Want, Lacking, Largest;
    if isRef {
      if dbm == if matching then FILLED else EMPTY {
        FullAnswer(rng, sref, destination, source, twist, matching);
        if source.cells[sref] == Used(Bitmap(FILLED), Bitmap(FILLED)) {
          return rng;
        }
      }
      BitsLacking(rng, sref, dbm, source, matching);
      r := FindBitsRef(rng, dbm, sref, source, twist, matching);
      BitsAgree(rng, dbm, destination, source, matching);
      if r != NONE {
        AnswerUp(r, rng, rng, WantBits(dbm, source, matching), Want(destination, source, matching), twist);
      } else {
        NoneAgrees(rng, WantBits(dbm, source, matching), Want(destination, source, matching), twist);
      }
    } else {
      r := FindPattern(rng, dbm, w, destination, source, twist, matching);
    }
  }

  lemma BitsLacking(rng: Bin, sref: nat, dbm: Word, source: BinMap, matching: bool)
    requires source.Valid() && CellOver(source, sref, rng)
    requires sref < |source.cells| && source.cells[sref] == Used(Bitmap(FILLED), Bitmap(FILLED)) ==> dbm != if matching then FILLED else EMPTY
    ensures Lacking(rng, WantBits(dbm, source, matching))
  {
    hide Refs, Holds, NoSharing, Chain, Distinct, Bit, P, Aligned, Floor, TreeHas, CanonicalHalf, CellOver;
    var want := WantBits(dbm, source, matching);
    CellSolid(source, sref, rng);
    CellLayers(source, sref, rng);
    if AllFilled(source, rng) {
      var i := BitsSeparate(rng, dbm, if matching then FILLED else EMPTY);
      ZeroBits(i % 32);
      FilledBits(i % 32);
      assert rng.Has(i) && i !in want;
    } else {
      LackingFilled(source, rng, want);
    }
  }

  lemma BitsAgree(rng: Bin, dbm: Word, destination: BinMap, source: BinMap, matching: bool)
    requires Solid(destination, rng, dbm)
    ensures Agree(rng, WantBits(dbm, source, matching), Want(destination, source, matching))
  {
  }

  lemma NoneAgrees(rng: Bin, a: iset<nat>, b: iset<nat>, twist: nat)
    requires Answer(NONE, rng, a, twist) && Agree(rng, a, b)
    ensures Answer(NONE, rng, b, twist)
  {
  }

  /** A range inside the destination's root. */
  method AgainstInside(rng: Bin, isRef: bool, sref: nat, w: Word, destination: BinMap, source: BinMap, twist: nat, matching: bool) returns (r: Bin)
    requires destination.Valid() && source.Valid() && rng.Ok() && destination.root.Contains(rng)
    requires if isRef then CellOver(source, sref, rng) else Pattern(source, rng, w)
    requires matching || Started(destination)
    ensures Answer(r, rng, Want(destination, source, matching), twist)
  {
    hide Refs, Holds, NoSharing, Chain, Distinct, Bit, P, Aligned, Floor, TreeHas, CanonicalHalf, HasNode, NodeAt, BinAt, Fits, Bin.Contains, Pattern, Answer, Lacking, Started;
    ContainsMeaning(destination.root, rng);
    var dref, dbin, href := destination.Trace(rng, rng.base);
    if rng == dbin {
      NodeCell(destination.cells, destination.tree, destination.root, rng.base, rng.layer);
      assert CellOver(destination, dref, rng);
      CellLacks(destination, dref, rng, w, source, matching);
      if matching && destination.cells[dref] == Used(Bitmap(FILLED), Bitmap(FILLED)) {
        FullCell(destination, dref, rng);
        r := AgainstBits(rng, isRef, sref, w, FILLED, destination, source, twist, true);
      } else if isRef {
        r := FindRefs(rng, dref, destination, sref, source, twist, matching);
      } else {
        PatternAgrees(rng, w, destination, source, matching);
        r := FindRefBits(rng, dref, destination, w, twist, matching);
        Transfer(r, rng, WantFrom(destination, w, matching), Want(destination, source, matching), twist);
      }
    } else {
      StoppedHalf(destination, dref, dbin, rng);
      Direction(dbin, rng);
      var dbm := if rng.V() < dbin.V() then destination.cells[dref].left.w else destination.cells[dref].right.w;
      if dbm == if matching then EMPTY else FILLED {
        NothingWanted(rng, dbm, destination, source, twist, matching);
        r := NONE;
      } else {
        r := AgainstBits(rng, isRef, sref, w, dbm, destination, source, twist, matching);
      }
    }
  }

  lemma CellLacks(d: BinMap, ref: nat, bin: Bin, w: Word, source: BinMap, matching: bool)
    requires d.Valid() && CellOver(d, ref, bin) && (matching || Started(d))
    ensures ref < |d.cells|
    ensures !(matching && d.cells[ref] == Used(Bitmap(FILLED), Bitmap(FILLED))) ==>
      Lacking(bin, WantFrom(d, w, matching)) && Lacking(bin, Want(d, source, matching))
  {
    hide Refs, Holds, NoSharing, Chain, Distinct, Bit, P, Aligned, Floor, TreeHas, HasNode, NodeAt, BinAt, CanonicalHalf, AllEmpty, AllFilled;
    CellSolid(d, ref, bin);
    var a, b := WantFrom(d, w, matching), Want(d, source, matching);
    if matching && d.cells[ref] != Used(Bitmap(FILLED), Bitmap(FILLED)) {
      LackingFilled(d, bin, a);
      LackingFilled(d, bin, b);
    } else if !matching {
      if ref == ROOT_REF {
        RootOnly(d.tree, d.root, bin.base, bin.layer);
        BinAtSpec(d.root, bin.base, bin.layer);
      }
      LackingEmpty(d, bin, a);
      LackingEmpty(d, bin, b);
    }
  }

  lemma Transfer(r: Bin, rng: Bin, a: iset<nat>, b: iset<nat>, twist: nat)
    requires Answer(r, rng, a, twist) && Agree(rng, a, b)
    ensures Answer(r, rng, b, twist)
  {
    if r != NONE {
      AnswerUp(r, rng, rng, a, b, twist);
    }
  }

  lemma PatternAgrees(rng: Bin, w: Word, destination: BinMap, source: BinMap, matching: bool)
    requires Pattern(source, rng, w)
    ensures Agree(rng, WantFrom(destination, w, matching), Want(destination, source, matching))
  {
  }

  lemma NothingWanted(rng: Bin, dbm: Word, destination: BinMap, source: BinMap, twist: nat, matching: bool)
    requires Solid(destination, rng, dbm) && dbm == if matching then EMPTY else FILLED
    ensures Answer(NONE, rng, Want(destination, source, matching), twist)
  {
    forall i: nat ensures Bit(FILLED, i % 32) && !Bit(EMPTY, i % 32) {
      ZeroBits(i % 32);
      FilledBits(i % 32);
    }
  }

  lemma FullCell(m: BinMap, ref: nat, bin: Bin)
    requires m.Valid() && CellOver(m, ref, bin)
    requires ref < |m.cells| && m.cells[ref] == Used(Bitmap(FILLED), Bitmap(FILLED))
    ensures Solid(m, bin, FILLED)
  {
    hide Refs, Holds, NoSharing, Chain, Distinct, Bit, P, Aligned, Floor, TreeHas, CanonicalHalf, Size, HasNode, NodeAt, BinAt, CellsBelow;
    CellHalves(m, ref, bin);
    forall i: nat | bin.Has(i) ensures m.Has(i) <==> Bit(FILLED, i % 32) {
      assert bin.Left().Has(i) || bin.Right().Has(i);
    }
  }

  /** An answer for the narrowed range is an answer for the range. */
  lemma Widen(r: Bin, rng: Bin, range: Bin, want: iset<nat>, twist: nat)
    requires Answer(r, rng, want, twist) && range.base <= rng.base && rng.End() <= range.End()
    requires forall i: nat :: range.Has(i) && i in want ==> rng.Has(i)
    requires rng == range || (rng.Ok() && rng.layer >= 5 && Largest(rng, range, want))
    ensures Answer(r, range, want, twist)
  {
    if r != NONE {
      AnswerUp(r, rng, range, want, want, twist);
    }
  }

  /** find_complement(destination, source, range, twist). */
  method FindComplement(destination: BinMap, source: BinMap, range: Bin, twist: nat) returns (r: Bin)
    requires destination.Valid() && source.Valid() && (range.Ok() || range == NONE)
    ensures range == NONE ==> r == NONE
    ensures range.Ok() ==> Answer(r, range, Want(destination, source, false), twist)
  {
    hide Refs, Holds, NoSharing, Chain, Distinct, Bit, P, Aligned, Floor, TreeHas, CanonicalHalf, HasNode, NodeAt, BinAt, Fits, Bin.Contains, CellOver, Pattern, Answer, Largest, Started;
    ghost var want := Want(destination, source, false);
    var found, rng, isRef, sref, w := Narrow(source, range);
    if !found {
      if range.Ok() {
        NothingInRange(range, want, twist);
      }
      return NONE;
    }
    var e := IsEmpty(destination);
    SolidEmpty(destination, rng);
    RootHoldsAll(destination);
    NestedOrDisjoint(rng, destination.root);
    NestedOrDisjoint(destination.root, rng);
    if e {
      r := AgainstBits(rng, isRef, sref, w, EMPTY, destination, source, twist, false);
    } else if destination.root.Contains(rng) {
      r := AgainstInside(rng, isRef, sref, w, destination, source, twist, false);
    } else if !rng.Contains(destination.root) {
      r := AgainstBits(rng, isRef, sref, w, EMPTY, destination, source, twist, false);
    } else {
      OverRoot(destination.root, rng);
      StrictlyAround(rng, destination);
      if isRef {
        r := FindOuter(rng, sref, destination, source, twist);
      } else {
        PatternWord(source, rng, w);
        r := FindAround(rng, w, destination, twist);
        PatternAgrees(rng, w, destination, source, false);
        Transfer(r, rng, WantFrom(destination, w, false), want, twist);
      }
    }
    OnlyInside(source, range, want);
    Widen(r, rng, range, want, twist);
  }

  lemma RootHoldsAll(d: BinMap)
    requires d.Valid()
    ensures Started(d) || forall i: nat :: !d.Has(i)
  {
  }

  lemma PatternWord(s: BinMap, rng: Bin, w: Word)
    requires Pattern(s, rng, w)
    ensures w != EMPTY
  {
  }

  lemma StrictlyAround(rng: Bin, d: BinMap)
    requires d.Valid() && rng.Ok() && rng.Contains(d.root) && !d.root.Contains(rng)
    ensures Around(rng, d)
  {
    OverRoot(d.root, rng);
    ContainsMeaning(d.root, rng);
    ContainsMeaning(rng, d.root);
  }

  lemma NothingInRange(range: Bin, want: iset<nat>, twist: nat)
    requires forall i: nat :: range.Has(i) ==> i !in want
    ensures Answer(NONE, range, want, twist)
  {
  }

  /** find_match(destination, source, range, twist). */
  method FindMatch(destination: BinMap, source: BinMap, range: Bin, twist: nat) returns (r: Bin)
    requires destination.Valid() && source.Valid() && (range.Ok() || range == NONE)
    ensures range == NONE ==> r == NONE
    ensures range.Ok() ==> Answer(r, range, Want(destination, source, true), twist)
    decreases range.layer
  {
    hide Refs, Holds, NoSharing, Chain, Distinct, Bit, P, Aligned, Floor, TreeHas, CanonicalHalf, HasNode, NodeAt, BinAt, Fits, Bin.Contains, CellOver, Pattern, Answer, Largest, Started;
    ghost var want := Want(destination, source, true);
    var found, rng, isRef, sref, w := Narrow(source, range);
    if !found {
      if range.Ok() {
        NothingInRange(range, want, twist);
      }
      return NONE;
    }
    NestedOrDisjoint(rng, destination.root);
    NestedOrDisjoint(destination.root, rng);
    if destination.root.Contains(rng) {
      r := AgainstInside(rng, isRef, sref, w, destination, source, twist, true);
    } else if rng.Contains(destination.root) {
      StrictlyAround(rng, destination);
      InsideLayer(rng, range);
      InsideAround(rng, destination);
      AroundLayer(rng, destination);
      r := FindMatch(destination, source, destination.root, twist);
      OnlyInside(destination, rng, want);
      Widen(r, destination.root, rng, want, twist);
    } else {
      NothingInRange(rng, want, twist);
      r := NONE;
    }
    OnlyInside(source, range, want);
    Widen(r, rng, range, want, twist);
  }

  lemma InsideLayer(b: Bin, c: Bin)
    requires b.Ok() && c.Ok() && c.base <= b.base && b.End() <= c.End()
    ensures b.layer <= c.layer
  {
    if b.layer > c.layer {
      PowerMonotone(c.layer, b.layer);
      assert false;
    }
  }

  /** The chunks below the limit that the second map has and the first lacks. */
  ghost function Missing(d: BinMap, s: BinMap): set<nat>
    reads d, s
  {
    set i: nat | i < LIMIT && s.Has(i) && !d.Has(i)
  }

  /** find_complement with no twist, for callers whose chunks are below the limit. */
  method FindLow(destination: BinMap, source: BinMap, range: Bin) returns (r: Bin)
    requires destination.Valid() && source.Valid() && range.Ok()
    requires forall i: nat :: range.Has(i) && source.Has(i) ==> i < LIMIT
    ensures r == NONE <==> forall i: nat :: range.Has(i) && source.Has(i) ==> destination.Has(i)
    ensures r != NONE ==> r.Ok() && r.Has(r.base) && range.base <= r.base && r.End() <= range.End()
    ensures r != NONE ==> forall i: nat :: r.Has(i) ==> source.Has(i) && !destination.Has(i)
    ensures r != NONE ==> r.base in Missing(destination, source) && Largest(r, range, Want(destination, source, false))
    ensures r != NONE ==> forall i: nat :: range.Has(i) && source.Has(i) && !destination.Has(i) ==> r.base <= i
  {
    hide BinMap.Valid, BinMap.Has, P, Aligned;
    r := FindComplement(destination, source, range, 0);
    ghost var want := Want(destination, source, false);
    if r == NONE {
      forall i: nat | range.Has(i) && source.Has(i) ensures destination.Has(i) {
        assert i !in want;
      }
    } else {
      NotEmpty(r);
      var c := AnswerLow(r, range, want, 0);
      assert r.base in want;
      NoTwistRank(c);
      NoTwistRank(r.base);
      forall i: nat | range.Has(i) && source.Has(i) && !destination.Has(i) ensures r.base <= i {
        NoTwistRank(i);
        assert i in want;
      }
    }
  }

  /** Below the limit an answer is always a bin of wanted chunks that holds the first of them. */
  lemma AnswerLow(r: Bin, range: Bin, want: iset<nat>, twist: nat) returns (c: nat)
    requires Answer(r, range, want, twist) && r != NONE
    requires forall i: nat :: range.Has(i) && i in want ==> i < LIMIT
    ensures Right(r, range, want) && IsFirst(c, range, want, twist) && r.Has(c)
  {
    hide P, Bin.Ok, Rank, Aligned, Floor, Right;
    var i: nat :| range.Has(i) && i in want;
    c := FirstExists(range, want, twist, i);
    assert Found(c, r, range, want);
  }

  /** And there is only one such answer. */
  lemma AnswerOne(r: Bin, q: Bin, range: Bin, want: iset<nat>, twist: nat)
    requires Answer(r, range, want, twist) && Answer(q, range, want, twist)
    requires forall i: nat :: range.Has(i) && i in want ==> i < LIMIT
    ensures r == q
  {
    hide P, Bin.Ok, Rank, Aligned, Floor, Right;
    if r != NONE {
      var c := AnswerLow(r, range, want, twist);
      var d := AnswerLow(q, range, want, twist);
      FirstOne(c, d, range, want, twist);
      RightOne(r, q, range, want, c);
    }
  }

  /** Around one chunk there is one biggest wanted bin. */
  lemma RightOne(r: Bin, q: Bin, range: Bin, want: iset<nat>, c: nat)
    requires Right(r, range, want) && Right(q, range, want) && r.Has(c) && q.Has(c)
    ensures r == q
  {
    hide P, Aligned, Floor;
    if r.layer == q.layer {
      FloorUnique(c, r.base, r.layer);
      FloorUnique(c, q.base, q.layer);
    } else if r.layer < q.layer {
      SmallerInside(r, q, c);
      ParentWanted(r, q, range, want);
    } else {
      SmallerInside(q, r, c);
      ParentWanted(q, r, range, want);
    }
  }

  lemma SmallerInside(r: Bin, q: Bin, c: nat)
    requires r.Ok() && q.Ok() && r.layer < q.layer && r.Has(c) && q.Has(c)
    ensures q.base <= r.base && r.End() <= q.End() && q != r
  {
    hide P, Aligned, Floor;
    NestedOrDisjoint(q, r);
    ContainsMeaning(q, r);
  }

  /** The parent of a smaller bin inside a bin of wanted chunks is wanted as a whole. */
  lemma ParentWanted(r: Bin, q: Bin, range: Bin, want: iset<nat>)
    requires Right(q, range, want) && r.Ok() && q.base <= r.base && r.End() <= q.End() && q != r
    ensures !Largest(r, range, want)
  {
    hide P, Aligned, Floor, Bin.Parent, Bin.Ok;
    ParentInside(q, r);
    forall i: nat | r.Parent().Has(i) ensures range.Has(i) && i in want {
      assert q.Has(i);
    }
  }

  /** With a twist below the limit: an answer is right and starts where it should exactly if the first wanted chunk is safe. */
  lemma AnswerExact(r: Bin, range: Bin, want: iset<nat>, twist: nat, c: nat)
    requires Answer(r, range, want, twist) && r != NONE && twist < LIMIT && IsFirst(c, range, want, twist)
    ensures Right(r, range, want) && r.Has(c) <==> c < LIMIT || WholeBlock(c, range, want)
  {
    hide P, Bin.Ok, Rank, Aligned, Floor, Right, WholeBlock;
    assert Found(c, r, range, want);
  }

  /** So it is wrong whenever all wanted chunks lie beyond the limit and no block of 32 is wanted as a whole. */
  lemma AnswerBeyond(r: Bin, range: Bin, want: iset<nat>, twist: nat)
    requires Answer(r, range, want, twist) && r != NONE && twist < LIMIT
    requires forall i: nat :: range.Has(i) && i in want ==> i >= LIMIT && !WholeBlock(i, range, want)
    ensures r.Ok() && r.End() <= LIMIT && forall i: nat :: r.Has(i) && range.Has(i) ==> i !in want
  {
    hide P, Bin.Ok, Rank, Aligned, Floor, Right, WholeBlock;
    var i: nat :| range.Has(i) && i in want;
    var c := FirstExists(range, want, twist, i);
    assert Found(c, r, range, want);
  }

  /** An empty map and one that holds only chunk 2^31: the answer is a bin without it. */
  method FindBeyond() returns (r: Bin, source: BinMap)
    ensures fresh(source) && source.Valid() && source.Has(LIMIT)
    ensures r.Ok() && r.End() <= LIMIT && forall i: nat :: r.Has(i) ==> !source.Has(i)
  {
    hide BinMap.Valid, BinMap.Has, Answer, Floor, P, Aligned;
    var destination := new BinMap();
    source := new BinMap();
    OneBeyond();
    source.Set(Bin(0, LIMIT));
    r := FindComplement(destination, source, ALL, 0);
    ghost var want := Want(destination, source, false);
    forall i: nat | ALL.Has(i) && i in want ensures i >= LIMIT && !WholeBlock(i, ALL, want) {
      assert i == LIMIT;
      FloorSpec(i, 5);
      SmallPowers();
      assert !(Floor(i, 5) in want && Floor(i, 5) + 31 in want);
    }
    assert LIMIT in want;
    SomethingThere(r, ALL, want, 0, LIMIT);
    AnswerBeyond(r, ALL, want, 0);
  }

  lemma OneBeyond()
    ensures Bin(0, LIMIT).Ok() && Bin(0, LIMIT) != NONE && ALL.Ok() && ALL.Has(LIMIT)
    ensures forall i: nat :: Bin(0, LIMIT).Has(i) <==> i == LIMIT
    ensures forall i: nat :: i < LIMIT ==> ALL.Has(i)
  {
    Power31();
    PowerMonotone(32, 63);
    SmallPowers();
    ZeroAligned(63);
  }

  lemma SomethingThere(r: Bin, range: Bin, want: iset<nat>, twist: nat, i: nat)
    requires Answer(r, range, want, twist) && range.Has(i) && i in want
    ensures r != NONE
  {
  }

  lemma NotEmpty(b: Bin)
    ensures b.Has(b.base)
  {
  }
}
