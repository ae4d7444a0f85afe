/** The innermost search: the first bin, in twisted order, of a half where both maps are bitmaps. */
module Leaf {
  import opened Powers
  import opened Bits
  import opened Bins
  import opened Words
  import opened Leftmost
  import opened Twist
  import opened Order

  /** The first bin number of the 32-chunk block searched: computed in 32 bits. */
  function BlockNumber(bin: Bin, twist: nat): nat {
    var tw := twist % P(bin.layer);
    var v := 2 * Xor(bin.base, tw - tw % 32) % 0x1_0000_0000;
    v - v % 64
  }

  /** _find_complement on two bitmaps, after they are combined. */
  function LeafFind(bin: Bin, bitmap: Word, twist: nat): Bin
    requires bitmap != EMPTY
  {
    if bitmap == FILLED then bin
    else
      var tw := twist % P(bin.layer);
      TwistWordEmpty(bitmap, tw % 32);
      Twisted(Decode(BlockNumber(bin, twist) + BitmapToBin(TwistWord(bitmap, tw % 32))), tw % 32)
  }

  /** The first chunk of the block searched. */
  function Block(bin: Bin, twist: nat): nat {
    BlockNumber(bin, twist) / 2
  }

  lemma Floor5(x: nat)
    ensures Floor(x, 5) == x - x % 32
  {
    hide P, Floor, Aligned;
    FloorSpec(x, 5);
    SmallPowers();
    AlignedMod(Floor(x, 5), 5);
    ModBlock(Floor(x, 5), x);
  }

  lemma BlockSpec(bin: Bin, twist: nat)
    requires bin.Ok()
    ensures BlockNumber(bin, twist) == 2 * Block(bin, twist)
    ensures Block(bin, twist) % 32 == 0 && Block(bin, twist) < 0x8000_0000
    ensures Aligned(Block(bin, twist), 5)
  {
    hide P, Xor, Aligned;
    SmallPowers();
    EvenBlock(Xor(bin.base, twist % P(bin.layer) - twist % P(bin.layer) % 32));
    AlignedMod(Block(bin, twist), 5);
  }

  lemma EvenMod(x: nat)
    ensures var v := 2 * x % 0x1_0000_0000; v % 2 == 0 && v == 2 * (x % 0x8000_0000) && v - v % 64 == 2 * (x % 0x8000_0000 - x % 0x8000_0000 % 32)
  {
  }

  lemma EvenBlock(x: nat)
    ensures var v := 2 * x % 0x1_0000_0000; var b := (v - v % 64) / 2; v - v % 64 == 2 * b && b % 32 == 0 && b < 0x8000_0000
  {
    EvenMod(x);
    BlockOf(x % 0x8000_0000);
  }

  lemma BlockOf(y: nat)
    ensures (y - y % 32) % 32 == 0
  {
  }

  lemma EvenModSmall(x: nat)
    requires x < 0x8000_0000 && x % 32 == 0
    ensures var v := 2 * x % 0x1_0000_0000; v - v % 64 == 2 * x
  {
  }

  /** Without the cut to 32 bits: the block of the half that the twist selects. */
  lemma BlockExact(bin: Bin, twist: nat)
    requires bin.Ok() && bin.layer >= 5 && bin.End() <= 0x8000_0000
    ensures Block(bin, twist) == bin.base + Floor(twist % P(bin.layer), 5)
    ensures Block(bin, twist) + 32 <= bin.End()
  {
    hide P, Xor, Aligned, Floor;
    var tw := twist % P(bin.layer);
    var f := Floor(tw, 5);
    Floor5(tw);
    SmallPowers();
    FloorSpec(tw, 5);
    AlignedSmall(f, bin.base, bin.layer);
    EvenModSmall(bin.base + f);
    assert BlockNumber(bin, twist) == 2 * (bin.base + f);
  }

  lemma AlignedSmall(f: nat, base: nat, l: nat)
    requires l >= 5 && Aligned(f, 5) && f < P(l) && Aligned(base, l)
    ensures Xor(base, f) == base + f && (base + f) % 32 == 0 && f + 32 <= P(l)
  {
    hide P, Xor, Aligned, Floor;
    SmallPowers();
    XorDisjoint(base, f, l);
    PowerAligned(5, l);
    AlignedStep(f, P(l), 5);
    AlignedBelow(base, 5, l);
    AlignedSum(base, f, 5);
    AlignedMod(base + f, 5);
  }

  lemma BlockLow(bin: Bin, twist: nat)
    requires bin.Ok() && bin.layer < 5 && bin.End() <= 0x8000_0000
    ensures Block(bin, twist) == Floor(bin.base, 5)
  {
    hide P, Xor, Aligned, Floor;
    var tw := twist % P(bin.layer);
    Floor5(bin.base);
    SmallPowers();
    PowerMonotone(bin.layer, 5);
    assert tw - tw % 32 == 0;
    XorZero(bin.base);
    EvenMod(bin.base);
  }

  /** A twisted bin inside an aligned block: where its chunks come from. */
  lemma TwistInBlock(s: nat, c: Bin, t: nat)
    requires Aligned(s, 5) && s < 0x8000_0000 && c.layer <= 5 && Aligned(c.base, c.layer) && c.End() <= 32 && t < 32
    ensures var r := Twisted(Bin(c.layer, s + c.base), t);
      r.Ok() && r.layer <= 5 && s <= r.base && r.End() <= s + 32 &&
      forall i: nat :: r.Has(i) ==> s <= i < s + 32 && i % 32 == i - s && c.Has(Xor(i - s, t)) && Xor(Xor(i - s, t), t) == i - s
  {
    hide P, Xor, Aligned, Floor, Twisted;
    AlignedBelow(s, c.layer, 5);
    AlignedSum(s, c.base, c.layer);
    var d := Bin(c.layer, s + c.base);
    var r := Twisted(d, t);
    assert r.layer == c.layer by { TwistedLayer(d, t); }
    SmallPowers();
    AlignedMod(s, 5);
    forall i: nat | r.Has(i) ensures s <= i < s + 32 && i % 32 == i - s && c.Has(Xor(i - s, t)) && Xor(Xor(i - s, t), t) == i - s {
      TwistedHas(d, t, i);
      TwistedOffset(s, i, t);
      XorInvolution(i - s, t);
      ModBlock(s, i);
    }
    TwistedHas(d, t, r.base);
    assert r.Has(r.base) && r.Has(r.End() - 1);
    PowerMonotone(32, 63);
  }

  lemma TwistedLayer(b: Bin, t: nat)
    ensures Twisted(b, t).layer == b.layer
  {
  }

  /** A bit of the parent is not set, so the parent is no answer. */
  ghost predicate Bounded(r: Bin, bm: Word) {
    exists i: nat :: r.Parent().Has(i) && !Bit(bm, i % 32)
  }

  lemma TwistNotFull(w: Word, t: nat)
    requires t < 32 && w != FILLED
    ensures TwistWord(w, t) != FILLED
  {
    hide Bit, Xor, TwistWord;
    if TwistWord(w, t) == FILLED {
      TwistWordBits(w, t);
      SmallPowers();
      forall j: nat | j < 32 ensures Bit(w, j) <==> Bit(FILLED, j) {
        XorBound(j, t, 5);
        XorInvolution(j, t);
        FilledBits(j);
        FilledBits(Xor(j, t));
      }
      BitsDetermine(w, FILLED, 32);
      assert false;
    }
  }

  /** A gap beside a bin is one beside the twisted bin. */
  lemma TwistGap(s: nat, c: Bin, t: nat, w: Word, bm: Word)
    requires Aligned(s, 5) && s < 0x8000_0000 && c.layer < 5 && Aligned(c.base, c.layer) && c.End() <= 32 && t < 32
    requires Gap(w, c, 32) && forall j: nat :: j < 32 ==> (Bit(w, j) <==> Bit(bm, Xor(j, t)))
    ensures Bounded(Twisted(Bin(c.layer, s + c.base), t), bm)
  {
    hide P, Xor, Aligned, Floor, Bit;
    var j: nat :| j < 32 && c.Parent().Has(j) && !Bit(w, j);
    var l, d := c.layer + 1, Bin(c.layer, s + c.base);
    var r, i := Twisted(d, t), s + Xor(j, t);
    TwistInBlock(s, c, t);
    AlignedBelow(s, l, 5);
    AlignedBelow(s, c.layer, 5);
    AlignedSum(s, c.base, c.layer);
    FloorSpec(c.base, l);
    AlignedSum(s, Floor(c.base, l), l);
    FloorUnique(s + c.base, s + Floor(c.base, l), l);
    Laminar(s + c.base, c.layer, s + Floor(c.base, l), l);
    var u := Bin(l, s + Floor(c.base, l));
    SmallPowers();
    XorBound(j, t, 5);
    XorInvolution(j, t);
    XorLow(s, Xor(j, t), t, 5);
    TwistedHas(u, t, i);
    TwistedHas(d, t, r.base);
    TwistedHas(u, t, r.base);
    TwistedLayer(u, t);
    TwistedLayer(d, t);
    FloorUnique(r.base, Twisted(u, t).base, l);
    AlignedMod(s, 5);
    ModBlock(s, i);
    assert r.Parent().Has(i) && i % 32 == Xor(j, t);
  }

  /** The result is a bin inside the block whose chunks all have their bit set, and no part of a bigger one. */
  lemma LeafSpec(bin: Bin, bm: Word, twist: nat)
    requires bin.Ok() && bm != EMPTY && bm != FILLED
    ensures var r, s := LeafFind(bin, bm, twist), Block(bin, twist);
      r.Ok() && r.layer <= 5 && s <= r.base && r.End() <= s + 32 && Bounded(r, bm) &&
      forall i: nat :: r.Has(i) ==> Bit(bm, i % 32)
  {
    hide P, Xor, Aligned, Floor, Bit, Decode, BitmapToBin, TwistWord, BlockNumber, Twisted, Bin.Ok, Block, Bounded, Gap;
    var t := twist % P(bin.layer) % 32;
    var w, s := TwistWord(bm, t), Block(bin, twist);
    TwistWordEmpty(bm, t);
    TwistWordBits(bm, t);
    WordStarts(w);
    var c := Decode(BitmapToBin(w));
    BlockSpec(bin, twist);
    AlignedBelow(s, c.layer, 5);
    DecodeShift(BitmapToBin(w), s);
    var d := Bin(c.layer, s + c.base);
    var r := Twisted(d, t);
    assert LeafFind(bin, bm, twist) == r;
    TwistInBlock(s, c, t);
    forall i: nat | r.Has(i) ensures Bit(bm, i % 32) {
      assert Bit(w, Xor(i - s, t));
    }
    TwistNotFull(bm, t);
    TwistGap(s, c, t, w, bm);
  }

  /** The chunk of a block that the search comes to first, as an offset, is in the result. */
  lemma LeafHead(bin: Bin, bm: Word, twist: nat) returns (y0: nat)
    requires bin.Ok() && bm != EMPTY && bm != FILLED
    ensures var t, s := twist % P(bin.layer) % 32, Block(bin, twist);
      y0 < 32 && LeafFind(bin, bm, twist).Has(s + y0) && Bit(bm, y0) && s % 32 == 0 &&
      forall y: nat :: y < 32 && Bit(bm, y) ==> Xor(y0, t) <= Xor(y, t)
  {
    hide P, Xor, Aligned, Floor, Bit, Decode, BitmapToBin, TwistWord, BlockNumber, Twisted, Bin.Ok, Block;
    var t := twist % P(bin.layer) % 32;
    var w, s := TwistWord(bm, t), Block(bin, twist);
    TwistWordEmpty(bm, t);
    TwistWordBits(bm, t);
    WordStarts(w);
    var c := Decode(BitmapToBin(w));
    SmallPowers();
    XorBound(c.base, t, 5);
    XorInvolution(c.base, t);
    y0 := Xor(c.base, t);
    assert c.Has(c.base);
    assert Bit(w, c.base);
    BlockSpec(bin, twist);
    AlignedBelow(s, c.layer, 5);
    AlignedSum(s, c.base, c.layer);
    DecodeShift(BitmapToBin(w), s);
    var d := Bin(c.layer, s + c.base);
    XorLow(s, y0, t, 5);
    TwistedHas(d, t, s + y0);
    forall y: nat | y < 32 && Bit(bm, y) ensures Xor(y0, t) <= Xor(y, t) {
      XorBound(y, t, 5);
      XorInvolution(y, t);
      assert Bit(w, Xor(y, t));
    }
  }

  /** The block searched in a half that starts below 2^31, if the twist does not reach beyond it or the half does not. */
  lemma BlockIs(bin: Bin, twist: nat)
    requires bin.Ok() && bin.layer >= 5 && bin.base < 0x8000_0000
    requires bin.End() <= 0x8000_0000 || twist < 0x8000_0000
    ensures Block(bin, twist) == bin.base + Floor(twist % P(bin.layer), 5)
    ensures Block(bin, twist) + 32 <= bin.End()
  {
    hide P, Xor, Aligned, Floor;
    if bin.End() <= 0x8000_0000 {
      BlockExact(bin, twist);
    } else {
      WideHalf(bin);
      BlockWide(bin, twist);
    }
  }

  lemma BlockWide(bin: Bin, twist: nat)
    requires bin.base == 0 && bin.layer >= 31 && twist < 0x8000_0000
    ensures Block(bin, twist) == Floor(twist % P(bin.layer), 5)
    ensures Block(bin, twist) + 32 <= P(bin.layer)
  {
    hide P, Xor, Aligned, Floor, Block;
    Power31();
    PowerMonotone(31, bin.layer);
    Small(twist, P(bin.layer));
    var f := Floor(twist, 5);
    Floor5(twist);
    FloorSpec(twist, 5);
    ZeroAligned(bin.layer);
    AlignedSmall(f, 0, bin.layer);
    BlockAt(bin, twist, f);
  }

  lemma Small(x: nat, p: nat)
    requires x < p
    ensures x % p == x
  {
  }

  lemma BlockAt(bin: Bin, twist: nat, x: nat)
    requires x == Xor(bin.base, twist % P(bin.layer) - twist % P(bin.layer) % 32) && x < 0x8000_0000 && x % 32 == 0
    ensures Block(bin, twist) == x
  {
    EvenModSmall(x);
  }

  /** The result has the chunk of the half with a set bit that the search comes to first. */
  lemma LeafFirst(bin: Bin, bm: Word, twist: nat) returns (c: nat)
    requires bin.Ok() && bin.layer >= 5 && bm != EMPTY && bm != FILLED && bin.base < 0x8000_0000
    requires bin.End() <= 0x8000_0000 || twist < 0x8000_0000
    ensures LeafFind(bin, bm, twist).Has(c) && bin.Has(c) && Bit(bm, c % 32)
    ensures Block(bin, twist) <= c < Block(bin, twist) + 32 <= bin.End()
    ensures Block(bin, twist) == bin.base + Floor(twist % P(bin.layer), 5)
    ensures forall i: nat :: bin.Has(i) && Bit(bm, i % 32) ==> Rank(c, twist) <= Rank(i, twist)
  {
    hide P, Xor, Aligned, Floor, Bit, LeafFind, Block, Rank, Twisted;
    BlockIs(bin, twist);
    var s := Block(bin, twist);
    var y0 := LeafHead(bin, bm, twist);
    c := s + y0;
    ModBlock(s, c);
    FloorSpec(twist % P(bin.layer), 5);
    SmallPowers();
    FloorUnique(c - bin.base, s - bin.base, 5);
    BlockRank(bin, twist, c);
    forall i: nat | bin.Has(i) && Bit(bm, i % 32) ensures Rank(c, twist) <= Rank(i, twist) {
      BlockRank(bin, twist, i);
      Beats(bm, twist % P(bin.layer) % 32, y0, i);
    }
  }

  lemma Beats(bm: Word, t: nat, y0: nat, i: nat)
    requires Bit(bm, i % 32) && forall y: nat :: y < 32 && Bit(bm, y) ==> Xor(y0, t) <= Xor(y, t)
    ensures Xor(y0, t) <= Xor(i % 32, t)
  {
    hide Bit, Xor;
  }

  /** The place of a chunk of a half in the order: by block, and inside the block selected by the last five digits. */
  lemma BlockRank(bin: Bin, twist: nat, i: nat)
    requires bin.Ok() && bin.layer >= 5 && bin.Has(i)
    ensures var b, r, tw := Twisted(bin, twist).base, Xor(i % 32, twist % P(bin.layer) % 32), twist % P(bin.layer);
      r < 32 && (if Floor(i - bin.base, 5) == Floor(tw, 5) then Rank(i, twist) == b + r else Rank(i, twist) >= b + 32)
  {
    hide P, Xor, Aligned, Floor, Rank, Twisted;
    var u := i - bin.base;
    AlignedBelow(bin.base, 5, bin.layer);
    SmallPowers();
    AlignedMod(bin.base, 5);
    Floor5(u);
    FloorSpec(u, 5);
    RankIn(bin, twist, i);
    SameRemainder(bin.base, i);
    RankOffset(Floor(u, 5), u % 32, twist % P(bin.layer));
  }

  lemma SameRemainder(base: nat, i: nat)
    requires base % 32 == 0 && base <= i
    ensures (i - base) % 32 == i % 32
  {
  }

  /** In the block that the twist selects, only the last five digits count; other blocks come later. */
  lemma RankOffset(a: nat, y: nat, tw: nat)
    requires Aligned(a, 5) && y < 32
    ensures Xor(a + y, tw) == Xor(a, Floor(tw, 5)) + Xor(y, tw % 32)
    ensures Xor(y, tw % 32) < 32 && (a == Floor(tw, 5) ==> Xor(a, Floor(tw, 5)) == 0) && (a != Floor(tw, 5) ==> Xor(a, Floor(tw, 5)) >= 32)
  {
    hide P, Xor, Aligned, Floor;
    SmallPowers();
    var f := Floor(tw, 5);
    Floor5(tw);
    FloorSpec(tw, 5);
    XorParts(a, y, f, tw % 32, 5);
    if a == f {
      XorSelf(a);
    } else if Xor(a, f) < 32 {
      ZeroAligned(5);
      if Xor(a, f) > 0 {
        AlignedStep(0, Xor(a, f), 5);
      }
      XorSelf(f);
      RankOne(a, f, f);
      assert false;
    }
  }

  /** The same for a range of less than a block, where only its own bits are set. */
  lemma LeafFirstLow(bin: Bin, bm: Word, twist: nat) returns (c: nat)
    requires bin.Ok() && bin.layer <= 4 && bm != EMPTY && bm != FILLED && bin.End() <= 0x8000_0000
    ensures LeafFind(bin, bm, twist).Has(c) && Bit(bm, c % 32)
    ensures Floor(bin.base, 5) == Block(bin, twist) <= c < Block(bin, twist) + 32
    ensures bin.Has(c) ==> forall i: nat :: bin.Has(i) && Bit(bm, i % 32) ==> Rank(c, twist) <= Rank(i, twist)
  {
    hide P, Xor, Aligned, Floor, Bit, LeafFind, Block, Rank, Twisted;
    BlockLow(bin, twist);
    var y0 := LeafHead(bin, bm, twist);
    var s := Block(bin, twist);
    c := s + y0;
    ModBlock(s, c);
    SmallPowers();
    PowerMonotone(bin.layer, 4);
    FloorSpec(bin.base, 5);
    UpSpec(bin, 5);
    if bin.Has(c) {
      LowOffset(bin, s, twist, c);
      forall i: nat | bin.Has(i) && Bit(bm, i % 32) ensures Rank(c, twist) <= Rank(i, twist) {
        LowOffset(bin, s, twist, i);
        ModBlock(s, i);
      }
    }
  }

  lemma LowOffset(bin: Bin, s: nat, twist: nat, i: nat)
    requires bin.Ok() && bin.layer <= 4 && bin.Has(i) && s == Floor(bin.base, 5)
    ensures var tw := twist % P(bin.layer);
      tw % 32 == tw && i >= s && Rank(i, twist) + (bin.base - s) == Twisted(bin, twist).base + Xor(i - s, tw)
  {
    hide P, Xor, Aligned, Floor, Rank, Twisted;
    var l, tw := bin.layer, twist % P(bin.layer);
    SmallPowers();
    PowerMonotone(l, 4);
    FloorSpec(bin.base, 5);
    RankIn(bin, twist, i);
    AlignedBelow(s, l, 5);
    AlignedDifference(bin.base, s, l);
    XorLow(bin.base - s, i - bin.base, tw, l);
  }

  /** Twisting by less than 32 stays inside a block of 32. */
  lemma TwistedOffset(s: nat, i: nat, t: nat)
    requires Aligned(s, 5) && t < 32 && s <= Xor(i, t) < s + 32
    ensures s <= i < s + 32 && Xor(i - s, t) == Xor(i, t) - s
  {
    hide P, Xor, Aligned;
    SmallPowers();
    var y := Xor(i, t) - s;
    XorInvolution(i, t);
    XorDisjoint(s, y, 5);
    XorAssociative(s, y, t);
    XorBound(y, t, 5);
    XorDisjoint(s, Xor(y, t), 5);
    XorInvolution(y, t);
  }

  /** The leaf search is right about a half exactly when the half is full or starts below 2^31. */
  lemma LeafExact(bin: Bin, bm: Word, twist: nat)
    requires bin.Ok() && bin.layer >= 5 && bm != EMPTY
    ensures (forall i: nat :: LeafFind(bin, bm, twist).Has(i) ==> bin.Has(i) && Bit(bm, i % 32))
            <==> bm == FILLED || bin.base < 0x8000_0000
    ensures bm == FILLED || bin.base < 0x8000_0000 ==>
              LeafFind(bin, bm, twist).Ok() && bin.base <= LeafFind(bin, bm, twist).base && LeafFind(bin, bm, twist).End() <= bin.End()
  {
    hide P, Xor, Aligned, Floor, Bit, BlockNumber, LeafFind;
    var r := LeafFind(bin, bm, twist);
    if bm == FILLED {
      FilledLeaf(bin, twist);
      forall i: nat ensures Bit(bm, i % 32) {
        FilledBits(i % 32);
      }
    } else {
      LeafSpec(bin, bm, twist);
      BlockSpec(bin, twist);
      if bin.base < 0x8000_0000 {
        if bin.End() <= 0x8000_0000 {
          BlockExact(bin, twist);
        } else {
          WideHalf(bin);
        }
      } else {
        assert r.Has(r.base) && !bin.Has(r.base);
      }
    }
  }

  lemma FilledLeaf(bin: Bin, twist: nat)
    ensures LeafFind(bin, FILLED, twist) == bin
  {
  }

  /** A bin that starts below 2^31 and ends above it starts at 0. */
  lemma WideHalf(bin: Bin)
    requires bin.Ok() && bin.base < 0x8000_0000 < bin.End()
    ensures bin.base == 0 && bin.layer >= 31
  {
    hide P, Aligned;
    assert P(31) == 0x8000_0000 by { Power31(); }
    if bin.layer <= 31 {
      PowerAligned(bin.layer, 31);
      AlignedStep(bin.base, P(31), bin.layer);
      assert false;
    }
    AlignedBelow(bin.base, 31, bin.layer);
    if bin.base > 0 {
      ZeroAligned(31);
      AlignedStep(0, bin.base, 31);
      assert false;
    }
  }

  lemma Power31()
    ensures P(31) == 0x8000_0000
  {
    SmallPowers();
    assert P(32) == 2 * P(31);
  }

  /** The cut loses information: a half of 64 chunks at 2^31 is answered with a bin at 0. */
  lemma LeafOverflows()
    ensures Bin(6, 0x8000_0000).Ok()
    ensures LeafFind(Bin(6, 0x8000_0000), 1, 0) == Bin(0, 0)
  {
    hide TwistWord, BitmapToBin, BlockNumber, Twisted, Xor, Decode, P, Aligned;
    var b := Bin(6, 0x8000_0000);
    Power31();
    PowerAligned(6, 31);
    PowerMonotone(32, 63);
    SmallPowers();
    OverflowBlock();
    NoTwist(1);
    FirstBit();
    NoTwistBin(Bin(0, 0));
    DecodeEven(0);
    assert 0 % P(6) % 32 == 0;
    assert LeafFind(b, 1, 0) == Twisted(Decode(0 + 0), 0);
  }

  lemma OverflowBlock()
    ensures BlockNumber(Bin(6, 0x8000_0000), 0) == 0
  {
    hide P, Xor;
    assert 0 % P(6) == 0;
    XorZero(0x8000_0000);
  }

  lemma NoTwist(w: Word)
    ensures TwistWord(w, 0) == w
  {
    hide Bit, Swap;
    ZeroBits(0);
    ZeroBits(1);
    ZeroBits(2);
    ZeroBits(3);
    ZeroBits(4);
  }

  lemma NoTwistBin(b: Bin)
    ensures Twisted(b, 0) == b
  {
    ZeroAligned(b.layer);
    XorZero(b.base);
  }

  lemma FirstBit()
    ensures BitmapToBin(1) == 0
  {
    assert 1 % 256 == 1 && 1 % 16 == 1;
    assert NibbleBin(1) == 0;
  }
}
