/** The questions a bin map answers without changing: empty, filled, cover, first hole, first chunk. */
module Queries {
  import opened Powers
  import opened Bins
  import opened Words
  import opened Trees
  import opened Cells
  import opened Leftmost
  import opened BinMaps

  /** The set restricted to a bin is the given bitmap, repeated. */
  ghost predicate Solid(m: BinMap, bin: Bin, v: Word)
    reads m
  {
    forall i: nat :: bin.Has(i) ==> (m.Has(i) <==> Bit(v, i % 32))
  }

  ghost predicate AllEmpty(m: BinMap, bin: Bin)
    reads m
  {
    forall i: nat :: bin.Has(i) ==> !m.Has(i)
  }

  ghost predicate AllFilled(m: BinMap, bin: Bin)
    reads m
  {
    forall i: nat :: bin.Has(i) ==> m.Has(i)
  }

  lemma SolidEmpty(m: BinMap, bin: Bin)
    ensures AllEmpty(m, bin) <==> Solid(m, bin, EMPTY)
  {
    hide Bit;
    forall i: nat ensures !Bit(EMPTY, i % 32) {
      ZeroBits(i % 32);
    }
  }

  lemma SolidFilled(m: BinMap, bin: Bin)
    ensures AllFilled(m, bin) <==> Solid(m, bin, FILLED)
  {
    hide Bit;
    forall i: nat ensures Bit(FILLED, i % 32) {
      FilledBits(i % 32);
    }
  }

  /** is_empty(). */
  method IsEmpty(m: BinMap) returns (r: bool)
    requires m.Valid()
    ensures r <==> forall i: nat :: !m.Has(i)
  {
    var cell := m.cells[ROOT_REF];
    r := cell == Used(Bitmap(EMPTY), Bitmap(EMPTY));
    RootSolid(m, EMPTY);
    SolidEmpty(m, m.root);
  }

  /** is_filled(): true only of a map whose root is ALL. */
  method IsFilled(m: BinMap) returns (r: bool)
    requires m.Valid()
    ensures r <==> m.root == ALL && AllFilled(m, m.root)
  {
    var cell := m.cells[ROOT_REF];
    r := m.root == ALL && cell == Used(Bitmap(FILLED), Bitmap(FILLED));
    RootSolid(m, FILLED);
    SolidFilled(m, m.root);
  }

  lemma RootSolid(m: BinMap, v: Word)
    requires m.Valid()
    ensures Solid(m, m.root, v) <==> m.cells[ROOT_REF] == Used(Bitmap(v), Bitmap(v))
  {
    hide Bit;
    NodeSolid(m.tree, m.root, 0, m.root, v);
    NodeCell(m.cells, m.tree, m.root, 0, m.root.layer);
  }

  /** What a walk that stopped at cur says about a bin of 64 chunks or more. */
  lemma HighSolid(m: BinMap, ref: nat, cur: Bin, bin: Bin, v: Word)
    requires m.Valid() && bin.Ok() && bin.layer >= 6
    requires Stopped(m, ref, cur, bin, bin.base)
    ensures ref < |m.cells| && m.cells[ref].Used?
    ensures bin.V() < cur.V() ==> m.cells[ref].left.Bitmap? && (Solid(m, bin, v) <==> m.cells[ref].left == Bitmap(v))
    ensures bin.V() > cur.V() ==> m.cells[ref].right.Bitmap? && (Solid(m, bin, v) <==> m.cells[ref].right == Bitmap(v))
    ensures bin.V() == cur.V() ==> bin == cur && (Solid(m, bin, v) <==> m.cells[ref] == Used(Bitmap(v), Bitmap(v)))
  {
    hide TreeHas, Refs, Holds, NoSharing, Chain, Distinct, Bit, P, Aligned, Floor, HasNode, NodeAt, BinAt, Fits, CanonicalHalf;
    var x := bin.base;
    NodeCell(m.cells, m.tree, m.root, x, cur.layer);
    BinAtSpec(m.root, x, cur.layer);
    if bin == cur {
      NodeSolid(m.tree, m.root, x, cur, v);
    } else {
      InHalf(cur, bin, x);
      Direction(cur, bin);
      var n := NodeAt(m.tree, m.root, x, cur.layer);
      HalfSolid(m.tree, m.root, x, cur, bin, HalfAt(m.tree, m.root, x, cur.layer).w, v);
    }
  }

  /** Where a walk toward a bin ends: at the bin itself or above a bitmap half that holds it. */
  ghost predicate Stopped(m: BinMap, ref: nat, cur: Bin, bin: Bin, x: nat)
    reads m
  {
    m.root.Has(x) && bin.Has(x) && 6 <= cur.layer <= m.root.layer && cur == BinAt(m.root, x, cur.layer) && cur.Ok() &&
    cur.base <= bin.base && bin.End() <= cur.End() &&
    HasNode(m.tree, m.root, x, cur.layer) && ref == NodeAt(m.tree, m.root, x, cur.layer).ref &&
    (bin == cur || (bin.layer < cur.layer && HalfAt(m.tree, m.root, x, cur.layer).Bits?))
  }

  /** is_empty(bin). NONE counts as empty. */
  method IsEmptyBin(m: BinMap, bin: Bin) returns (r: bool)
    requires m.Valid() && (bin.Ok() || bin == NONE)
    ensures bin.Ok() ==> (r <==> AllEmpty(m, bin))
    ensures bin == NONE ==> r
  {
    hide TreeHas, Refs, Holds, NoSharing, Chain, Distinct, Bit, P, Mask, Bin.Contains, Aligned, Floor;
    NoneContains(m.root);
    if !m.root.Contains(bin) {
      if bin.Ok() {
        OutsideOrAround(m.root, bin);
      }
      r := !bin.Contains(m.root);
      if !r {
        r := IsEmpty(m);
      }
      return;
    }
    var ref, cur, href := m.Trace(bin, bin.base);
    ContainsMeaning(m.root, bin);
    SolidEmpty(m, bin);
    if bin.layer >= 6 {
      HighSolid(m, ref, cur, bin, EMPTY);
      if bin.V() < cur.V() {
        r := m.cells[ref].left.w == EMPTY;
      } else if cur.V() < bin.V() {
        r := m.cells[ref].right.w == EMPTY;
      } else {
        r := m.cells[ref] == Used(Bitmap(EMPTY), Bitmap(EMPTY));
      }
    } else {
      LowWord(m, ref, cur, bin);
      var bm := if bin.V() < cur.V() then m.cells[ref].left.w else m.cells[ref].right.w;
      LowEmpty(bin, bm);
      r := WordAnd(bm, Mask(bin.V() % 64)) == EMPTY;
    }
  }

  /** is_filled(bin). NONE does not count as filled. */
  method IsFilledBin(m: BinMap, bin: Bin) returns (r: bool)
    requires m.Valid() && (bin.Ok() || bin == NONE)
    ensures bin.Ok() ==> (r <==> AllFilled(m, bin))
    ensures bin == NONE ==> !r
  {
    hide TreeHas, Refs, Holds, NoSharing, Chain, Distinct, Bit, P, Mask, Bin.Contains, Aligned, Floor;
    NoneContains(m.root);
    if !m.root.Contains(bin) {
      if bin.Ok() {
        OutsideOrAround(m.root, bin);
      }
      return false;
    }
    var ref, cur, href := m.Trace(bin, bin.base);
    ContainsMeaning(m.root, bin);
    SolidFilled(m, bin);
    if bin.layer >= 6 {
      HighSolid(m, ref, cur, bin, FILLED);
      if bin.V() < cur.V() {
        r := m.cells[ref].left.w == FILLED;
      } else if cur.V() < bin.V() {
        r := m.cells[ref].right.w == FILLED;
      } else {
        r := m.cells[ref] == Used(Bitmap(FILLED), Bitmap(FILLED));
      }
    } else {
      LowWord(m, ref, cur, bin);
      var bm := if bin.V() < cur.V() then m.cells[ref].left.w else m.cells[ref].right.w;
      LowFilled(bin, bm);
      r := WordAnd(bm, Mask(bin.V() % 64)) == Mask(bin.V() % 64);
    }
  }

  /** A bin that the root does not contain has a chunk outside the root, and covers all of the root or none of it. */
  lemma OutsideOrAround(root: Bin, bin: Bin)
    requires root.Ok() && bin.Ok() && !root.Contains(bin)
    ensures exists i: nat :: bin.Has(i) && !root.Has(i)
    ensures bin.Contains(root) ==> forall i: nat :: root.Has(i) ==> bin.Has(i)
    ensures !bin.Contains(root) ==> forall i: nat :: !(root.Has(i) && bin.Has(i))
  {
    NestedOrDisjoint(root, bin);
    NestedOrDisjoint(bin, root);
    ContainsMeaning(root, bin);
    ContainsMeaning(bin, root);
    if bin.base < root.base || bin.base >= root.End() {
      assert bin.Has(bin.base) && !root.Has(bin.base);
    } else {
      assert bin.Has(bin.End() - 1) && !root.Has(bin.End() - 1);
    }
  }

  /** The bitmap that decides a bin of at most 32 chunks. */
  lemma LowWord(m: BinMap, ref: nat, cur: Bin, bin: Bin)
    requires m.Valid() && bin.Ok() && bin.layer <= 5
    requires Stopped(m, ref, cur, bin, bin.base)
    ensures ref < |m.cells| && m.cells[ref].Used?
    ensures bin.V() < cur.V() ==> m.cells[ref].left.Bitmap? && forall i: nat :: bin.Has(i) ==> (m.Has(i) <==> Bit(m.cells[ref].left.w, i % 32))
    ensures !(bin.V() < cur.V()) ==> m.cells[ref].right.Bitmap? && forall i: nat :: bin.Has(i) ==> (m.Has(i) <==> Bit(m.cells[ref].right.w, i % 32))
  {
    hide TreeHas, Refs, Holds, NoSharing, Chain, Distinct, Bit, P, Aligned, Floor, HasNode, NodeAt, BinAt, Fits, CanonicalHalf;
    var x := bin.base;
    NodeCell(m.cells, m.tree, m.root, x, cur.layer);
    InHalf(cur, bin, x);
    var w := HalfAt(m.tree, m.root, x, cur.layer).w;
    forall i: nat | bin.Has(i) ensures m.Has(i) <==> Bit(w, i % 32) {
      HalfDecides(m.tree, m.root, x, cur, bin, w, i);
    }
  }

  // ------------------------------------------------------------------
  // First hole and first chunk

  /** bitmap_to_bin(bin, bitmap): the bin of the bitmap's lowest set bit, placed at the first block of bin. */
  function BinOfBitmap(bin: Bin, w: Word): Bin
    requires w != EMPTY
  {
    if w == FILLED then bin else Decode(2 * bin.base + BitmapToBin(w))
  }

  lemma BinOfBitmapSpec(bin: Bin, w: Word)
    requires bin.Ok() && bin.layer >= 5 && w != EMPTY
    ensures BinOfBitmap(bin, w).Ok()
    ensures bin.base <= BinOfBitmap(bin, w).base && BinOfBitmap(bin, w).End() <= bin.End()
    ensures forall i: nat :: BinOfBitmap(bin, w).Has(i) ==> Bit(w, i % 32)
    ensures forall i: nat :: bin.base <= i < BinOfBitmap(bin, w).base ==> !Bit(w, i % 32)
    ensures if w == FILLED then BinOfBitmap(bin, w) == bin else exists i: nat :: BinOfBitmap(bin, w).Parent().Has(i) && bin.Has(i) && !Bit(w, i % 32)
  {
    hide Bit, BitmapToBin, Decode, P, Aligned, Floor, Gap;
    if w == FILLED {
      forall i: nat ensures Bit(w, i % 32) {
        FilledBits(i % 32);
      }
    } else {
      WordStarts(w);
      var c := Decode(BitmapToBin(w));
      AlignedBelow(bin.base, c.layer, bin.layer);
      DecodeShift(BitmapToBin(w), bin.base);
      AlignedSum(bin.base, c.base, c.layer);
      PowerMonotone(5, bin.layer);
      SmallPowers();
      AlignedMod32(bin.base, bin.layer);
      forall i: nat | bin.base <= i < bin.base + 32 ensures i % 32 == i - bin.base {
        ModBlock(bin.base, i);
      }
      assert BinOfBitmap(bin, w) == Bin(c.layer, bin.base + c.base);
      assert forall i: nat :: BinOfBitmap(bin, w).Has(i) ==> c.Has(i - bin.base);
      PlacedGap(bin, w, c);
    }
  }

  lemma PlacedGap(bin: Bin, w: Word, c: Bin)
    requires bin.Ok() && bin.layer >= 5 && c.layer < 5 && Aligned(c.base, c.layer) && Gap(w, c, 32)
    ensures exists i: nat :: Bin(c.layer, bin.base + c.base).Parent().Has(i) && bin.Has(i) && !Bit(w, i % 32)
  {
    hide Bit, P, Aligned, Floor;
    var j: nat :| j < 32 && c.Parent().Has(j) && !Bit(w, j);
    var l := c.layer + 1;
    FloorSpec(c.base, l);
    AlignedBelow(bin.base, l, bin.layer);
    AlignedSum(bin.base, Floor(c.base, l), l);
    FloorUnique(bin.base + c.base, bin.base + Floor(c.base, l), l);
    AlignedMod32(bin.base, bin.layer);
    ModBlock(bin.base, bin.base + j);
    PowerMonotone(5, bin.layer);
    SmallPowers();
    var i := bin.base + j;
    assert Bin(c.layer, bin.base + c.base).Parent().Has(i) && bin.Has(i) && i % 32 == j;
  }

  /** All chunks of the root below a position follow the pattern. */
  ghost predicate Before(m: BinMap, x: nat, v: Word)
    reads m
  {
    forall i: nat :: i < x ==> (m.Has(i) <==> Bit(v, i % 32))
  }

  /** What the descent of find_empty and find_filled keeps: a non-uniform cell, everything before it as expected. */
  ghost predicate Descending(m: BinMap, ref: nat, bin: Bin, v: Word)
    reads m
  {
    bin.Ok() && 6 <= bin.layer < m.root.layer && m.root.Has(bin.base) && bin == BinAt(m.root, bin.base, bin.layer) &&
    HasNode(m.tree, m.root, bin.base, bin.layer) && ref == NodeAt(m.tree, m.root, bin.base, bin.layer).ref &&
    Before(m, bin.base, v)
  }

  /** The half of a cell that starts at its bin, or its middle. */
  lemma HalfOfCell(m: BinMap, bin: Bin, left: bool, v: Word)
    requires m.Valid() && 6 <= bin.layer <= m.root.layer && bin.Ok() && m.root.Has(bin.base) && bin == BinAt(m.root, bin.base, bin.layer)
    requires HasNode(m.tree, m.root, bin.base, bin.layer)
    requires Before(m, bin.base, v)
    requires !left ==> NodeAt(m.tree, m.root, bin.base, bin.layer).left == Bits(v)
    ensures var n := NodeAt(m.tree, m.root, bin.base, bin.layer);
      var h := if left then n.left else n.right;
      var c := if left then bin.Left() else bin.Right();
      c.Ok() && m.root.Has(c.base) && Before(m, c.base, v) && c.End() <= m.root.End() &&
      n.ref < |m.cells| && m.cells[n.ref] == Used(Resolve(n.left), Resolve(n.right)) &&
      (h.Sub? ==> Descending(m, h.t.ref, c, v)) &&
      (h.Bits? ==> Solid(m, c, h.w))
  {
    hide Refs, Holds, NoSharing, Chain, Distinct, Bit, P, Aligned, Floor, NodeAt, HasNode, BinAt, TreeHas, CanonicalHalf;
    var t, r, x := m.tree, m.root, bin.base;
    var n := NodeAt(t, r, x, bin.layer);
    var c := if left then bin.Left() else bin.Right();
    HalvesOk(bin);
    BinAtSpec(r, x, bin.layer);
    NodeCell(m.cells, t, r, x, bin.layer);
    NodeFits(t, r, x, bin.layer);
    if !left {
      forall i: nat | bin.Left().Has(i) ensures m.Has(i) <==> Bit(v, i % 32) {
        HalfDecides(t, r, x, bin, bin.Left(), v, i);
      }
    }
    NodeMove(t, r, x, c.base, bin.layer);
    BinStep(r, c.base, bin.layer);
    if HalfAt(t, r, c.base, bin.layer).Sub? {
      StepDown(t, r, c.base, bin.layer);
    } else {
      forall i: nat | c.Has(i) ensures m.Has(i) <==> Bit(HalfAt(t, r, c.base, bin.layer).w, i % 32) {
        HalfDecides(t, r, c.base, bin, c, HalfAt(t, r, c.base, bin.layer).w, i);
      }
    }
  }

  /** The loop over the middle layers: the leftmost half whose bitmap is not the one to skip. */
  method FirstOther(m: BinMap, from: nat, fromBin: Bin, skip: Word) returns (bin: Bin, bitmap: Word)
    requires m.Valid() && Descending(m, from, fromBin, skip)
    ensures bin.Ok() && bin.layer >= 5 && bin.End() <= m.root.End() && Before(m, bin.base, skip)
    ensures bitmap != skip && Solid(m, bin, bitmap) && !AllEmpty(m, bin.Parent()) && !AllFilled(m, bin.Parent())
  {
    hide Refs, Holds, NoSharing, Chain, Distinct, Bit, P, Aligned, Floor, NodeAt, HasNode, BinAt, TreeHas, Before, Solid, Fits;
    var ref := from;
    bin := fromBin;
    while true
      invariant Descending(m, ref, bin, skip)
      decreases bin.layer
    {
      CanonicalNode(m.tree, m.root, bin.base, bin.layer);
      HalfParent(bin);
      InnerNode(m, bin);
      HalfOfCell(m, bin, true, skip);
      if m.cells[ref].left.Ref? {
        ref := m.cells[ref].left.r;
        bin := bin.Left();
      } else if m.cells[ref].left.w != skip {
        bitmap := m.cells[ref].left.w;
        bin := bin.Left();
        return;
      } else {
        HalfOfCell(m, bin, false, skip);
        if m.cells[ref].right.Ref? {
          ref := m.cells[ref].right.r;
          bin := bin.Right();
        } else {
          assert m.cells[ref].right.w != skip;
          bitmap := m.cells[ref].right.w;
          bin := bin.Right();
          return;
        }
      }
    }
  }

  lemma InnerNode(m: BinMap, cur: Bin)
    requires m.Valid() && cur.Ok() && m.root.Has(cur.base) && cur.layer < m.root.layer && cur == BinAt(m.root, cur.base, cur.layer)
    requires HasNode(m.tree, m.root, cur.base, cur.layer)
    ensures !AllEmpty(m, cur) && !AllFilled(m, cur)
  {
    hide TreeHas, Refs, Holds, NoSharing, Chain, Distinct, Bit, P, Aligned, Floor, BinAt, Fits, CanonicalHalf, AllEmpty, AllFilled;
    NodeNotSolid(m, cur.base, cur);
  }

  /** The bits of ~w. */
  function Complement(w: Word): (r: Word)
    ensures forall i: nat :: i < 32 ==> (Bit(r, i) <==> !Bit(w, i))
  {
    var r := WordAndNot(FILLED, w);
    assert forall i: nat :: i < 32 ==> (Bit(r, i) <==> !Bit(w, i)) by {
      forall i: nat | i < 32 ensures Bit(r, i) <==> !Bit(w, i) {
        FilledBits(i);
        BitOps(FILLED, w, i);
      }
    }
    r
  }

  lemma ComplementConstants(w: Word)
    ensures w != FILLED ==> Complement(w) != EMPTY
    ensures w == EMPTY <==> Complement(w) == FILLED
  {
    hide Bit;
    forall i: nat | i < 32 ensures Bit(FILLED, i) && !Bit(EMPTY, i) {
      FilledBits(i);
      ZeroBits(i);
    }
    SmallPowers();
    if Complement(w) == EMPTY {
      BitsDetermine(w, FILLED, 32);
    }
    if w == EMPTY {
      BitsDetermine(Complement(w), FILLED, 32);
    }
    if Complement(w) == FILLED {
      BitsDetermine(w, EMPTY, 32);
    }
  }

  /** The first filled bin of a solid stretch that follows only absent chunks. */
  lemma FirstFilled(m: BinMap, bin: Bin, w: Word)
    requires bin.Ok() && bin.layer >= 5 && w != EMPTY && Solid(m, bin, w) && Before(m, bin.base, EMPTY)
    requires w == FILLED ==> !AllFilled(m, bin.Parent())
    ensures IsFirstFilled(m, BinOfBitmap(bin, w))
  {
    hide Bit, BinOfBitmap;
    BinOfBitmapSpec(bin, w);
    var r := BinOfBitmap(bin, w);
    forall i: nat | i < r.base ensures !m.Has(i) {
      ZeroBits(i % 32);
      assert i >= bin.base ==> bin.Has(i);
    }
  }

  lemma FirstEmpty(m: BinMap, bin: Bin, w: Word)
    requires bin.Ok() && bin.layer >= 5 && w != FILLED && Solid(m, bin, w) && Before(m, bin.base, FILLED)
    requires w == EMPTY ==> !AllEmpty(m, bin.Parent())
    ensures Complement(w) != EMPTY
    ensures IsFirstEmpty(m, BinOfBitmap(bin, Complement(w)))
  {
    hide Bit, BinOfBitmap, Complement;
    ComplementConstants(w);
    var c := Complement(w);
    BinOfBitmapSpec(bin, c);
    var r := BinOfBitmap(bin, c);
    forall i: nat ensures Bit(c, i % 32) <==> !Bit(w, i % 32) {
    }
    forall i: nat | i < r.base ensures m.Has(i) {
      FilledBits(i % 32);
      assert i >= bin.base ==> bin.Has(i);
    }
  }

  /** The biggest filled bin that starts at the least chunk of the set. */
  ghost predicate IsFirstFilled(m: BinMap, r: Bin)
    reads m
  {
    r.Ok() && AllFilled(m, r) && (r == ALL || !AllFilled(m, r.Parent())) && forall i: nat :: i < r.base ==> !m.Has(i)
  }

  /** The biggest empty bin that starts at the least chunk outside the set. */
  ghost predicate IsFirstEmpty(m: BinMap, r: Bin)
    reads m
  {
    r.Ok() && AllEmpty(m, r) && (r == ALL || !AllEmpty(m, r.Parent())) && forall i: nat :: i < r.base ==> m.Has(i)
  }

  /** The halves of the root cell, as the descents start with them. */
  lemma RootHalves(m: BinMap, v: Word)
    requires m.Valid()
    ensures m.root.Left().Ok() && m.root.Right().Ok() && m.root.Left().base == 0 && m.root.Left().End() == m.root.Right().base && m.root.Right().End() == m.root.End()
    ensures |m.cells| > 0 && m.cells[ROOT_REF].Used?
    ensures m.cells[ROOT_REF].left.Ref? ==> Descending(m, m.cells[ROOT_REF].left.r, m.root.Left(), v)
    ensures m.cells[ROOT_REF].left.Bitmap? ==> Solid(m, m.root.Left(), m.cells[ROOT_REF].left.w)
    ensures m.cells[ROOT_REF].left == Bitmap(v) && m.cells[ROOT_REF].right.Ref? ==> Descending(m, m.cells[ROOT_REF].right.r, m.root.Right(), v)
    ensures m.cells[ROOT_REF].right.Bitmap? ==> Solid(m, m.root.Right(), m.cells[ROOT_REF].right.w)
    ensures m.cells[ROOT_REF].left == Bitmap(v) ==> Before(m, m.root.Right().base, v)
  {
    hide Refs, NoSharing, Chain, Distinct, Bit, P, Aligned, Floor, TreeHas, CanonicalHalf;
    HalvesOk(m.root);
    var t, r := m.tree, m.root;
    assert Before(m, 0, v);
    HalfOfCell(m, r, true, v);
    if t.left == Bits(v) {
      HalfOfCell(m, r, false, v);
    }
    if t.right.Bits? {
      forall i: nat | r.Right().Has(i) ensures m.Has(i) <==> Bit(t.right.w, i % 32) {
        assert HalfAt(t, r, r.Right().base, r.layer) == t.right;
        HalfDecides(t, r, r.Right().base, r, r.Right(), t.right.w, i);
      }
    }
  }

  /** The root as a whole, and the halves it is the parent of. */
  lemma RootWhole(m: BinMap)
    requires m.Valid()
    ensures AllEmpty(m, m.root) <==> m.cells[ROOT_REF] == Used(Bitmap(EMPTY), Bitmap(EMPTY))
    ensures AllFilled(m, m.root) <==> m.cells[ROOT_REF] == Used(Bitmap(FILLED), Bitmap(FILLED))
    ensures m.root.layer > 0 && m.root.Left().Parent() == m.root && m.root.Right().Parent() == m.root
  {
    hide Refs, NoSharing, Chain, Distinct, Bit, P, Aligned, Floor, TreeHas, CanonicalHalf, AllEmpty, AllFilled, Solid;
    RootSolid(m, EMPTY);
    RootSolid(m, FILLED);
    SolidEmpty(m, m.root);
    SolidFilled(m, m.root);
    HalfParent(m.root);
  }

  /** find_filled(). */
  method FindFilled(m: BinMap) returns (r: Bin)
    requires m.Valid()
    ensures r == NONE <==> forall i: nat :: !m.Has(i)
    ensures r != NONE ==> IsFirstFilled(m, r)
  {
    hide Refs, NoSharing, Chain, Distinct, Bit, P, Aligned, Floor, TreeHas, CanonicalHalf, BinOfBitmap, Descending;
    RootHalves(m, EMPTY);
    RootWhole(m);
    var cell := m.cells[ROOT_REF];
    forall i: nat ensures Bit(FILLED, i % 32) && !Bit(EMPTY, i % 32) {
      FilledBits(i % 32);
      ZeroBits(i % 32);
    }
    var bin, bitmap;
    if cell.left.Ref? {
      bin, bitmap := FirstOther(m, cell.left.r, m.root.Left(), EMPTY);
    } else if cell.left.w != EMPTY {
      if cell.left.w == FILLED {
        if cell.right == Bitmap(FILLED) {
          assert m.root.Left().Has(0) && m.root.Has(0);
          RootTop(m);
          return m.root;
        }
        assert m.root.Left().Has(0) && m.root.Has(0);
        return m.root.Left();
      }
      bin, bitmap := m.root.Left(), cell.left.w;
    } else if cell.right.Ref? {
      bin, bitmap := FirstOther(m, cell.right.r, m.root.Right(), EMPTY);
    } else {
      if cell.right.w == EMPTY {
        return NONE;
      }
      bin, bitmap := m.root.Right(), cell.right.w;
    }
    FirstFilled(m, bin, bitmap);
    r := BinOfBitmap(bin, bitmap);
    assert r.Has(r.base);
  }

  /** Behind a full root everything is empty. */
  lemma RestEmpty(m: BinMap)
    requires m.Valid() && m.root != ALL && AllFilled(m, m.root)
    ensures IsFirstEmpty(m, m.root.Sibling()) && m.root.Sibling() != NONE
  {
    hide Refs, NoSharing, Chain, Distinct, Bit, P, Aligned, Floor, TreeHas, CanonicalHalf, BinMap.Has;
    RootSibling(m.root);
    ParentOk(m.root);
    ParentOk(m.root.Sibling());
    HalfParent(m.root.Parent());
    ParentAround(m.root);
    forall i: nat | m.root.End() <= i ensures !m.Has(i) {
      OutsideRoot(m, i);
    }
    assert m.Has(m.root.base) && m.root.Sibling().Parent().Has(m.root.base);
  }

  /** find_empty(). */
  method FindEmpty(m: BinMap) returns (r: Bin)
    requires m.Valid()
    ensures r == NONE <==> m.root == ALL && AllFilled(m, ALL)
    ensures r != NONE ==> IsFirstEmpty(m, r)
  {
    hide Refs, NoSharing, Chain, Distinct, Bit, P, Aligned, Floor, TreeHas, CanonicalHalf, BinOfBitmap, Descending, Complement, BinMap.Has, Bin.Parent;
    RootHalves(m, FILLED);
    RootWhole(m);
    var cell := m.cells[ROOT_REF];
    forall i: nat ensures Bit(FILLED, i % 32) && !Bit(EMPTY, i % 32) {
      FilledBits(i % 32);
      ZeroBits(i % 32);
    }
    var bin, bitmap;
    if cell.left.Ref? {
      bin, bitmap := FirstOther(m, cell.left.r, m.root.Left(), FILLED);
    } else if cell.left.w != FILLED {
      if cell.left.w == EMPTY {
        if cell.right == Bitmap(EMPTY) {
          RootSolid(m, EMPTY);
          EmptyEverywhere(m);
          return ALL;
        }
        assert m.root.Left().Has(0) && m.root.Has(0);
        return m.root.Left();
      }
      bin, bitmap := m.root.Left(), cell.left.w;
    } else if cell.right.Ref? {
      bin, bitmap := FirstOther(m, cell.right.r, m.root.Right(), FILLED);
    } else {
      if cell.right.w == FILLED {
        if m.root == ALL {
          return NONE;
        }
        RestEmpty(m);
        return m.root.Sibling();
      }
      bin, bitmap := m.root.Right(), cell.right.w;
    }
    FirstEmpty(m, bin, bitmap);
    r := BinOfBitmap(bin, Complement(bitmap));
    assert r.Has(r.base);
  }

  /** The sibling of a root other than ALL is the bin just after it. */
  lemma RootSibling(root: Bin)
    requires root.Ok() && root.base == 0 && root != ALL
    ensures root.layer < 63 && root.Sibling().Ok() && root.Sibling().base == root.End()
  {
    AllContains(root);
    ZeroAligned(root.layer + 1);
    ParentOk(root);
    HalvesOk(root.Parent());
  }

  // ------------------------------------------------------------------
  // cover

  /** The bin lies in one wholly empty or wholly filled bin, namely r. */
  ghost predicate Covers(m: BinMap, r: Bin, bin: Bin)
    reads m
  {
    r.Ok() && r.base <= bin.base && bin.End() <= r.End() && (AllEmpty(m, r) || AllFilled(m, r))
  }

  /** No bigger bin around r is wholly empty or wholly filled. */
  ghost predicate Topmost(m: BinMap, r: Bin)
    reads m
  {
    r == ALL || !(AllEmpty(m, r.Parent()) || AllFilled(m, r.Parent()))
  }

  /** The topmost solid bin, or a half of the root if the root itself is solid. */
  ghost predicate Widest(m: BinMap, r: Bin)
    reads m
  {
    Topmost(m, r) || r.Parent() == m.root
  }

  /** A bin for which only half of a solid root is given: below the bitmaps of a full root other than ALL, or above bitmaps. */
  ghost predicate HalfOnly(m: BinMap, bin: Bin)
    reads m
  {
    bin != m.root && if bin.layer >= 6 then AllEmpty(m, m.root) || AllFilled(m, m.root) else AllFilled(m, m.root) && m.root != ALL
  }

  /** What cover gives: the topmost solid bin, or half of a solid root. */
  ghost predicate Covering(m: BinMap, r: Bin, bin: Bin)
    reads m
  {
    Covers(m, r, bin) && if HalfOnly(m, bin) then r.Parent() == m.root else Topmost(m, r)
  }

  lemma CoveringWidest(m: BinMap, r: Bin, bin: Bin)
    requires Covering(m, r, bin)
    ensures Covers(m, r, bin) && Widest(m, r)
  {
    hide Covers, Topmost, HalfOnly;
  }

  lemma HalfParent(b: Bin)
    requires b.Ok() && b.layer > 0
    ensures b.Left().Parent() == b && b.Right().Parent() == b
  {
    HalvesOk(b);
    FloorUnique(b.Left().base, b.base, b.layer);
    FloorUnique(b.Right().base, b.base, b.layer);
  }

  /** A bitmap half next to where the walk stopped: solid as its bitmap says, while the whole cell is not. */
  lemma StoppedHalf(m: BinMap, ref: nat, cur: Bin, bin: Bin)
    requires m.Valid() && bin.Ok() && Stopped(m, ref, cur, bin, bin.base) && bin != cur
    ensures ref < |m.cells| && m.cells[ref].Used?
    ensures var left := bin.V() < cur.V();
      var h := if left then m.cells[ref].left else m.cells[ref].right;
      var c := if left then cur.Left() else cur.Right();
      h.Bitmap? && Solid(m, c, h.w) && c.Ok() && c.Parent() == cur && c.base <= bin.base && bin.End() <= c.End()
    ensures Uniform(m.tree) ==> cur == m.root
    ensures Uniform(m.tree) ==> Solid(m, m.root, if bin.V() < cur.V() then m.cells[ref].left.w else m.cells[ref].right.w)
    ensures !Uniform(m.tree) ==> !AllEmpty(m, cur) && !AllFilled(m, cur)
  {
    hide TreeHas, Refs, Holds, NoSharing, Chain, Distinct, Bit, P, Aligned, Floor, HasNode, NodeAt, BinAt, Fits, CanonicalHalf, AllEmpty, AllFilled;
    var x := bin.base;
    NodeCell(m.cells, m.tree, m.root, x, cur.layer);
    InHalf(cur, bin, x);
    HalvesOk(cur);
    HalfParent(cur);
    var w := HalfAt(m.tree, m.root, x, cur.layer).w;
    var c := cur.Toward(x);
    forall i: nat | c.Has(i) ensures m.Has(i) <==> Bit(w, i % 32) {
      HalfDecides(m.tree, m.root, x, cur, c, w, i);
    }
    if Uniform(m.tree) {
      OnlyRoot(m, x, cur);
      UniformRoot(m);
    } else {
      NodeNotSolid(m, x, cur);
    }
  }

  /** A root cell of two equal bitmaps stands for that bitmap repeated. */
  lemma UniformRoot(m: BinMap)
    requires m.Valid() && Uniform(m.tree)
    ensures Solid(m, m.root, m.tree.left.w)
  {
    hide Refs, Holds, NoSharing, Chain, Distinct, Bit, P, Aligned, Floor, CanonicalHalf;
    forall i: nat | m.root.Has(i) ensures m.Has(i) <==> Bit(m.tree.left.w, i % 32) {
      MonoHas(m.tree, m.root, m.tree.left.w, i);
    }
  }

  /** A solid root is a cell of two equal bitmaps. */
  lemma SolidUniform(m: BinMap)
    requires m.Valid() && (AllEmpty(m, m.root) || AllFilled(m, m.root))
    ensures Uniform(m.tree)
  {
    hide Refs, NoSharing, Chain, Distinct, Bit, P, Aligned, Floor, TreeHas, CanonicalHalf, AllEmpty, AllFilled, Solid, Fits;
    RootSolid(m, EMPTY);
    RootSolid(m, FILLED);
    SolidEmpty(m, m.root);
    SolidFilled(m, m.root);
  }

  /** Solid in one way means not solid in another. */
  lemma OnePattern(m: BinMap, b: Bin, v: Word, w: Word)
    requires b.Ok() && b.layer >= 5 && Solid(m, b, v) && Solid(m, b, w)
    ensures v == w
  {
    hide Bit, BinMap.Has;
    if v != w {
      var i := BitsSeparate(b, v, w);
      assert false;
    }
  }

  /** Part of a solid root. */
  lemma InSolidRoot(m: BinMap, half: Bin, w: Word)
    requires m.Valid() && half.Ok() && half.layer >= 5 && m.root.base <= half.base && half.End() <= m.root.End() && Solid(m, half, w)
    ensures AllEmpty(m, m.root) ==> w == EMPTY
    ensures AllFilled(m, m.root) ==> w == FILLED
  {
    hide Refs, Holds, NoSharing, Chain, Distinct, Bit, P, Aligned, Floor, TreeHas, CanonicalHalf, BinMap.Has, Solid;
    SubSolid(m, m.root, half);
    SolidEmpty(m, half);
    SolidFilled(m, half);
    if AllEmpty(m, m.root) {
      OnePattern(m, half, w, EMPTY);
    }
    if AllFilled(m, m.root) {
      OnePattern(m, half, w, FILLED);
    }
  }

  lemma OnlyRoot(m: BinMap, x: nat, cur: Bin)
    requires m.root.Ok() && m.root.Has(x) && cur.layer <= m.root.layer && cur == BinAt(m.root, x, cur.layer)
    requires HasNode(m.tree, m.root, x, cur.layer) && Uniform(m.tree)
    ensures cur == m.root && NodeAt(m.tree, m.root, x, cur.layer) == m.tree
  {
  }

  lemma NodeNotSolid(m: BinMap, x: nat, cur: Bin)
    requires m.Valid() && m.root.Has(x) && cur.layer <= m.root.layer && cur == BinAt(m.root, x, cur.layer)
    requires HasNode(m.tree, m.root, x, cur.layer) && !Uniform(m.tree)
    ensures !AllEmpty(m, cur) && !AllFilled(m, cur)
  {
    hide TreeHas, Refs, Holds, NoSharing, Chain, Distinct, Bit, P, Aligned, Floor, HasNode, BinAt, Fits, CanonicalHalf, AllEmpty, AllFilled;
    CanonicalNode(m.tree, m.root, x, cur.layer);
    BinAtSpec(m.root, x, cur.layer);
    NodeSolid(m.tree, m.root, x, cur, EMPTY);
    NodeSolid(m.tree, m.root, x, cur, FILLED);
    SolidEmpty(m, cur);
    SolidFilled(m, cur);
  }

  /** A solid half where the walk stopped is what cover gives. */
  lemma HalfCovers(m: BinMap, cur: Bin, half: Bin, bin: Bin, w: Word)
    requires m.Valid() && Covers(m, half, bin) && half.Parent() == cur && bin != m.root && (w == EMPTY || w == FILLED)
    requires Uniform(m.tree) ==> cur == m.root && Solid(m, m.root, w)
    requires !Uniform(m.tree) ==> !AllEmpty(m, cur) && !AllFilled(m, cur)
    requires bin.layer <= 5 ==> if w == EMPTY then exists i: nat :: m.Has(i) else !(m.root == ALL && AllFilled(m, m.root))
    ensures Covering(m, half, bin)
  {
    hide Refs, Holds, NoSharing, Chain, Distinct, Bit, P, Aligned, Floor, TreeHas, CanonicalHalf, BinMap.Has, Solid, Covers, Bin.Parent;
    SolidEmpty(m, m.root);
    SolidFilled(m, m.root);
    if Uniform(m.tree) {
      if w == EMPTY && bin.layer <= 5 {
        var i: nat :| m.Has(i);
        InRoot(m, i);
      }
    } else if AllEmpty(m, m.root) || AllFilled(m, m.root) {
      SolidUniform(m);
    }
  }

  lemma InRoot(m: BinMap, i: nat)
    requires m.Valid() && m.Has(i)
    ensures m.root.Has(i)
  {
  }

  lemma RootChunk(m: BinMap)
    requires m.Valid()
    ensures m.root.Has(m.root.base) && m.root.Ok() && m.root.layer >= 6
  {
  }

  method CoverHigh(m: BinMap, ref: nat, cur: Bin, bin: Bin) returns (r: Bin)
    requires m.Valid() && bin.Ok() && bin.layer >= 6 && Stopped(m, ref, cur, bin, bin.base)
    ensures r == NONE <==> !AllEmpty(m, bin) && !AllFilled(m, bin)
    ensures r != NONE ==> Covering(m, r, bin)
  {
    hide TreeHas, Refs, Holds, NoSharing, Chain, Distinct, Bit, P, Aligned, Floor, HasNode, NodeAt, BinAt, Fits, CanonicalHalf, AllEmpty, AllFilled, Solid;
    HighSolid(m, ref, cur, bin, EMPTY);
    HighSolid(m, ref, cur, bin, FILLED);
    SolidEmpty(m, bin);
    SolidFilled(m, bin);
    var cell := m.cells[ref];
    if bin.V() < cur.V() {
      StoppedHalf(m, ref, cur, bin);
      SolidEmpty(m, cur.Left());
      SolidFilled(m, cur.Left());
      if cell.left.w == EMPTY || cell.left.w == FILLED {
        HalfCovers(m, cur, cur.Left(), bin, cell.left.w);
      }
      return if cell.left.w == EMPTY || cell.left.w == FILLED then cur.Left() else NONE;
    }
    if cur.V() < bin.V() {
      StoppedHalf(m, ref, cur, bin);
      SolidEmpty(m, cur.Right());
      SolidFilled(m, cur.Right());
      if cell.right.w == EMPTY || cell.right.w == FILLED {
        HalfCovers(m, cur, cur.Right(), bin, cell.right.w);
      }
      return if cell.right.w == EMPTY || cell.right.w == FILLED then cur.Right() else NONE;
    }
    if cell.left.Ref? || cell.right.Ref? || cell.left.w != cell.right.w {
      return NONE;
    }
    UniformIsRoot(m, ref, cur, bin);
    if cell.left.w == EMPTY {
      RootSolid(m, EMPTY);
      EmptyEverywhere(m);
      return ALL;
    }
    if cell.left.w == FILLED {
      RootSolid(m, FILLED);
      SolidFilled(m, m.root);
      RootTop(m);
      return cur;
    }
    return NONE;
  }

  /** Nothing around a filled root is filled. */
  lemma RootTop(m: BinMap)
    requires m.Valid() && AllFilled(m, m.root)
    ensures Topmost(m, m.root)
  {
    hide TreeHas, Refs, Holds, NoSharing, Chain, Distinct, Bit, P, Aligned, Floor, Fits, CanonicalHalf, BinMap.Has;
    if m.root != ALL {
      RootSibling(m.root);
      OutsideRoot(m, m.root.End());
      ParentOk(m.root);
      HalvesOk(m.root.Parent());
      ParentAround(m.root);
      assert !m.Has(m.root.End()) && m.Has(m.root.base);
    }
  }

  lemma OutsideRoot(m: BinMap, i: nat)
    requires m.Valid() && m.root.End() <= i
    ensures !m.Has(i)
  {
  }

  lemma ParentAround(b: Bin)
    requires b.Ok() && b.Sibling().Ok() && b.Sibling().base == b.End() && b.layer < 63
    ensures b.Parent().Has(b.base) && b.Parent().Has(b.End()) && b.Has(b.base)
  {
    hide Aligned, Floor;
    ParentOk(b);
    HalvesOk(b.Parent());
  }

  /** Only the root cell can have two equal bitmaps. */
  lemma UniformIsRoot(m: BinMap, ref: nat, cur: Bin, bin: Bin)
    requires m.Valid() && bin.Ok() && Stopped(m, ref, cur, bin, bin.base)
    requires ref < |m.cells| && m.cells[ref].Used? && m.cells[ref].left.Bitmap? && m.cells[ref].left == m.cells[ref].right
    ensures cur == m.root && ref == ROOT_REF && Uniform(m.tree)
  {
    NodeCell(m.cells, m.tree, m.root, bin.base, cur.layer);
    CanonicalNode(m.tree, m.root, bin.base, cur.layer);
  }

  lemma EmptyEverywhere(m: BinMap)
    requires m.Valid() && Solid(m, m.root, EMPTY)
    ensures AllEmpty(m, ALL) && ALL.Ok() && ALL.base == 0
    ensures forall b: Bin :: b.Ok() ==> b.End() <= ALL.End()
  {
    SolidEmpty(m, m.root);
    AllContains(m.root);
  }

  /** A bin below the bitmap layer is solid as its masked bits say. */
  lemma LowSolid(m: BinMap, half: Bin, w: Word, b: Bin)
    requires half.Ok() && half.layer >= 5 && Solid(m, half, w)
    requires b.Ok() && b.layer <= 5 && half.base <= b.base && b.End() <= half.End()
    ensures b.V() % 64 < 63
    ensures AllEmpty(m, b) <==> WordAnd(w, Mask(b.V() % 64)) == EMPTY
    ensures AllFilled(m, b) <==> WordAnd(w, Mask(b.V() % 64)) == Mask(b.V() % 64)
  {
    hide Bit, Mask, P, Aligned, Floor;
    LowEmpty(b, w);
    LowFilled(b, w);
    forall i: nat | b.Has(i) ensures m.Has(i) <==> Bit(w, i % 32) {
      assert half.Has(i);
    }
  }

  /** The parent of a bin below layer 5 stays inside the same half. */
  lemma ClimbInside(half: Bin, b: Bin)
    requires half.Ok() && half.layer >= 5 && b.Ok() && b.layer <= 4 && half.base <= b.base && b.End() <= half.End()
    ensures b.Parent().Ok() && half.base <= b.Parent().base && b.Parent().End() <= half.End()
    ensures b.Parent().base <= b.base && b.End() <= b.Parent().End()
  {
    ParentOk(b);
    NestedOrDisjoint(half, b.Parent());
    ContainsMeaning(half, b.Parent());
    assert half.Has(b.base) && b.Parent().Has(b.base);
  }

  /** A half that is neither empty nor full is mixed on every block of 32 chunks. */
  lemma BlockMixed(half: Bin, w: Word, b: Bin)
    requires b.Ok() && b.layer == 5
    ensures w != EMPTY ==> WordAnd(w, Mask(b.V() % 64)) != EMPTY
    ensures w != FILLED ==> WordAnd(w, Mask(b.V() % 64)) != Mask(b.V() % 64)
  {
    hide Bit, Mask, P, Aligned, Floor;
    LowEmpty(b, w);
    LowFilled(b, w);
    forall i: nat ensures Bit(FILLED, i % 32) && !Bit(EMPTY, i % 32) {
      FilledBits(i % 32);
      ZeroBits(i % 32);
    }
    if w != EMPTY {
      var i := BitsSeparate(b, w, EMPTY);
    }
    if w != FILLED {
      var i := BitsSeparate(b, w, FILLED);
    }
  }

  method CoverLow(m: BinMap, ref: nat, cur: Bin, bin: Bin) returns (r: Bin)
    requires m.Valid() && bin.Ok() && bin.layer <= 5 && Stopped(m, ref, cur, bin, bin.base)
    ensures r == NONE <==> !AllEmpty(m, bin) && !AllFilled(m, bin)
    ensures r != NONE ==> Covering(m, r, bin)
  {
    hide TreeHas, Refs, Holds, NoSharing, Chain, Distinct, Bit, P, Mask, Aligned, Floor, HasNode, NodeAt, BinAt, Fits, CanonicalHalf, AllEmpty, AllFilled, Solid, WordAnd;
    StoppedHalf(m, ref, cur, bin);
    var bm, half;
    if bin.V() < cur.V() {
      bm, half := m.cells[ref].left.w, cur.Left();
    } else {
      bm, half := m.cells[ref].right.w, cur.Right();
    }
    if bm == EMPTY || bm == FILLED {
      r := CoverHalf(m, cur, half, bin, bm);
      return;
    }
    HalvesOk(cur);
    HalfInRoot(m, bin.base, cur, half);
    InSolidRoot(m, half, bm);
    LowSolid(m, half, bm, bin);
    MaskConstants(bin);
    if WordAnd(bm, Mask(bin.V() % 64)) == EMPTY {
      r := Climb(m, half, bm, bin, EMPTY);
    } else if WordAnd(bm, Mask(bin.V() % 64)) == Mask(bin.V() % 64) {
      r := Climb(m, half, bm, bin, FILLED);
    } else {
      r := NONE;
    }
  }

  lemma HalfInRoot(m: BinMap, x: nat, cur: Bin, half: Bin)
    requires m.Valid() && m.root.Has(x) && 6 <= cur.layer <= m.root.layer && cur == BinAt(m.root, x, cur.layer)
    requires cur.base <= half.base && half.End() <= cur.End()
    ensures m.root.base <= half.base && half.End() <= m.root.End()
  {
    hide TreeHas, Refs, Holds, NoSharing, Chain, Distinct, P, Aligned, Floor, BinAt, Fits, CanonicalHalf;
    BinAtSpec(m.root, x, cur.layer);
  }

  /** A solid half: the whole space if the map is empty or full, else the half. */
  method CoverHalf(m: BinMap, cur: Bin, half: Bin, bin: Bin, bm: Word) returns (r: Bin)
    requires m.Valid() && bin.Ok() && bin.layer <= 5 && half.Ok() && half.base <= bin.base && bin.End() <= half.End() && half.Parent() == cur
    requires (bm == EMPTY || bm == FILLED) && Solid(m, half, bm)
    requires Uniform(m.tree) ==> cur == m.root && Solid(m, m.root, bm)
    requires !Uniform(m.tree) ==> !AllEmpty(m, cur) && !AllFilled(m, cur)
    ensures r != NONE && Covering(m, r, bin) && (AllEmpty(m, bin) || AllFilled(m, bin))
  {
    hide TreeHas, Refs, Holds, NoSharing, Chain, Distinct, Bit, P, Aligned, Floor, HasNode, NodeAt, BinAt, Fits, CanonicalHalf, AllEmpty, AllFilled, Solid;
    SolidEmpty(m, half);
    SolidFilled(m, half);
    SubSolid(m, half, bin);
    RootChunk(m);
    if bm == EMPTY {
      var e := IsEmpty(m);
      if e {
        AllCovers(m, bin);
        return ALL;
      }
    } else {
      var f := IsFilled(m);
      if f {
        AllCovers(m, bin);
        return ALL;
      }
    }
    HalfCovers(m, cur, half, bin, bm);
    return half;
  }

  /** The climb inside a mixed bitmap: the biggest bin around bin that stays solid. */
  method Climb(m: BinMap, half: Bin, bm: Word, bin: Bin, v: Word) returns (r: Bin)
    requires half.Ok() && half.layer >= 5 && Solid(m, half, bm) && bm != EMPTY && bm != FILLED && (v == EMPTY || v == FILLED)
    requires bin.Ok() && bin.layer <= 5 && half.base <= bin.base && bin.End() <= half.End()
    requires bin.V() % 64 < 63 && WordAnd(bm, Mask(bin.V() % 64)) == WordAnd(v, Mask(bin.V() % 64))
    ensures r != NONE && Covers(m, r, bin) && Topmost(m, r)
  {
    hide Bit, P, Mask, Aligned, Floor, AllEmpty, AllFilled, Solid, WordAnd;
    var b := bin;
    while true
      invariant b.Ok() && b.layer <= 5 && half.base <= b.base && b.End() <= half.End()
      invariant b.base <= bin.base && bin.End() <= b.End()
      invariant b.V() % 64 < 63 && WordAnd(bm, Mask(b.V() % 64)) == WordAnd(v, Mask(b.V() % 64))
      decreases 5 - b.layer
    {
      r := b;
      MaskConstants(b);
      LowSolid(m, half, bm, b);
      if b.layer == 5 {
        BlockMixed(half, bm, b);
        assert false;
      }
      ClimbInside(half, b);
      MaskBits(b.Parent(), 0);
      b := b.Parent();
      if WordAnd(bm, Mask(b.V() % 64)) != (if v == EMPTY then EMPTY else Mask(b.V() % 64)) {
        LowSolid(m, half, bm, b);
        MixedParent(m, r);
        return;
      }
      MaskConstants(b);
    }
  }

  lemma MaskConstants(b: Bin)
    requires b.V() % 64 < 63
    ensures WordAnd(EMPTY, Mask(b.V() % 64)) == EMPTY
    ensures WordAnd(FILLED, Mask(b.V() % 64)) == Mask(b.V() % 64)
  {
    FilledAnd(Mask(b.V() % 64));
  }

  /** If a bin is wholly empty its parent is not wholly filled, and the other way round. */
  lemma MixedParent(m: BinMap, b: Bin)
    requires b.Ok() && b.layer < 63
    ensures AllEmpty(m, b) ==> !AllFilled(m, b.Parent())
    ensures AllFilled(m, b) ==> !AllEmpty(m, b.Parent())
  {
    ParentOk(b);
    assert b.Has(b.base) && b.Parent().Has(b.base);
  }

  lemma SubSolid(m: BinMap, half: Bin, b: Bin)
    requires half.base <= b.base && b.End() <= half.End()
    ensures AllEmpty(m, half) ==> AllEmpty(m, b) && !AllFilled(m, b)
    ensures AllFilled(m, half) ==> AllFilled(m, b) && !AllEmpty(m, b)
  {
    assert b.Has(b.base) && half.Has(b.base);
  }

  /** The whole space covers everything in an empty or a full map. */
  lemma AllCovers(m: BinMap, bin: Bin)
    requires m.Valid() && bin.Ok() && bin.layer <= 5
    requires (forall i: nat :: !m.Has(i)) || (m.root == ALL && AllFilled(m, m.root))
    ensures Covering(m, ALL, bin)
  {
    hide TreeHas, Refs, Holds, NoSharing, Chain, Distinct, P, Aligned, Floor, Fits, CanonicalHalf, BinMap.Has;
    RootChunk(m);
    AllContains(m.root);
    AllSpans(bin);
    assert m.root.Has(m.root.base);
  }

  lemma AllSpans(bin: Bin)
    requires bin.Ok()
    ensures ALL.Ok() && ALL.base <= bin.base && bin.End() <= ALL.End()
  {
    ZeroAligned(63);
  }

  /** cover: for a bin inside the root, the solid bin around it, or NONE exactly when the bin is mixed. */
  method Cover(m: BinMap, bin: Bin) returns (r: Bin)
    requires m.Valid() && (bin.Ok() || bin == NONE)
    ensures bin == NONE ==> if m.root == ALL then r == ALL else r == m.root.Sibling() && r.Ok() && AllEmpty(m, r)
    ensures m.root.Contains(bin) ==> (r == NONE <==> !AllEmpty(m, bin) && !AllFilled(m, bin))
    ensures m.root.Contains(bin) && r != NONE ==> Covering(m, r, bin)
    ensures !m.root.Contains(bin) && bin.Contains(m.root) ==> r == if forall i: nat :: !m.Has(i) then ALL else NONE
    ensures bin.Ok() && !m.root.Contains(bin) && !bin.Contains(m.root) ==> r == m.root.Sibling() && r.Ok() && AllEmpty(m, r)
  {
    hide TreeHas, Refs, Holds, NoSharing, Chain, Distinct, Bit, P, Mask, Bin.Contains, Aligned, Floor;
    NoneContains(m.root);
    if !m.root.Contains(bin) {
      if !bin.Contains(m.root) {
        if bin != NONE {
          AllContains(bin);
        } else if m.root == ALL {
          return ALL; // in 64 bits ALL is its own sibling
        }
        RootSibling(m.root);
        return m.root.Sibling();
      }
      var e := IsEmpty(m);
      return if e then ALL else NONE;
    }
    var ref, cur, href := m.Trace(bin, bin.base);
    ContainsMeaning(m.root, bin);
    SolidEmpty(m, bin);
    SolidFilled(m, bin);
    if bin.layer >= 6 {
      r := CoverHigh(m, ref, cur, bin);
    } else {
      r := CoverLow(m, ref, cur, bin);
    }
  }
}
