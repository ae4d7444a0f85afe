/** find_complement and find_match: walking two maps together, in twisted order. */
module Find {
  import opened Powers
  import opened Bits
  import opened Bins
  import opened Words
  import opened Trees
  import opened Cells
  import opened BinMaps
  import opened Queries
  import Twist
  import opened Leaf
  import opened Order

  /** Chunks below this bound survive the cut to 32 bits in the leaf search. */
  const LIMIT: nat := 0x8000_0000

  /** The bits wanted where both maps are bitmaps. */
  function Combine(s: Word, d: Word, matching: bool): Word {
    if matching then WordAnd(s, d) else WordAndNot(s, d)
  }

  lemma CombineBits(s: Word, d: Word, matching: bool, i: nat)
    ensures Bit(Combine(s, d, matching), i) <==> Bit(s, i) && (Bit(d, i) == matching)
  {
    BitOps(s, d, i);
  }

  // ------------------------------------------------------------------
  // Cells and the bins they cover

  /** The cell ref is the node over bin. */
  ghost predicate CellOver(m: BinMap, ref: nat, bin: Bin)
    reads m
  {
    bin.Ok() && 6 <= bin.layer <= m.root.layer && m.root.Has(bin.base) && bin == BinAt(m.root, bin.base, bin.layer) &&
    HasNode(m.tree, m.root, bin.base, bin.layer) && ref == NodeAt(m.tree, m.root, bin.base, bin.layer).ref
  }

  /** The number of cells below and including the one over bin. */
  ghost function CellsBelow(m: BinMap, bin: Bin): nat
    reads m
  {
    if HasNode(m.tree, m.root, bin.base, bin.layer) then Size(NodeAt(m.tree, m.root, bin.base, bin.layer)) else 0
  }

  /** What is left to visit below one half. */
  ghost function HalfCells(m: BinMap, h: CellHalf, bin: Bin): nat
    reads m
  {
    if h.Ref? then CellsBelow(m, bin) else 0
  }

  lemma CellHalves(m: BinMap, ref: nat, bin: Bin)
    requires m.Valid() && CellOver(m, ref, bin)
    ensures ref < |m.cells| && m.cells[ref].Used?
    ensures bin.Left().Ok() && bin.Right().Ok() && bin.Left().base == bin.base && bin.Left().End() == bin.Right().base && bin.Right().End() == bin.End()
    ensures bin.End() <= m.root.End()
    ensures var h := m.cells[ref].left; (h.Ref? ==> h.r != ROOT_REF && CellOver(m, h.r, bin.Left())) && (h.Bitmap? ==> Solid(m, bin.Left(), h.w))
    ensures var h := m.cells[ref].right; (h.Ref? ==> h.r != ROOT_REF && CellOver(m, h.r, bin.Right())) && (h.Bitmap? ==> Solid(m, bin.Right(), h.w))
    ensures CellsBelow(m, bin) == 1 + HalfCells(m, m.cells[ref].left, bin.Left()) + HalfCells(m, m.cells[ref].right, bin.Right())
  {
    hide Refs, Holds, NoSharing, Chain, Distinct, Bit, P, Aligned, Floor, TreeHas, CanonicalHalf, Size, HasNode, NodeAt, BinAt;
    HalvesOk(bin);
    BinAtSpec(m.root, bin.base, bin.layer);
    NodeCell(m.cells, m.tree, m.root, bin.base, bin.layer);
    HalfOver(m, ref, bin, true);
    HalfOver(m, ref, bin, false);
    SizeOf(NodeAt(m.tree, m.root, bin.base, bin.layer));
  }

  lemma SizeOf(t: Tree)
    ensures Size(t) == 1 + (if t.left.Sub? then Size(t.left.t) else 0) + (if t.right.Sub? then Size(t.right.t) else 0)
  {
  }

  lemma HalfOver(m: BinMap, ref: nat, bin: Bin, left: bool)
    requires m.Valid() && CellOver(m, ref, bin)
    ensures var n := NodeAt(m.tree, m.root, bin.base, bin.layer);
      var h := if left then n.left else n.right;
      var c := if left then bin.Left() else bin.Right();
      (h.Sub? ==> h.t.ref != ROOT_REF && CellOver(m, h.t.ref, c) && CellsBelow(m, c) == Size(h.t)) && (h.Bits? ==> Solid(m, c, h.w))
  {
    hide Refs, Holds, NoSharing, Chain, Distinct, Bit, P, Aligned, Floor, TreeHas, CanonicalHalf, Size, HasNode, NodeAt, BinAt;
    var t, r, x := m.tree, m.root, bin.base;
    var n := NodeAt(t, r, x, bin.layer);
    var h := if left then n.left else n.right;
    var c := if left then bin.Left() else bin.Right();
    HalvesOk(bin);
    BinAtSpec(r, x, bin.layer);
    NodeMove(t, r, x, c.base, bin.layer);
    BinStep(r, c.base, bin.layer);
    assert HalfAt(t, r, c.base, bin.layer) == h;
    if h.Sub? {
      StepDown(t, r, c.base, bin.layer);
      NodeFits(t, r, c.base, c.layer);
      if h.t.ref == ROOT_REF {
        RootOnly(t, r, c.base, c.layer);
        assert false;
      }
    } else {
      forall i: nat | c.Has(i) ensures m.Has(i) <==> Bit(h.w, i % 32) {
        HalfDecides(t, r, c.base, bin, c, h.w, i);
      }
    }
  }

  // ------------------------------------------------------------------
  // The explicit stack

  const LR_LEFT := 0
  const RL_RIGHT := 1
  const RL_LEFT := 2
  const LR_RIGHT := 3

  /** An entry of the stack: a bin, the cells over it, and which half comes next (and whether it is the last). */
  datatype Frame = Frame(bin: Bin, sref: nat, dref: nat, dir: nat) {

    predicate IsLeft() {
      dir % 2 == 0
    }

    /** The half to visit now. */
    function Half(): Bin
      requires bin.layer > 0
    {
      if IsLeft() then bin.Left() else bin.Right()
    }

    /** What is still to be visited: all of the bin, or its second half. */
    function Rest(): Bin
      requires bin.layer > 0
    {
      if dir == LR_LEFT || dir == RL_RIGHT then bin else Half()
    }

    function Ref(ofSource: bool): nat {
      if ofSource then sref else dref
    }
  }

  function Push(bin: Bin, sref: nat, dref: nat, twist: nat): Frame {
    Frame(bin, sref, dref, if And(twist, P(bin.layer) / 2) != 0 then RL_RIGHT else LR_LEFT)
  }

  /** The stack after a pop: an entry whose first half is being visited stays, turned to its second half. */
  function Popped(stack: seq<Frame>): seq<Frame>
    requires stack != []
  {
    var top := stack[|stack| - 1];
    stack[..|stack| - 1] + if top.dir == LR_LEFT then [top.(dir := LR_RIGHT)] else if top.dir == RL_RIGHT then [top.(dir := RL_LEFT)] else []
  }

  /** Every entry is a cell of the map, each at least one layer below the entry under it, all inside one bin. */
  ghost predicate StackOver(m: BinMap, stack: seq<Frame>, within: Bin, ofSource: bool)
    reads m
  {
    forall k :: 0 <= k < |stack| ==>
      var f := stack[k];
      CellOver(m, f.Ref(ofSource), f.bin) && f.dir <= 3 && f.bin.layer + k <= within.layer &&
      within.base <= f.bin.base && f.bin.End() <= within.End()
  }

  /** Chunk i still lies in front of the search. */
  ghost predicate Ahead(stack: seq<Frame>, i: nat) {
    exists k :: 0 <= k < |stack| && stack[k].bin.layer > 0 && stack[k].Rest().Has(i)
  }

  /** The cells below the half an entry visits next. */
  ghost function HalfWork(m: BinMap, f: Frame, ofSource: bool): nat
    reads m
  {
    if f.bin.layer == 0 || f.Ref(ofSource) >= |m.cells| || !m.cells[f.Ref(ofSource)].Used? then 0
    else HalfCells(m, if f.IsLeft() then m.cells[f.Ref(ofSource)].left else m.cells[f.Ref(ofSource)].right, f.Half())
  }

  ghost function Weight(m: BinMap, f: Frame, ofSource: bool): nat
    reads m
  {
    if f.dir == LR_LEFT || f.dir == RL_RIGHT then 3 * CellsBelow(m, f.bin) else 1 + 3 * HalfWork(m, f, ofSource)
  }

  ghost function Total(m: BinMap, stack: seq<Frame>, ofSource: bool): nat
    reads m
    decreases |stack|
  {
    if stack == [] then 0
    else Total(m, stack[..|stack| - 1], ofSource) + Weight(m, stack[|stack| - 1], ofSource)
  }

  lemma TotalPush(m: BinMap, stack: seq<Frame>, f: Frame, ofSource: bool)
    ensures Total(m, stack + [f], ofSource) == Total(m, stack, ofSource) + Weight(m, f, ofSource)
  {
    assert (stack + [f])[..|stack|] == stack;
  }

  /** One pop: the half popped is what the stack no longer covers. */
  lemma PopAhead(stack: seq<Frame>, i: nat)
    requires stack != [] && stack[|stack| - 1].bin.layer > 0 && stack[|stack| - 1].dir <= 3
    requires Ahead(stack, i)
    ensures Ahead(Popped(stack), i) || stack[|stack| - 1].Half().Has(i)
  {
    hide P;
    var n := |stack| - 1;
    var top, rest := stack[n], Popped(stack);
    var k :| 0 <= k < |stack| && stack[k].bin.layer > 0 && stack[k].Rest().Has(i);
    if k < n {
      assert rest[k] == stack[k];
    } else if (top.dir == LR_LEFT || top.dir == RL_RIGHT) && !top.Half().Has(i) {
      HalvesMeet(top.bin, i);
      assert rest[n].Rest().Has(i);
    }
  }

  lemma HalvesMeet(b: Bin, i: nat)
    requires b.layer > 0 && b.Has(i)
    ensures b.Left().Has(i) || b.Right().Has(i)
  {
  }

  /** The entry is turned as the twist says. */
  ghost predicate Turned(f: Frame, twist: nat) {
    f.bin.layer > 0 && Aligned(f.bin.base, f.bin.layer) && f.dir <= 3 &&
    (f.dir == RL_RIGHT || f.dir == RL_LEFT <==> And(twist, P(f.bin.layer) / 2) != 0)
  }

  /** What is nearer the top of the stack comes first. */
  ghost predicate Lined(stack: seq<Frame>, twist: nat) {
    (forall k :: 0 <= k < |stack| ==> Turned(stack[k], twist)) &&
    forall k, l :: 0 <= k < l < |stack| ==> Precedes(stack[l].Rest(), stack[k].Rest(), twist)
  }

  lemma LinePop(stack: seq<Frame>, twist: nat)
    requires stack != [] && Lined(stack, twist)
    ensures Lined(Popped(stack), twist)
    ensures forall k :: 0 <= k < |Popped(stack)| ==> Precedes(stack[|stack| - 1].Half(), Popped(stack)[k].Rest(), twist)
  {
    hide P, Aligned, And, Precedes;
    var n := |stack| - 1;
    var top, rest := stack[n], Popped(stack);
    assert Turned(top, twist);
    TwistHalves(top.bin, twist);
    RestInside(top);
    forall k | 0 <= k < n ensures rest[k] == stack[k] && Precedes(top.Half(), stack[k].Rest(), twist) {
      assert Turned(stack[k], twist);
      PrecedesPart(top.Rest(), stack[k].Rest(), top.Half(), stack[k].Rest(), twist);
    }
    if top.dir == LR_LEFT || top.dir == RL_RIGHT {
      forall k | 0 <= k < n ensures Precedes(rest[n].Rest(), rest[k].Rest(), twist) {
        assert Turned(stack[k], twist);
        PrecedesPart(top.Rest(), stack[k].Rest(), rest[n].Rest(), stack[k].Rest(), twist);
      }
    }
  }

  lemma RestInside(f: Frame)
    requires f.bin.layer > 0
    ensures f.Rest().base <= f.Half().base && f.Half().End() <= f.Rest().End()
    ensures f.dir == LR_LEFT || f.dir == RL_RIGHT ==> var g := f.(dir := if f.dir == LR_LEFT then LR_RIGHT else RL_LEFT);
      f.Rest().base <= g.Rest().base && g.Rest().End() <= f.Rest().End()
  {
  }

  lemma LinePush(stack: seq<Frame>, f: Frame, twist: nat)
    requires Lined(stack, twist) && f.bin.Ok() && f.bin.layer > 0 && f == Push(f.bin, f.sref, f.dref, twist)
    requires forall k :: 0 <= k < |stack| ==> Precedes(f.bin, stack[k].Rest(), twist)
    ensures Lined(stack + [f], twist)
  {
    hide P, Aligned, And, Precedes;
    var all := stack + [f];
    forall k | 0 <= k < |all| ensures Turned(all[k], twist) {
      if k < |stack| {
        assert Turned(stack[k], twist);
      }
    }
  }

  /** What is still ahead comes after the half just popped. */
  lemma LineLater(half: Bin, bin: Bin, stack: seq<Frame>, want: iset<nat>, twist: nat)
    requires Lined(stack, twist) && forall k :: 0 <= k < |stack| ==> Precedes(half, stack[k].Rest(), twist)
    requires forall i: nat :: bin.Has(i) && i in want ==> Ahead(stack, i) || half.Has(i)
    ensures Later(half, bin, want, twist)
  {
    hide P, Rank;
    forall i: nat, j: nat | bin.Has(i) && !half.Has(i) && i in want && half.Has(j) ensures Rank(j, twist) < Rank(i, twist) {
      var k :| 0 <= k < |stack| && stack[k].bin.layer > 0 && stack[k].Rest().Has(i);
      assert Precedes(half, stack[k].Rest(), twist);
    }
  }

  /** One pop: the work left shrinks by more than the half popped. */
  lemma PopTotal(m: BinMap, stack: seq<Frame>, ofSource: bool)
    requires m.Valid() && stack != []
    requires var f := stack[|stack| - 1]; CellOver(m, f.Ref(ofSource), f.bin) && f.dir <= 3
    ensures Total(m, Popped(stack), ofSource) + 3 * HalfWork(m, stack[|stack| - 1], ofSource) < Total(m, stack, ofSource)
  {
    hide Refs, Holds, NoSharing, Chain, Distinct, Bit, P, Aligned, Floor, TreeHas, CanonicalHalf, Size, HasNode, NodeAt, BinAt, CellsBelow;
    var n := |stack| - 1;
    var top, rest := stack[n], Popped(stack);
    CellHalves(m, top.Ref(ofSource), top.bin);
    if top.dir == LR_LEFT || top.dir == RL_RIGHT {
      TotalPush(m, stack[..n], rest[n], ofSource);
    } else {
      assert rest == stack[..n];
    }
  }

  lemma PopStack(m: BinMap, stack: seq<Frame>, within: Bin, ofSource: bool)
    requires m.Valid() && stack != [] && StackOver(m, stack, within, ofSource)
    ensures var f := stack[|stack| - 1];
      CellOver(m, f.Ref(ofSource), f.bin) && f.bin.layer + |stack| - 1 <= within.layer && f.bin.layer >= 6 &&
      within.base <= f.bin.base && f.bin.End() <= within.End()
    ensures StackOver(m, Popped(stack), within, ofSource) && |Popped(stack)| <= |stack|
    ensures Total(m, Popped(stack), ofSource) + 3 * HalfWork(m, stack[|stack| - 1], ofSource) < Total(m, stack, ofSource)
    ensures forall i: nat :: Ahead(stack, i) ==> Ahead(Popped(stack), i) || stack[|stack| - 1].Half().Has(i)
  {
    hide Refs, Holds, NoSharing, Chain, Distinct, Bit, P, Aligned, Floor, TreeHas, CanonicalHalf, Size, HasNode, NodeAt, BinAt, CellsBelow, Total, HalfWork, Ahead;
    assert CellOver(m, stack[|stack| - 1].Ref(ofSource), stack[|stack| - 1].bin);
    PopTotal(m, stack, ofSource);
    forall i: nat | Ahead(stack, i) ensures Ahead(Popped(stack), i) || stack[|stack| - 1].Half().Has(i) {
      PopAhead(stack, i);
    }
  }

  lemma PushStack(m: BinMap, stack: seq<Frame>, f: Frame, within: Bin, ofSource: bool)
    requires m.Valid() && StackOver(m, stack, within, ofSource)
    requires CellOver(m, f.Ref(ofSource), f.bin) && f.dir <= 1 && f.bin.layer + |stack| <= within.layer
    requires within.base <= f.bin.base && f.bin.End() <= within.End()
    ensures StackOver(m, stack + [f], within, ofSource)
    ensures Total(m, stack + [f], ofSource) <= Total(m, stack, ofSource) + 3 * CellsBelow(m, f.bin)
    ensures forall i: nat :: Ahead(stack, i) || f.bin.Has(i) ==> Ahead(stack + [f], i)
  {
    hide Refs, Holds, NoSharing, Chain, Distinct, Bit, P, Aligned, Floor, TreeHas, CanonicalHalf, Size, HasNode, NodeAt, BinAt, CellsBelow;
    TotalPush(m, stack, f, ofSource);
    var all := stack + [f];
    forall i: nat | Ahead(stack, i) || f.bin.Has(i) ensures Ahead(all, i) {
      if Ahead(stack, i) {
        var k :| 0 <= k < |stack| && stack[k].bin.layer > 0 && stack[k].Rest().Has(i);
        assert all[k] == stack[k];
      } else {
        assert all[|stack|].Rest().Has(i);
      }
    }
  }

  // ------------------------------------------------------------------
  // Bins that are not wanted as a whole

  ghost predicate Lacking(bin: Bin, want: iset<nat>) {
    exists i: nat :: bin.Has(i) && i !in want
  }

  /** No cell on the stack is wanted as a whole. */
  ghost predicate AllLacking(stack: seq<Frame>, want: iset<nat>) {
    forall k :: 0 <= k < |stack| ==> Lacking(stack[k].bin, want)
  }

  lemma LackingPop(stack: seq<Frame>, want: iset<nat>)
    requires stack != [] && AllLacking(stack, want)
    ensures AllLacking(Popped(stack), want) && Lacking(stack[|stack| - 1].bin, want)
  {
    hide Lacking;
  }

  /** A cell is solid exactly if its halves are; only the root can be. */
  lemma CellSolid(m: BinMap, ref: nat, bin: Bin)
    requires m.Valid() && CellOver(m, ref, bin)
    ensures ref < |m.cells|
    ensures AllFilled(m, bin) <==> m.cells[ref] == Used(Bitmap(FILLED), Bitmap(FILLED))
    ensures AllEmpty(m, bin) <==> m.cells[ref] == Used(Bitmap(EMPTY), Bitmap(EMPTY))
    ensures ref != ROOT_REF ==> !AllFilled(m, bin) && !AllEmpty(m, bin)
  {
    hide Refs, Holds, NoSharing, Chain, Distinct, Bit, P, Aligned, Floor, TreeHas, HasNode, NodeAt, BinAt, CanonicalHalf, AllEmpty, AllFilled;
    NodeCell(m.cells, m.tree, m.root, bin.base, bin.layer);
    var n := NodeAt(m.tree, m.root, bin.base, bin.layer);
    BinAtSpec(m.root, bin.base, bin.layer);
    NodeSolid(m.tree, m.root, bin.base, bin, EMPTY);
    NodeSolid(m.tree, m.root, bin.base, bin, FILLED);
    assert Solid(m, bin, EMPTY) <==> Uniform(n) && n.left == Bits(EMPTY);
    assert Solid(m, bin, FILLED) <==> Uniform(n) && n.left == Bits(FILLED);
    SolidEmpty(m, bin);
    SolidFilled(m, bin);
    if ref != ROOT_REF {
      NotRoot(m.tree, m.root, bin.base, bin.layer);
      CanonicalNode(m.tree, m.root, bin.base, bin.layer);
    }
  }

  lemma LackingPush(stack: seq<Frame>, f: Frame, want: iset<nat>)
    requires AllLacking(stack, want) && Lacking(f.bin, want)
    ensures AllLacking(stack + [f], want)
  {
    hide Lacking;
  }

  lemma LackingFilled(m: BinMap, bin: Bin, want: iset<nat>)
    requires !AllFilled(m, bin) && forall i: nat :: i in want ==> m.Has(i)
    ensures Lacking(bin, want)
  {
    hide BinMap.Has;
  }

  lemma LackingEmpty(m: BinMap, bin: Bin, want: iset<nat>)
    requires !AllEmpty(m, bin) && forall i: nat :: i in want ==> !m.Has(i)
    ensures Lacking(bin, want)
  {
    hide BinMap.Has;
  }

  /** A half of a cell is as big as a wanted bin gets, if the cell is not wanted as a whole. */
  lemma HalfLargest(b: Bin, half: Bin, bin: Bin, want: iset<nat>)
    requires b.Ok() && b.layer > 0 && (half == b.Left() || half == b.Right()) && Lacking(b, want)
    ensures Largest(half, bin, want)
  {
    hide P, Aligned, Floor, Bin.Parent;
    HalfParent(b);
    var i: nat :| b.Has(i) && i !in want;
    assert half.Parent().Has(i);
  }

  /** Nothing is bigger than the whole range. */
  lemma OwnLargest(b: Bin, want: iset<nat>)
    requires b.Ok()
    ensures Largest(b, b, want)
  {
    var p := b.Parent();
    FloorSpec(b.base, b.layer + 1);
    assert b.Parent().Has(if p.base < b.base then p.base else b.End());
  }

  // ------------------------------------------------------------------
  // What is searched for, and what a right answer is

  /** Chunks of the source that the destination lacks; or, when matching, has. */
  ghost function Want(d: BinMap, s: BinMap, matching: bool): iset<nat>
    reads d, s
  {
    iset i: nat | s.Has(i) && d.Has(i) == matching
  }

  ghost function WantBits(dbm: Word, s: BinMap, matching: bool): iset<nat>
    reads s
  {
    iset i: nat | s.Has(i) && Bit(dbm, i % 32) == matching
  }

  ghost function WantFrom(d: BinMap, sbm: Word, matching: bool): iset<nat>
    reads d
  {
    iset i: nat | Bit(sbm, i % 32) && d.Has(i) == matching
  }

  /** A bin of wanted chunks, and no part of a bigger one. */
  ghost predicate Right(r: Bin, bin: Bin, want: iset<nat>) {
    r.Ok() && bin.base <= r.base && r.End() <= bin.End() && (forall i: nat :: r.Has(i) ==> i in want) && Largest(r, bin, want)
  }

  /** The next bigger bin is not wanted as a whole. */
  ghost predicate Largest(r: Bin, bin: Bin, want: iset<nat>) {
    exists i: nat :: r.Parent().Has(i) && !(bin.Has(i) && i in want)
  }

  lemma LargestUp(r: Bin, part: Bin, bin: Bin, a: iset<nat>, b: iset<nat>)
    requires Largest(r, part, a) && Agree(part, a, b) && r.Ok() && part.base <= r.base && r.End() <= part.End()
    requires bin.base <= part.base && part.End() <= bin.End() && (part == bin || (part.Ok() && Largest(part, bin, b)))
    ensures Largest(r, bin, b)
  {
    hide P, Aligned, Floor, Bin.Parent;
    var i: nat :| r.Parent().Has(i) && !(part.Has(i) && i in a);
    if part != bin && r != part {
      ParentInside(part, r);
    }
  }

  /** The parent of a smaller bin inside a bin is inside it too. */
  lemma ParentInside(b: Bin, r: Bin)
    requires b.Ok() && r.Ok() && b.base <= r.base && r.End() <= b.End() && r != b
    ensures b.base <= r.Parent().base && r.Parent().End() <= b.End()
  {
    hide P, Aligned, Floor;
    ContainsMeaning(b, r);
    NestedOrDisjoint(b, r);
    ParentOk(r);
    NestedOrDisjoint(b, r.Parent());
    ContainsMeaning(b, r.Parent());
    assert b.Has(r.base) && r.Parent().Has(r.base);
  }

  /** An answer no bigger than the bitmap lets it be is the biggest. */
  lemma BoundedLargest(r: Bin, bin: Bin, w: Word, want: iset<nat>)
    requires Bounded(r, w) && forall i: nat :: bin.Has(i) && i in want ==> Bit(w, i % 32)
    ensures Largest(r, bin, want)
  {
    hide Bit, Bin.Parent;
    var i: nat :| r.Parent().Has(i) && !Bit(w, i % 32);
  }

  /** The block of 32 chunks around a chunk is wanted as a whole. */
  ghost predicate WholeBlock(c: nat, bin: Bin, want: iset<nat>) {
    forall i: nat :: Floor(c, 5) <= i < Floor(c, 5) + 32 ==> bin.Has(i) && i in want
  }

  /** A chunk whose place the search can tell. */
  ghost predicate Safe(c: nat, bin: Bin, want: iset<nat>) {
    c < LIMIT || WholeBlock(c, bin, want)
  }

  /** Neither the twist nor the wanted chunks go beyond the limit, or only the wanted chunks do. */
  ghost predicate Tame(bin: Bin, want: iset<nat>, twist: nat) {
    twist < LIMIT || forall i: nat :: bin.Has(i) && i in want ==> i < LIMIT
  }

  /** NONE exactly when the bin has no wanted chunk. Otherwise the answer depends on the wanted chunk that comes first in
      the order of the twist: if that is safe, a bin of wanted chunks that holds it; if not, a bin below the limit. */
  ghost predicate Answer(r: Bin, bin: Bin, want: iset<nat>, twist: nat) {
    (r == NONE <==> forall i: nat :: bin.Has(i) ==> i !in want) &&
    (r != NONE && Tame(bin, want, twist) ==> forall c: nat :: IsFirst(c, bin, want, twist) ==> Found(c, r, bin, want))
  }

  ghost predicate Found(c: nat, r: Bin, bin: Bin, want: iset<nat>) {
    if Safe(c, bin, want) then Right(r, bin, want) && r.Has(c) else r.Ok() && r.End() <= LIMIT
  }

  /** The two sets agree on the bin. */
  ghost predicate Agree(bin: Bin, a: iset<nat>, b: iset<nat>) {
    forall i: nat :: bin.Has(i) ==> (i in a <==> i in b)
  }

  /** Wanted chunks outside a part come after all of its chunks. */
  ghost predicate Later(part: Bin, bin: Bin, want: iset<nat>, twist: nat) {
    forall i: nat, j: nat :: bin.Has(i) && !part.Has(i) && i in want && part.Has(j) ==> Rank(j, twist) < Rank(i, twist)
  }

  /** An answer found in a part is an answer for the whole if the rest comes later. */
  lemma AnswerUp(r: Bin, part: Bin, bin: Bin, a: iset<nat>, b: iset<nat>, twist: nat)
    requires Answer(r, part, a, twist) && r != NONE && Agree(part, a, b) && Later(part, bin, b, twist)
    requires bin.base <= part.base && part.End() <= bin.End()
    requires part == bin || (part.Ok() && part.layer >= 5 && Largest(part, bin, b))
    ensures Answer(r, bin, b, twist)
  {
    hide P, Bin.Ok, Rank, Aligned, Floor, Safe, Right, Largest;
    var i: nat :| part.Has(i) && i in a;
    assert bin.Has(i) && i in b;
    if Tame(bin, b, twist) {
      forall c: nat | IsFirst(c, bin, b, twist) ensures Found(c, r, bin, b) {
        assert part.Has(c);
        assert IsFirst(c, part, a, twist);
        assert Tame(part, a, twist);
        assert Found(c, r, part, a);
        FoundUp(c, r, part, bin, a, b);
      }
    }
  }

  lemma FoundUp(c: nat, r: Bin, part: Bin, bin: Bin, a: iset<nat>, b: iset<nat>)
    requires Found(c, r, part, a) && Agree(part, a, b) && part.Has(c)
    requires bin.base <= part.base && part.End() <= bin.End()
    requires part == bin || (part.Ok() && part.layer >= 5 && Largest(part, bin, b))
    ensures Found(c, r, bin, b)
  {
    hide P, Bin.Ok, Aligned, Floor, Largest;
    if part != bin {
      BlockInside(part, c);
    }
    if Right(r, part, a) {
      LargestUp(r, part, bin, a, b);
    }
    forall i: nat | r.Has(i) && Right(r, part, a) ensures i in b {
      assert part.Has(i);
    }
  }

  /** The block of a chunk lies in every bin of at least a block around the chunk. */
  lemma BlockInside(b: Bin, c: nat)
    requires b.Ok() && b.layer >= 5 && b.Has(c)
    ensures b.base <= Floor(c, 5) && Floor(c, 5) + 32 <= b.End()
  {
    hide P, Aligned, Floor;
    SmallPowers();
    FloorSpec(c, 5);
    AlignedBelow(b.base, 5, b.layer);
    if Floor(c, 5) < b.base {
      AlignedStep(Floor(c, 5), b.base, 5);
      assert false;
    }
    Laminar(Floor(c, 5), 5, b.base, b.layer);
  }

  /** The leaf search answers for a half where the wanted chunks are the set bits. */
  lemma LeafAnswer(half: Bin, w: Word, twist: nat, want: iset<nat>)
    requires half.Ok() && half.layer >= 5 && w != EMPTY
    requires forall i: nat :: half.Has(i) ==> (i in want <==> Bit(w, i % 32))
    ensures LeafFind(half, w, twist) != NONE && Answer(LeafFind(half, w, twist), half, want, twist)
  {
    hide P, Bit, LeafFind, Safe, Right;
    var x := BitsSeparate(half, w, EMPTY);
    ZeroBits(x % 32);
    assert half.Has(x) && x in want;
    LeafExact(half, w, twist);
    if w == FILLED {
      FilledLeaf(half, twist);
    } else {
      LeafSpec(half, w, twist);
    }
    if Tame(half, want, twist) {
      forall c: nat | IsFirst(c, half, want, twist) ensures Found(c, LeafFind(half, w, twist), half, want) {
        LeafFound(c, half, w, twist, want);
      }
    }
  }

  lemma LeafFound(c: nat, half: Bin, w: Word, twist: nat, want: iset<nat>)
    requires half.Ok() && half.layer >= 5 && w != EMPTY && Tame(half, want, twist) && IsFirst(c, half, want, twist)
    requires forall i: nat :: half.Has(i) ==> (i in want <==> Bit(w, i % 32))
    ensures Found(c, LeafFind(half, w, twist), half, want)
  {
    hide P, Bit, LeafFind, Aligned, Floor, Rank, Block, Bounded, Largest;
    var r := LeafFind(half, w, twist);
    LeafExact(half, w, twist);
    if w == FILLED {
      FilledLeaf(half, twist);
      OwnLargest(half, want);
      forall i: nat ensures Bit(FILLED, i % 32) {
        FilledBits(i % 32);
      }
      BlockInside(half, c);
    } else {
      LeafSpec(half, w, twist);
      BlockSpec(half, twist);
      NotWhole(c, half, w, want);
      if c < LIMIT {
        if half.End() > LIMIT && twist >= LIMIT {
          FarWanted(half, w, c, want);
          assert false;
        }
        var d := LeafFirst(half, w, twist);
        FirstOne(c, d, half, want, twist);
        BoundedLargest(r, half, w, want);
      }
    }
  }

  /** A bitmap repeated over a half that goes beyond the limit puts wanted chunks there too. */
  lemma FarWanted(half: Bin, w: Word, c: nat, want: iset<nat>)
    requires half.Ok() && half.End() > LIMIT > c && half.Has(c) && c in want
    requires forall i: nat :: half.Has(i) ==> (i in want <==> Bit(w, i % 32))
    ensures half.Has(c + LIMIT) && c + LIMIT in want
  {
    hide P, Bit, Aligned;
    WideHalf(half);
    Power31();
    if half.layer > 31 {
      PowerMonotone(31, half.layer);
    }
    assert (c + LIMIT) % 32 == c % 32;
  }

  /** A bitmap that is not full leaves no block whole. */
  lemma NotWhole(c: nat, half: Bin, w: Word, want: iset<nat>)
    requires half.Ok() && half.layer >= 5 && w != FILLED && half.Has(c)
    requires forall i: nat :: half.Has(i) ==> (i in want <==> Bit(w, i % 32))
    ensures !WholeBlock(c, half, want)
  {
    hide P, Bit, Aligned, Floor;
    FloorSpec(c, 5);
    BlockInside(half, c);
    SmallPowers();
    var s := Bin(5, Floor(c, 5));
    PowerMonotone(6, 63);
    var x := BitsSeparate(s, w, FILLED);
    FilledBits(x % 32);
    assert half.Has(x);
  }

  /** Nothing is wanted where the combined bitmap is empty. */
  lemma NothingThere(half: Bin, w: Word, want: iset<nat>)
    requires forall i: nat :: half.Has(i) ==> (i in want <==> Bit(w, i % 32))
    requires w == EMPTY
    ensures forall i: nat :: half.Has(i) ==> i !in want
  {
    hide Bit;
    forall i: nat | half.Has(i) ensures i !in want {
      ZeroBits(i % 32);
    }
  }

  lemma CombineOn(half: Bin, s: Word, d: Word, matching: bool, want: iset<nat>)
    requires forall i: nat :: half.Has(i) ==> (i in want <==> Bit(s, i % 32) && (Bit(d, i % 32) == matching))
    ensures forall i: nat :: half.Has(i) ==> (i in want <==> Bit(Combine(s, d, matching), i % 32))
  {
    hide Bit, Combine;
    forall i: nat | half.Has(i) ensures i in want <==> Bit(Combine(s, d, matching), i % 32) {
      CombineBits(s, d, matching, i % 32);
    }
  }

  /** _find_complement with a bitmap for the destination and cells for the source. */
  method FindBitsRef(bin: Bin, dbm: Word, sref: nat, source: BinMap, twist: nat, matching: bool) returns (r: Bin)
    requires source.Valid() && CellOver(source, sref, bin)
    requires Lacking(bin, WantBits(dbm, source, matching))
    ensures Answer(r, bin, WantBits(dbm, source, matching), twist)
  {
    hide Refs, Holds, NoSharing, Chain, Distinct, Bit, P, Aligned, Floor, TreeHas, CanonicalHalf, Size, HasNode, NodeAt, BinAt, CellsBelow, Total, Ahead, Later, Turned, Lined, Precedes, LeafFind, Combine, Lacking, Largest;
    ghost var want := WantBits(dbm, source, matching);
    var stack := [Push(bin, sref, 0, twist)];
    FirstFrame(source, stack, bin, true);
    FirstLine(stack, bin, twist);
    while stack != []
      invariant StackOver(source, stack, bin, true)
      invariant Lined(stack, twist) && forall i: nat :: bin.Has(i) && i in want ==> Ahead(stack, i)
      invariant |stack| <= 64 && AllLacking(stack, want)
      decreases Total(source, stack, true)
    {
      var f := stack[|stack| - 1];
      PopStack(source, stack, bin, true);
      CellHalves(source, f.sref, f.bin);
      LinePop(stack, twist);
      LackingPop(stack, want);
      stack := Popped(stack);
      var h := if f.IsLeft() then source.cells[f.sref].left else source.cells[f.sref].right;
      var half := f.Half();
      if h.Ref? {
        var child := Push(half, h.r, 0, twist);
        PushStack(source, stack, child, bin, true);
        LinePush(stack, child, twist);
        CellSolid(source, h.r, half);
        LackingFilled(source, half, want);
        LackingPush(stack, child, want);
        stack := stack + [child];
      } else {
        var w := Combine(h.w, dbm, matching);
        CombineOn(half, h.w, dbm, matching, want);
        if w != EMPTY {
          LeafAnswer(half, w, twist, want);
          r := LeafFind(half, w, twist);
          HalfLargest(f.bin, half, bin, want);
          LineLater(half, bin, stack, want, twist);
          AnswerUp(r, half, bin, want, want, twist);
          return;
        }
        NothingThere(half, w, want);
      }
    }
    NoneLeft(bin, want, twist);
    r := NONE;
  }

  lemma FirstFrame(m: BinMap, stack: seq<Frame>, bin: Bin, ofSource: bool)
    requires m.Valid() && |stack| == 1 && stack[0].bin == bin && stack[0].dir <= 1 && CellOver(m, stack[0].Ref(ofSource), bin)
    ensures StackOver(m, stack, bin, ofSource)
    ensures forall i: nat :: bin.Has(i) ==> Ahead(stack, i)
  {
    forall i: nat | bin.Has(i) ensures Ahead(stack, i) {
      assert stack[0].Rest().Has(i);
    }
  }

  lemma FirstLine(stack: seq<Frame>, bin: Bin, twist: nat)
    requires |stack| == 1 && bin.Ok() && bin.layer > 0
    requires stack[0].bin == bin && stack[0].dir == (if And(twist, P(bin.layer) / 2) != 0 then RL_RIGHT else LR_LEFT)
    ensures Lined(stack, twist)
  {
    hide P, And, Aligned;
  }

  lemma NoneLeft(bin: Bin, want: iset<nat>, twist: nat)
    requires forall i: nat :: bin.Has(i) && i in want ==> Ahead([], i)
    ensures Answer(NONE, bin, want, twist)
  {
  }

  lemma LackingFrom(d: BinMap, ref: nat, bin: Bin, sbm: Word, matching: bool)
    requires d.Valid() && CellOver(d, ref, bin)
    requires ref != ROOT_REF || (if matching then !AllFilled(d, bin) else !AllEmpty(d, bin))
    ensures Lacking(bin, WantFrom(d, sbm, matching))
  {
    hide Refs, Holds, NoSharing, Chain, Distinct, Bit, P, Aligned, Floor, TreeHas, CanonicalHalf, AllEmpty, AllFilled, CellOver, Lacking;
    CellSolid(d, ref, bin);
    if matching {
      LackingFilled(d, bin, WantFrom(d, sbm, matching));
    } else {
      LackingEmpty(d, bin, WantFrom(d, sbm, matching));
    }
  }

  /** _find_complement with cells for the destination and a bitmap for the source. */
  method FindRefBits(bin: Bin, dref: nat, destination: BinMap, sbm: Word, twist: nat, matching: bool) returns (r: Bin)
    requires destination.Valid() && CellOver(destination, dref, bin)
    requires Lacking(bin, WantFrom(destination, sbm, matching))
    ensures Answer(r, bin, WantFrom(destination, sbm, matching), twist)
  {
    hide Refs, Holds, NoSharing, Chain, Distinct, Bit, P, Aligned, Floor, TreeHas, CanonicalHalf, Size, HasNode, NodeAt, BinAt, CellsBelow, Total, Ahead, Later, Turned, Lined, Precedes, LeafFind, Combine, Lacking, Largest;
    ghost var want := WantFrom(destination, sbm, matching);
    var stack := [Push(bin, 0, dref, twist)];
    FirstFrame(destination, stack, bin, false);
    FirstLine(stack, bin, twist);
    while stack != []
      invariant StackOver(destination, stack, bin, false)
      invariant Lined(stack, twist) && forall i: nat :: bin.Has(i) && i in want ==> Ahead(stack, i)
      invariant |stack| <= 64 && AllLacking(stack, want)
      decreases Total(destination, stack, false)
    {
      var f := stack[|stack| - 1];
      PopStack(destination, stack, bin, false);
      CellHalves(destination, f.dref, f.bin);
      LinePop(stack, twist);
      LackingPop(stack, want);
      stack := Popped(stack);
      var h := if f.IsLeft() then destination.cells[f.dref].left else destination.cells[f.dref].right;
      var half := f.Half();
      if h.Ref? {
        var child := Push(half, 0, h.r, twist);
        PushStack(destination, stack, child, bin, false);
        LinePush(stack, child, twist);
        LackingFrom(destination, h.r, half, sbm, matching);
        LackingPush(stack, child, want);
        stack := stack + [child];
      } else {
        var w := Combine(sbm, h.w, matching);
        CombineOn(half, sbm, h.w, matching, want);
        if w != EMPTY {
          LeafAnswer(half, w, twist, want);
          r := LeafFind(half, w, twist);
          HalfLargest(f.bin, half, bin, want);
          LineLater(half, bin, stack, want, twist);
          AnswerUp(r, half, bin, want, want, twist);
          return;
        }
        NothingThere(half, w, want);
      }
    }
    NoneLeft(bin, want, twist);
    r := NONE;
  }

  /** One half of the walk over two maps, where at least one of them has a bitmap. */
  method FindHalf(half: Bin, dh: CellHalf, destination: BinMap, sh: CellHalf, source: BinMap, twist: nat, matching: bool) returns (r: Bin)
    requires destination.Valid() && source.Valid() && half.Ok() && half.layer >= 5
    requires dh.Bitmap? || sh.Bitmap?
    requires (dh.Ref? ==> dh.r != ROOT_REF && CellOver(destination, dh.r, half)) && (dh.Bitmap? ==> Solid(destination, half, dh.w))
    requires (sh.Ref? ==> sh.r != ROOT_REF && CellOver(source, sh.r, half)) && (sh.Bitmap? ==> Solid(source, half, sh.w))
    ensures Answer(r, half, Want(destination, source, matching), twist)
  {
    hide Refs, Holds, NoSharing, Chain, Distinct, Bit, P, Aligned, Floor, TreeHas, CanonicalHalf, Size, HasNode, NodeAt, BinAt, CellsBelow, LeafFind, Combine, Lacking, Largest, CellOver;
    ghost var want := Want(destination, source, matching);
    if sh.Ref? {
      if dh.w != (if matching then EMPTY else FILLED) {
        CellSolid(source, sh.r, half);
        LackingFilled(source, half, WantBits(dh.w, source, matching));
        r := FindBitsRef(half, dh.w, sh.r, source, twist, matching);
        if r != NONE {
          AnswerUp(r, half, half, WantBits(dh.w, source, matching), want, twist);
        }
      } else {
        forall i: nat | half.Has(i) ensures i !in want {
          ZeroBits(i % 32);
          FilledBits(i % 32);
        }
        r := NONE;
      }
    } else if sh.w != EMPTY {
      if dh.Ref? {
        LackingFrom(destination, dh.r, half, sh.w, matching);
        r := FindRefBits(half, dh.r, destination, sh.w, twist, matching);
        if r != NONE {
          AnswerUp(r, half, half, WantFrom(destination, sh.w, matching), want, twist);
        }
      } else {
        var w := Combine(sh.w, dh.w, matching);
        CombineOn(half, sh.w, dh.w, matching, want);
        if w != EMPTY {
          LeafAnswer(half, w, twist, want);
          r := LeafFind(half, w, twist);
        } else {
          NothingThere(half, w, want);
          r := NONE;
        }
      }
    } else {
      forall i: nat | half.Has(i) ensures i !in want {
        ZeroBits(i % 32);
      }
      r := NONE;
    }
  }

  lemma CellLayers(m: BinMap, ref: nat, bin: Bin)
    requires CellOver(m, ref, bin)
    ensures bin.Ok() && 6 <= bin.layer <= 63
  {
  }

  lemma InSource(d: BinMap, s: BinMap, matching: bool)
    ensures forall i: nat :: i in Want(d, s, matching) ==> s.Has(i)
  {
  }

  /** _find_complement with cells for both maps. */
  method FindRefs(bin: Bin, dref: nat, destination: BinMap, sref: nat, source: BinMap, twist: nat, matching: bool) returns (r: Bin)
    requires destination.Valid() && CellOver(destination, dref, bin)
    requires source.Valid() && CellOver(source, sref, bin)
    requires Lacking(bin, Want(destination, source, matching))
    ensures Answer(r, bin, Want(destination, source, matching), twist)
  {
    hide Refs, Holds, NoSharing, Chain, Distinct, Bit, P, Aligned, Floor, TreeHas, CanonicalHalf, Size, HasNode, NodeAt, BinAt, CellsBelow, Total, Ahead, Later, Turned, Lined, Precedes, LeafFind, Combine, Lacking, Largest, CellOver, Want;
    ghost var want := Want(destination, source, matching);
    var stack := [Push(bin, sref, dref, twist)];
    FirstFrame(source, stack, bin, true);
    FirstFrame(destination, stack, bin, false);
    CellLayers(source, sref, bin);
    FirstLine(stack, bin, twist);
    while stack != []
      invariant StackOver(source, stack, bin, true) && StackOver(destination, stack, bin, false)
      invariant Lined(stack, twist) && forall i: nat :: bin.Has(i) && i in want ==> Ahead(stack, i)
      invariant |stack| <= 64 && AllLacking(stack, want)
      decreases Total(source, stack, true)
    {
      var f := stack[|stack| - 1];
      PopStack(source, stack, bin, true);
      PopStack(destination, stack, bin, false);
      CellHalves(source, f.sref, f.bin);
      CellLayers(source, f.sref, f.bin);
      CellHalves(destination, f.dref, f.bin);
      LinePop(stack, twist);
      LackingPop(stack, want);
      stack := Popped(stack);
      var sh := if f.IsLeft() then source.cells[f.sref].left else source.cells[f.sref].right;
      var dh := if f.IsLeft() then destination.cells[f.dref].left else destination.cells[f.dref].right;
      var half := f.Half();
      if sh.Ref? && dh.Ref? {
        var child := Push(half, sh.r, dh.r, twist);
        PushStack(source, stack, child, bin, true);
        PushStack(destination, stack, child, bin, false);
        LinePush(stack, child, twist);
        CellSolid(source, sh.r, half);
        InSource(destination, source, matching);
        LackingFilled(source, half, want);
        LackingPush(stack, child, want);
        stack := stack + [child];
      } else {
        r := FindHalf(half, dh, destination, sh, source, twist, matching);
        if r != NONE {
          HalfLargest(f.bin, half, bin, want);
          LineLater(half, bin, stack, want, twist);
          AnswerUp(r, half, bin, want, want, twist);
          return;
        }
      }
    }
    NoneLeft(bin, want, twist);
    r := NONE;
  }

  // ------------------------------------------------------------------
  // Narrowing the range to the source

  lemma HighNumber(b: Bin)
    requires b.Ok() && b.layer >= 6
    ensures b.V() % 64 == 63
  {
    hide P, Aligned;
    SmallPowers();
    PowerAligned(6, b.layer);
    AlignedBelow(b.base, 6, b.layer);
    AlignedMod(b.base, 6);
    AlignedMod(P(b.layer), 6);
    NumberMod(b.base, P(b.layer));
  }

  lemma NumberMod(x: nat, p: nat)
    requires x % 64 == 0 && p % 64 == 0 && p > 0
    ensures (2 * x + p - 1) % 64 == 63
  {
  }

  lemma AndFilled(w: Word)
    ensures WordAnd(w, FILLED) == w
  {
    Twist.AndCommutes(w, FILLED);
    FilledAnd(w);
  }

  /** A source chunk pattern over a range, cut down to the range if that is smaller than a bitmap. */
  ghost predicate Pattern(s: BinMap, rng: Bin, w: Word)
    reads s
  {
    rng.Ok() && w != EMPTY && Solid(s, rng, w) && (rng.layer <= 5 ==> WordAnd(w, Mask(rng.V() % 64)) == w)
  }

  /** The part of a range that can hold source chunks, as a cell or as a bitmap of the source. */
  ghost predicate Narrowed(s: BinMap, range: Bin, rng: Bin, isRef: bool, sref: nat, w: Word)
    reads s
  {
    rng.Ok() && range.base <= rng.base && rng.End() <= range.End() && (rng == range || (rng.layer >= 6 && rng == s.root)) &&
    (forall i: nat :: range.Has(i) && s.Has(i) ==> rng.Has(i)) &&
    (if isRef then CellOver(s, sref, rng) else Pattern(s, rng, w))
  }

  method Narrow(source: BinMap, range: Bin) returns (found: bool, rng: Bin, isRef: bool, sref: nat, w: Word)
    requires source.Valid() && (range.Ok() || range == NONE)
    ensures range == NONE ==> !found
    ensures !found && range.Ok() ==> forall i: nat :: range.Has(i) ==> !source.Has(i)
    ensures found ==> Narrowed(source, range, rng, isRef, sref, w)
  {
    hide Refs, Holds, NoSharing, Chain, Distinct, Bit, P, Aligned, Floor, TreeHas, CanonicalHalf, Mask, Bin.Contains, HasNode, NodeAt, BinAt, Fits;
    found, rng, isRef, sref, w := true, range, true, ROOT_REF, EMPTY;
    NoneContains(source.root);
    if range.Contains(source.root) {
      rng := source.root;
      OverRoot(source.root, range);
      ContainsMeaning(range, source.root);
      RootCell(source);
    } else if source.root.Contains(range) {
      ContainsMeaning(source.root, range);
      var bin, href;
      sref, bin, href := source.Trace(range, range.base);
      if range != bin {
        isRef := false;
        StoppedHalf(source, sref, bin, range);
        Direction(bin, range);
        var h := if range.V() < bin.V() then source.cells[sref].left.w else source.cells[sref].right.w;
        MaskedHalf(source, range, h);
        w := WordAnd(h, Mask(range.V() % 64));
        if w == EMPTY {
          forall i: nat | range.Has(i) ensures !source.Has(i) {
            ZeroBits(i % 32);
          }
          found := false;
        }
      }
    } else {
      if range != NONE {
        NestedOrDisjoint(source.root, range);
        NestedOrDisjoint(range, source.root);
      }
      found := false;
    }
  }

  lemma RootCell(m: BinMap)
    requires m.Valid()
    ensures CellOver(m, ROOT_REF, m.root)
  {
  }

  /** Cutting the bitmap with the mask of the range loses nothing inside the range. */
  lemma MaskedHalf(s: BinMap, rng: Bin, h: Word)
    requires rng.Ok() && Solid(s, rng, h)
    ensures Solid(s, rng, WordAnd(h, Mask(rng.V() % 64)))
    ensures rng.layer <= 5 ==> WordAnd(WordAnd(h, Mask(rng.V() % 64)), Mask(rng.V() % 64)) == WordAnd(h, Mask(rng.V() % 64))
  {
    hide Bit, Mask, P, Aligned, Floor, WordAnd;
    if rng.layer >= 6 {
      HighNumber(rng);
      LastMask();
      AndFilled(h);
    } else {
      var m := Mask(rng.V() % 64);
      AndTwice(h, m);
      MaskBits(rng, 0);
      forall i: nat | rng.Has(i) ensures Bit(h, i % 32) <==> Bit(WordAnd(h, m), i % 32) {
        AgreeOnBin(rng, h, WordAnd(h, m), i);
      }
    }
  }

  lemma LastMask()
    ensures Mask(63) == FILLED
  {
  }

  lemma AndTwice(a: Word, m: Word)
    ensures WordAnd(WordAnd(a, m), m) == WordAnd(a, m)
  {
    hide And, Bit;
    var l, r := WordAnd(WordAnd(a, m), m), WordAnd(a, m);
    forall i: nat | i < 32 ensures Bit(l, i) <==> Bit(r, i) {
      BitOps(WordAnd(a, m), m, i);
      BitOps(a, m, i);
    }
    SmallPowers();
    BitsDetermine(l, r, 32);
  }
}
