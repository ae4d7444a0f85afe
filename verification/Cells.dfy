/** The cells of a bin map, the tree they hold, and what a change of one cell does to it. */
module Cells {
  import opened Powers
  import opened Bins
  import opened Words
  import opened Trees

  /** A half of a cell: a bitmap or the index of another cell. */
  datatype CellHalf = Bitmap(w: Word) | Ref(r: nat)

  /** A cell in use, or a cell of the free list with the index of the next one. */
  datatype Cell = Used(left: CellHalf, right: CellHalf) | Free(next: nat)

  const ROOT_REF: nat := 0

  function Resolve(h: Half): CellHalf {
    match h
    case Bits(w) => Bitmap(w)
    case Sub(t) => Ref(t.ref)
  }

  /** The cells starting at t.ref hold the tree t. */
  ghost predicate Holds(cells: seq<Cell>, t: Tree) {
    t.ref < |cells| &&
    cells[t.ref] == Used(Resolve(t.left), Resolve(t.right)) &&
    (t.left.Sub? ==> Holds(cells, t.left.t)) &&
    (t.right.Sub? ==> Holds(cells, t.right.t))
  }

  /** The free list from top threads through exactly these cells, in order. */
  ghost predicate Chain(cells: seq<Cell>, top: nat, free: seq<nat>)
    decreases |free|
  {
    free == [] ||
    (free[0] == top && top < |cells| && cells[top].Free? && Chain(cells, cells[top].next, free[1..]))
  }

  ghost predicate Distinct(s: seq<nat>) {
    forall i, j :: 0 <= i < j < |s| ==> s[i] != s[j]
  }

  lemma DistinctCons(x: nat, s: seq<nat>)
    requires Distinct(s) && x !in s
    ensures Distinct([x] + s)
  {
  }

  lemma {:induction false} HoldsFrame(cells: seq<Cell>, cells': seq<Cell>, t: Tree)
    requires Holds(cells, t) && |cells| <= |cells'|
    requires forall r :: r in Refs(t) && r < |cells| ==> cells'[r] == cells[r]
    ensures Holds(cells', t)
    decreases t
  {
    if t.left.Sub? {
      HoldsFrame(cells, cells', t.left.t);
    }
    if t.right.Sub? {
      HoldsFrame(cells, cells', t.right.t);
    }
  }

  lemma {:induction false} HoldsInRange(cells: seq<Cell>, t: Tree)
    requires Holds(cells, t)
    ensures forall r :: r in Refs(t) ==> r < |cells|
    decreases t
  {
    if t.left.Sub? {
      HoldsInRange(cells, t.left.t);
    }
    if t.right.Sub? {
      HoldsInRange(cells, t.right.t);
    }
  }

  lemma {:induction false} ChainFrame(cells: seq<Cell>, cells': seq<Cell>, top: nat, free: seq<nat>)
    requires Chain(cells, top, free) && |cells| <= |cells'|
    requires forall r :: r in free && r < |cells| ==> cells'[r] == cells[r]
    ensures Chain(cells', top, free)
    decreases |free|
  {
    if free != [] {
      ChainFrame(cells, cells', cells[top].next, free[1..]);
    }
  }

  /** Replacing the node at one place: the cells above it need no change. */
  lemma {:induction false} HoldsPut(cells: seq<Cell>, cells': seq<Cell>, t: Tree, b: Bin, x: nat, l: nat, s: Tree)
    requires HasNode(t, b, x, l) && NoSharing(t)
    requires Holds(cells, t) && |cells| <= |cells'|
    requires forall r :: r in Refs(t) - Refs(NodeAt(t, b, x, l)) && r < |cells| ==> cells'[r] == cells[r]
    requires s.ref == NodeAt(t, b, x, l).ref && Holds(cells', s)
    ensures Holds(cells', PutAt(t, b, x, l, s))
    ensures PutAt(t, b, x, l, s).ref == t.ref
    decreases t
  {
    if l < b.layer {
      var h := HalfToward(t, b, x);
      NodeRefs(h.t, b.Toward(x), x, l);
      HoldsPut(cells, cells', h.t, b.Toward(x), x, l, s);
      var o := if x < b.base + P(b.layer - 1) then t.right else t.left;
      if o.Sub? {
        HoldsFrame(cells, cells', o.t);
      }
    }
  }

  lemma {:induction false} HoldsNode(cells: seq<Cell>, t: Tree, b: Bin, x: nat, l: nat)
    requires HasNode(t, b, x, l) && Holds(cells, t)
    ensures Holds(cells, NodeAt(t, b, x, l))
    decreases t
  {
    if l < b.layer {
      HoldsNode(cells, HalfToward(t, b, x).t, b.Toward(x), x, l);
    }
  }

  function Range(n: nat): (s: set<nat>)
    ensures forall r: nat :: r in s <==> r < n
    ensures |s| == n
  {
    if n == 0 then {} else Range(n - 1) + {n - 1}
  }

  function Elements(s: seq<nat>): (e: set<nat>)
    ensures forall r: nat :: r in e <==> r in s
  {
    set r | r in s
  }

  lemma {:induction false} DistinctCount(s: seq<nat>)
    requires Distinct(s)
    ensures |Elements(s)| == |s|
    decreases |s|
  {
    if s != [] {
      DistinctCount(s[1..]);
      assert Elements(s) == {s[0]} + Elements(s[1..]);
      assert s[0] !in s[1..];
    }
  }

  /** A small bin outside the root whose new bits are all clear is already as wanted. */
  lemma LowOutside(root: Bin, bin: Bin, bits: Word, i: nat)
    requires root.Ok() && root.layer >= 6 && bin.Ok() && bin.layer <= 5 && !root.Contains(bin) && bin.Has(i)
    requires bin.V() % 64 < 63 && WordAnd(bits, Mask(bin.V() % 64)) == EMPTY
    ensures !root.Has(i) && !Bit(bits, i % 32)
  {
    hide Mask, Bit, Aligned, Floor, P, Bin.Contains;
    NestedOrDisjoint(root, bin);
    UpSpec(bin, 5);
    MaskInBlock(bin, i);
    BitOps(bits, Mask(bin.V() % 64), i % 32);
    ZeroBits(i % 32);
  }

  /** The layers just above a small bin inside the root. */
  lemma LowRoot(root: Bin, bin: Bin)
    requires root.Ok() && root.layer >= 6 && bin.Ok() && bin.layer <= 5 && root.Contains(bin)
    ensures bin.Up(6).Ok() && bin.Up(6).Has(bin.base) && root.Contains(bin.Up(6)) && root.Has(bin.base)
    ensures bin.Up(6).base == bin.Up(6).Up(6).base
    ensures bin.Up(6).base <= bin.base && bin.End() <= bin.Up(6).End()
    ensures bin.Up(5).Ok() && bin.Up(5).Has(bin.base)
    ensures bin.Up(5).base <= bin.base && bin.End() <= bin.Up(5).End()
    ensures bin.Up(6).base <= bin.Up(5).base && bin.Up(5).End() <= bin.Up(6).End()
  {
    UpSpec(bin, 5);
    UpSpec(bin, 6);
    NestedOrDisjoint(bin.Up(6), bin.Up(5));
    assert bin.Up(6).Has(bin.base) && bin.Up(5).Has(bin.base);
    ContainsMeaning(bin.Up(6), bin.Up(5));
    ContainsMeaning(root, bin);
    NestedOrDisjoint(root, bin.Up(6));
    assert root.Has(bin.base) && bin.Up(6).Has(bin.base);
    UpSpec(bin.Up(6), 6);
    FloorUnique(bin.Up(6).base, bin.Up(6).base, 6);
  }

  lemma LeafHolds(cells: seq<Cell>, ref: nat, w: Word)
    ensures Holds(cells, Leaf(ref, w)) <==> ref < |cells| && cells[ref] == Used(Bitmap(w), Bitmap(w))
  {
  }

  lemma NodeCell(cells: seq<Cell>, t: Tree, b: Bin, x: nat, l: nat)
    requires HasNode(t, b, x, l) && Holds(cells, t)
    ensures var n := NodeAt(t, b, x, l); n.ref < |cells| && cells[n.ref] == Used(Resolve(n.left), Resolve(n.right))
  {
    HoldsNode(cells, t, b, x, l);
  }

  lemma HoldsHalfAt(cells: seq<Cell>, t: Tree, b: Bin, x: nat, l: nat)
    requires HasNode(t, b, x, l) && 0 < l <= b.layer && Holds(cells, t)
    ensures HalfAt(t, b, x, l).Sub? ==> Holds(cells, HalfAt(t, b, x, l).t)
  {
    HoldsNode(cells, t, b, x, l);
  }

  /** After one cell is rewritten, the cells hold the tree with that half replaced. */
  lemma HoldsHalf(cells: seq<Cell>, cells': seq<Cell>, t: Tree, b: Bin, x: nat, l: nat, h: Half)
    requires HasNode(t, b, x, l) && 0 < l <= b.layer && NoSharing(t)
    requires Holds(cells, t) && |cells| <= |cells'|
    requires forall r :: r in Refs(t) && r != NodeAt(t, b, x, l).ref && r < |cells| ==> cells'[r] == cells[r]
    requires var n := WithHalf(NodeAt(t, b, x, l), BinAt(b, x, l), x, h);
      n.ref < |cells'| && cells'[n.ref] == Used(Resolve(n.left), Resolve(n.right))
    requires h.Sub? ==> Holds(cells', h.t)
    ensures Holds(cells', PutHalf(t, b, x, l, h))
  {
    hide HasNode, NodeAt, BinAt, PutAt, P;
    var n, c := NodeAt(t, b, x, l), BinAt(b, x, l);
    NodeRefs(t, b, x, l);
    HoldsNode(cells, t, b, x, l);
    var o := Other(n, c, x);
    if o.Sub? {
      HoldsFrame(cells, cells', o.t);
    }
    HoldsPut(cells, cells', t, b, x, l, WithHalf(n, c, x, h));
  }

  /** The tree under a root one layer up: the right half is empty, the left half is the old root. */
  predicate Raised(t: Tree, t': Tree) {
    t'.right == Bits(EMPTY) &&
    if Uniform(t) then t'.left == t.left
    else t'.left.Sub? && t'.left.t.left == t.left && t'.left.t.right == t.right
  }

  lemma RaisedRoot(r: Bin)
    requires r.Ok() && r.base == 0 && r.layer < 63
    ensures r.Parent() == Bin(r.layer + 1, 0) && r.Parent().Ok()
  {
    ZeroAligned(r.layer + 1);
    PowerMonotone(r.layer + 1, 63);
  }

  lemma RaisedShape(t: Tree, t': Tree, l: nat)
    requires Fits(t, l) && Canonical(t) && Raised(t, t')
    ensures Fits(t', l + 1) && Canonical(t')
  {
  }

  lemma RaisedHas(t: Tree, t': Tree, r: Bin, i: nat)
    requires r.Ok() && r.base == 0 && r.layer < 63 && Fits(t, r.layer) && Raised(t, t')
    ensures Bin(r.layer + 1, 0).Has(i) && TreeHas(t', Bin(r.layer + 1, 0), i) <==> r.Has(i) && TreeHas(t, r, i)
  {
    hide Aligned, Bit;
    assert P(r.layer + 1) == 2 * P(r.layer);
    if i < P(r.layer) {
      assert Bin(r.layer + 1, 0).Toward(i) == r;
      if !Uniform(t) {
        SameHalvesHas(t, t'.left.t, r, i);
      }
    } else {
      assert HalfToward(t', Bin(r.layer + 1, 0), i) == Bits(EMPTY);
      ZeroBits(i % 32);
    }
  }

  /** A node copied to a fresh cell holds the same tree there. */
  lemma MoveHolds(cells: seq<Cell>, cells': seq<Cell>, t: Tree, ref: nat)
    requires Holds(cells, t) && NoSharing(t) && |cells| <= |cells'|
    requires ref !in Refs(t) && ref < |cells'|
    requires forall r :: r in Refs(t) && r != t.ref && r < |cells| ==> cells'[r] == cells[r]
    requires cells'[ref] == cells[t.ref]
    ensures Holds(cells', Node(ref, t.left, t.right))
    ensures NoSharing(Node(ref, t.left, t.right))
    ensures Refs(Node(ref, t.left, t.right)) == Refs(t) - {t.ref} + {ref}
    ensures t.ref !in Refs(Node(ref, t.left, t.right))
  {
    if t.left.Sub? {
      HoldsFrame(cells, cells', t.left.t);
    }
    if t.right.Sub? {
      HoldsFrame(cells, cells', t.right.t);
    }
  }

  function Max(x: nat, y: nat): nat {
    if x < y then y else x
  }

  /** A bin around the root starts where the root does. */
  lemma OverRoot(root: Bin, bin: Bin)
    requires root.Ok() && root.base == 0 && bin.Ok() && bin.Contains(root)
    ensures bin.base == 0 && bin.layer >= root.layer
    ensures forall i: nat :: root.Has(i) ==> bin.Has(i)
  {
    ContainsMeaning(bin, root);
    NestedOrDisjoint(bin, root);
  }

  /** A bin that does not contain the root lies strictly inside it or apart from it. */
  lemma UnderRoot(root: Bin, bin: Bin)
    requires root.Ok() && bin.Ok() && bin.layer < 63 && !bin.Contains(root)
    ensures root.Contains(bin) ==> root.Contains(bin.Parent())
    ensures !root.Contains(bin.Parent()) ==> forall i: nat :: !(root.Has(i) && bin.Has(i))
  {
    hide P, Aligned, Floor, Bin.Contains;
    ParentOk(bin);
    NestedOrDisjoint(root, bin);
    NestedOrDisjoint(bin, root);
    NestedOrDisjoint(root, bin.Parent());
    assert bin.Has(bin.base) && bin.Parent().Has(bin.base);
    if root.Contains(bin) {
      ContainsMeaning(root, bin);
      ContainsMeaning(bin, root);
      assert root.Has(bin.base);
    }
  }
}
