/** binmap_t: the compressed set of chunks, kept in one growable array of cells. */
module BinMaps {
  import opened Powers
  import opened Bins
  import opened Words
  import opened Trees
  import opened Cells

  class BinMap {
    var cells: seq<Cell>
    var taken: nat
    var freeTop: nat
    var root: Bin
    ghost var free: seq<nat>
    ghost var tree: Tree

    /** The cells are exactly the used ones and the free list, which is acyclic. */
    ghost predicate StoreOk(used: set<nat>)
      reads this
    {
      taken + |free| == |cells| &&
      Chain(cells, freeTop, free) && Distinct(free) &&
      (forall r: nat :: r < |cells| <==> r in used || r in free) &&
      (forall r :: r in free ==> r !in used)
    }

    /** The counter of used cells is their number. */
    lemma StoreCount(used: set<nat>)
      requires StoreOk(used)
      ensures taken == |used|
    {
      DistinctCount(free);
      var f := Elements(free);
      assert Range(|cells|) == used + f;
      assert |used + f| == |used| + |f|;
    }

    /** The tree hangs off the root cell, over an offset-0 bin, and owns every used cell. */
    ghost predicate Shaped(used: set<nat>)
      reads this
    {
      root.Ok() && root.base == 0 && tree.ref == ROOT_REF &&
      Fits(tree, root.layer) && NoSharing(tree) && Holds(cells, tree) &&
      Refs(tree) <= used && StoreOk(used)
    }

    ghost predicate Valid()
      reads this
    {
      Shaped(Refs(tree)) && Canonical(tree)
    }

    /** Chunk i is in the set. */
    ghost predicate Has(i: nat)
      reads this
    {
      root.Has(i) && TreeHas(tree, root, i)
    }

    /** reserve_cells: room for count more cells; growth links the new cells in front of the free list. */
    method Reserve(count: nat, ghost used: set<nat>)
      requires StoreOk(used)
      modifies this`cells, this`freeTop, this`free
      ensures StoreOk(used) && count <= |free|
      ensures |old(cells)| <= |cells| && cells[..|old(cells)|] == old(cells)
      ensures |old(cells)| - taken >= count ==> cells == old(cells) && free == old(free)
      ensures |old(cells)| - taken < count ==> free != [] && free[0] == |old(cells)|
      ensures |old(cells)| - taken < count ==> |cells| >= 16 && |cells| >= 2 * |old(cells)| && |cells| >= taken + count
      ensures |cells| in {|old(cells)|, 16, 2 * |old(cells)|, taken + count}
    {
      if |cells| - taken < count {
        var oldNumber := |cells|;
        var newNumber := Max(16, Max(2 * oldNumber, taken + count));
        cells := cells + seq(newNumber - oldNumber, i => Used(Bitmap(EMPTY), Bitmap(EMPTY)));
        ChainFrame(old(cells), cells, freeTop, free);
        LinkCells(oldNumber, used);
      }
    }

    /** Links the cells from oldNumber on into the free list, ascending, in front of the old one. */
    method LinkCells(oldNumber: nat, ghost used: set<nat>)
      requires oldNumber < |cells|
      requires taken + |free| == oldNumber && Chain(cells, freeTop, free) && Distinct(free)
      requires forall r: nat :: r < oldNumber <==> r in used || r in free
      requires forall r :: r in free ==> r !in used
      modifies this`cells, this`freeTop, this`free
      ensures StoreOk(used)
      ensures |cells| == |old(cells)| && cells[..oldNumber] == old(cells)[..oldNumber]
      ensures |free| == |old(free)| + |cells| - oldNumber && free[0] == oldNumber
    {
      var idx := |cells| - 1;
      ghost var before := cells;
      cells := cells[idx := Free(freeTop)];
      ChainFrame(before, cells, freeTop, free);
      DistinctCons(idx, free);
      free := [idx] + free;
      idx := idx - 1;
      while idx != oldNumber - 1
        invariant oldNumber - 1 <= idx <= |cells| - 2
        invariant |cells| == |before| && cells[..oldNumber] == before[..oldNumber]
        invariant Chain(cells, idx + 1, free) && Distinct(free)
        invariant |free| == |cells| - 1 - idx + |old(free)|
        invariant forall r: nat :: r in free <==> r in old(free) || idx < r < |cells|
        decreases idx
      {
        ghost var prior := cells;
        cells := cells[idx := Free(idx + 1)];
        ChainFrame(prior, cells, idx + 1, free);
        DistinctCons(idx, free);
        free := [idx] + free;
        idx := idx - 1;
      }
      freeTop := oldNumber;
    }

    /** _alloc_cell: pops the free list; the cell keeps its old content. */
    method AllocDirty(ghost used: set<nat>) returns (ref: nat)
      requires StoreOk(used) && free != []
      modifies this`freeTop, this`taken, this`free
      ensures ref == old(free[0]) && free == old(free[1..])
      ensures ref !in used && ref < |cells| && StoreOk(used + {ref})
      ensures taken == old(taken) + 1
    {
      hide Chain, Distinct;
      TopFree(used);
      ref := freeTop;
      freeTop := cells[ref].next;
      taken := taken + 1;
      free := free[1..];
    }

    /** The top of the free list, and the list below it. */
    lemma TopFree(used: set<nat>)
      requires StoreOk(used) && free != []
      ensures freeTop == free[0] < |cells| && cells[freeTop].Free? && freeTop !in used
      ensures Chain(cells, cells[freeTop].next, free[1..]) && Distinct(free[1..])
      ensures freeTop !in free[1..] && forall r :: r in free <==> r == freeTop || r in free[1..]
    {
      assert free == [free[0]] + free[1..];
    }

    /** alloc_cell: makes room if needed and hands out a zeroed cell. */
    method Alloc(ghost used: set<nat>) returns (ref: nat)
      requires StoreOk(used)
      modifies this`cells, this`freeTop, this`taken, this`free
      ensures ref !in used && ref < |cells| && StoreOk(used + {ref})
      ensures |old(cells)| <= |cells|
      ensures forall r :: r in used && r < |old(cells)| ==> cells[r] == old(cells[r])
      ensures cells[ref] == Used(Bitmap(EMPTY), Bitmap(EMPTY))
      ensures old(free) == [] ==> ref == |old(cells)|
    {
      Reserve(1, used);
      ref := AllocDirty(used);
      Write(ref, Used(Bitmap(EMPTY), Bitmap(EMPTY)), used + {ref});
    }

    /** Overwrites a cell in use. */
    method Write(ref: nat, c: Cell, ghost used: set<nat>)
      requires StoreOk(used) && ref in used && ref < |cells|
      modifies this`cells
      ensures cells == old(cells)[ref := c]
      ensures StoreOk(used)
    {
      ChainFrame(cells, cells[ref := c], freeTop, free);
      cells := cells[ref := c];
    }

    /** free_cell: gives a whole subtree back, children first. */
    method FreeCell(ref: nat, ghost t: Tree, ghost used: set<nat>)
      requires StoreOk(used)
      requires ref == t.ref && Holds(cells, t) && NoSharing(t) && Refs(t) <= used
      modifies this`cells, this`freeTop, this`taken, this`free
      ensures StoreOk(used - Refs(t))
      ensures |cells| == |old(cells)|
      ensures forall r :: 0 <= r < |cells| && r !in Refs(t) ==> cells[r] == old(cells[r])
      decreases t
    {
      ghost var u := used;
      if cells[ref].left.Ref? {
        FreeCell(cells[ref].left.r, t.left.t, u);
        u := u - Refs(t.left.t);
      }
      if cells[ref].right.Ref? {
        HoldsFrame(old(cells), cells, t.right.t);
        FreeCell(cells[ref].right.r, t.right.t, u);
        u := u - Refs(t.right.t);
      }
      GiveBack(ref, u);
      assert used - Refs(t) == u - {ref};
    }

    /** Pushes one cell onto the free list. */
    method GiveBack(ref: nat, ghost used: set<nat>)
      requires StoreOk(used) && ref in used && ref < |cells|
      modifies this`cells, this`freeTop, this`taken, this`free
      ensures StoreOk(used - {ref})
      ensures |cells| == |old(cells)|
      ensures forall r :: 0 <= r < |cells| && r != ref ==> cells[r] == old(cells[r])
    {
      StoreCount(used);
      ChainFrame(cells, cells[ref := Free(freeTop)], freeTop, free);
      cells := cells[ref := Free(freeTop)];
      freeTop := ref;
      taken := taken - 1;
      free := [ref] + free;
    }

    /** binmap_t::binmap_t: an empty map over 64 chunks. */
    constructor ()
      ensures Valid() && root == Bin(6, 0)
      ensures forall i: nat :: !Has(i)
    {
      cells, taken, freeTop, free := [], 0, 0, [];
      root := Bin(6, 0);
      tree := Leaf(ROOT_REF, EMPTY);
      new;
      hide P, Aligned, Bit, Chain, Holds, Fits, NoSharing, Refs, Distinct;
      assert StoreOk({}) by {
        EmptyStore();
      }
      var rootRef := Alloc({});
      LeafHolds(cells, rootRef, EMPTY);
      assert {} + {rootRef} == {rootRef};
      ZeroAligned(6);
      PowerMonotone(6, 63);
      forall i: nat ensures !Has(i) {
        MonoHas(tree, root, EMPTY, i);
        ZeroBits(i % 32);
      }
    }

    lemma EmptyStore()
      requires cells == [] && free == [] && taken == 0
      ensures StoreOk({})
    {
    }

    /** extend_root: one more layer, the same set. */
    method ExtendRoot()
      requires Valid() && root.layer < 63
      modifies this
      ensures Valid() && root == Bin(old(root).layer + 1, 0)
      ensures forall i: nat :: Has(i) <==> old(Has(i))
    {
      hide TreeHas, Fits, CanonicalHalf, P, NoSharing, Holds, Refs, Uniform, Chain, Raised;
      ghost var r, t := root, tree;
      RaisedRoot(r);
      RaiseCells();
      RaisedShape(t, tree, r.layer);
      root := root.Parent();
      forall i: nat ensures Has(i) <==> old(Has(i)) {
        RaisedHas(t, tree, r, i);
      }
    }

    /** The cells of extend_root: a uniform root keeps its left half, any other root moves into it. */
    method RaiseCells()
      requires Valid()
      modifies this`cells, this`taken, this`freeTop, this`free, this`tree
      ensures Raised(old(tree), tree) && tree.ref == ROOT_REF && NoSharing(tree)
      ensures StoreOk(Refs(tree)) && Holds(cells, tree)
    {
      if cells[ROOT_REF].left.Bitmap? && cells[ROOT_REF].left == cells[ROOT_REF].right {
        Write(ROOT_REF, cells[ROOT_REF].(right := Bitmap(EMPTY)), Refs(tree));
        tree := Node(ROOT_REF, tree.left, Bits(EMPTY));
      } else {
        PushRootDown();
      }
    }

    /** Moves the root cell to a new cell, which becomes the left half of the root. */
    method PushRootDown()
      requires Valid()
      modifies this`cells, this`taken, this`freeTop, this`free, this`tree
      ensures StoreOk(Refs(tree)) && Holds(cells, tree) && NoSharing(tree)
      ensures tree.ref == ROOT_REF && tree.right == Bits(EMPTY) && tree.left.Sub?
      ensures tree.left.t.left == old(tree).left && tree.left.t.right == old(tree).right
    {
      ghost var t, was := tree, cells;
      var ref := Alloc(Refs(tree));
      HoldsFrame(was, cells, tree);
      ghost var grown := cells;
      Write(ref, cells[ROOT_REF], Refs(tree) + {ref});
      Write(ROOT_REF, Used(Ref(ref), Bitmap(EMPTY)), Refs(tree) + {ref});
      MoveHolds(grown, cells, t, ref);
      tree := Node(ROOT_REF, Sub(Node(ref, t.left, t.right)), Bits(EMPTY));
      assert Refs(tree) == Refs(t) + {ref};
    }

    /** The history of a walk: the cells over the bins of x from the root down to layer l. */
    ghost predicate History(href: seq<nat>, x: nat, l: nat)
      reads this
    {
      l <= root.layer && |href| == root.layer - l + 1 &&
      HasNode(tree, root, x, l) &&
      forall m: nat :: l <= m <= root.layer ==> HasNode(tree, root, x, m) && href[root.layer - m] == NodeAt(tree, root, x, m).ref
    }

    /** trace: walks down toward the target as far as cells go; the history fits the 64 entries callers reserve. */
    method Trace(target: Bin, ghost x: nat) returns (ref: nat, bin: Bin, href: seq<nat>)
      requires Valid()
      requires target.Ok() && root.Contains(target) && target.Has(x)
      ensures 6 <= bin.layer <= root.layer && bin == BinAt(root, x, bin.layer) && bin.Ok()
      ensures bin.base <= target.base && target.End() <= bin.End()
      ensures HasNode(tree, root, x, bin.layer) && ref == NodeAt(tree, root, x, bin.layer).ref
      ensures bin == target || (target.layer < bin.layer && HalfToward(NodeAt(tree, root, x, bin.layer), bin, x).Bits?)
      ensures History(href, x, bin.layer) && |href| <= 58
    {
      hide TreeHas, P, NoSharing, Refs, Uniform, Chain, Aligned, Floor, CanonicalHalf;
      ContainsMeaning(root, target);
      ref, bin := ROOT_REF, root;
      href := [ROOT_REF];
      while target.V() != bin.V()
        invariant bin.layer <= root.layer && HasNode(tree, root, x, bin.layer)
        invariant bin == BinAt(root, x, bin.layer) && bin.Ok()
        invariant ref == NodeAt(tree, root, x, bin.layer).ref
        invariant bin.base <= target.base && target.End() <= bin.End()
        invariant History(href, x, bin.layer)
        invariant Fits(NodeAt(tree, root, x, bin.layer), bin.layer)
        decreases bin.layer
      {
        Direction(bin, target);
        ghost var node := NodeAt(tree, root, x, bin.layer);
        HoldsNode(cells, tree, root, x, bin.layer);
        HalvesOk(bin);
        BinStep(root, x, bin.layer);
        if target.V() < bin.V() {
          if cells[ref].left.Ref? {
            StepDown(tree, root, x, bin.layer);
            ref := cells[ref].left.r;
            bin := bin.Left();
          } else {
            break;
          }
        } else {
          if cells[ref].right.Ref? {
            StepDown(tree, root, x, bin.layer);
            ref := cells[ref].right.r;
            bin := bin.Right();
          } else {
            break;
          }
        }
        href := href + [ref];
      }
      if bin != target {
        Direction(bin, target);
      }
    }

    /** Writes a bitmap into one half of the layer-l cell of x; a subtree that hung there is left behind, still used. */
    method StoreBitmap(ref: nat, left: bool, w: Word, ghost x: nat, ghost l: nat, ghost used: set<nat>)
      requires Shaped(used) && root.Has(x)
      requires 0 < l <= root.layer && HasNode(tree, root, x, l)
      requires ref == NodeAt(tree, root, x, l).ref && (left <==> x < BinAt(root, x, l).base + P(l - 1))
      modifies this`cells, this`tree
      ensures tree == PutHalf(old(tree), root, x, l, Bits(w)) && Shaped(used)
      ensures forall r :: 0 <= r < |cells| && r != ref ==> cells[r] == old(cells[r])
      ensures |cells| == |old(cells)|
    {
      hide TreeHas, Chain, Aligned, Floor, CanonicalHalf, SideCanonical, P, NoSharing, Refs, Fits, HasNode, NodeAt, BinAt, PutAt, Holds, Distinct;
      ghost var t, was := tree, cells;
      NodeCell(cells, tree, root, x, l);
      PutHalfShape(tree, root, x, l, Bits(w));
      PutHalfRefs(tree, root, x, l, Bits(w));
      NodeRefs(tree, root, x, l);
      Write(ref, if left then cells[ref].(left := Bitmap(w)) else cells[ref].(right := Bitmap(w)), used);
      tree := PutHalf(tree, root, x, l, Bits(w));
      HoldsHalf(was, cells, t, root, x, l, Bits(w));
    }

    /** Replaces the subtree below one half of the layer-l cell of x by a bitmap and frees its cells. */
    method Collapse(ref: nat, left: bool, child: nat, w: Word, ghost x: nat, ghost l: nat)
      requires Shaped(Refs(tree)) && root.Has(x)
      requires 0 < l <= root.layer && HasNode(tree, root, x, l)
      requires ref == NodeAt(tree, root, x, l).ref && (left <==> x < BinAt(root, x, l).base + P(l - 1))
      requires HalfAt(tree, root, x, l).Sub? && child == HalfAt(tree, root, x, l).t.ref
      modifies this`cells, this`taken, this`freeTop, this`free, this`tree
      ensures tree == PutHalf(old(tree), root, x, l, Bits(w)) && Shaped(Refs(tree))
    {
      hide TreeHas, Chain, Aligned, Floor, CanonicalHalf, SideCanonical, HalfToward, P;
      ghost var t, u := tree, Refs(tree);
      ghost var h := HalfAt(tree, root, x, l);
      HoldsHalfAt(cells, tree, root, x, l);
      PutHalfRefs(tree, root, x, l, Bits(w));
      ghost var was := cells;
      StoreBitmap(ref, left, w, x, l, u);
      HoldsFrame(was, cells, h.t);
      was := cells;
      FreeCell(child, h.t, u);
      assert Refs(tree) == u - Refs(h.t);
      HoldsFrame(was, cells, tree);
    }

    /** pack_cells: folds a uniform cell into its ancestors, as long as they are uniform then too. */
    method PackCells(href: seq<nat>, ghost x: nat, ghost l: nat)
      requires Shaped(Refs(tree)) && root.Has(x)
      requires 6 <= l && History(href, x, l) && SideCanonical(tree, root, x, l) && Canonical(NodeAt(tree, root, x, l))
      modifies this`cells, this`taken, this`freeTop, this`free, this`tree
      ensures Valid()
      ensures forall i: nat :: Has(i) <==> old(Has(i))
    {
      hide TreeHas, Chain, Aligned, Floor, CanonicalHalf, SideCanonical, P, NoSharing, Refs, Distinct;
      var ref := href[|href| - 1];
      NodeRefs(tree, root, x, l);
      HoldsNode(cells, tree, root, x, l);
      if ref == ROOT_REF {
        RootOnly(tree, root, x, l);
        CanonicalClose(tree, root, x, l);
        return;
      }
      if cells[ref].left.Ref? || cells[ref].right.Ref? || cells[ref].left != cells[ref].right {
        CanonicalClose(tree, root, x, l);
        return;
      }
      FoldUp(href, x, l);
    }

    /** The loop of pack_cells: up from a cell with two equal bitmaps, as far as the other halves have the same one. */
    method FoldUp(href: seq<nat>, ghost x: nat, ghost l: nat)
      requires Shaped(Refs(tree)) && root.Has(x)
      requires 6 <= l < root.layer && History(href, x, l) && SideCanonical(tree, root, x, l)
      requires NodeAt(tree, root, x, l).left.Bits? && NodeAt(tree, root, x, l).left == NodeAt(tree, root, x, l).right
      modifies this`cells, this`taken, this`freeTop, this`free, this`tree
      ensures Valid()
      ensures forall i: nat :: Has(i) <==> old(Has(i))
    {
      hide TreeHas, Chain, Aligned, Floor, CanonicalHalf, SideCanonical, P, NoSharing, Refs, Distinct, Fits, BinAt, BinMap.Valid, BinMap.Has;
      var k := |href| - 1;
      var ref := href[k];
      k := k - 1;
      HoldsNode(cells, tree, root, x, l);
      var bitmap := cells[ref].left.w;
      ghost var m := l;
      while true
        invariant l <= m < root.layer && k == root.layer - m - 1
        invariant HasNode(tree, root, x, m) && SideCanonical(tree, root, x, m)
        invariant Mono(NodeAt(tree, root, x, m), bitmap)
        modifies {}
        decreases k
      {
        StepUp(tree, root, x, m);
        HoldsNode(cells, tree, root, x, m + 1);
        ref := href[k];
        k := k - 1;
        if cells[ref].left.Bitmap? {
          if cells[ref].left.w != bitmap {
            break;
          }
        } else if cells[ref].right.Bitmap? {
          if cells[ref].right.w != bitmap {
            break;
          }
        } else {
          break;
        }
        if ref == ROOT_REF {
          RootOnly(tree, root, x, m + 1);
          break;
        }
        NotRoot(tree, root, x, m + 1);
        m := m + 1;
      }
      var child := href[k + 2];
      FinishPack(ref, child, bitmap, x, m);
    }

    /** The end of pack_cells: the topmost foldable subtree becomes one bitmap in its parent. */
    method FinishPack(ref: nat, child: nat, bitmap: Word, ghost x: nat, ghost m: nat)
      requires Shaped(Refs(tree)) && root.Has(x)
      requires 6 <= m < root.layer && HasNode(tree, root, x, m) && HasNode(tree, root, x, m + 1)
      requires SideCanonical(tree, root, x, m)
      requires ref == NodeAt(tree, root, x, m + 1).ref && child == NodeAt(tree, root, x, m).ref
      requires Mono(NodeAt(tree, root, x, m), bitmap)
      requires m + 1 == root.layer || Other(NodeAt(tree, root, x, m + 1), BinAt(root, x, m + 1), x) != Bits(bitmap)
      modifies this`cells, this`taken, this`freeTop, this`free, this`tree
      ensures Valid()
      ensures forall i: nat :: Has(i) <==> old(Has(i))
    {
      hide TreeHas, Chain, Aligned, Floor, CanonicalHalf, SideCanonical, P, NoSharing, Refs, Fits;
      ghost var t := tree;
      StepUp(tree, root, x, m);
      HoldsNode(cells, tree, root, x, m + 1);
      ChildrenDiffer(tree, root, x, m + 1);
      var left := cells[ref].left.Ref? && cells[ref].left.r == child;
      PutHalfShape(tree, root, x, m + 1, Bits(bitmap));
      Collapse(ref, left, child, bitmap, x, m + 1);
      PackedCanonical(t, root, x, m, bitmap);
      forall i: nat ensures Has(i) <==> old(Has(i)) {
        if root.Has(i) {
          NodeFits(t, root, x, m);
          PutHalfHas(t, root, x, m + 1, Bits(bitmap), i);
          MonoHas(NodeAt(t, root, x, m), BinAt(root, x, m), bitmap, i);
        }
      }
    }

    /** One step of unpacking: the half toward x, a bitmap, becomes a fresh cell with that bitmap in both halves. */
    method Attach(ref: nat, left: bool, bm: Word, ghost x: nat, ghost l: nat) returns (child: nat)
      requires Shaped(Refs(tree)) && root.Has(x) && free != []
      requires 7 <= l <= root.layer && HasNode(tree, root, x, l)
      requires ref == NodeAt(tree, root, x, l).ref && (left <==> x < BinAt(root, x, l).base + P(l - 1))
      requires HalfAt(tree, root, x, l) == Bits(bm)
      modifies this`cells, this`taken, this`freeTop, this`free, this`tree
      ensures tree == PutHalf(old(tree), root, x, l, Sub(Leaf(child, bm))) && Shaped(Refs(tree))
      ensures |free| == |old(free)| - 1
    {
      hide TreeHas, Chain, Aligned, Floor, CanonicalHalf, SideCanonical, P, NoSharing, Refs, Fits, HasNode, NodeAt, BinAt, Leaf;
      ghost var t, u, was := tree, Refs(tree), cells;
      child := AllocDirty(u);
      Write(child, Used(Bitmap(bm), Bitmap(bm)), u + {child});
      LeafHolds(cells, child, bm);
      ghost var h := Sub(Leaf(child, bm));
      HoldsNode(was, tree, root, x, l);
      NodeRefs(tree, root, x, l);
      PutHalfShape(tree, root, x, l, h);
      PutHalfRefs(tree, root, x, l, h);
      Write(ref, if left then cells[ref].(left := Ref(child)) else cells[ref].(right := Ref(child)), u + {child});
      LeafHolds(cells, child, bm);
      tree := PutHalf(tree, root, x, l, h);
      HoldsHalf(was, cells, t, root, x, l, h);
      assert Refs(tree) == u + {child};
    }

    /** The state between two steps of unpacking: the cell over bin is the last of the chain so far. */
    ghost predicate Unpacking(ref: nat, bin: Bin, top: nat, target: Bin, bm: Word, x: nat)
      reads this
    {
      Shaped(Refs(tree)) && target.layer <= bin.layer <= top <= root.layer &&
      bin == BinAt(root, x, bin.layer) && bin.Ok() &&
      bin.base <= target.base && target.End() <= bin.End() &&
      HasNode(tree, root, x, bin.layer) && ref == NodeAt(tree, root, x, bin.layer).ref &&
      SideCanonical(tree, root, x, bin.layer) &&
      (bin.layer > target.layer ==> HalfAt(tree, root, x, bin.layer) == Bits(bm) && CanonicalHalf(Other(NodeAt(tree, root, x, bin.layer), bin, x))) &&
      (bin.layer < top ==> NodeAt(tree, root, x, bin.layer) == Leaf(ref, bm)) &&
      bin.layer - target.layer <= |free|
    }

    /** Unpacks a periodic half into a chain of cells down to the target bin; the set stays the same. */
    method Unpack(from: nat, fromBin: Bin, target: Bin, bm: Word, ghost x: nat) returns (ref: nat)
      requires root.Has(x) && target.Ok() && target.Has(x) && 6 <= target.layer < fromBin.layer
      requires Unpacking(from, fromBin, fromBin.layer, target, bm, x)
      modifies this`cells, this`taken, this`freeTop, this`free, this`tree
      ensures Unpacking(ref, target, target.layer + 1, target, bm, x)
      ensures forall i: nat :: Has(i) <==> old(Has(i))
    {
      hide TreeHas, Chain, Aligned, Floor, SideCanonical, P, Holds, NoSharing, Refs, PutAt, Fits, Distinct, Bit, HasNode, NodeAt, BinAt, CanonicalHalf, Leaf;
      var bin := fromBin;
      ref := from;
      while bin.V() != target.V()
        invariant bin.layer <= fromBin.layer && Unpacking(ref, bin, fromBin.layer, target, bm, x)
        invariant forall i: nat :: Has(i) <==> old(Has(i))
        decreases bin.layer
      {
        Direction(bin, target);
        ref, bin := UnpackStep(ref, bin, fromBin.layer, target, bm, x);
      }
      if bin != target {
        Direction(bin, target);
      }
    }

    /** One cell more of the chain. */
    method UnpackStep(from: nat, fromBin: Bin, ghost top: nat, target: Bin, bm: Word, ghost x: nat) returns (ref: nat, bin: Bin)
      requires root.Has(x) && target.Ok() && target.Has(x) && 6 <= target.layer < fromBin.layer
      requires Unpacking(from, fromBin, top, target, bm, x)
      modifies this`cells, this`taken, this`freeTop, this`free, this`tree
      ensures bin.layer == fromBin.layer - 1 && Unpacking(ref, bin, top, target, bm, x)
      ensures forall i: nat :: Has(i) <==> old(Has(i))
    {
      hide TreeHas, Chain, Aligned, Floor, SideCanonical, P, Holds, NoSharing, Refs, PutAt, Fits, Distinct, Bit, HasNode, NodeAt, BinAt;
      Direction(fromBin, target);
      HalvesOk(fromBin);
      BinStep(root, x, fromBin.layer);
      ghost var t := tree;
      var left := target.V() < fromBin.V();
      ref := Attach(from, left, bm, x, fromBin.layer);
      ghost var h := Sub(Leaf(ref, bm));
      PutHalfShape(t, root, x, fromBin.layer, h);
      StepDown(tree, root, x, fromBin.layer);
      SameSet(t, root, x, fromBin.layer, bm, h);
      bin := if left then fromBin.Left() else fromBin.Right();
    }

    /** The common end of set and reset: one half of the bin pre gets a new bitmap; unpacks above it, packs after it. */
    method PutBits(from: nat, cur: Bin, href: seq<nat>, pre: Bin, left: bool, bm: Word, w: Word, ghost x: nat)
      requires Valid() && root.Has(x) && pre.Ok() && pre.Has(x) && 6 <= pre.layer <= cur.layer <= root.layer
      requires cur == BinAt(root, x, cur.layer) && cur.base <= pre.base && pre.End() <= cur.End()
      requires History(href, x, cur.layer) && from == NodeAt(tree, root, x, cur.layer).ref
      requires HalfAt(tree, root, x, cur.layer) == Bits(bm) && bm != w
      requires left <==> x < pre.base + P(pre.layer - 1)
      modifies this`cells, this`taken, this`freeTop, this`free, this`tree
      ensures Valid()
      ensures forall i: nat :: Has(i) <==> if BinAt(root, x, pre.layer - 1).Has(i) then Bit(w, i % 32) else old(Has(i))
    {
      hide TreeHas, Chain, Aligned, Floor, P, Holds, NoSharing, Refs, HasNode, NodeAt, PutAt, BinAt, Distinct, Fits, Bit, SideCanonical, CanonicalHalf;
      CanonicalNode(tree, root, x, cur.layer);
      PathBin(root, x, pre);
      BinAtSpec(root, x, pre.layer - 1);
      if cur == pre {
        StoreAndPack(from, href, pre, left, w, x);
      } else {
        Reserve(cur.layer - pre.layer, Refs(tree));
        HoldsFrame(old(cells), cells, tree);
        BinAtSpec(root, x, cur.layer);
        CanonicalSides(tree, root, x, cur.layer);
        var ref := Unpack(from, cur, pre, bm, x);
        FinishUnpacked(ref, pre, left, bm, w, x);
      }
    }

    /** The cell is there: store, then pack. */
    method StoreAndPack(ref: nat, href: seq<nat>, pre: Bin, left: bool, w: Word, ghost x: nat)
      requires Valid() && root.Has(x) && 6 <= pre.layer <= root.layer && pre == BinAt(root, x, pre.layer)
      requires History(href, x, pre.layer) && ref == NodeAt(tree, root, x, pre.layer).ref
      requires HalfAt(tree, root, x, pre.layer).Bits?
      requires left <==> x < pre.base + P(pre.layer - 1)
      modifies this`cells, this`taken, this`freeTop, this`free, this`tree
      ensures Valid()
      ensures forall i: nat :: Has(i) <==> if root.Has(i) && BinAt(root, x, pre.layer - 1).Has(i) then Bit(w, i % 32) else old(Has(i))
    {
      hide TreeHas, Chain, Aligned, Floor, P, Holds, NoSharing, Refs, HasNode, NodeAt, PutAt, BinAt, Distinct, Fits, Bit, SideCanonical;
      ghost var t := tree;
      CanonicalNode(t, root, x, pre.layer);
      PutHalfShape(t, root, x, pre.layer, Bits(w));
      PutHalfRefs(t, root, x, pre.layer, Bits(w));
      StoreBitmap(ref, left, w, x, pre.layer, Refs(tree));
      forall m: nat | pre.layer <= m <= root.layer
        ensures HasNode(tree, root, x, m) && href[root.layer - m] == NodeAt(tree, root, x, m).ref
      {
        PutPath(t, root, x, pre.layer, WithHalf(NodeAt(t, root, x, pre.layer), pre, x, Bits(w)), m);
      }
      DecidedHalf(t, root, x, pre.layer, w);
      PackCells(href, x, pre.layer);
    }

    /** The cell is there with a subtree below it: free that, store, then pack. */
    method CollapseAndPack(ref: nat, child: nat, href: seq<nat>, pre: Bin, left: bool, w: Word, ghost x: nat)
      requires Valid() && root.Has(x) && 6 <= pre.layer <= root.layer && pre == BinAt(root, x, pre.layer)
      requires History(href, x, pre.layer) && ref == NodeAt(tree, root, x, pre.layer).ref
      requires HalfAt(tree, root, x, pre.layer).Sub? && child == HalfAt(tree, root, x, pre.layer).t.ref
      requires left <==> x < pre.base + P(pre.layer - 1)
      modifies this`cells, this`taken, this`freeTop, this`free, this`tree
      ensures Valid()
      ensures forall i: nat :: Has(i) <==> if root.Has(i) && BinAt(root, x, pre.layer - 1).Has(i) then Bit(w, i % 32) else old(Has(i))
    {
      hide TreeHas, Chain, Aligned, Floor, P, Holds, NoSharing, Refs, HasNode, NodeAt, PutAt, BinAt, Distinct, Fits, Bit, SideCanonical;
      ghost var t := tree;
      CanonicalNode(t, root, x, pre.layer);
      PutHalfShape(t, root, x, pre.layer, Bits(w));
      Collapse(ref, left, child, w, x, pre.layer);
      forall m: nat | pre.layer <= m <= root.layer
        ensures HasNode(tree, root, x, m) && href[root.layer - m] == NodeAt(tree, root, x, m).ref
      {
        PutPath(t, root, x, pre.layer, WithHalf(NodeAt(t, root, x, pre.layer), pre, x, Bits(w)), m);
      }
      DecidedHalf(t, root, x, pre.layer, w);
      PackCells(href, x, pre.layer);
    }

    /** The chain is there: store in its last cell, which then has two different bitmaps. */
    method FinishUnpacked(ref: nat, pre: Bin, left: bool, bm: Word, w: Word, ghost x: nat)
      requires root.Has(x) && 6 <= pre.layer < root.layer && bm != w
      requires Unpacking(ref, pre, pre.layer + 1, pre, bm, x)
      requires left <==> x < pre.base + P(pre.layer - 1)
      modifies this`cells, this`tree
      ensures Valid()
      ensures forall i: nat :: Has(i) <==> if root.Has(i) && BinAt(root, x, pre.layer - 1).Has(i) then Bit(w, i % 32) else old(Has(i))
    {
      hide TreeHas, Chain, Aligned, Floor, P, Holds, NoSharing, Refs, HasNode, NodeAt, PutAt, BinAt, Distinct, Fits, Bit, SideCanonical;
      ghost var t := tree;
      PutHalfShape(t, root, x, pre.layer, Bits(w));
      PutHalfRefs(t, root, x, pre.layer, Bits(w));
      DecidedHalf(t, root, x, pre.layer, w);
      StoreBitmap(ref, left, w, x, pre.layer, Refs(tree));
      CanonicalClose(tree, root, x, pre.layer);
    }

    /** The root was extended as far as the bin needs, and no further. */
    static predicate Enlarged(r: Bin, was: Bin, bin: Bin) {
      r.base == 0 && r.Contains(bin) && r.layer >= was.layer && (was.Contains(bin) ==> r == was) &&
      (r.layer > was.layer ==> !Bin(r.layer - 1, 0).Contains(bin))
    }

    /** Extends the root until it contains the bin. */
    method ExtendTo(bin: Bin)
      requires Valid() && bin.Ok()
      modifies this
      ensures Valid() && Enlarged(root, old(root), bin)
      ensures forall i: nat :: Has(i) <==> old(Has(i))
    {
      while !root.Contains(bin)
        invariant Valid() && root.layer >= old(root).layer
        invariant old(root).Contains(bin) ==> root == old(root)
        invariant root.layer > old(root).layer ==> !Bin(root.layer - 1, 0).Contains(bin)
        invariant forall i: nat :: Has(i) <==> old(Has(i))
        decreases 63 - root.layer
      {
        AllContains(bin);
        ExtendRoot();
      }
    }

    /** _set__low_layer_bitmap: the bits of a bin of at most 32 chunks become those of the bitmap. */
    method SetLow(bin: Bin, bits: Word)
      requires Valid() && bin.Ok() && bin.layer <= 5
      modifies this
      ensures Valid()
      ensures if WordAnd(bits, Mask(bin.V() % 64)) == EMPTY then root == old(root) else Enlarged(root, old(root), bin)
      ensures forall i: nat :: Has(i) <==> if bin.Has(i) then Bit(bits, i % 32) else old(Has(i))
    {
      hide TreeHas, Chain, Aligned, Floor, P, Holds, NoSharing, Refs, HasNode, NodeAt, BinAt, Mask, Bit, WordAnd, WordAndNot, WordOr, Bin.Contains;
      MaskBits(bin, 0);
      var bitmap := WordAnd(bits, Mask(bin.V() % 64));
      if !root.Contains(bin) {
        if bitmap == EMPTY {
          forall i: nat | bin.Has(i) ensures !root.Has(i) && !Bit(bits, i % 32) {
            LowOutside(root, bin, bits, i);
          }
          return;
        }
        ExtendTo(bin);
      }
      SetLowInside(bin, bits);
    }

    /** _set__low_layer_bitmap, for a bin inside the root. */
    method SetLowInside(bin: Bin, bits: Word)
      requires Valid() && bin.Ok() && bin.layer <= 5 && root.Contains(bin)
      modifies this`cells, this`taken, this`freeTop, this`free, this`tree
      ensures Valid()
      ensures forall i: nat :: Has(i) <==> if bin.Has(i) then Bit(bits, i % 32) else old(Has(i))
    {
      hide TreeHas, Chain, Aligned, Floor, P, Holds, NoSharing, Refs, HasNode, NodeAt, BinAt, Mask, Bit, WordAnd, WordAndNot, WordOr, Bin.Contains, CanonicalHalf, Distinct;
      MaskBits(bin, 0);
      LowRoot(root, bin);
      var mask := Mask(bin.V() % 64);
      var bitmap := WordAnd(bits, mask);
      ghost var x, t := bin.base, tree;
      var pre := bin.Up(6);
      var ref, cur, href := Trace(pre, x);
      NodeCell(cells, tree, root, x, cur.layer);
      BottomHalves(tree, root, x, cur.layer);
      InHalf(cur, bin, x);
      var bm := if bin.V() < cur.V() then cells[ref].left.w else cells[ref].right.w;
      if WordAnd(bm, mask) == bitmap {
        forall i: nat | bin.Has(i) ensures Has(i) <==> Bit(bits, i % 32) {
          AgreeOnBin(bin, bm, bits, i);
          HalfDecides(tree, root, x, cur, bin, bm, i);
        }
        return;
      }
      var w := WordOr(WordAndNot(bm, mask), bitmap);
      MaskedBack(bits, bm, mask);
      InHalf(pre, bin, x);
      PutBits(ref, cur, href, pre, bin.V() < pre.V(), bm, w, x);
      PathBin(root, x, bin.Up(5));
      forall i: nat ensures Has(i) <==> if bin.Has(i) then Bit(bits, i % 32) else old(Has(i)) {
        if bin.Up(5).Has(i) {
          MaskedWord(bin, bits, bm, i);
          HalfDecides(t, root, x, cur, bin.Up(5), bm, i);
        }
      }
    }

    /** Drops whatever hangs off the root cell and stores one bitmap in both of its halves. */
    method ClearRoot(w: Word)
      requires Valid()
      modifies this`cells, this`taken, this`freeTop, this`free, this`tree
      ensures Valid() && tree == Leaf(ROOT_REF, w)
    {
      hide Chain, Distinct;
      FreeHalves();
      Write(ROOT_REF, Used(Bitmap(w), Bitmap(w)), {ROOT_REF});
      tree := Leaf(ROOT_REF, w);
    }

    /** Gives back every cell but the root's. */
    method FreeHalves()
      requires StoreOk(Refs(tree)) && Holds(cells, tree) && NoSharing(tree) && tree.ref == ROOT_REF
      modifies this`cells, this`taken, this`freeTop, this`free
      ensures StoreOk({ROOT_REF}) && |cells| == |old(cells)|
    {
      hide Chain, Distinct;
      ghost var t, u := tree, Refs(tree);
      if cells[ROOT_REF].left.Ref? {
        FreeCell(cells[ROOT_REF].left.r, t.left.t, u);
        u := u - Refs(t.left.t);
      }
      if cells[ROOT_REF].right.Ref? {
        HoldsFrame(old(cells), cells, t.right.t);
        FreeCell(cells[ROOT_REF].right.r, t.right.t, u);
        u := u - Refs(t.right.t);
      }
      assert u == {ROOT_REF};
    }

    /** _set__high_layer_bitmap: a bin of 64 chunks or more becomes the bitmap, repeated. */
    method SetHigh(bin: Bin, w: Word)
      requires Valid() && bin.Ok() && bin.layer >= 6
      modifies this
      ensures Valid()
      ensures if bin.Contains(old(root)) then root == bin
        else if w == EMPTY then root == old(root)
        else Enlarged(root, old(root), bin)
      ensures forall i: nat :: Has(i) <==> if bin.Has(i) then Bit(w, i % 32) else old(Has(i))
    {
      hide TreeHas, Chain, Aligned, Floor, P, Holds, NoSharing, Refs, HasNode, NodeAt, BinAt, Bit, Bin.Contains, Distinct;
      ghost var was := root;
      if bin.Contains(root) {
        ClearRoot(w);
        OverRoot(was, bin);
        root := bin;
        forall i: nat ensures Has(i) <==> if bin.Has(i) then Bit(w, i % 32) else old(Has(i)) {
          MonoHas(tree, root, w, i);
        }
        return;
      }
      AllContains(root);
      AllContains(bin);
      ParentOk(bin);
      var pre := bin.Parent();
      UnderRoot(root, bin);
      if !root.Contains(pre) {
        if w == EMPTY {
          forall i: nat | bin.Has(i) ensures !root.Has(i) && !Bit(w, i % 32) {
            ZeroBits(i % 32);
          }
          return;
        }
        ExtendTo(pre);
        EnlargedHigh(root, was, bin);
      } else {
        ContainsMeaning(root, pre);
        ContainsMeaning(root, bin);
      }
      SetHighInside(bin, w);
    }

    /** Room for the parent is as much as the bin itself needs. */
    static lemma EnlargedHigh(r: Bin, was: Bin, bin: Bin)
      requires Enlarged(r, was, bin.Parent()) && bin.Ok() && bin.layer < 63 && was.Ok() && was.base == 0 && r.Ok()
      requires !bin.Contains(was) && !was.Contains(bin.Parent())
      ensures Enlarged(r, was, bin)
    {
      hide P, Aligned, Floor, Bin.Contains;
      ParentOk(bin);
      UnderRoot(was, bin);
      ContainsMeaning(r, bin.Parent());
      ContainsMeaning(r, bin);
      if r.layer > was.layer {
        var q := Bin(r.layer - 1, 0);
        PowerMonotone(r.layer - 1, r.layer);
        PowerMonotone(was.layer, r.layer - 1);
        ZeroAligned(r.layer - 1);
        ContainsMeaning(bin, q);
        ContainsMeaning(bin, was);
        UnderRoot(q, bin);
      }
    }

    static lemma FilledMask(bin: Bin)
      requires bin.Ok() && bin.layer <= 5
      ensures WordAnd(FILLED, Mask(bin.V() % 64)) != EMPTY
    {
      hide Aligned, Mask, Bit, WordAnd;
      var i := bin.base % 32;
      MaskBits(bin, i);
      FilledAnd(Mask(bin.V() % 64));
      ZeroBits(i);
    }

    /** _set__high_layer_bitmap, for a bin strictly inside the root. */
    method SetHighInside(bin: Bin, w: Word)
      requires Valid() && bin.Ok() && 6 <= bin.layer < 63 && root.Contains(bin.Parent())
      modifies this`cells, this`taken, this`freeTop, this`free, this`tree
      ensures Valid()
      ensures forall i: nat :: Has(i) <==> if bin.Has(i) then Bit(w, i % 32) else old(Has(i))
    {
      hide TreeHas, Chain, Aligned, Floor, P, Holds, NoSharing, Refs, HasNode, NodeAt, BinAt, Bit, Bin.Contains, Distinct, SideCanonical, CanonicalHalf, PutAt, Fits;
      ghost var x, t := bin.base, tree;
      ParentOk(bin);
      var pre := bin.Parent();
      ContainsMeaning(root, pre);
      var ref, cur, href := Trace(pre, x);
      NodeCell(cells, tree, root, x, cur.layer);
      InHalf(cur, bin, x);
      InHalf(pre, bin, x);
      PathBin(root, x, bin);
      BinAtSpec(root, x, bin.layer);
      var left := bin.V() < cur.V();
      if (if left then cells[ref].left.Ref? else cells[ref].right.Ref?) {
        CollapseAndPack(ref, if left then cells[ref].left.r else cells[ref].right.r, href, pre, left, w, x);
      } else {
        var bm := if left then cells[ref].left.w else cells[ref].right.w;
        if bm == w {
          forall i: nat | bin.Has(i) ensures Has(i) <==> Bit(w, i % 32) {
            HalfDecides(tree, root, x, cur, bin, bm, i);
          }
          return;
        }
        PutBits(ref, cur, href, pre, bin.V() < pre.V(), bm, w, x);
      }
    }

    /** Adds the chunks of a bin to the set. */
    method Set(bin: Bin)
      requires Valid() && (bin.Ok() || bin == NONE)
      modifies this
      ensures Valid()
      ensures if bin == NONE then root == old(root)
        else if bin.Contains(old(root)) then root == bin
        else Enlarged(root, old(root), bin)
      ensures forall i: nat :: Has(i) <==> old(Has(i)) || (bin != NONE && bin.Has(i))
    {
      hide P, Bit, Mask, TreeHas, Refs, Holds, NoSharing, Chain, Distinct, Bin.Contains;
      if bin == NONE {
        NoneContains(root);
        return;
      }
      forall i: nat ensures Bit(FILLED, i % 32) {
        FilledBits(i % 32);
      }
      if bin.layer >= 6 {
        SetHigh(bin, FILLED);
      } else {
        NestedOrDisjoint(bin, root);
        FilledMask(bin);
        SetLow(bin, FILLED);
      }
    }

    /** Takes the chunks of a bin out of the set. */
    method Reset(bin: Bin)
      requires Valid() && (bin.Ok() || bin == NONE)
      modifies this
      ensures Valid()
      ensures root == if bin != NONE && bin.Contains(old(root)) then bin else old(root)
      ensures forall i: nat :: Has(i) <==> old(Has(i)) && !(bin != NONE && bin.Has(i))
    {
      hide P, Bit, Mask, TreeHas, Refs, Holds, NoSharing, Chain, Distinct, Bin.Contains;
      if bin == NONE {
        NoneContains(root);
        return;
      }
      forall i: nat ensures !Bit(EMPTY, i % 32) {
        ZeroBits(i % 32);
      }
      if bin.layer >= 6 {
        SetHigh(bin, EMPTY);
      } else {
        NestedOrDisjoint(bin, root);
        SetLow(bin, EMPTY);
      }
    }

    /** clear: the empty set, over the same root. */
    method Clear()
      requires Valid()
      modifies this
      ensures Valid() && root == old(root)
      ensures forall i: nat :: !Has(i)
    {
      ClearRoot(EMPTY);
      forall i: nat ensures !Has(i) {
        MonoHas(tree, root, EMPTY, i);
        ZeroBits(i % 32);
      }
    }

    /** fill: exactly the chunks of the other map's root bin. */
    method Fill(source: BinMap)
      requires Valid() && source.Valid()
      modifies this
      ensures Valid() && root == old(source.root)
      ensures forall i: nat :: Has(i) <==> root.Has(i)
    {
      var r := source.root;
      ClearRoot(FILLED);
      root := r;
      forall i: nat ensures Has(i) <==> root.Has(i) {
        MonoHas(tree, root, FILLED, i);
        FilledBits(i % 32);
      }
    }
  }
}
