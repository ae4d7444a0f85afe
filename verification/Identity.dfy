/** What the invariant of a bin map says about its cells, for every map its operations can reach. */
module Identity {
  import opened Words
  import opened Trees
  import opened Cells
  import opened BinMaps

  /** A map is determined by its root and its set: two maps have one tree and use equally many cells. */
  lemma SameSetSameTree(m: BinMap, n: BinMap)
    requires m.Valid() && n.Valid() && m.root == n.root
    requires forall i: nat :: m.Has(i) <==> n.Has(i)
    ensures SameShape(m.tree, n.tree) && m.taken == n.taken
  {
    hide TreeHas, Refs, NoSharing, Holds, Chain, Distinct, CanonicalHalf, Fits;
    forall i: nat | m.root.Has(i) ensures TreeHas(m.tree, m.root, i) <==> TreeHas(n.tree, n.root, i) {
      assert m.Has(i) <==> n.Has(i);
    }
    CanonicalUnique(m.tree, n.tree, m.root);
    ShapeSize(m.tree, n.tree);
    CellBooks(m);
    CellBooks(n);
  }

  lemma {:induction false} ShapeSize(t: Tree, u: Tree)
    requires SameShape(t, u)
    ensures Size(t) == Size(u)
    decreases t
  {
    if t.left.Sub? {
      ShapeSize(t.left.t, u.left.t);
    }
    if t.right.Sub? {
      ShapeSize(t.right.t, u.right.t);
    }
  }

  /** The counter is the size of the tree, and every cell is either in the tree or free. */
  lemma CellBooks(m: BinMap)
    requires m.Valid()
    ensures m.taken == Size(m.tree) == |Refs(m.tree)|
    ensures |m.cells| == Size(m.tree) + |m.free|
    ensures forall r :: 0 <= r < |m.cells| ==> (r in Refs(m.tree) <==> r !in m.free)
  {
    hide Refs, NoSharing, Holds, Chain, Distinct, CanonicalHalf, Fits, Size;
    m.StoreCount(Refs(m.tree));
    SizeIsCount(m.tree);
  }

  /** The set under a cell other than the root is not one bitmap repeated: in particular neither empty nor full. */
  lemma CellMixed(m: BinMap, x: nat, l: nat, w: Word)
    requires m.Valid() && m.root.Has(x) && l < m.root.layer && HasNode(m.tree, m.root, x, l)
    ensures BinAt(m.root, x, l).layer == l >= 6
    ensures exists i: nat :: BinAt(m.root, x, l).Has(i) && m.Has(i) != Bit(w, i % 32)
  {
    hide Refs, NoSharing, Holds, Chain, Distinct, CanonicalHalf, Fits, TreeHas, HasNode, NodeAt, BinAt, Bit;
    var c := BinAt(m.root, x, l);
    CanonicalNode(m.tree, m.root, x, l);
    NodeFits(m.tree, m.root, x, l);
    BinAtSpec(m.root, x, l);
    NodeSolid(m.tree, m.root, x, c, w);
    var i: nat :| c.Has(i) && TreeHas(m.tree, m.root, i) != Bit(w, i % 32);
    assert m.Has(i) == TreeHas(m.tree, m.root, i);
  }
}
