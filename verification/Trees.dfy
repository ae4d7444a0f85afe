/**
 The shape of a bin map: the binary tree of cells with the references resolved.

 A node covers a bin; each of its halves is either a bitmap, which stands for
 its 32 bits repeated over the whole half, or another node.
 */
module Trees {
  import opened Powers
  import opened Bins
  import opened Words

  datatype Half = Bits(w: Word) | Sub(t: Tree)

  datatype Tree = Node(ref: nat, left: Half, right: Half)

  /** The half of a node over bin b in which chunk x lies. */
  function HalfToward(t: Tree, b: Bin, x: nat): Half
    requires b.layer > 0
  {
    if x < b.base + P(b.layer - 1) then t.left else t.right
  }

  function WithHalf(t: Tree, b: Bin, x: nat, h: Half): Tree
    requires b.layer > 0
  {
    if x < b.base + P(b.layer - 1) then Node(t.ref, h, t.right) else Node(t.ref, t.left, h)
  }

  /** Chunk i of bin b is in the set that the node over b stands for. */
  predicate TreeHas(t: Tree, b: Bin, i: nat)
    decreases t
  {
    b.layer > 0 &&
    match HalfToward(t, b, i)
    case Bits(w) => Bit(w, i % 32)
    case Sub(s) => TreeHas(s, b.Toward(i), i)
  }

  predicate HalfHas(h: Half, b: Bin, i: nat) {
    match h
    case Bits(w) => Bit(w, i % 32)
    case Sub(s) => TreeHas(s, b, i)
  }

  /** No reference below layer 6: a node over layer l leaves bitmaps of 32 chunks or more. */
  predicate Fits(t: Tree, l: nat) {
    l >= 6 &&
    (t.left.Sub? ==> Fits(t.left.t, l - 1)) &&
    (t.right.Sub? ==> Fits(t.right.t, l - 1))
  }

  predicate Uniform(t: Tree) {
    t.left.Bits? && t.left == t.right
  }

  /** No node below this half has two equal bitmaps. */
  predicate CanonicalHalf(h: Half) {
    h.Sub? ==> !Uniform(h.t) && CanonicalHalf(h.t.left) && CanonicalHalf(h.t.right)
  }

  /** The canonical form: only the root may be uniform. */
  predicate Canonical(t: Tree) {
    CanonicalHalf(t.left) && CanonicalHalf(t.right)
  }

  /** The cells a tree occupies. */
  function Refs(t: Tree): set<nat> {
    {t.ref} + (if t.left.Sub? then Refs(t.left.t) else {}) + (if t.right.Sub? then Refs(t.right.t) else {})
  }

  function HalfRefs(h: Half): set<nat> {
    if h.Sub? then Refs(h.t) else {}
  }

  /** No cell occurs twice: the reachable cells form a tree. */
  predicate NoSharing(t: Tree) {
    t.ref !in HalfRefs(t.left) && t.ref !in HalfRefs(t.right) &&
    HalfRefs(t.left) !! HalfRefs(t.right) &&
    (t.left.Sub? ==> NoSharing(t.left.t)) &&
    (t.right.Sub? ==> NoSharing(t.right.t))
  }

  function Size(t: Tree): nat {
    1 + (if t.left.Sub? then Size(t.left.t) else 0) + (if t.right.Sub? then Size(t.right.t) else 0)
  }

  /** Equal trees up to the numbers of the cells. */
  predicate SameShape(t: Tree, u: Tree) {
    SameHalf(t.left, u.left) && SameHalf(t.right, u.right)
  }

  predicate SameHalf(h: Half, k: Half) {
    if h.Bits? || k.Bits? then h == k else SameShape(h.t, k.t)
  }

  // ------------------------------------------------------------------
  // The node over the layer-l bin that holds chunk x

  predicate HasNode(t: Tree, b: Bin, x: nat, l: nat) {
    l == b.layer ||
    (l < b.layer && HalfToward(t, b, x).Sub? && HasNode(HalfToward(t, b, x).t, b.Toward(x), x, l))
  }

  function NodeAt(t: Tree, b: Bin, x: nat, l: nat): Tree
    requires HasNode(t, b, x, l)
  {
    if l == b.layer then t else NodeAt(HalfToward(t, b, x).t, b.Toward(x), x, l)
  }

  function PutAt(t: Tree, b: Bin, x: nat, l: nat, s: Tree): Tree
    requires HasNode(t, b, x, l)
  {
    if l == b.layer then s
    else WithHalf(t, b, x, Sub(PutAt(HalfToward(t, b, x).t, b.Toward(x), x, l, s)))
  }

  function BinAt(b: Bin, x: nat, l: nat): (r: Bin)
    requires l <= b.layer
    ensures r.layer == l
    decreases b.layer
  {
    if l == b.layer then b else BinAt(b.Toward(x), x, l)
  }

  lemma {:induction false} BinAtSpec(b: Bin, x: nat, l: nat)
    requires b.Ok() && b.Has(x) && l <= b.layer
    ensures BinAt(b, x, l).Ok() && BinAt(b, x, l).Has(x) && BinAt(b, x, l).layer == l
    ensures b.base <= BinAt(b, x, l).base && BinAt(b, x, l).End() <= b.End()
    ensures BinAt(b, x, l) == Bin(l, Floor(x, l))
    decreases b.layer
  {
    if l == b.layer {
      FloorUnique(x, b.base, l);
    } else {
      HalvesOk(b);
      BinAtSpec(b.Toward(x), x, l);
    }
  }

  /** Replacing a node changes the set inside its bin only. */
  lemma {:induction false} PutHas(t: Tree, b: Bin, x: nat, l: nat, s: Tree, i: nat)
    requires HasNode(t, b, x, l)
    requires b.Ok() && b.Has(x) && b.Has(i)
    ensures BinAt(b, x, l).Has(i) ==> (TreeHas(t, b, i) <==> TreeHas(NodeAt(t, b, x, l), BinAt(b, x, l), i))
    ensures BinAt(b, x, l).Has(i) ==> (TreeHas(PutAt(t, b, x, l, s), b, i) <==> TreeHas(s, BinAt(b, x, l), i))
    ensures !BinAt(b, x, l).Has(i) ==> (TreeHas(PutAt(t, b, x, l, s), b, i) <==> TreeHas(t, b, i))
    decreases t
  {
    if l < b.layer {
      HalvesOk(b);
      BinAtSpec(b.Toward(x), x, l);
      if b.Toward(x).Has(i) {
        PutHas(HalfToward(t, b, x).t, b.Toward(x), x, l, s, i);
      }
    }
  }

  lemma {:induction false} NodeRefs(t: Tree, b: Bin, x: nat, l: nat)
    requires HasNode(t, b, x, l) && NoSharing(t)
    ensures NoSharing(NodeAt(t, b, x, l))
    ensures Refs(NodeAt(t, b, x, l)) <= Refs(t)
    ensures l < b.layer ==> t.ref !in Refs(NodeAt(t, b, x, l))
    decreases t
  {
    if l < b.layer {
      NodeRefs(HalfToward(t, b, x).t, b.Toward(x), x, l);
    }
  }

  /** Replacing one half of a node by one that occupies no cell of the rest. */
  lemma WithHalfRefs(n: Tree, c: Bin, x: nat, h: Half)
    requires c.layer > 0 && NoSharing(n)
    requires h.Sub? ==> NoSharing(h.t)
    requires HalfRefs(h) !! (Refs(n) - HalfRefs(HalfToward(n, c, x)))
    ensures NoSharing(WithHalf(n, c, x, h))
    ensures Refs(WithHalf(n, c, x, h)) == Refs(n) - HalfRefs(HalfToward(n, c, x)) + HalfRefs(h)
    ensures HalfRefs(HalfToward(n, c, x)) <= Refs(n)
    ensures n.ref in Refs(n) && n.ref !in HalfRefs(HalfToward(n, c, x))
    ensures HalfToward(n, c, x).Sub? ==> NoSharing(HalfToward(n, c, x).t)
  {
    hide P;
  }

  lemma {:induction false} PutRefs(t: Tree, b: Bin, x: nat, l: nat, s: Tree)
    requires HasNode(t, b, x, l) && NoSharing(t) && NoSharing(s)
    requires Refs(s) !! (Refs(t) - Refs(NodeAt(t, b, x, l)))
    ensures NoSharing(PutAt(t, b, x, l, s))
    ensures Refs(PutAt(t, b, x, l, s)) == Refs(t) - Refs(NodeAt(t, b, x, l)) + Refs(s)
    ensures l < b.layer ==> PutAt(t, b, x, l, s).ref == t.ref
    decreases t
  {
    if l < b.layer {
      hide P, NoSharing, Refs;
      var h := HalfToward(t, b, x).t;
      WithHalfRefs(t, b, x, Bits(0));
      NodeRefs(h, b.Toward(x), x, l);
      PutRefs(h, b.Toward(x), x, l, s);
      WithHalfRefs(t, b, x, Sub(PutAt(h, b.Toward(x), x, l, s)));
    }
  }

  lemma {:induction false} PutNode(t: Tree, b: Bin, x: nat, l: nat, s: Tree)
    requires HasNode(t, b, x, l)
    ensures HasNode(PutAt(t, b, x, l, s), b, x, l)
    ensures NodeAt(PutAt(t, b, x, l, s), b, x, l) == s
    decreases t
  {
    if l < b.layer {
      PutNode(HalfToward(t, b, x).t, b.Toward(x), x, l, s);
    }
  }

  lemma {:induction false} PutFits(t: Tree, b: Bin, x: nat, l: nat, s: Tree)
    requires HasNode(t, b, x, l) && Fits(t, b.layer) && Fits(s, l)
    ensures Fits(PutAt(t, b, x, l, s), b.layer)
    decreases t
  {
    if l < b.layer {
      PutFits(HalfToward(t, b, x).t, b.Toward(x), x, l, s);
    }
  }

  lemma {:induction false} NodeFits(t: Tree, b: Bin, x: nat, l: nat)
    requires HasNode(t, b, x, l) && Fits(t, b.layer)
    ensures Fits(NodeAt(t, b, x, l), l)
    decreases t
  {
    if l < b.layer {
      NodeFits(HalfToward(t, b, x).t, b.Toward(x), x, l);
    }
  }

  /** The node over a bin is the same for every chunk of the bin. */
  lemma {:induction false} NodeMove(t: Tree, b: Bin, x: nat, y: nat, l: nat)
    requires b.Ok() && b.Has(x) && l <= b.layer && BinAt(b, x, l).Has(y)
    ensures b.Has(y) && BinAt(b, y, l) == BinAt(b, x, l)
    ensures HasNode(t, b, x, l) ==> HasNode(t, b, y, l) && NodeAt(t, b, y, l) == NodeAt(t, b, x, l)
    decreases b.layer
  {
    if l < b.layer {
      HalvesOk(b);
      BinAtSpec(b.Toward(x), x, l);
      if HalfToward(t, b, x).Sub? {
        NodeMove(HalfToward(t, b, x).t, b.Toward(x), x, y, l);
      } else {
        NodeMove(t, b.Toward(x), x, y, l);
      }
    }
  }

  // ------------------------------------------------------------------
  // Canonical form around one node

  /** Every half that branches off the path to the layer-l bin of x is canonical. */
  predicate SideCanonical(t: Tree, b: Bin, x: nat, l: nat)
    requires HasNode(t, b, x, l)
  {
    l < b.layer ==>
      CanonicalHalf(Other(t, b, x)) && SideCanonical(HalfToward(t, b, x).t, b.Toward(x), x, l)
  }

  /** The half in which chunk x does not lie. */
  function Other(t: Tree, b: Bin, x: nat): Half
    requires b.layer > 0
  {
    if x < b.base + P(b.layer - 1) then t.right else t.left
  }

  lemma {:induction false} CanonicalNode(t: Tree, b: Bin, x: nat, l: nat)
    requires HasNode(t, b, x, l) && Canonical(t)
    ensures SideCanonical(t, b, x, l)
    ensures Canonical(NodeAt(t, b, x, l))
    ensures l < b.layer ==> !Uniform(NodeAt(t, b, x, l))
    decreases t
  {
    if l < b.layer {
      CanonicalNode(HalfToward(t, b, x).t, b.Toward(x), x, l);
    }
  }

  lemma CanonicalSides(t: Tree, b: Bin, x: nat, l: nat)
    requires HasNode(t, b, x, l) && Canonical(t) && 0 < l <= b.layer
    ensures CanonicalHalf(Other(NodeAt(t, b, x, l), BinAt(b, x, l), x))
  {
    CanonicalNode(t, b, x, l);
  }

  lemma {:induction false} SidePut(t: Tree, b: Bin, x: nat, l: nat, s: Tree)
    requires HasNode(t, b, x, l) && SideCanonical(t, b, x, l)
    ensures HasNode(PutAt(t, b, x, l, s), b, x, l)
    ensures SideCanonical(PutAt(t, b, x, l, s), b, x, l)
    decreases t
  {
    if l < b.layer {
      SidePut(HalfToward(t, b, x).t, b.Toward(x), x, l, s);
    }
  }

  lemma {:induction false} CanonicalClose(t: Tree, b: Bin, x: nat, l: nat)
    requires HasNode(t, b, x, l) && SideCanonical(t, b, x, l)
    requires Canonical(NodeAt(t, b, x, l))
    requires l < b.layer ==> !Uniform(NodeAt(t, b, x, l))
    ensures Canonical(t)
    decreases t
  {
    if l < b.layer {
      CanonicalClose(HalfToward(t, b, x).t, b.Toward(x), x, l);
    }
  }

  /** One step down: a node whose half toward x is a reference has the node below it. */
  lemma {:induction false} StepDown(t: Tree, b: Bin, x: nat, l: nat)
    requires b.Ok() && b.Has(x)
    requires HasNode(t, b, x, l) && l > 0 && HalfToward(NodeAt(t, b, x, l), BinAt(b, x, l), x).Sub?
    ensures HasNode(t, b, x, l - 1)
    ensures NodeAt(t, b, x, l - 1) == HalfToward(NodeAt(t, b, x, l), BinAt(b, x, l), x).t
    ensures SideCanonical(t, b, x, l) && CanonicalHalf(Other(NodeAt(t, b, x, l), BinAt(b, x, l), x)) ==> SideCanonical(t, b, x, l - 1)
    decreases t
  {
    if l < b.layer {
      HalvesOk(b);
      StepDown(HalfToward(t, b, x).t, b.Toward(x), x, l);
    }
  }

  lemma {:induction false} BinStep(b: Bin, x: nat, l: nat)
    requires 0 < l <= b.layer
    ensures BinAt(b, x, l).layer == l
    ensures BinAt(b, x, l - 1) == BinAt(b, x, l).Toward(x)
    decreases b.layer
  {
    if l < b.layer {
      BinStep(b.Toward(x), x, l);
    }
  }

  /** One step up: the parent of a node on the path refers to it. */
  lemma {:induction false} StepUp(t: Tree, b: Bin, x: nat, l: nat)
    requires HasNode(t, b, x, l) && l < b.layer
    ensures HasNode(t, b, x, l + 1)
    ensures BinAt(b, x, l + 1).layer == l + 1
    ensures HalfToward(NodeAt(t, b, x, l + 1), BinAt(b, x, l + 1), x) == Sub(NodeAt(t, b, x, l))
    ensures SideCanonical(t, b, x, l) ==> SideCanonical(t, b, x, l + 1)
    ensures SideCanonical(t, b, x, l) ==> CanonicalHalf(Other(NodeAt(t, b, x, l + 1), BinAt(b, x, l + 1), x))
    decreases t
  {
    if l + 1 < b.layer {
      StepUp(HalfToward(t, b, x).t, b.Toward(x), x, l);
    }
  }

  /** Every bitmap below the node is w. */
  predicate Mono(t: Tree, w: Word) {
    (match t.left case Bits(v) => v == w case Sub(s) => Mono(s, w)) &&
    (match t.right case Bits(v) => v == w case Sub(s) => Mono(s, w))
  }

  lemma {:induction false} MonoHas(t: Tree, b: Bin, w: Word, i: nat)
    requires Mono(t, w) && Fits(t, b.layer)
    ensures TreeHas(t, b, i) <==> Bit(w, i % 32)
    decreases t
  {
    if HalfToward(t, b, i).Sub? {
      MonoHas(HalfToward(t, b, i).t, b.Toward(i), w, i);
    }
  }

  // ------------------------------------------------------------------
  // Changing one half of one node

  /** The tree with the half toward x of its layer-l node replaced. */
  function PutHalf(t: Tree, b: Bin, x: nat, l: nat, h: Half): Tree
    requires HasNode(t, b, x, l) && 0 < l <= b.layer
  {
    PutAt(t, b, x, l, WithHalf(NodeAt(t, b, x, l), BinAt(b, x, l), x, h))
  }

  /** The half toward x of the layer-l node. */
  function HalfAt(t: Tree, b: Bin, x: nat, l: nat): Half
    requires HasNode(t, b, x, l) && 0 < l <= b.layer
  {
    HalfToward(NodeAt(t, b, x, l), BinAt(b, x, l), x)
  }

  /** Only the half's own bin changes, and there the new half decides. */
  lemma PutHalfHas(t: Tree, b: Bin, x: nat, l: nat, h: Half, i: nat)
    requires HasNode(t, b, x, l) && 0 < l <= b.layer
    requires b.Ok() && b.Has(x) && b.Has(i)
    ensures BinAt(b, x, l - 1).Has(i) ==> (TreeHas(t, b, i) <==> HalfHas(HalfAt(t, b, x, l), BinAt(b, x, l - 1), i))
    ensures BinAt(b, x, l - 1).Has(i) ==> (TreeHas(PutHalf(t, b, x, l, h), b, i) <==> HalfHas(h, BinAt(b, x, l - 1), i))
    ensures !BinAt(b, x, l - 1).Has(i) ==> (TreeHas(PutHalf(t, b, x, l, h), b, i) <==> TreeHas(t, b, i))
  {
    var n, c := NodeAt(t, b, x, l), BinAt(b, x, l);
    PutHas(t, b, x, l, WithHalf(n, c, x, h), i);
    BinAtSpec(b, x, l);
    BinStep(b, x, l);
    HalvesOk(c);
  }

  /** What a changed half means for the rest of the tree. */
  lemma PutHalfShape(t: Tree, b: Bin, x: nat, l: nat, h: Half)
    requires HasNode(t, b, x, l) && 0 < l <= b.layer && b.Ok() && b.Has(x)
    requires Fits(t, b.layer) && (h.Sub? ==> Fits(h.t, l - 1))
    ensures Fits(PutHalf(t, b, x, l, h), b.layer)
    ensures HasNode(PutHalf(t, b, x, l, h), b, x, l)
    ensures NodeAt(PutHalf(t, b, x, l, h), b, x, l) == WithHalf(NodeAt(t, b, x, l), BinAt(b, x, l), x, h)
    ensures HalfAt(PutHalf(t, b, x, l, h), b, x, l) == h
    ensures SideCanonical(t, b, x, l) ==> SideCanonical(PutHalf(t, b, x, l, h), b, x, l)
  {
    var s := WithHalf(NodeAt(t, b, x, l), BinAt(b, x, l), x, h);
    NodeFits(t, b, x, l);
    PutFits(t, b, x, l, s);
    PutNode(t, b, x, l, s);
    if SideCanonical(t, b, x, l) {
      SidePut(t, b, x, l, s);
    }
  }

  lemma PutRef(t: Tree, b: Bin, x: nat, l: nat, s: Tree)
    requires HasNode(t, b, x, l) && s.ref == NodeAt(t, b, x, l).ref
    ensures PutAt(t, b, x, l, s).ref == t.ref
  {
  }

  lemma PutHalfRefs(t: Tree, b: Bin, x: nat, l: nat, h: Half)
    requires HasNode(t, b, x, l) && 0 < l <= b.layer && NoSharing(t)
    requires h.Sub? ==> NoSharing(h.t)
    requires HalfRefs(h) !! Refs(t)
    ensures NoSharing(PutHalf(t, b, x, l, h))
    ensures Refs(PutHalf(t, b, x, l, h)) == Refs(t) - HalfRefs(HalfAt(t, b, x, l)) + HalfRefs(h)
    ensures PutHalf(t, b, x, l, h).ref == t.ref
    ensures HalfRefs(HalfAt(t, b, x, l)) <= Refs(t)
    ensures NodeAt(t, b, x, l).ref in Refs(t) && NodeAt(t, b, x, l).ref !in HalfRefs(HalfAt(t, b, x, l))
    ensures HalfAt(t, b, x, l).Sub? ==> NoSharing(HalfAt(t, b, x, l).t)
  {
    hide NoSharing, Refs, HalfRefs, HalfToward, PutAt, NodeAt, HasNode, BinAt;
    var n := NodeAt(t, b, x, l);
    var s := WithHalf(n, BinAt(b, x, l), x, h);
    NodeRefs(t, b, x, l);
    WithHalfRefs(n, BinAt(b, x, l), x, h);
    PutRefs(t, b, x, l, s);
    PutRef(t, b, x, l, s);
  }

  /** The cell of the whole tree is met only at its own layer. */
  lemma RootOnly(t: Tree, b: Bin, x: nat, l: nat)
    requires HasNode(t, b, x, l) && NoSharing(t) && NodeAt(t, b, x, l).ref == t.ref
    ensures l == b.layer
  {
    NodeRefs(t, b, x, l);
  }

  lemma NotRoot(t: Tree, b: Bin, x: nat, l: nat)
    requires HasNode(t, b, x, l) && NodeAt(t, b, x, l).ref != t.ref
    ensures l < b.layer
  {
  }

  /** The two halves of a node never refer to one cell. */
  lemma ChildrenDiffer(t: Tree, b: Bin, x: nat, l: nat)
    requires HasNode(t, b, x, l) && NoSharing(t)
    ensures var n := NodeAt(t, b, x, l); n.left.Sub? && n.right.Sub? ==> n.left.t.ref != n.right.t.ref
  {
    NodeRefs(t, b, x, l);
    var n := NodeAt(t, b, x, l);
    if n.left.Sub? && n.right.Sub? {
      assert n.left.t.ref in Refs(n.left.t);
      assert n.right.t.ref in Refs(n.right.t);
    }
  }

  /** Folding one half into a bitmap leaves a canonical tree, if the other half differs from it or the root is reached. */
  lemma PackedCanonical(t: Tree, b: Bin, x: nat, m: nat, w: Word)
    requires b.Ok() && b.Has(x) && Fits(t, b.layer)
    requires m < b.layer && HasNode(t, b, x, m) && HasNode(t, b, x, m + 1) && SideCanonical(t, b, x, m)
    requires m + 1 == b.layer || Other(NodeAt(t, b, x, m + 1), BinAt(b, x, m + 1), x) != Bits(w)
    ensures Canonical(PutHalf(t, b, x, m + 1, Bits(w)))
  {
    hide HasNode, NodeAt, BinAt, PutAt, P, SideCanonical, Fits;
    StepUp(t, b, x, m);
    PutHalfShape(t, b, x, m + 1, Bits(w));
    CanonicalClose(PutHalf(t, b, x, m + 1, Bits(w)), b, x, m + 1);
  }

  function Leaf(ref: nat, w: Word): (t: Tree)
    ensures t.ref == ref && Refs(t) == {ref} && NoSharing(t) && Mono(t, w)
    ensures forall l: nat :: l >= 6 ==> Fits(t, l)
  {
    Node(ref, Bits(w), Bits(w))
  }

  /** Storing a bitmap decides exactly the chunks of the half's bin. */
  lemma DecidedHalf(t: Tree, b: Bin, x: nat, l: nat, w: Word)
    requires HasNode(t, b, x, l) && 0 < l <= b.layer && b.Ok() && b.Has(x)
    ensures forall i: nat :: b.Has(i) ==>
      (TreeHas(PutHalf(t, b, x, l, Bits(w)), b, i) <==> if BinAt(b, x, l - 1).Has(i) then Bit(w, i % 32) else TreeHas(t, b, i))
  {
    hide P, HasNode, NodeAt, PutAt, BinAt, TreeHas;
    forall i: nat | b.Has(i)
      ensures TreeHas(PutHalf(t, b, x, l, Bits(w)), b, i) <==> if BinAt(b, x, l - 1).Has(i) then Bit(w, i % 32) else TreeHas(t, b, i)
    {
      PutHalfHas(t, b, x, l, Bits(w), i);
    }
  }

  lemma SameHalvesHas(t: Tree, u: Tree, b: Bin, i: nat)
    requires t.left == u.left && t.right == u.right
    ensures TreeHas(t, b, i) <==> TreeHas(u, b, i)
  {
  }

  /** A half and a node with that bitmap in both halves stand for the same chunks. */
  lemma SameSet(t: Tree, b: Bin, x: nat, l: nat, w: Word, h: Half)
    requires b.Ok() && b.Has(x) && 7 <= l <= b.layer && HasNode(t, b, x, l)
    requires HalfAt(t, b, x, l) == Bits(w) && h.Sub? && Mono(h.t, w) && Fits(h.t, l - 1)
    ensures forall i: nat :: b.Has(i) ==> (TreeHas(PutHalf(t, b, x, l, h), b, i) <==> TreeHas(t, b, i))
  {
    hide P, HasNode, NodeAt, PutAt, BinAt, TreeHas;
    forall i: nat | b.Has(i) ensures TreeHas(PutHalf(t, b, x, l, h), b, i) <==> TreeHas(t, b, i) {
      PutHalfHas(t, b, x, l, h, i);
      MonoHas(h.t, BinAt(b, x, l - 1), w, i);
    }
  }

  /** Replacing a node keeps the cells on the path down to it. */
  lemma {:induction false} PutPath(t: Tree, b: Bin, x: nat, l: nat, s: Tree, m: nat)
    requires HasNode(t, b, x, l) && l <= m <= b.layer && s.ref == NodeAt(t, b, x, l).ref
    ensures HasNode(t, b, x, m) && HasNode(PutAt(t, b, x, l, s), b, x, m)
    ensures NodeAt(PutAt(t, b, x, l, s), b, x, m).ref == NodeAt(t, b, x, m).ref
    decreases t
  {
    if m == b.layer {
      PutRef(t, b, x, l, s);
    } else {
      PutPath(HalfToward(t, b, x).t, b.Toward(x), x, l, s, m);
    }
  }

  /** The only bin of its layer on the path to x. */
  lemma PathBin(b: Bin, x: nat, c: Bin)
    requires b.Ok() && b.Has(x) && c.Ok() && c.Has(x) && c.layer <= b.layer
    ensures c == BinAt(b, x, c.layer)
  {
    BinAtSpec(b, x, c.layer);
    FloorUnique(x, c.base, c.layer);
  }

  // ------------------------------------------------------------------
  // Canonical trees are determined by the set they stand for

  /** Every bit position occurs in every bin of 32 chunks or more. */
  lemma Position(b: Bin, k: nat)
    requires b.Ok() && b.layer >= 5 && k < 32
    ensures b.Has(b.base + k) && (b.base + k) % 32 == k
  {
    AlignedMod32(b.base, b.layer);
    PowerMonotone(5, b.layer);
    SmallPowers();
  }

  lemma BitsSeparate(b: Bin, v: Word, w: Word) returns (i: nat)
    requires b.Ok() && b.layer >= 5 && v != w
    ensures b.Has(i) && Bit(v, i % 32) != Bit(w, i % 32)
  {
    if forall k: nat :: k < 32 ==> (Bit(v, k) <==> Bit(w, k)) {
      SmallPowers();
      BitsDetermine(v, w, 32);
      assert false;
    }
    var k: nat :| k < 32 && Bit(v, k) != Bit(w, k);
    Position(b, k);
    i := b.base + k;
  }

  /** A referenced canonical node never stands for one bitmap repeated; so it is neither empty nor full. */
  lemma {:induction false} NotPeriodic(t: Tree, b: Bin, w: Word) returns (i: nat)
    requires b.Ok() && Fits(t, b.layer) && Canonical(t) && !Uniform(t)
    ensures b.Has(i) && TreeHas(t, b, i) != Bit(w, i % 32)
    decreases t
  {
    HalvesOk(b);
    if t.left.Sub? {
      i := NotPeriodic(t.left.t, b.Left(), w);
    } else if t.right.Sub? {
      i := NotPeriodic(t.right.t, b.Right(), w);
    } else if t.left.w != w {
      i := BitsSeparate(b.Left(), t.left.w, w);
    } else {
      i := BitsSeparate(b.Right(), t.right.w, w);
    }
  }

  /** Two canonical trees over one bin that stand for the same set are the same tree. */
  lemma {:induction false} CanonicalUnique(t: Tree, u: Tree, b: Bin)
    requires b.Ok() && Fits(t, b.layer) && Fits(u, b.layer) && Canonical(t) && Canonical(u)
    requires forall i: nat :: b.Has(i) ==> (TreeHas(t, b, i) <==> TreeHas(u, b, i))
    ensures SameShape(t, u)
    decreases t
  {
    HalvesOk(b);
    forall i: nat | b.Left().Has(i) ensures HalfHas(t.left, b.Left(), i) <==> HalfHas(u.left, b.Left(), i) {
      assert TreeHas(t, b, i) <==> TreeHas(u, b, i);
    }
    HalfUnique(t.left, u.left, b.Left());
    forall i: nat | b.Right().Has(i) ensures HalfHas(t.right, b.Right(), i) <==> HalfHas(u.right, b.Right(), i) {
      assert TreeHas(t, b, i) <==> TreeHas(u, b, i);
    }
    HalfUnique(t.right, u.right, b.Right());
  }

  lemma {:induction false} HalfUnique(h: Half, k: Half, b: Bin)
    requires b.Ok() && b.layer >= 5 && CanonicalHalf(h) && CanonicalHalf(k)
    requires h.Sub? ==> Fits(h.t, b.layer)
    requires k.Sub? ==> Fits(k.t, b.layer)
    requires forall i: nat :: b.Has(i) ==> (HalfHas(h, b, i) <==> HalfHas(k, b, i))
    ensures SameHalf(h, k)
    decreases h
  {
    if h.Sub? && k.Sub? {
      forall i: nat | b.Has(i) ensures TreeHas(h.t, b, i) <==> TreeHas(k.t, b, i) {
        assert HalfHas(h, b, i) <==> HalfHas(k, b, i);
      }
      CanonicalUnique(h.t, k.t, b);
    } else if h.Sub? {
      var i := NotPeriodic(h.t, b, k.w);
      assert false;
    } else if k.Sub? {
      var i := NotPeriodic(k.t, b, h.w);
      assert false;
    } else if h.w != k.w {
      var i := BitsSeparate(b, h.w, k.w);
      assert false;
    }
  }

  lemma BottomHalves(t: Tree, b: Bin, x: nat, l: nat)
    requires HasNode(t, b, x, l) && Fits(t, b.layer)
    ensures l >= 6
    ensures l == 6 ==> NodeAt(t, b, x, l).left.Bits? && NodeAt(t, b, x, l).right.Bits?
  {
    NodeFits(t, b, x, l);
  }

  /** Comparing bin numbers picks the half that x is in. */
  lemma InHalf(cur: Bin, bin: Bin, x: nat)
    requires cur.Ok() && bin.Ok() && bin.Has(x) && bin.layer < cur.layer && cur.base <= bin.base && bin.End() <= cur.End()
    ensures bin.V() < cur.V() <==> x < cur.base + P(cur.layer - 1)
    ensures cur.Toward(x).base <= bin.base && bin.End() <= cur.Toward(x).End()
  {
    Direction(cur, bin);
    HalvesOk(cur);
  }

  /** Where the half toward x is a bitmap, it decides every chunk of a bin in that half. */
  lemma HalfDecides(t: Tree, root: Bin, x: nat, cur: Bin, c: Bin, w: Word, i: nat)
    requires root.Ok() && root.Has(x) && HasNode(t, root, x, cur.layer) && 0 < cur.layer <= root.layer
    requires cur == BinAt(root, x, cur.layer) && HalfAt(t, root, x, cur.layer) == Bits(w)
    requires c.Ok() && c.Has(x) && c.layer < cur.layer && cur.base <= c.base && c.End() <= cur.End() && c.Has(i)
    ensures root.Has(i) && (TreeHas(t, root, i) <==> Bit(w, i % 32))
  {
    hide P, HasNode, NodeAt, PutAt, BinAt, TreeHas, Aligned, Floor;
    BinAtSpec(root, x, cur.layer);
    BinStep(root, x, cur.layer);
    InHalf(cur, c, x);
    PutHalfHas(t, root, x, cur.layer, Bits(w), i);
  }

  // ------------------------------------------------------------------
  // Reading one bin off the tree

  /** Over a bin of 32 chunks or more inside a bitmap half, the set is a given pattern exactly when the bitmap is. */
  lemma HalfSolid(t: Tree, root: Bin, x: nat, cur: Bin, c: Bin, w: Word, v: Word)
    requires root.Ok() && root.Has(x) && HasNode(t, root, x, cur.layer) && 0 < cur.layer <= root.layer
    requires cur == BinAt(root, x, cur.layer) && HalfAt(t, root, x, cur.layer) == Bits(w)
    requires c.Ok() && c.Has(x) && 5 <= c.layer < cur.layer && cur.base <= c.base && c.End() <= cur.End()
    ensures (forall i: nat :: c.Has(i) ==> (TreeHas(t, root, i) <==> Bit(v, i % 32))) <==> w == v
  {
    hide P, HasNode, NodeAt, BinAt, TreeHas, Aligned, Floor, Bit;
    forall i: nat | c.Has(i) ensures TreeHas(t, root, i) <==> Bit(w, i % 32) {
      HalfDecides(t, root, x, cur, c, w, i);
    }
    if w != v {
      var i := BitsSeparate(c, w, v);
    }
  }

  /** Over a bin that has its own cell, the set is a given pattern exactly when both halves of the cell are. */
  lemma NodeSolid(t: Tree, root: Bin, x: nat, c: Bin, v: Word)
    requires root.Ok() && root.Has(x) && c.layer <= root.layer && HasNode(t, root, x, c.layer) && c == BinAt(root, x, c.layer)
    requires Canonical(t) && Fits(t, root.layer)
    ensures (forall i: nat :: c.Has(i) ==> (TreeHas(t, root, i) <==> Bit(v, i % 32)))
            <==> Uniform(NodeAt(t, root, x, c.layer)) && NodeAt(t, root, x, c.layer).left == Bits(v)
  {
    hide P, HasNode, BinAt, TreeHas, Aligned, Floor, Bit, PutAt;
    var n := NodeAt(t, root, x, c.layer);
    CanonicalNode(t, root, x, c.layer);
    NodeFits(t, root, x, c.layer);
    BinAtSpec(root, x, c.layer);
    forall i: nat | c.Has(i) ensures TreeHas(t, root, i) <==> TreeHas(n, c, i) {
      PutHas(t, root, x, c.layer, n, i);
    }
    if !Uniform(n) {
      var i := NotPeriodic(n, c, v);
    } else {
      forall i: nat | c.Has(i) ensures TreeHas(n, c, i) <==> Bit(n.left.w, i % 32) {
        MonoHas(n, c, n.left.w, i);
      }
      if n.left.w != v {
        SmallPowers();
        var i := BitsSeparate(c, n.left.w, v);
      }
    }
  }

  lemma {:induction false} SizeIsCount(t: Tree)
    requires NoSharing(t)
    ensures |Refs(t)| == Size(t)
  {
    if t.left.Sub? {
      SizeIsCount(t.left.t);
    }
    if t.right.Sub? {
      SizeIsCount(t.right.t);
    }
    var l, r := HalfRefs(t.left), HalfRefs(t.right);
    assert |{t.ref} + l| == 1 + |l|;
    assert |{t.ref} + l + r| == |{t.ref} + l| + |r|;
  }
}
