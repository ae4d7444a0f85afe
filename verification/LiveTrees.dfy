/** livehashtree.cpp: the source's hash tree of linked nodes, grown leaf by leaf, pruned, and signed every N chunks. */
module LiveTrees {
  import opened Powers
  import opened Bins
  import opened Peaks
  import opened Merkle
  import opened Offer

  class Node<H> {
    var parent: Node?<H>
    var left: Node?<H>
    var right: Node?<H>
    const bin: Bin
    var hash: H
    var verified: bool

    constructor (b: Bin, zero: H)
      ensures parent == null && left == null && right == null && bin == b && hash == zero && !verified
    {
      parent, left, right, bin, hash, verified := null, null, null, b, zero, false;
    }
  }

  class LiveHashTree<H(!new, ==)> {
    const k: Hashing<H>
    var root: Node?<H>
    var cursor: Node?<H>
    var sizec: nat
    ghost var at: map<Bin, Node<H>>
    ghost var pruned: set<Bin>

    constructor (hashing: Hashing<H>)
      ensures Valid() && k == hashing && sizec == 0 && pruned == {} && fresh(at.Values)
    {
      k, root, cursor, sizec, at, pruned := hashing, null, null, 0, map[], {};
    }

    /** The node over a bin, or null. */
    ghost function NodeOf(b: Bin): Node?<H>
      reads this`at
    {
      if b in at then at[b] else null
    }

    /** The links of a node are those of its bin: its halves below it, its parent above it. */
    ghost predicate LinkedAt(b: Bin)
      requires b in at
      reads this`at, this`root, at.Values`left, at.Values`right, at.Values`parent
    {
      var n := at[b];
      n.left == (if b.layer > 0 then NodeOf(b.Left()) else null) &&
      n.right == (if b.layer > 0 then NodeOf(b.Right()) else null) &&
      n.parent == (if n == root then null else NodeOf(b.Parent())) &&
      (n != root ==> b.Parent() in at)
    }

    /** The tree hangs off a root over an offset-0 bin. */
    ghost predicate Core()
      reads this`at, this`root, at.Values`left, at.Values`right, at.Values`parent
    {
      (root == null <==> at == map[]) &&
      (root != null ==> root.bin in at && at[root.bin] == root && root.bin.base == 0) &&
      (forall b :: b in at ==> b.Ok() && at[b].bin == b && b.layer <= root.bin.layer) &&
      forall b {:trigger LinkedAt(b)} :: b in at ==> LinkedAt(b)
    }

    /** A verified node has its Merkle hash; a leaf is verified. */
    ghost predicate HashOk(n: Node<H>)
      reads n`hash, n`verified
    {
      (n.verified ==> n.hash == Tree(n.bin, k)) && (n.bin.layer == 0 ==> n.verified)
    }

    ghost predicate HashesBut(x: Bin)
      reads this`at, at.Values`hash, at.Values`verified
    {
      forall b :: b in at && b != x ==> HashOk(at[b])
    }

    ghost predicate Hashes()
      reads this`at, at.Values`hash, at.Values`verified
    {
      forall b :: b in at ==> HashOk(at[b])
    }

    /** The bins that have a node: all over the chunks so far, up to the root, except the pruned ones. */
    ghost predicate Present(b: Bin)
      reads this`root, this`sizec, this`pruned
    {
      root != null && Lives(b, root.bin.layer, sizec, pruned)
    }

    ghost predicate Exact()
      reads this`at, this`root, this`sizec, this`pruned
    {
      forall b: Bin :: b in at <==> Present(b)
    }

    /** The root is the smallest over the chunks, the cursor is the last leaf, and pruned bins end before it. */
    ghost predicate Valid()
      reads this, at.Values
    {
      Core() && Exact() && Hashes() && sizec < P(62) &&
      (root == null <==> sizec == 0) && (root != null ==> Smallest(root.bin, sizec)) &&
      cursor == (if sizec == 0 then null else NodeOf(Bin(0, sizec - 1))) &&
      forall p :: p in pruned ==> p.Ok() && p.End() < sizec
    }

    /** Every node lies under the root. */
    lemma {:induction false} InRoot(b: Bin)
      requires Core() && b in at
      ensures root != null && Within(b, root.bin) && (b.layer == root.bin.layer ==> b == root.bin)
      decreases root.bin.layer - b.layer
    {
      hide P, Aligned, Floor;
      assert LinkedAt(b);
      if b != root.bin {
        assert at[b] != root;
        InRoot(b.Parent());
        assert LinkedAt(b.Parent());
        UpOk(b, root.bin);
      }
    }

    /** Between a node and one above it there is the half of the latter. */
    lemma {:induction false} TowardIn(b: Bin, c: Bin)
      requires Core() && b in at && c in at && b != c && Within(b, c)
      ensures c.layer > 0 && b.layer < c.layer
      ensures b.V() < c.V() ==> c.Left() in at && Within(b, c.Left())
      ensures b.V() > c.V() ==> c.Right() in at && Within(b, c.Right())
      ensures b.V() != c.V()
      decreases c.layer - b.layer
    {
      hide P, Aligned, Floor, Bin.V;
      assert LinkedAt(b) && LinkedAt(c);
      Direction(c, b);
      InRoot(c);
      if b == root.bin {
        AboveRoot(b, c);
      }
      assert at[b] != root;
      var p := b.Parent();
      assert LinkedAt(p);
      UpOk(b, c);
      if p == c {
        ParentHalf(b);
      } else {
        TowardIn(p, c);
        Direction(c, p);
        SameSide(b, p, c);
      }
    }

    /** FindNode: exactly the bins that have a node are found. */
    method FindNode(pos: Bin) returns (n: Node?<H>)
      requires Core() && pos.Ok()
      ensures n == NodeOf(pos)
    {
      hide P, Aligned, Floor, Bin.V;
      if pos in at {
        InRoot(pos);
      }
      var iter := root;
      while true
        invariant iter != null ==> iter.bin in at && at[iter.bin] == iter
        invariant pos in at ==> iter != null && Within(pos, iter.bin)
        decreases if iter == null then 0 else iter.bin.layer + 1
      {
        if iter == null {
          return null;
        } else if pos.V() == iter.bin.V() {
          NumberOne(pos, iter.bin);
          return iter;
        }
        assert LinkedAt(iter.bin);
        if pos in at {
          TowardIn(pos, iter.bin);
        }
        if pos.V() < iter.bin.V() {
          iter := iter.left;
        } else {
          iter := iter.right;
        }
      }
    }

    /** No node lies under a bin without one. */
    lemma NothingUnder(b: Bin)
      requires Core() && b.Ok() && b !in at && b.layer > 0 && root != null && b.layer <= root.bin.layer
      ensures b.Left() !in at && b.Right() !in at
    {
      hide Aligned, Floor, P;
      SiblingTwice(b);
      assert b.Left() in at ==> LinkedAt(b.Left());
      assert b.Right() in at ==> LinkedAt(b.Right());
    }

    /** Hangs a new node below another. */
    method AddChild(par: Node<H>, onLeft: bool) returns (n: Node<H>)
      requires Core() && Hashes() && par.bin in at && at[par.bin] == par && par.bin.layer > 0
      requires (if onLeft then par.bin.Left() else par.bin.Right()) !in at
      modifies this`at, par`left, par`right
      ensures n.bin == (if onLeft then par.bin.Left() else par.bin.Right()) && n.bin.Ok()
      ensures fresh(n) && at == old(at)[n.bin := n]
      ensures Core() && !n.verified && HashesBut(n.bin) && (n.bin.layer > 0 ==> Hashes())
    {
      hide P, Aligned, Floor, Tree, LiveHashTree.HashOk, LiveHashTree.Core, LiveHashTree.LinkedAt, Bin.Ok, Bin.Parent;
      ghost var p, c := par.bin, if onLeft then par.bin.Left() else par.bin.Right();
      NodeFacts(p);
      SiblingTwice(p);
      if c.layer > 0 {
        NothingUnder(c);
      }
      n := new Node(if onLeft then par.bin.Left() else par.bin.Right(), k.zero);
      n.parent := par;
      Hang(par, n, onLeft, c);
      FreshNode(n);
      forall b | b in at && b != c ensures HashOk(at[b]) {
        assert old(HashOk(at[b]));
      }
    }

    /** Links a new node below its parent. */
    method Hang(par: Node<H>, n: Node<H>, onLeft: bool, ghost c: Bin)
      requires Core() && par.bin in at && at[par.bin] == par && par.bin.layer > 0 && root != null
      requires c == (if onLeft then par.bin.Left() else par.bin.Right()) && c !in at && n.bin == c && c.Ok() && c.layer <= root.bin.layer
      requires n !in at.Values && n.parent == par && n.left == null && n.right == null && (c.layer > 0 ==> c.Left() !in at && c.Right() !in at)
      requires c.Parent() == par.bin
      modifies this`at, par`left, par`right
      ensures at == old(at)[c := n] && Core()
    {
      hide P, Aligned, Floor, Bin.Ok;
      ghost var p := par.bin;
      assert LinkedAt(p);
      NotRootNode(n);
      if onLeft {
        par.left := n;
      } else {
        par.right := n;
      }
      at := at[c := n];
      assert LinkedAt(p) by {
        SiblingTwice(p);
      }
      assert LinkedAt(c);
      forall b {:trigger LinkedAt(b)} | b in at ensures LinkedAt(b) {
        if b != c && b != p {
          assert old(LinkedAt(b));
          NotHalf(b, c, p);
        }
      }
    }

    lemma NotRootNode(n: Node<H>)
      requires Core() && n !in at.Values
      ensures n != root
    {
    }

    lemma FreshNode(n: Node<H>)
      requires !n.verified
      ensures n.bin.layer > 0 ==> HashOk(n)
    {
    }

    /** Puts a new root above the old one. */
    method GrowRoot()
      requires Core() && Hashes() && root != null && root.bin.layer < 62
      modifies this`at, this`root, root`parent
      ensures root != null && fresh(root) && root.bin == Bin(old(root.bin.layer) + 1, 0) && root.bin !in old(at)
      ensures at == old(at)[root.bin := root] && Core() && Hashes()
    {
      hide P, Aligned, Floor, Tree, HashOk, LiveHashTree.LinkedAt, Bin.Ok;
      var top := new Node(Bin(root.bin.layer + 1, 0), k.zero);
      top.left := root;
      assert Core();
      Crown(top);
      FreshNode(top);
      forall b | b in at && b != top.bin ensures HashOk(at[b]) {
        assert old(HashOk(at[b]));
      }
    }

    /** Links a new root above the old one. */
    method Crown(top: Node<H>)
      requires Core() && root != null && root.bin.layer < 62 && top !in at.Values && top.bin == Bin(root.bin.layer + 1, 0)
      requires top.left == root && top.right == null && top.parent == null
      modifies this`at, this`root, root`parent
      ensures top.bin !in old(at) && at == old(at)[top.bin := top] && root == top && Core()
    {
      hide P, Aligned, Floor;
      ghost var r, c := root.bin, top.bin;
      assert LinkedAt(r);
      RootAbove(r);
      SiblingTwice(c);
      assert c !in at;
      forall b | b in at ensures b != c.Right() && (b != r ==> at[b] != root) {
        InRoot(b);
        RightOutside(b, r);
      }
      root.parent := top;
      root := top;
      at := at[c := top];
      assert LinkedAt(c) && LinkedAt(r);
      forall b {:trigger LinkedAt(b)} | b in at ensures LinkedAt(b) {
        if b != c && b != r {
          assert old(LinkedAt(b));
          if b.layer > 0 {
            SiblingTwice(b);
          }
        }
      }
    }

    lemma LinkOf(b: Bin)
      requires Core() && b in at
      ensures var n := at[b];
        n.left == (if b.layer > 0 then NodeOf(b.Left()) else null) &&
        n.right == (if b.layer > 0 then NodeOf(b.Right()) else null) &&
        n.parent == (if n == root then null else NodeOf(b.Parent())) &&
        (n != root ==> b.Parent() in at)
    {
      assert LinkedAt(b);
    }

    /** The state after CreateNext: the new leaf and the nodes above it are there, nothing else is new. */
    ghost predicate Extended(before: map<Bin, Node<H>>, n: nat, next: Node<H>)
      reads this`at, this`root, this`cursor, at.Values
    {
      Core() && next.bin == Bin(0, n) && next.bin in at && at[next.bin] == next && cursor == next &&
      root != null && Smallest(root.bin, n + 1) && HashesBut(next.bin) &&
      (forall b: Bin :: b in at <==> b in before || (b.Ok() && b.Has(n) && b.layer <= root.bin.layer)) &&
      forall b :: b in before ==> at[b] == before[b]
    }

    lemma IsExtended(before: map<Bin, Node<H>>, n: nat, next: Node<H>, more: set<Bin>)
      requires Core() && next.bin == Bin(0, n) && next.bin in at && at[next.bin] == next && cursor == next
      requires root != null && Smallest(root.bin, n + 1) && HashesBut(next.bin)
      requires at.Keys == before.Keys + {root.bin} + more && Fills(before.Keys, more, n, root.bin)
      requires forall b :: b in before ==> b in at && at[b] == before[b]
      ensures Extended(before, n, next)
    {
      hide P, Aligned, Floor, Bin.Ok, Bin.Has, Smallest, LiveHashTree.Core, LiveHashTree.HashesBut;
      forall b: Bin ensures b in at <==> b in before || (b.Ok() && b.Has(n) && b.layer <= root.bin.layer) {
        assert b in at <==> b in at.Keys;
        assert b in before <==> b in before.Keys;
        assert Filled(before.Keys, more, n, root.bin, b);
      }
    }

    /** Bins over the next chunk that also have chunks so far have a node, up to the root. */
    lemma OldAbove(b: Bin)
      requires Valid() && root != null && b.Ok() && b.Has(sizec) && b.base < sizec && b.layer <= root.bin.layer
      ensures b in at
    {
      hide P, Aligned, Floor;
      assert Present(b);
    }

    /** The parent of the only leaf: a new root. */
    method FirstPair()
      requires Core() && Hashes() && root != null && root.bin == Bin(0, 0)
      modifies this`at, this`root, root`parent
      ensures Core() && Hashes() && root != null && root.bin == Bin(1, 0) && root.bin in at && at[root.bin] == root && root.bin.Ok() && fresh(root)
      ensures at.Keys == old(at.Keys) + {root.bin} && forall b :: b in old(at) ==> at[b] == old(at[b])
    {
      hide P, Aligned, Floor, Tree, LiveHashTree.LinkedAt, LiveHashTree.Core, LiveHashTree.HashesBut, LiveHashTree.Hashes, Bin.Ok;
      ghost var was := at;
      GrowRoot();
      NodeFacts(root.bin);
      OneKeyMore(was, root.bin, root);
    }

    /** Hangs the leaf of the next chunk beside the last one. */
    method HangSibling(par: Node<H>, ghost before: map<Bin, Node<H>>, ghost n: nat)
      returns (next: Node<H>)
      requires Core() && Hashes() && root != null && par.bin in at && at[par.bin] == par && par.bin.layer == 1 && par.bin.Right() == Bin(0, n)
      requires Bin(0, n) !in at && root.bin.Ok() && Smallest(root.bin, n + 1) && at.Keys == before.Keys + {root.bin}
      requires forall b :: b in before ==> b in at && at[b] == before[b]
      requires Fills(before.Keys, {Bin(0, n)}, n, root.bin)
      modifies this`at, this`cursor, par`left, par`right
      ensures fresh(next) && Extended(before, n, next)
      ensures forall b :: b in old(at) ==> b in at && at[b] == old(at[b])
      ensures forall b :: b in at && b !in old(at) ==> fresh(at[b])
    {
      hide Fills, Filled, P, Aligned, Floor, Tree, Smallest, LiveHashTree.LinkedAt, LiveHashTree.Core, LiveHashTree.HashesBut, LiveHashTree.Hashes, LiveHashTree.Extended, Bin.Ok, Bin.Has;
      ghost var mid := at;
      next := AddChild(par, false);
      cursor := next;
      OneKeyMore(mid, next.bin, next);
      IsExtended(before, n, next, {Bin(0, n)});
    }

    /** CreateNext after a left leaf: its sibling, below their parent, which is made if there is none. */
    method NextSibling() returns (next: Node<H>)
      requires Valid() && sizec < P(61) && cursor != null && cursor.bin.IsLeft()
      modifies this`at, this`root, this`cursor, at.Values`left, at.Values`right, at.Values`parent
      ensures fresh(next) && Extended(old(at), sizec, next)
      ensures forall b :: b in at && b !in old(at) ==> fresh(at[b])
    {
      hide Fills, Filled, Lives, P, Aligned, Floor, Tree, Smallest, LiveHashTree.LinkedAt, LiveHashTree.Core, LiveHashTree.HashesBut, LiveHashTree.Hashes, LiveHashTree.Extended, LiveHashTree.Exact, Bin.Ok, Bin.Has, Bin.IsLeft;
      ghost var b := Bin(0, sizec - 1);
      NodeFacts(b);
      NextIsNew();
      SiblingCase(sizec, root.bin, at.Keys);
      var par := cursor.parent;
      if par != null {
        ParentIn(b);
        next := NextBeside(par);
        return;
      }
      assert root in at.Values;
      next := SecondLeaf();
    }

    /** The sibling of a left leaf that has a parent. */
    method NextBeside(par: Node<H>) returns (next: Node<H>)
      requires Core() && Hashes() && root != null && sizec > 0 && Bin(0, sizec - 1) in at && at[Bin(0, sizec - 1)].parent == par
      requires Bin(0, sizec - 1).Parent() == Bin(1, sizec - 1) && Bin(1, sizec - 1).Right() == Bin(0, sizec) && Bin(0, sizec) !in at
      requires root.bin.layer > 0 ==> Smallest(root.bin, sizec + 1) && Fills(at.Keys, {Bin(0, sizec)}, sizec, root.bin)
      modifies this`at, this`cursor, par`left, par`right
      ensures fresh(next) && Extended(old(at), sizec, next) && par in old(at).Values
      ensures forall b :: b in at && b !in old(at) ==> fresh(at[b])
    {
      hide Fills, Filled, P, Aligned, Floor, Tree, Smallest, LiveHashTree.LinkedAt, LiveHashTree.Core, LiveHashTree.HashesBut, LiveHashTree.Hashes, LiveHashTree.Extended, Bin.Ok, Bin.Has, Bin.Parent, Bin.Right;
      Beside(par);
      next := HangSibling(par, at, sizec);
    }

    lemma Beside(par: Node<H>)
      requires Core() && root != null && sizec > 0 && Bin(0, sizec - 1) in at && at[Bin(0, sizec - 1)].parent == par
      requires Bin(0, sizec - 1).Parent() == Bin(1, sizec - 1)
      ensures par.bin == Bin(1, sizec - 1) && par.bin in at && at[par.bin] == par && par in at.Values
      ensures root.bin.layer > 0 && root.bin.Ok() && at.Keys == at.Keys + {root.bin}
    {
      hide P, Aligned, Floor, LiveHashTree.LinkedAt, LiveHashTree.Core, Bin.Ok, Bin.Has;
      NodeFacts(Bin(0, sizec - 1));
      NodeFacts(Bin(1, sizec - 1));
      SameKeys(at, root.bin);
      assert par in at.Values;
    }

    lemma ParentIn(b: Bin)
      requires Core() && b in at
      ensures at[b].parent != null ==> at[b].parent in at.Values
    {
      hide P, Aligned, Floor;
      assert LinkedAt(b);
    }

    /** The second leaf of a tree: a new root above both. */
    method SecondLeaf() returns (next: Node<H>)
      requires Core() && Hashes() && root != null && root.bin == Bin(0, 0) && Bin(0, 1) !in at && Bin(1, 0) !in at
      requires Fills(at.Keys, {Bin(0, 1)}, 1, Bin(1, 0))
      modifies this`at, this`root, this`cursor, root`parent
      ensures fresh(next) && Extended(old(at), 1, next)
      ensures forall b :: b in at && b !in old(at) ==> fresh(at[b])
    {
      hide Fills, Filled, P, Aligned, Floor, Tree, Smallest, LiveHashTree.LinkedAt, LiveHashTree.Core, LiveHashTree.HashesBut, LiveHashTree.Hashes, LiveHashTree.Extended, Bin.Ok, Bin.Has;
      FirstPair();
      FirstRoot();
      assert forall b :: b in at && b !in old(at) ==> b == root.bin;
      next := HangSibling(root, old(at), 1);
    }

    /** Nothing over only the next chunk has a node yet; bins over it and older chunks do. */
    lemma NextIsNew()
      requires Valid() && root != null
      ensures Bin(0, sizec) !in at
      ensures forall b: Bin :: b.Ok() && b.Has(sizec) && b.base < sizec && b.layer <= root.bin.layer ==> b in at
      ensures forall b :: b in at ==> b.base < sizec && b.layer <= root.bin.layer
    {
      AllAbove();
      NotYet();
    }

    /** Where the climb of CreateNext stands: a node that ends with the last chunk, not the root. */
    ghost predicate Climbing(b: Bin)
      reads this`at, this`root, this`sizec
    {
      b in at && b.Ok() && b.End() == sizec && root != null && b != root.bin && (b.layer == 0 ==> !b.IsLeft())
    }

    /** The climb of CreateNext after a right leaf: the node whose right half starts with the next chunk, made if there is none. */
    method ClimbToGap() returns (iter: Node<H>)
      requires Valid() && sizec < P(61) && cursor != null && !cursor.bin.IsLeft()
      modifies this`at, this`root, at.Values`parent
      ensures Core() && Hashes() && iter.bin in at && at[iter.bin] == iter && iter.bin.layer >= 2 && iter.bin.Right().base == sizec
      ensures iter.bin.Right() !in at && iter.bin.Ok() && (iter in old(at).Values || fresh(iter))
      ensures root != null && root.bin.Ok() && Smallest(root.bin, sizec + 1) && root.bin.base == 0
      ensures root.bin == (if old(root.bin).End() == sizec then Bin(old(root.bin.layer) + 1, 0) else old(root.bin))
      ensures at.Keys == old(at.Keys) + {root.bin} && forall b :: b in old(at) ==> at[b] == old(at[b])
      ensures root == old(root) || fresh(root)
      ensures forall b :: b in at && b !in old(at) ==> fresh(at[b])
    {
      hide Lives, P, Aligned, Floor, Tree, Smallest, LiveHashTree.LinkedAt, LiveHashTree.Core, LiveHashTree.HashesBut, LiveHashTree.Hashes, LiveHashTree.Exact, Bin.Ok, Bin.IsLeft;
      NodeFacts(Bin(0, sizec - 1));
      NotYet();
      LastLeaf(sizec, root.bin);
      iter := cursor;
      while true
        invariant Core() && Hashes() && at == old(at) && root == old(root)
        invariant Climbing(iter.bin) && at[iter.bin] == iter
        invariant forall b :: b in at ==> b.base < sizec
        invariant Smallest(root.bin, sizec)
        decreases root.bin.layer - iter.bin.layer
      {
        StepUp(iter.bin);
        if iter.bin.IsLeft() {
          StepLeft(iter.bin);
        } else {
          StepRight(iter.bin);
        }
        iter := iter.parent;
        if iter == root {
          iter := NewTop();
          return;
        }
        if iter.right == null {
          assert iter in at.Values;
          SameKeys(at, root.bin);
          break;
        }
      }
    }

    /** The climb reached a full root: a new one above it has the gap. */
    method NewTop() returns (iter: Node<H>)
      requires Core() && Hashes() && root != null && root.bin.End() == sizec && 1 <= root.bin.layer < 62
      requires Smallest(Bin(root.bin.layer + 1, 0), sizec + 1) && forall b :: b in at ==> b.base < sizec
      modifies this`at, this`root, root`parent
      ensures Core() && Hashes() && iter.bin in at && at[iter.bin] == iter && iter.bin.layer >= 2 && iter.bin.Right().base == sizec
      ensures iter.bin.Right() !in at && iter.bin.Ok() && fresh(iter) && iter.right == null
      ensures root == iter && root.bin == Bin(old(root.bin.layer) + 1, 0)
      ensures at.Keys == old(at.Keys) + {root.bin} && forall b :: b in old(at) ==> at[b] == old(at[b])
    {
      hide P, Aligned, Floor, Tree, Smallest, LiveHashTree.LinkedAt, LiveHashTree.HashesBut, LiveHashTree.Hashes, Bin.Ok;
      ghost var was, r := at, root.bin;
      NodeFacts(r);
      RootAbove(r);
      GrowRoot();
      NodeFacts(root.bin);
      OneKeyMore(was, root.bin, root);
      iter := root;
    }

    /** The step up from a node that ends with the last chunk leads to its parent. */
    lemma StepUp(b: Bin)
      requires Core() && b in at && b != root.bin && root != null
      ensures b.Parent() in at && at[b].parent == at[b.Parent()] && at[b.Parent()].bin == b.Parent() && b.Parent().Ok()
      ensures at[b.Parent()] == root <==> b.Parent() == root.bin
      ensures Within(b.Parent(), root.bin) && b.layer + 1 <= root.bin.layer
    {
      hide P, Aligned, Floor, Smallest, Bin.Ok, LiveHashTree.Core;
      NodeFacts(b);
      NodeFacts(b.Parent());
      InRoot(b.Parent());
    }

    /** From a left half: the gap. */
    lemma StepLeft(b: Bin)
      requires Core() && Climbing(b) && b.IsLeft() && sizec < P(61) && Smallest(root.bin, sizec) && forall c :: c in at ==> c.base < sizec
      ensures var p := b.Parent(); p in at && at[p].right == null && p.layer >= 2 && p != root.bin && p.Right().base == sizec && p.Right() !in at
      ensures Smallest(root.bin, sizec + 1) && root.bin.End() > sizec
    {
      hide P, Aligned, Floor, Smallest, Bin.Ok, Bin.IsLeft, LiveHashTree.Core;
      StepUp(b);
      GapStep(b, root.bin, sizec);
      NodeFacts(b.Parent());
    }

    /** From a right half: one more step, or a full root. */
    lemma StepRight(b: Bin)
      requires Core() && Climbing(b) && !b.IsLeft() && sizec < P(61) && Smallest(root.bin, sizec)
      ensures var p := b.Parent(); p in at && at[p].right != null && p.layer >= 1 && p.End() == sizec && (p != root.bin ==> Climbing(p))
      ensures b.Parent() == root.bin ==> Smallest(Bin(root.bin.layer + 1, 0), sizec + 1) && root.bin.layer < 62
    {
      hide P, Aligned, Floor, Smallest, Bin.Ok, Bin.IsLeft, LiveHashTree.Core;
      StepUp(b);
      GapStep(b, root.bin, sizec);
      NodeFacts(b.Parent());
    }

    /** CreateNext after a right leaf: a new right half in the gap, and left halves down to its first leaf. */
    method NextTree() returns (next: Node<H>)
      requires Valid() && sizec < P(61) && cursor != null && !cursor.bin.IsLeft()
      modifies this`at, this`root, this`cursor, at.Values`left, at.Values`right, at.Values`parent
      ensures fresh(next) && Extended(old(at), sizec, next)
      ensures forall b :: b in at && b !in old(at) ==> fresh(at[b])
    {
      hide Fills, Filled, Lives, P, Aligned, Floor, Tree, Smallest, LiveHashTree.LinkedAt, LiveHashTree.Core, LiveHashTree.HashesBut, LiveHashTree.Hashes, LiveHashTree.Extended, LiveHashTree.Exact, Bin.Ok, Bin.Has, Bin.IsLeft;
      NextIsNew();
      ghost var was := root.bin;
      var top := ClimbToGap();
      GapRoot(was, root.bin, sizec);
      SpineKeys(old(at).Keys, sizec, was, root.bin, top.bin);
      next := Descend(top, old(at), sizec);
    }

    /** The new right half and the left halves below it. */
    method Descend(top: Node<H>, ghost before: map<Bin, Node<H>>, ghost n: nat) returns (next: Node<H>)
      requires Core() && Hashes() && root != null && top.bin in at && at[top.bin] == top && top.bin.layer >= 2 && top.bin.Right().base == n
      requires top.bin.Right() !in at && top.bin.Ok() && forall b :: b in at ==> b.base < n
      requires Smallest(root.bin, n + 1) && at.Keys == before.Keys + {root.bin} && Fills(before.Keys, Spine(n, 0, top.bin.layer - 1), n, root.bin)
      requires forall b :: b in before ==> b in at && at[b] == before[b]
      modifies this`at, this`cursor, top`left, top`right
      ensures fresh(next) && Extended(before, n, next)
      ensures forall b :: b in old(at) ==> b in at && at[b] == old(at[b])
      ensures forall b :: b in at && b !in old(at) ==> fresh(at[b])
    {
      hide Fills, Filled, P, Aligned, Floor, Tree, Smallest, LiveHashTree.LinkedAt, LiveHashTree.Core, LiveHashTree.HashesBut, LiveHashTree.Hashes, LiveHashTree.Extended, Bin.Ok, Bin.Has;
      ghost var mid := at;
      var newright := AddChild(top, false);
      var depth := top.bin.layer - 1;
      SpineMore(n, depth, depth);
      var iter := newright;
      next := newright;
      var i := 0;
      while i < depth
        invariant 0 <= i <= depth && fresh(iter) && Core() && HashesBut(iter.bin) && (i < depth ==> Hashes())
        invariant iter.bin == Bin(depth - i, n) && iter.bin in at && at[iter.bin] == iter && iter.bin.Ok()
        invariant i == depth ==> next == iter
        invariant at.Keys == mid.Keys + Spine(n, depth - i, depth) && forall b :: b in mid ==> at[b] == mid[b]
        invariant forall b :: b in at && b !in mid ==> fresh(at[b])
      {
        SpineMore(n, depth - i - 1, depth);
        var newleft := AddChild(iter, true);
        iter := newleft;
        next := newleft;
        i := i + 1;
      }
      cursor := next;
      IsExtended(before, n, next, Spine(n, 0, depth));
    }

    /** CreateNext: the leaf after the last one, with the nodes above it. */
    method CreateNext() returns (next: Node<H>)
      requires Valid() && sizec < P(61)
      modifies this`at, this`root, this`cursor, at.Values`left, at.Values`right, at.Values`parent
      ensures fresh(next) && Extended(old(at), sizec, next)
      ensures forall b :: b in at && b !in old(at) ==> fresh(at[b])
    {
      hide Lives, P, Aligned, Floor, Tree, Smallest, LiveHashTree.LinkedAt, LiveHashTree.HashesBut, LiveHashTree.Extended, Bin.Has, Bin.IsLeft;
      CursorIn();
      if cursor == null {
        next := FirstNode();
      } else if cursor.bin.IsLeft() {
        next := NextSibling();
      } else {
        next := NextTree();
      }
    }

    /** The first leaf is the root. */
    method FirstNode() returns (next: Node<H>)
      requires at == map[] && root == null && cursor == null
      modifies this`at, this`root, this`cursor
      ensures fresh(next) && Extended(old(at), 0, next)
      ensures forall b :: b in at && b !in old(at) ==> fresh(at[b])
    {
      hide P, Aligned, Floor, Tree;
      FirstLeaf();
      next := new Node(Bin(0, 0), k.zero);
      root := next;
      cursor := next;
      at := map[Bin(0, 0) := next];
      assert LinkedAt(Bin(0, 0));
      forall b: Bin ensures b in at <==> b in old(at) || (b.Ok() && b.Has(0) && b.layer <= root.bin.layer) {
        if b.layer == 0 {
          LeafOver(b, 0);
        }
      }
    }

    /** Gives a new leaf its hash. */
    method SetLeaf(next: Node<H>, n: nat)
      requires Core() && HashesBut(next.bin) && next.bin == Bin(0, n) && next.bin in at && at[next.bin] == next
      modifies next`hash, next`verified
      ensures Hashes() && next.hash == k.leaf(n)
    {
      hide P, Aligned, Floor, Bin.Ok;
      assert forall b :: b in at && b != next.bin ==> at[b] != next;
      next.hash := k.leaf(n);
      next.verified := true;
      forall b | b in at ensures HashOk(at[b]) {
        if b != next.bin {
          assert old(HashOk(at[b]));
        }
      }
    }

    /** AddData: the next chunk's leaf is there, with its hash; no node is lost. */
    method AddData()
      requires Valid() && sizec < P(61)
      modifies this`at, this`root, this`cursor, this`sizec, at.Values`left, at.Values`right, at.Values`parent
      ensures Valid() && sizec == old(sizec) + 1 && pruned == old(pruned)
      ensures forall b :: b in old(at) ==> b in at && at[b] == old(at[b])
      ensures cursor != null && cursor.bin == Bin(0, old(sizec)) && cursor.hash == k.leaf(old(sizec))
      ensures forall b :: b in at && b !in old(at) ==> fresh(at[b])
    {
      hide P, Aligned, Floor, Tree, Smallest, LiveHashTree.LinkedAt, LiveHashTree.Core, LiveHashTree.HashesBut, LiveHashTree.Hashes, Bin.Ok, Bin.Has, Lives;
      ghost var n, was, r := sizec, at, if root == null then Bin(0, 0) else root.bin;
      if root != null {
        RootIn();
      }
      assert forall b: Bin :: b in was <==> n > 0 && Lives(b, r.layer, n, pruned);
      SmallStep();
      var next := CreateNext();
      SetLeaf(next, sizec);
      sizec := sizec + 1;
      RootIn();
      if n > 0 {
        NodeFacts(r);
      }
      forall b: Bin ensures b in at <==> Present(b) {
        LivesNext(b, r, root.bin, n, pruned);
      }
    }

    /** Takes the nodes under a bin out of the tree. */
    method Unhang(n: Node<H>, par: Node<H>, ghost pos: Bin)
      requires Core() && pos in at && at[pos] == n && n.parent == par && n != root
      modifies this`at, par`left, par`right
      ensures Core() && par in old(at).Values
      ensures at == map b | b in old(at) && !Within(b, pos) :: old(at)[b]
    {
      hide P, Aligned, Floor, Bin.Ok, Within, Bin.Parent;
      ghost var was, p := at, pos.Parent();
      UnhangFacts(n, par, pos);
      if par.left == n {
        par.left := null;
      } else {
        par.right := null;
      }
      at := map b | b in was && !Within(b, pos) :: was[b];
      forall b {:trigger LinkedAt(b)} | b in at ensures LinkedAt(b) {
        assert old(LinkedAt(b));
        assert b != p ==> at[b] != par;
        StillThere(b, pos, p);
        assert was[b] != root ==> b.layer < 63;
      }
      assert root.bin in at;
    }

    lemma UnhangFacts(n: Node<H>, par: Node<H>, pos: Bin)
      requires Core() && pos in at && at[pos] == n && n.parent == par && n != root
      ensures pos.Ok() && pos.layer < 63 && pos.Parent().Ok() && pos.Parent() in at && at[pos.Parent()] == par && par.bin == pos.Parent()
      ensures par in at.Values && Within(pos, pos) && root != null && root.bin in at && !Within(root.bin, pos)
      ensures pos.Parent().layer > 0 && LinkedAt(pos.Parent()) && (pos == pos.Parent().Left() || pos == pos.Parent().Right()) && pos.Parent().Left() != pos.Parent().Right()
      ensures forall b :: b in at && at[b] != root ==> b.layer < 63
    {
      hide P, Aligned, Floor, Bin.Ok;
      LinkOf(pos);
      NodeFacts(pos);
      NodeFacts(pos.Parent());
      assert par in at.Values;
      PosHalf(pos);
      RootOutside(pos);
      Shallow();
      ParentHalf(pos);
      SiblingTwice(pos.Parent());
    }

    lemma Shallow()
      requires Core()
      ensures forall b :: b in at && at[b] != root ==> b.layer < 63
      ensures forall b :: b in at && at[b] == root ==> b == root.bin
    {
      hide P, Aligned, Floor;
      forall b | b in at && at[b] != root ensures b.layer < 63 {
        InRoot(b);
        NodeFacts(b);
        AllContains(b);
        assert LinkedAt(b);
      }
    }

    /** The root does not lie under another node. */
    lemma RootOutside(pos: Bin)
      requires Core() && pos in at && at[pos] != root
      ensures root != null && !Within(root.bin, pos) && pos != root.bin && pos.layer < 63
    {
      hide P, Aligned, Floor;
      InRoot(pos);
      NodeFacts(pos);
      if Within(root.bin, pos) {
        AboveRoot(root.bin, pos);
      }
    }

    /** PruneTree, for a subtree that ends before the last chunk: its nodes are gone, the others stay. */
    method PruneTree(pos: Bin)
      requires Valid() && pos.Ok() && pos.End() < sizec
      modifies this`at, this`pruned, at.Values`left, at.Values`right
      ensures Valid() && pruned == old(pruned) + {pos} && sizec == old(sizec)
      ensures forall b :: b in at <==> b in old(at) && !Within(b, pos)
      ensures forall b :: b in at ==> at[b] == old(at[b])
    {
      hide P, Aligned, Floor, Tree, Smallest, LiveHashTree.LinkedAt, LiveHashTree.Core, LiveHashTree.HashesBut, Bin.Ok, Lives;
      ghost var was := at;
      CursorIn();
      RootIn();
      var n := FindNode(pos);
      PruneFacts(pos);
      if n != null {
        var par := n.parent;
        assert par in at.Values;
        Unhang(n, par, pos);
      }
      forall b: Bin ensures b in at <==> b in was && !Within(b, pos) {
      }
      pruned := pruned + {pos};
      RootIn();
      forall b: Bin ensures b in at <==> Present(b) {
        LivesPruned(b, root.bin.layer, sizec, old(pruned), pos);
      }
    }

    /** A subtree before the last chunk is not the root; without a node nothing lies under it. */
    lemma PruneFacts(pos: Bin)
      requires Valid() && pos.Ok() && pos.End() < sizec
      ensures pos in at ==> at[pos] != root && at[pos].parent != null && at[pos].parent in at.Values
      ensures pos !in at ==> forall b :: b in at ==> !Within(b, pos)
      ensures !Within(Bin(0, sizec - 1), pos)
    {
      hide P, Aligned, Floor, Tree;
      CursorIn();
      RootIn();
      if pos in at {
        NodeFacts(pos);
        BeforeEnd(pos, root.bin, sizec);
        ParentIn(pos);
      } else {
        LayerBelow(pos, root.bin, sizec);
        assert !Lives(pos, root.bin.layer, sizec, pruned);
        forall b | b in at ensures !Within(b, pos) {
          assert Lives(b, root.bin.layer, sizec, pruned);
        }
      }
    }

    /** Everything under a bin has a node. */
    ghost predicate Full(b: Bin)
      reads this`at
    {
      forall c: Bin :: c.Ok() && Within(c, b) ==> c in at
    }

    /** ComputeTree: the Merkle hash of a full subtree, children first. */
    method ComputeTree(start: Node<H>)
      requires Core() && Hashes() && start.bin in at && at[start.bin] == start && Full(start.bin)
      modifies at.Values`hash, at.Values`verified
      ensures Hashes() && start.verified && start.hash == Tree(start.bin, k)
      ensures forall b :: b in at && old(at[b].verified) ==> at[b].verified
      decreases start.bin.layer
    {
      hide P, Aligned, Floor, LiveHashTree.LinkedAt, LiveHashTree.Core, Bin.Ok;
      NodeFacts(start.bin);
      if !start.verified {
        FullHalves(start.bin);
        NodeFacts(start.bin.Left());
        NodeFacts(start.bin.Right());
        ComputeTree(start.left);
        ComputeTree(start.right);
        Compute(start);
      }
    }

    lemma FullHalves(b: Bin)
      requires Core() && Hashes() && b in at && !at[b].verified && Full(b)
      ensures b.layer > 0 && b.Left() in at && b.Right() in at && Full(b.Left()) && Full(b.Right())
    {
      hide P, Aligned, Floor, LiveHashTree.LinkedAt;
      assert HashOk(at[b]);
      HalvesOk(b);
    }

    /** A node whose halves have their hashes gets its own. */
    method Compute(n: Node<H>)
      requires Core() && Hashes() && n.bin in at && at[n.bin] == n && n.bin.layer > 0 && n.left != null && n.right != null
      requires n.left.hash == Tree(n.bin.Left(), k) && n.right.hash == Tree(n.bin.Right(), k)
      modifies n`hash, n`verified
      ensures Hashes() && n.verified && n.hash == Tree(n.bin, k)
    {
      hide P, Aligned, Floor, Bin.Ok;
      assert forall b :: b in at && b != n.bin ==> at[b] != n;
      n.hash := k.node(n.left.hash, n.right.hash);
      n.verified := true;
      forall b | b in at ensures HashOk(at[b]) {
        if b != n.bin {
          assert old(HashOk(at[b]));
        }
      }
    }

    /** GetClientLastMunro: down the right side of the last peak to the layer of the signatures. */
    method LastMunro(layer: nat) returns (munro: Bin)
      requires 0 < sizec < P(62) && Whole(sizec, layer)
      ensures munro.layer == layer && munro.Ok() && munro.End() == sizec
    {
      hide P, Aligned, Floor, Whole, PeaksOf;
      PowerMonotone(62, 63);
      SmallStep();
      var list := new Bin[64](_ => NONE);
      var count := GenPeaks(sizec, list);
      LastPeakOf(list[..count], sizec, layer);
      munro := list[count - 1];
      while munro.layer > layer
        invariant munro.Ok() && munro.layer >= layer && munro.End() == sizec
        decreases munro.layer
      {
        HalvesOk(munro);
        munro := munro.Right();
      }
    }

    /** AddSignedMunro: the hash to sign is the Merkle root of the last chunks, if none of them was pruned. */
    method AddSignedMunro(layer: nat) returns (munro: Bin, hash: H)
      requires Valid() && sizec > 0 && Whole(sizec, layer)
      requires forall p :: p in pruned ==> p.End() + P(layer) <= sizec
      modifies at.Values`hash, at.Values`verified
      ensures Valid() && munro.layer == layer && munro.End() == sizec && hash == Tree(munro, k)
    {
      hide P, Aligned, Floor, Tree, Smallest, LiveHashTree.LinkedAt, LiveHashTree.Core, LiveHashTree.HashesBut, LiveHashTree.Hashes, LiveHashTree.Exact, LiveHashTree.Full, Bin.Ok, Whole;
      munro := LastMunro(layer);
      CursorIn();
      RootIn();
      MunroFull(munro);
      var n := FindNode(munro);
      NodeFacts(munro);
      ComputeTree(n);
      hash := n.hash;
    }

    lemma MunroFull(munro: Bin)
      requires Valid() && sizec > 0 && munro.Ok() && munro.End() == sizec && forall p :: p in pruned ==> p.End() <= munro.base
      ensures munro in at && Full(munro)
    {
      hide P, Aligned, Floor, Tree, LiveHashTree.LinkedAt;
      RootIn();
      forall c: Bin | c.Ok() && Within(c, munro) ensures c in at {
        LivesIn(c, munro, root.bin, sizec, pruned);
        assert Present(c);
      }
      assert Within(munro, munro);
    }

    lemma RootIn()
      requires Core() && root != null
      ensures root.bin in at && at[root.bin] == root && root.bin.Ok()
    {
    }

    lemma CursorIn()
      requires Valid()
      ensures cursor == null <==> sizec == 0
      ensures sizec == 0 ==> root == null && at == map[]
      ensures sizec > 0 ==> cursor.bin == Bin(0, sizec - 1)
    {
      hide P, Aligned, Floor, Tree;
      if sizec > 0 {
        LeafLives(sizec, root.bin, pruned);
      }
    }

    /** What a node's place in the tree tells. */
    lemma NodeFacts(b: Bin)
      requires Core() && b in at
      ensures root != null && root.bin in at && at[root.bin] == root && root.bin.Ok() && root.bin.base == 0
      ensures at[b].bin == b && b.Ok() && b.layer <= root.bin.layer
      ensures at[b].left == (if b.layer > 0 then NodeOf(b.Left()) else null)
      ensures at[b].right == (if b.layer > 0 then NodeOf(b.Right()) else null)
      ensures if at[b] == root then b == root.bin && at[b].parent == null
        else b.Parent() in at && at[b].parent == at[b.Parent()] && b != root.bin
    {
      hide P, Aligned, Floor, Bin.Ok;
      LinkOf(b);
    }

    lemma AllAbove()
      requires Valid() && root != null
      ensures forall b: Bin :: b.Ok() && b.Has(sizec) && b.base < sizec && b.layer <= root.bin.layer ==> b in at
    {
      hide P, Aligned, Floor;
      forall b: Bin | b.Ok() && b.Has(sizec) && b.base < sizec && b.layer <= root.bin.layer ensures b in at {
        OldAbove(b);
      }
    }

    lemma NotYet()
      requires Exact()
      ensures forall b :: b in at ==> b.base < sizec
    {
    }
  }

  /** A bin strictly inside another has its parent inside it too. */
  lemma UpOk(b: Bin, c: Bin)
    requires b.Ok() && c.Ok() && b.layer < 64 && (Within(b.Parent(), c) || (Within(b, c) && b != c))
    requires b.Parent().Ok() || (Within(b, c) && b != c)
    ensures b.layer < 63 && b.Parent().Ok() && Within(b, b.Parent()) && Within(b.Parent(), c) && Within(b, c)
    ensures b.layer < c.layer
  {
    hide P, Aligned, Floor;
    if Within(b, c) && b != c {
      Strictly(b, c);
      PathStep(b, c, b.layer);
      AncestorAt(b, c, b.layer);
      ParentOk(b);
    } else {
      ParentOk(b);
      NoHigherThan(b.Parent(), c);
    }
  }

  lemma NoHigherThan(b: Bin, c: Bin)
    requires b.Ok() && c.Ok() && Within(b, c)
    ensures b.layer <= c.layer
  {
    hide P, Aligned, Floor;
    if b != c {
      Strictly(b, c);
    }
  }

  lemma AboveRoot(b: Bin, c: Bin)
    requires b.Ok() && c.Ok() && Within(b, c) && Within(c, b)
    ensures b == c
  {
    hide P, Aligned, Floor;
    if b != c {
      Strictly(b, c);
      Strictly(c, b);
      assert false;
    }
  }

  lemma ParentHalf(b: Bin)
    requires b.Ok() && b.layer < 63
    ensures b == b.Parent().Left() || b == b.Parent().Right()
    ensures b.V() < b.Parent().V() ==> b == b.Parent().Left()
    ensures b.V() > b.Parent().V() ==> b == b.Parent().Right()
  {
    hide Aligned, Floor;
    ParentOk(b);
  }

  lemma SameSide(b: Bin, p: Bin, c: Bin)
    requires b.Ok() && p.Ok() && c.Ok() && Within(b, p) && Within(p, c) && p != c && b != c && c.layer > 0
    ensures b.V() < c.V() <==> p.V() < c.V()
    ensures b.V() != c.V() && p.V() != c.V()
  {
    hide P, Aligned, Floor, Bin.V;
    Direction(c, p);
    Direction(c, b);
    HalvesOk(c);
    if p.V() < c.V() {
      assert b.Has(b.base);
      InLeft(b, p, c);
    } else {
      InRight(b, p, c);
    }
  }

  lemma InLeft(b: Bin, p: Bin, c: Bin)
    requires Within(b, p) && c.layer > 0 && Within(p, c.Left())
    ensures b.base < c.base + P(c.layer - 1)
  {
  }

  lemma InRight(b: Bin, p: Bin, c: Bin)
    requires Within(b, p) && c.layer > 0 && Within(p, c.Right())
    ensures b.base >= c.base + P(c.layer - 1)
  {
  }

  /** The new bins and the root make up all bins over chunk n that had no node. */
  ghost predicate Filled(keys: set<Bin>, more: set<Bin>, n: nat, root: Bin, b: Bin) {
    b in keys || b in more || b == root <==> b in keys || (b.Ok() && b.Has(n) && b.layer <= root.layer)
  }

  ghost predicate Fills(keys: set<Bin>, more: set<Bin>, n: nat, root: Bin) {
    forall b: Bin :: Filled(keys, more, n, root, b)
  }

  /** The first bins at chunk n from layer lo up to layer hi. */
  ghost function Spine(n: nat, lo: int, hi: int): set<Bin> {
    set l: nat | lo <= l <= hi :: Bin(l, n)
  }

  lemma SpineMore(n: nat, lo: nat, hi: nat)
    requires lo <= hi
    ensures Spine(n, lo, hi) == Spine(n, lo + 1, hi) + {Bin(lo, n)} && Bin(lo, n) !in Spine(n, lo + 1, hi)
    ensures Spine(n, hi, hi) == {Bin(hi, n)}
  {
  }

  /** The bins over chunk n after the right half of a bin is filled in down to its first leaf. */
  lemma SpineKeys(keys: set<Bin>, n: nat, was: Bin, root: Bin, top: Bin)
    requires root.Ok() && root.Has(n) && root.layer >= top.layer && was.layer <= root.layer && (root == was || root.layer == was.layer + 1)
    requires top.Ok() && top.layer >= 2 && top.Right().base == n && (top in keys || top == root)
    requires forall b: Bin :: b.Ok() && b.Has(n) && b.base < n && b.layer <= was.layer ==> b in keys
    ensures Fills(keys, Spine(n, 0, top.layer - 1), n, root)
  {
    hide P, Aligned, Floor, Bin.Ok;
    var h := top.layer - 1;
    forall b: Bin ensures Filled(keys, Spine(n, 0, h), n, root, b) {
      if b in Spine(n, 0, h) {
        SpineOk(top, n, b.layer);
      }
      if b.Ok() && b.Has(n) && b.layer <= root.layer {
        if b.layer <= h {
          SpineOk(top, n, b.layer);
          SameOver(b, Bin(b.layer, n), n);
          assert b in Spine(n, 0, h);
        } else {
          OverTop(b, top, n);
          if b.layer > was.layer {
            SameOver(b, root, n);
          }
        }
      }
    }
  }

  lemma SpineOk(top: Bin, n: nat, l: nat)
    requires top.Ok() && top.layer > 0 && top.Right().base == n && l < top.layer
    ensures Bin(l, n).Ok() && Bin(l, n).Has(n)
  {
    hide P, Aligned, Floor;
    HalvesOk(top);
    AlignedBelow(n, l, top.layer - 1);
    PowerMonotone(l, top.layer - 1);
    Positive(l);
  }

  lemma OverTop(b: Bin, top: Bin, n: nat)
    requires b.Ok() && top.Ok() && top.layer > 0 && top.Right().base == n && b.Has(n) && b.layer >= top.layer
    ensures b.base < n
  {
    hide P, Aligned, Floor;
    HalvesOk(top);
    Positive(top.layer - 1);
    assert top.Has(n) && top.base < n;
    NestedOrDisjoint(b, top);
    ContainsMeaning(b, top);
  }

  /** The bins over chunk n after its leaf is hung beside the one before. */
  lemma SiblingCase(n: nat, r: Bin, keys: set<Bin>)
    requires 0 < n < P(61) && Bin(0, n - 1).Ok() && Bin(0, n - 1).IsLeft() && Smallest(r, n)
    requires forall b: Bin :: b.Ok() && b.Has(n) && b.base < n && b.layer <= r.layer ==> b in keys
    ensures var p := Bin(0, n - 1).Parent(); p == Bin(1, n - 1) && p.Ok() && p.Right() == Bin(0, n)
    ensures r.layer == 0 ==> n == 1 && r == Bin(0, 0)
    ensures r.layer == 0 ==> Fills(keys, {Bin(0, 1)}, 1, Bin(1, 0))
    ensures r.layer > 0 ==> Smallest(r, n + 1)
    ensures r.layer > 0 ==> Fills(keys, {Bin(0, n)}, n, r)
  {
    hide P, Aligned, Floor, Smallest, Bin.Ok, Bin.Has, Bin.IsLeft;
    SiblingLeaf(n, r);
    SiblingRoot(n, r);
    RootIsOk(if r.layer == 0 then Bin(1, 0) else r, n + 1);
    SmallLeaf(n);
    SiblingKeys(keys, n, r, if r.layer == 0 then Bin(1, 0) else r);
  }

  /** A whole number of signed subtrees. */
  ghost predicate Whole(n: nat, layer: nat) {
    n % P(layer) == 0
  }

  lemma WholeAligned(n: nat, layer: nat)
    requires Whole(n, layer)
    ensures Aligned(n, layer)
  {
    AlignedMod(n, layer);
  }

  /** A bin of the first n chunks, up to a layer, that was not pruned. */
  ghost predicate Lives(b: Bin, top: nat, n: nat, pruned: set<Bin>) {
    b.Ok() && b.layer <= top && b.base < n && forall p :: p in pruned ==> !Within(b, p)
  }

  lemma LeafLives(n: nat, r: Bin, pruned: set<Bin>)
    requires n > 0 && n < P(62) && Smallest(r, n) && forall p :: p in pruned ==> p.End() < n
    ensures Lives(Bin(0, n - 1), r.layer, n, pruned)
  {
    hide P;
    PowerMonotone(62, 63);
    SmallPowers();
  }

  /** Pruning a bin takes out exactly the bins under it. */
  lemma LivesPruned(b: Bin, top: nat, n: nat, pruned: set<Bin>, pos: Bin)
    ensures Lives(b, top, n, pruned + {pos}) <==> Lives(b, top, n, pruned) && !Within(b, pos)
  {
    hide Bin.Ok, P;
  }

  lemma BeforeEnd(pos: Bin, r: Bin, n: nat)
    requires Smallest(r, n) && pos.End() < n
    ensures pos != r && !Within(Bin(0, n - 1), pos)
  {
  }

  lemma LayerBelow(pos: Bin, r: Bin, n: nat)
    requires Smallest(r, n) && pos.Ok() && pos.End() < n
    ensures pos.layer <= r.layer && pos.base < n
    ensures !Within(Bin(0, n - 1), pos)
  {
    hide Aligned;
    if pos.layer > r.layer {
      PowerMonotone(r.layer, pos.layer);
      assert false;
    }
  }

  /** A node that is not under a pruned bin keeps its parent, and loses a half only if that is the bin. */
  lemma StillThere(b: Bin, pos: Bin, p: Bin)
    requires b.Ok() && pos.Ok() && pos.layer < 63 && p == pos.Parent() && p.Ok() && !Within(b, pos)
    ensures b.layer > 0 && b != p ==> !Within(b.Left(), pos) && !Within(b.Right(), pos)
    ensures b == p ==> b.layer > 0 && (pos == b.Left() || pos == b.Right()) && (pos != b.Left() ==> !Within(b.Left(), pos)) && (pos != b.Right() ==> !Within(b.Right(), pos))
    ensures b.layer < 63 ==> !Within(b.Parent(), pos)
  {
    hide P, Aligned, Floor;
    if b.layer < 63 {
      ParentOk(b);
    }
    ParentOk(pos);
    ParentHalf(pos);
    if b.layer > 0 {
      SiblingTwice(b);
      HalfUnder(b, b.Left(), pos);
      HalfUnder(b, b.Right(), pos);
    }
  }

  /** A half that lies under a bin which its parent does not lie under is that bin. */
  lemma HalfUnder(b: Bin, h: Bin, pos: Bin)
    requires b.Ok() && h.Ok() && pos.Ok() && h.layer < 63 && h.Parent() == b && !Within(b, pos)
    ensures Within(h, pos) ==> h == pos
  {
    hide P, Aligned, Floor;
    if Within(h, pos) && h != pos {
      Strictly(h, pos);
      PathStep(h, pos, h.layer);
      AncestorAt(h, pos, h.layer);
      assert false;
    }
  }

  lemma PosHalf(pos: Bin)
    ensures Within(pos, pos)
  {
  }

  lemma LastPeakOf(ps: seq<Bin>, n: nat, layer: nat)
    requires PeaksOf(ps, n) && n > 0 && Whole(n, layer)
    ensures ps != [] && ps[|ps| - 1].Ok() && ps[|ps| - 1].End() == n && ps[|ps| - 1].layer >= layer
  {
    hide P, Aligned, Floor, Whole;
    PeaksNone(ps, n);
    LowestPeak(ps, n);
    WholeAligned(n, layer);
    Deep(n, layer, ps[|ps| - 1].layer);
  }

  /** The last peak is at least as high as every layer its end is aligned to. */
  lemma Deep(n: nat, l: nat, m: nat)
    requires Aligned(n, l) && !Aligned(n, m + 1)
    ensures l <= m
  {
    if l > m {
      AlignedBelow(n, m + 1, l);
    }
  }

  lemma LivesIn(c: Bin, munro: Bin, r: Bin, n: nat, pruned: set<Bin>)
    requires c.Ok() && munro.Ok() && Within(c, munro) && munro.End() == n && Smallest(r, n) && forall p :: p in pruned ==> p.End() <= munro.base
    ensures Lives(c, r.layer, n, pruned)
  {
    hide Aligned;
    Positive(c.layer);
    if c.layer > r.layer {
      PowerMonotone(r.layer, c.layer);
      assert false;
    }
  }

  lemma SmallStep()
    ensures P(61) < P(62) < P(63)
  {
  }

  /** One more chunk: its leaf and the bins above it live too. */
  lemma LivesNext(b: Bin, r: Bin, s: Bin, n: nat, pruned: set<Bin>)
    requires Smallest(s, n + 1) && (n > 0 ==> Smallest(r, n) && r.layer <= s.layer) && forall p :: p in pruned ==> p.End() < n || n == 0
    requires n == 0 ==> pruned == {}
    ensures Lives(b, s.layer, n + 1, pruned) <==> (n > 0 && Lives(b, r.layer, n, pruned)) || (b.Ok() && b.Has(n) && b.layer <= s.layer)
  {
    hide Aligned;
    if n > 0 && s.layer > r.layer + 1 {
      PowerMonotone(r.layer, s.layer - 1);
      assert false;
    }
    Positive(b.layer);
  }

  lemma FirstLeaf()
    ensures Bin(0, 0).Ok() && Smallest(Bin(0, 0), 1)
  {
    hide P;
    SmallPowers();
    Positive(63);
  }

  lemma GapRoot(was: Bin, r: Bin, n: nat)
    requires Smallest(r, n + 1)
    ensures r.Has(n) && r.Ok()
  {
  }

  lemma RootIsOk(r: Bin, n: nat)
    requires Smallest(r, n)
    ensures r.Ok()
  {
  }

  lemma SmallLeaf(n: nat)
    requires n < P(61)
    ensures Bin(0, n).Ok()
  {
    hide P;
    PowerMonotone(61, 63);
    SmallPowers();
    Positive(61);
  }

  lemma {:induction false} SiblingKeys(keys: set<Bin>, n: nat, was: Bin, root: Bin)
    requires n % 2 == 1 && root.Ok() && root.Has(n) && root == (if was.layer == 0 then Bin(1, 0) else was) && Bin(0, n).Ok()
    requires forall b: Bin :: b.Ok() && b.Has(n) && b.base < n && b.layer <= was.layer ==> b in keys
    ensures Fills(keys, {Bin(0, n)}, n, root)
  {
    hide P, Aligned, Floor, Bin.Ok;
    LeafOver(Bin(0, n), n);
    forall b: Bin ensures Filled(keys, {Bin(0, n)}, n, root, b) {
      if !(b.Ok() && b.Has(n) && b.layer <= root.layer) {
      } else if b.layer == 0 {
        LeafOver(b, n);
      } else {
        LeavesTogether(b, n);
        if b.layer > was.layer {
          SameOver(b, root, n);
        }
      }
    }
  }

  lemma LeafOver(b: Bin, n: nat)
    requires b.layer == 0
    ensures b.Has(n) <==> b == Bin(0, n)
  {
  }

  /** Two bins of one layer over one chunk are one. */
  lemma SameOver(b: Bin, c: Bin, n: nat)
    requires b.Ok() && c.Ok() && b.layer == c.layer && b.Has(n) && c.Has(n)
    ensures b == c
  {
    hide P, Aligned, Floor;
    FloorUnique(n, b.base, b.layer);
    FloorUnique(n, c.base, c.layer);
  }

  /** A left leaf and its sibling. */
  lemma SiblingLeaf(n: nat, r: Bin)
    requires 0 < n < P(61) && Bin(0, n - 1).Ok() && Bin(0, n - 1).IsLeft() && Smallest(r, n)
    ensures var p := Bin(0, n - 1).Parent(); p == Bin(1, n - 1) && p.Ok() && p.Right() == Bin(0, n)
    ensures n % 2 == 1 && r.layer < 62 && (r.layer == 0 ==> n == 1 && r == Bin(0, 0))
  {
    hide Aligned, Floor;
    var b := Bin(0, n - 1);
    ParentOk(b);
    SmallPowers();
    OddLeaf(n);
    RootLow(r, n);
  }

  /** The root after one more leaf, when the last one was a left leaf. */
  lemma SiblingRoot(n: nat, r: Bin)
    requires n % 2 == 1 && Smallest(r, n) && (r.layer == 0 ==> n == 1 && r == Bin(0, 0))
    ensures var t := if r.layer == 0 then Bin(1, 0) else r; Smallest(t, n + 1) && t.Has(n)
  {
    if r.layer == 0 {
      FirstRoot();
    } else {
      EvenRoot(n, r, P(r.layer - 1));
    }
  }

  lemma FirstRoot()
    ensures Smallest(Bin(1, 0), 2) && Bin(1, 0).Has(1) && Bin(1, 0).Right() == Bin(0, 1)
  {
    hide Aligned;
    SmallPowers();
    ZeroAligned(1);
    PowerMonotone(1, 63);
  }

  lemma EvenRoot(n: nat, r: Bin, q: nat)
    requires r.layer > 0 && q == P(r.layer - 1) && Smallest(r, n) && n % 2 == 1
    ensures Smallest(r, n + 1) && r.Has(n)
  {
    hide Aligned;
    assert P(r.layer) == 2 * q;
    hide P;
    assert r.End() == 2 * q && n != 2 * q;
  }

  lemma RightOutside(b: Bin, r: Bin)
    requires r.Ok() && b.Ok() && Within(b, r)
    ensures b != Bin(r.layer + 1, r.base).Right()
  {
  }

  /** A bin other than the parent does not have it as a half. */
  lemma NotHalf(b: Bin, c: Bin, p: Bin)
    requires b.Ok() && p.Ok() && p.layer > 0 && (c == p.Left() || c == p.Right()) && b != p
    ensures b.layer > 0 ==> b.Left() != c && b.Right() != c
  {
    hide P, Aligned, Floor;
    SiblingTwice(p);
    if b.layer > 0 {
      SiblingTwice(b);
    }
  }

  lemma OneKeyMore<K, V>(m: map<K, V>, x: K, v: V)
    requires x !in m
    ensures m[x := v].Keys == m.Keys + {x} && forall b :: b in m ==> m[x := v][b] == m[b]
  {
  }

  lemma SameKeys<K, V>(m: map<K, V>, x: K)
    requires x in m
    ensures m.Keys == m.Keys + {x}
  {
  }

  /** A right last leaf is not the root. */
  lemma LastLeaf(n: nat, r: Bin)
    requires 0 < n < P(61) && Bin(0, n - 1).Ok() && !Bin(0, n - 1).IsLeft() && Smallest(r, n)
    ensures r != Bin(0, n - 1) && Bin(0, n - 1).End() == n && r.layer < 62
  {
    hide P, Aligned, Floor;
    SmallPowers();
    RootLow(r, n);
    RootAbove(r);
  }

  /** One step of the climb: past a left half there is the gap; past a right half the end is the same. */
  lemma GapStep(b: Bin, r: Bin, n: nat)
    requires b.Ok() && b.End() == n && Smallest(r, n) && n < P(61) && b.Parent().Ok() && Within(b.Parent(), r) && (b.layer == 0 ==> !b.IsLeft())
    ensures b.layer < 63 && b.Parent().layer == b.layer + 1
    ensures b.IsLeft() ==> b == b.Parent().Left() && b.Parent().Right().base == n && b.Parent().layer >= 2 && b.Parent() != r && Smallest(r, n + 1) && r.End() > n
    ensures !b.IsLeft() ==> b == b.Parent().Right() && b.Parent().End() == n && b.Parent().layer >= 1
    ensures b.Parent() == r && !b.IsLeft() ==> Smallest(Bin(r.layer + 1, 0), n + 1) && r.End() == n && Bin(r.layer + 1, 0).Right().base == n && r.layer < 62
  {
    hide P, Aligned, Floor;
    ParentOk(b);
    HalvesOk(b.Parent());
    RootLow(r, n);
    RootAbove(r);
    HalvesOk(Bin(r.layer + 1, 0));
    Positive(b.layer);
    Positive(r.layer);
  }

  lemma Positive(l: nat)
    ensures P(l) > 0
  {
  }

  lemma RootLow(r: Bin, n: nat)
    requires Smallest(r, n) && n < P(61)
    ensures r.layer < 62
  {
    hide Aligned;
    if r.layer >= 62 {
      PowerMonotone(61, r.layer - 1);
      assert false;
    }
  }

  lemma RootAbove(b: Bin)
    requires b.Ok() && b.base == 0 && b.layer < 62
    ensures var c := Bin(b.layer + 1, 0); c.Ok() && c.Left() == b && b.Parent() == c && b.IsLeft() && c.Right().base == b.End()
  {
    hide Aligned, Floor;
    ZeroAligned(b.layer + 1);
    PowerMonotone(b.layer + 1, 63);
    ParentOk(b);
  }

  lemma OddLeaf(n: nat)
    requires n > 0 && Bin(0, n - 1).IsLeft()
    ensures n % 2 == 1
  {
    assert Floor(n - 1, 1) == 2 * Floor((n - 1) / 2, 0);
  }

  /** A bin over chunk n and more than that has chunk n - 1 too if n - 1 is a left leaf. */
  lemma LeavesTogether(b: Bin, n: nat)
    requires b.Ok() && b.Has(n) && b.layer > 0 && n % 2 == 1
    ensures b.Has(n - 1) && b.base < n
  {
    AlignedBelow(b.base, 1, b.layer);
    assert b.base % 2 == 0;
  }
}
