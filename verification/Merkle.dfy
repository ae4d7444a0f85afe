/** hashtree.cpp: building the hash tree of a file, its root, and recognising a root from offered peaks. */
module Merkle {
  import opened Powers
  import opened Bins
  import opened Peaks
  import opened BinMaps

  /** The hash of nothing, the hash of each chunk, and the hash of two hashes. */
  datatype Hashing<!H> = Hashing(zero: H, leaf: nat -> H, node: (H, H) -> H)

  /** The recursive Merkle hash of the chunks of a bin. */
  function Tree<H>(b: Bin, k: Hashing<H>): H
    decreases b.layer
  {
    if b.layer == 0 then k.leaf(b.base) else k.node(Tree(b.Left(), k), Tree(b.Right(), k))
  }

  /** The hash of a bin over the first n chunks: empty subtrees hash to zero, full ones are given. */
  function Cover<H>(b: Bin, n: nat, t: Bin -> H, k: Hashing<H>): H
    decreases b.layer
  {
    if b.base >= n then k.zero
    else if b.End() <= n || b.layer == 0 then t(b)
    else k.node(Cover(b.Left(), n, t, k), Cover(b.Right(), n, t, k))
  }

  /** The bin is the smallest offset-0 bin over n chunks. */
  ghost predicate Smallest(b: Bin, n: nat) {
    b.Ok() && b.base == 0 && n <= b.End() && (b.layer > 0 ==> P(b.layer - 1) < n)
  }

  /** Bins side by side; the first may start anywhere. */
  ghost predicate Adjacent(ps: seq<Bin>) {
    (forall k :: 0 <= k < |ps| ==> ps[k].Ok()) &&
    forall k :: 0 < k < |ps| ==> ps[k - 1].End() == ps[k].base
  }

  lemma ClimbOk(p: Bin, c: Bin)
    requires p.Ok() && c.Ok() && p.base == c.End()
    ensures p.layer < 63 && p.Parent().Ok()
    ensures p.IsLeft() ==> p.Parent().base == p.base
    ensures !p.IsLeft() && c == p.Sibling() ==> p.Parent().base == c.base
  {
    hide P, Aligned, Floor;
    AllContains(p);
    ParentOk(p);
  }

  /** The climb of DeriveRoot from bin p with its hash, c peaks still to be taken in. */
  function Climb<H>(p: Bin, hash: H, c: nat, ps: seq<Bin>, hs: seq<H>, k: Hashing<H>): H
    requires c <= |ps| == |hs| && Adjacent(ps) && p.Ok() && (c > 0 ==> p.base == ps[c - 1].End())
    decreases 64 - p.layer
  {
    if c == 0 then hash
    else
      ClimbOk(p, ps[c - 1]);
      if p.IsLeft() then Climb(p.Parent(), k.node(hash, k.zero), c, ps, hs, k)
      else if ps[c - 1] != p.Sibling() then k.zero
      else Climb(p.Parent(), k.node(hs[c - 1], hash), c - 1, ps, hs, k)
  }

  /** The root that a list of peaks and their hashes stand for. */
  function RootOf<H>(ps: seq<Bin>, hs: seq<H>, k: Hashing<H>): H
    requires 0 < |ps| == |hs| && Adjacent(ps)
  {
    Climb(ps[|ps| - 1], hs[|ps| - 1], |ps| - 1, ps, hs, k)
  }

  lemma PeaksAdjacent(ps: seq<Bin>, n: nat)
    requires PeaksOf(ps, n)
    ensures Adjacent(ps)
  {
  }

  /** While the climb stays below the next peak it has the cover hash of its bin; it ends in the smallest bin over all chunks. */
  lemma {:induction false} ClimbCovers<H>(p: Bin, hash: H, c: nat, ps: seq<Bin>, hs: seq<H>, n: nat, t: Bin -> H, k: Hashing<H>) returns (top: Bin)
    requires PeaksOf(ps, n) && c < |ps| == |hs| && Adjacent(ps) && forall j :: 0 <= j < |ps| ==> hs[j] == t(ps[j])
    requires p.Ok() && p.base < n <= p.End() && p.base == (if c > 0 then ps[c - 1].End() else 0)
    requires c > 0 ==> p.layer <= ps[c - 1].layer && (p.End() == n ==> p.layer < ps[c - 1].layer)
    requires c == 0 ==> Smallest(p, n)
    requires hash == Cover(p, n, t, k)
    ensures Smallest(top, n) && Climb(p, hash, c, ps, hs, k) == Cover(top, n, t, k)
    decreases 64 - p.layer
  {
    hide P, Aligned, Floor, Cover, Smallest, PeaksOf;
    if c == 0 {
      top := p;
    } else {
      var q := ps[c - 1];
      ClimbOk(p, q);
      if p.layer < q.layer {
        BelowPeak(p, q);
        CoverLeft(p, n, t, k);
        top := ClimbCovers(p.Parent(), k.node(hash, k.zero), c, ps, hs, n, t, k);
      } else {
        AtPeak(p, ps, n, c);
        CoverRight(p, n, t, k);
        if c == 1 {
          Grown(p, q, n);
        }
        top := ClimbCovers(p.Parent(), k.node(hs[c - 1], hash), c - 1, ps, hs, n, t, k);
      }
    }
  }

  /** Right after a bigger bin, a smaller one is a left child. */
  lemma BelowPeak(p: Bin, q: Bin)
    requires p.Ok() && q.Ok() && p.base == q.End() && p.layer < q.layer
    ensures p.IsLeft() && p.Parent().base == p.base && p.Parent().End() > p.End()
  {
    hide Floor;
    PowerAligned(q.layer, q.layer);
    AlignedSum(q.base, P(q.layer), q.layer);
    AlignedBelow(p.base, p.layer + 1, q.layer);
    FloorUnique(p.base, p.base, p.layer + 1);
  }

  /** At the layer of the next peak the climb takes that peak in: it is the left sibling. */
  lemma AtPeak(p: Bin, ps: seq<Bin>, n: nat, c: nat)
    requires PeaksOf(ps, n) && 0 < c < |ps| && p.Ok() && p.base == ps[c - 1].End() && p.layer == ps[c - 1].layer
    ensures !p.IsLeft() && p.Sibling() == ps[c - 1] && p.Parent().base == ps[c - 1].base
    ensures c > 1 ==> p.Parent().layer <= ps[c - 2].layer && ps[c - 1].base == ps[c - 2].End()
    ensures c == 1 ==> ps[0].base == 0
    ensures p.Parent().End() == p.End()
  {
    hide Floor;
    var q := ps[c - 1];
    if c > 1 {
      var r := ps[c - 2];
      PowerAligned(r.layer, r.layer);
      AlignedSum(r.base, P(r.layer), r.layer);
      AlignedBelow(q.base, q.layer + 1, r.layer);
    } else {
      ZeroAligned(q.layer + 1);
    }
    FloorUnique(p.base, q.base, q.layer + 1);
  }

  lemma CoverLeft<H>(p: Bin, n: nat, t: Bin -> H, k: Hashing<H>)
    requires p.Ok() && p.layer < 63 && p.IsLeft() && p.base < n <= p.End()
    ensures Cover(p.Parent(), n, t, k) == k.node(Cover(p, n, t, k), k.zero)
  {
    hide Aligned, Floor;
    ParentOk(p);
    assert Cover(p.Parent().Right(), n, t, k) == k.zero;
  }

  lemma CoverRight<H>(p: Bin, n: nat, t: Bin -> H, k: Hashing<H>)
    requires p.Ok() && p.layer < 63 && !p.IsLeft() && p.base < n < p.End()
    ensures Cover(p.Parent(), n, t, k) == k.node(t(p.Sibling()), Cover(p, n, t, k))
  {
    hide Aligned, Floor;
    ParentOk(p);
    HalvesOk(p.Parent());
  }

  lemma Grown(p: Bin, q: Bin, n: nat)
    requires p.Ok() && q.Ok() && q.base == 0 && p.base == q.End() && p.layer == q.layer && p.base < n <= p.End()
    requires p.Parent().Ok() && p.Parent().base == 0
    ensures Smallest(p.Parent(), n)
  {
  }

  /** The root of the peaks of n chunks is the hash of the smallest tree over them. */
  lemma RootCovers<H>(ps: seq<Bin>, hs: seq<H>, n: nat, t: Bin -> H, k: Hashing<H>) returns (top: Bin)
    requires n > 0 && PeaksOf(ps, n) && |hs| == |ps| && forall j :: 0 <= j < |ps| ==> hs[j] == t(ps[j])
    ensures ps != [] && Adjacent(ps) && Smallest(top, n) && RootOf(ps, hs, k) == Cover(top, n, t, k)
  {
    hide P, Aligned, Floor, Cover;
    PeaksNone(ps, n);
    PeaksAdjacent(ps, n);
    var c := |ps| - 1;
    LastPeak(ps, n, t, k);
    top := ClimbCovers(ps[c], hs[c], c, ps, hs, n, t, k);
  }

  lemma LastPeak<H>(ps: seq<Bin>, n: nat, t: Bin -> H, k: Hashing<H>)
    requires PeaksOf(ps, n) && ps != []
    ensures var p := ps[|ps| - 1]; p.base < n == p.End() && Cover(p, n, t, k) == t(p) && (|ps| == 1 ==> Smallest(p, n))
  {
  }

  /** The hash of the whole tree over n chunks. */
  ghost predicate IsRoot<H>(root: H, n: nat, k: Hashing<H>) {
    exists top: Bin :: Smallest(top, n) && root == Cover(top, n, b => Tree(b, k), k)
  }

  // ------------------------------------------------------------------
  // The hash tree of a file

  class FileTree<H(==)> {
    const k: Hashing<H>
    var root: H
    var peaks: seq<Bin>
    var peakHashes: seq<H>
    var chunks: nat
    var hashes: array<H>
    var ack: BinMap

    constructor (hashing: Hashing<H>, rootHash: H)
      ensures k == hashing && root == rootHash && peaks == [] && peakHashes == [] && chunks == 0
      ensures fresh(hashes) && fresh(ack) && ack.Valid() && forall i: nat :: !ack.Has(i)
    {
      k, root, peaks, peakHashes, chunks := hashing, rootHash, [], [], 0;
      hashes := new H[0](_ => hashing.zero);
      ack := new BinMap();
    }

    /** Every bin within the first n chunks has its Merkle hash in its slot. */
    ghost predicate Hashed(n: nat)
      reads this`hashes, hashes
    {
      forall b: Bin :: b.Ok() && b.End() <= n ==> b.V() < hashes.Length && hashes[b.V()] == Tree(b, k)
    }

    /** The chunk's hash is stored, then the hashes of the bins that it completes. */
    method Complete(i: nat)
      requires i < P(63) - 1 && 2 * i + 1 < hashes.Length && Hashed(i)
      modifies hashes
      ensures Hashed(i + 1)
    {
      hide P, Aligned, Floor;
      var pos := Bin(0, i);
      LeafNumber(i);
      hashes[pos.V()] := k.leaf(i);
      while !pos.IsLeft()
        invariant pos.Ok() && pos.End() == i + 1
        invariant forall b: Bin :: b.Ok() && (b.End() <= i || (b.End() == i + 1 && b.layer <= pos.layer)) ==>
          b.V() < hashes.Length && hashes[b.V()] == Tree(b, k)
        decreases 63 - pos.layer
      {
        NextUp(pos, i, hashes.Length);
        pos := pos.Parent();
        hashes[pos.V()] := k.node(hashes[pos.Left().V()], hashes[pos.Right().V()]);
      }
      NoHigher(pos, i);
    }

    /** The loop of Submit over the chunks. */
    method HashChunks(n: nat)
      requires n < P(63) - 1 && ack.Valid()
      modifies this`hashes, ack
      ensures ack.Valid() && Hashed(n) && forall i: nat :: ack.Has(i) <==> old(ack.Has(i)) || i < n
    {
      hide P, Aligned, Floor, Hashed, BinMap.Valid, BinMap.Has, Tree;
      hashes := new H[2 * n](_ => k.zero);
      NothingHashed();
      for i := 0 to n
        modifies hashes, ack
        invariant Hashed(i) && ack.Valid() && forall c: nat :: ack.Has(c) <==> old(ack.Has(c)) || c < i
      {
        Complete(i);
        LeafNumber(i);
        ack.Set(Bin(0, i));
      }
    }

    /** The peak hashes are read off the tree. */
    method CollectPeaks(n: nat)
      requires PeaksOf(peaks, n) && Hashed(n)
      modifies this`peakHashes
      ensures |peakHashes| == |peaks| && forall j :: 0 <= j < |peaks| ==> peakHashes[j] == Tree(peaks[j], k)
    {
      hide P, Aligned, Floor, Hashed, Tree;
      peakHashes := [];
      for j := 0 to |peaks|
        invariant Hashed(n) && |peakHashes| == j && forall h :: 0 <= h < j ==> peakHashes[h] == Tree(peaks[h], k)
      {
        PeakSlot(j, n);
        peakHashes := peakHashes + [hashes[peaks[j].V()]];
      }
    }

    /** Submit: hashes all chunks of a file; the tree is broken if the file is empty or its root is another one. */
    method Submit(n: nat) returns (done: bool)
      requires n < P(63) - 1 && ack.Valid()
      modifies this`peaks, this`peakHashes, this`chunks, this`hashes, this`root, ack
      ensures ack.Valid() && (n == 0 ==> !done)
      ensures n > 0 ==> PeaksOf(peaks, n) && chunks == n && Hashed(n) && forall i: nat :: ack.Has(i) <==> old(ack.Has(i)) || i < n
      ensures n > 0 ==> |peakHashes| == |peaks| && forall j :: 0 <= j < |peaks| ==> peakHashes[j] == Tree(peaks[j], k)
      ensures done ==> IsRoot(root, n, k) && (old(root) == k.zero || root == old(root))
      ensures n > 0 && !done ==> root == old(root) != k.zero && !IsRoot(root, n, k)
    {
      hide P, Aligned, Floor, Hashed, BinMap.Valid, BinMap.Has, RootOf, Cover, Tree;
      if n == 0 {
        return false;
      }
      chunks := n;
      var list := new Bin[64](_ => NONE);
      var count := GenPeaks(n, list);
      peaks := list[..count];
      HashChunks(n);
      CollectPeaks(n);
      ghost var top := RootCovers(peaks, peakHashes, n, b => Tree(b, k), k);
      var derived := DeriveRoot();
      OnlyRoot(n, top);
      if root != k.zero && derived != root {
        return false;
      }
      root := derived;
      return true;
    }

    lemma NothingHashed()
      ensures Hashed(0)
    {
      hide Aligned;
    }

    lemma PeakSlot(j: nat, n: nat)
      requires PeaksOf(peaks, n) && j < |peaks| && Hashed(n)
      ensures peaks[j].V() < hashes.Length && hashes[peaks[j].V()] == Tree(peaks[j], k)
    {
      hide P, Tree;
      PeaksBelow(peaks, n, j);
    }

    lemma OnlyRoot(n: nat, top: Bin)
      requires n > 0 && Smallest(top, n)
      ensures forall r: H :: IsRoot(r, n, k) <==> r == Cover(top, n, b => Tree(b, k), k)
    {
      hide Cover, Tree;
      forall c: Bin | Smallest(c, n) ensures c == top {
        SmallestOne(c, top, n);
      }
    }

    /** DeriveRoot. */
    method DeriveRoot() returns (hash: H)
      requires 0 < |peaks| == |peakHashes| && Adjacent(peaks)
      ensures hash == RootOf(peaks, peakHashes, k)
    {
      hide P, Aligned, Floor;
      var c := |peaks| - 1;
      var p := peaks[c];
      hash := peakHashes[c];
      while c > 0
        invariant 0 <= c < |peaks| && p.Ok() && (c > 0 ==> p.base == peaks[c - 1].End())
        invariant Climb(p, hash, c, peaks, peakHashes, k) == RootOf(peaks, peakHashes, k)
        decreases 64 - p.layer
      {
        ClimbOk(p, peaks[c - 1]);
        if p.IsLeft() {
          p := p.Parent();
          hash := k.node(hash, k.zero);
        } else {
          if peaks[c - 1] != p.Sibling() {
            return k.zero;
          }
          hash := k.node(peakHashes[c - 1], hash);
          p := p.Parent();
          c := c - 1;
        }
      }
    }

    /** Adds the lengths of the peaks to the number of chunks. */
    method AddLengths()
      modifies this`chunks
      ensures chunks == old(chunks) + Lengths(peaks)
    {
      hide P;
      NoLengths(peaks);
      for i := 0 to |peaks|
        invariant chunks == old(chunks) + Lengths(peaks[..i])
      {
        LengthsMore(peaks[..i], peaks[i]);
        assert peaks[..i + 1] == peaks[..i] + [peaks[i]];
        chunks := chunks + P(peaks[i].layer);
      }
      assert peaks[..|peaks|] == peaks;
    }

    /** OfferPeakHash on a tree of unknown size: a peak that does not continue the list starts it anew; success fixes the size. */
    method OfferPeakHash(pos: Bin, hash: H) returns (done: bool)
      requires pos.Ok() && |peaks| == |peakHashes| && Adjacent(peaks)
      modifies this`peaks, this`peakHashes, this`chunks
      ensures |peaks| == |peakHashes| && Adjacent(peaks) && peaks != []
      ensures var more := old(peaks) != [] && Continues(old(peaks), pos);
        peaks == (if more then old(peaks) + [pos] else [pos]) && peakHashes == (if more then old(peakHashes) + [hash] else [hash])
      ensures done <==> RootOf(peaks, peakHashes, k) == root
      ensures chunks == if done then old(chunks) + Lengths(peaks) else old(chunks)
    {
      hide P, Aligned, Floor, RootOf, Lengths;
      if peaks != [] {
        if !Continues(peaks, pos) {
          peaks, peakHashes := [], [];
        }
      }
      peaks := peaks + [pos];
      peakHashes := peakHashes + [hash];
      var mustbe := DeriveRoot();
      if mustbe != root {
        return false;
      }
      AddLengths();
      return true;
    }
  }

  lemma SmallestOne(b: Bin, c: Bin, n: nat)
    requires Smallest(b, n) && Smallest(c, n)
    ensures b == c
  {
    hide Aligned;
    if b.layer < c.layer {
      PowerMonotone(b.layer, c.layer - 1);
      assert false;
    }
    if c.layer < b.layer {
      PowerMonotone(c.layer, b.layer - 1);
      assert false;
    }
  }

  lemma LeafNumber(i: nat)
    requires i < P(63)
    ensures Bin(0, i).Ok() && Bin(0, i).V() == 2 * i && Bin(0, i).End() == i + 1 && Bin(0, i) != NONE
    ensures forall c: nat :: Bin(0, i).Has(c) <==> c == i
    ensures forall b: Bin :: b.Ok() && b.End() <= i ==> b.V() != 2 * i
    ensures forall b: Bin :: b.Ok() && b.End() == i + 1 && b.layer == 0 ==> b == Bin(0, i)
  {
  }

  /** The parent of a right child ends with it; its slot is used by no bin that ends before or lies lower. */
  lemma NextUp(pos: Bin, i: nat, length: nat)
    requires pos.Ok() && !pos.IsLeft() && pos.End() == i + 1 && 2 * i + 1 < length
    ensures pos.layer < 63 && pos.Parent().Ok() && pos.Parent().End() == i + 1 && pos.Parent().V() < length
    ensures pos.Parent().Left().Ok() && pos.Parent().Left().End() <= i && pos.Parent().Right() == pos
    ensures forall b: Bin :: b.Ok() && b.V() == pos.Parent().V() ==> b == pos.Parent()
    ensures forall b: Bin :: b.Ok() && b.End() == i + 1 && b.layer == pos.layer + 1 ==> b == pos.Parent()
  {
    hide Aligned, Floor, Decode;
    AllContains(pos);
    ZeroAligned(64);
    ParentOk(pos);
    HalvesOk(pos.Parent());
    forall b: Bin | b.Ok() && b.V() == pos.Parent().V() ensures b == pos.Parent() {
      DecodeBin(b);
      DecodeBin(pos.Parent());
    }
  }

  /** Nothing that ends with a left child is bigger than it. */
  lemma NoHigher(pos: Bin, i: nat)
    requires pos.Ok() && pos.IsLeft() && pos.End() == i + 1
    ensures forall b: Bin :: b.Ok() && b.End() == i + 1 ==> b.layer <= pos.layer
  {
    hide Aligned, Floor, P;
    forall b: Bin | b.Ok() && b.End() == i + 1 && b.layer > pos.layer ensures false {
      SameEnd(pos, b);
    }
  }

  lemma SameEnd(pos: Bin, b: Bin)
    requires pos.Ok() && b.Ok() && pos.End() == b.End() && b.layer > pos.layer
    ensures !pos.IsLeft()
  {
    hide Aligned, Floor;
    PowerMonotone(pos.layer, b.layer);
    ParentOk(pos);
    PowerAligned(pos.layer + 1, b.layer);
    AlignedBelow(b.base, pos.layer + 1, b.layer);
    AlignedSum(b.base, P(b.layer), pos.layer + 1);
    if pos.IsLeft() {
      AlignedStep(pos.base, pos.End(), pos.layer + 1);
      assert false;
    }
  }

  /** A bin goes on with a list of peaks: smaller than the last one, and right after it. */
  predicate Continues(ps: seq<Bin>, b: Bin)
    requires ps != []
  {
    b.layer < ps[|ps| - 1].layer && b.base == ps[|ps| - 1].End()
  }

  function Lengths(ps: seq<Bin>): nat {
    if ps == [] then 0 else Lengths(ps[..|ps| - 1]) + P(ps[|ps| - 1].layer)
  }

  lemma NoLengths(ps: seq<Bin>)
    ensures Lengths(ps[..0]) == 0
  {
  }

  lemma LengthsMore(ps: seq<Bin>, b: Bin)
    ensures Lengths(ps + [b]) == Lengths(ps) + P(b.layer)
  {
    assert (ps + [b])[..|ps|] == ps;
  }

  lemma {:induction false} PeakLengths(ps: seq<Bin>, n: nat)
    requires PeaksOf(ps, n)
    ensures Lengths(ps) == n
    decreases |ps|
  {
    hide P;
    if ps != [] {
      var m := |ps| - 1;
      PeaksBelow(ps, n, m);
      if m > 0 {
        PeakLengths(ps[..m], ps[m].base);
      } else {
        assert ps[..m] == [];
      }
    }
  }

  /** Offered in order to a fresh tree with their root, the peaks of n chunks are all kept; the last one is accepted and tells n. */
  method OfferPeaks<H(==)>(ps: seq<Bin>, hs: seq<H>, ghost n: nat, k: Hashing<H>, root: H) returns (tree: FileTree<H>, done: bool)
    requires n > 0 && PeaksOf(ps, n) && |hs| == |ps| && Adjacent(ps)
    requires ps != [] ==> RootOf(ps, hs, k) == root
    requires forall j :: 0 < j < |ps| ==> RootOf(ps[..j], hs[..j], k) != root
    ensures done && tree.peaks == ps && tree.peakHashes == hs && tree.chunks == n
  {
    hide P, Aligned, Floor, RootOf, Lengths;
    PeaksNone(ps, n);
    tree := new FileTree(k, root);
    done := false;
    for j := 0 to |ps|
      invariant fresh(tree) && tree.k == k && tree.root == root && tree.peaks == ps[..j] && tree.peakHashes == hs[..j]
      invariant Adjacent(tree.peaks)
      invariant done <==> j == |ps|
      invariant tree.chunks == if done then Lengths(ps) else 0
    {
      assert ps[..j + 1] == ps[..j] + [ps[j]] && hs[..j + 1] == hs[..j] + [hs[j]];
      assert ps[..|ps|] == ps && hs[..|hs|] == hs;
      done := tree.OfferPeakHash(ps[j], hs[j]);
    }
    assert ps[..|ps|] == ps && hs[..|hs|] == hs;
    PeakLengths(ps, n);
  }
}
