/** live.cpp: one chunk of a live source, with its hash tree: added, signed every N chunks, and pruned behind the window. */
module LiveSource {
  import opened Powers
  import opened Bins
  import opened BinMaps
  import opened Merkle
  import opened LiveTrees
  import F = Find
  import L = Live
  import O = Offer

  /** The chunk lies in a subtree that was pruned. */
  ghost predicate Gone(c: nat, pruned: set<Bin>) {
    exists p :: p in pruned && p.Has(c)
  }

  /** So do all chunks before x. */
  ghost predicate Forgotten(pruned: set<Bin>, x: int) {
    forall c: nat :: c < x ==> Gone(c, pruned)
  }

  class LiveTransfer<H(!new, ==)> {
    const k: Hashing<H>
    const tree: LiveHashTree<H>
    const source: L.Source
    const layer: nat
    const window: nat
    const keepAll: bool

    /** The end of the last whole run of 2^layer chunks before the window. */
    function Behind(last: int): int {
      (last - window) / P(layer) * P(layer)
    }

    /** What lay behind the window at the last signature has been pruned, unless everything is kept. */
    ghost predicate Valid()
      reads this, tree, tree.at.Values, source, source.own, source.signed, source.peaks
    {
      InStep() && (!keepAll ==> Forgotten(tree.pruned, Behind(source.next - source.sinceSign)))
    }

    /** Pruned subtrees ended before the window when they were pruned, at the last signature. */
    ghost predicate InStep()
      reads this, tree, tree.at.Values, source, source.own, source.signed, source.peaks
    {
      tree.Valid() && source.Valid() && source.checkpoint == NONE && tree.k == k && window > 0 && layer < 63 &&
      source.perSign == P(layer) && tree.sizec == source.next &&
      forall p :: p in tree.pruned ==> p.End() + source.sinceSign + window <= source.next
    }

    constructor (hashing: Hashing<H>, munroLayer: nat, discard: nat, keep: bool)
      requires munroLayer < 63 && discard > 0
      ensures Valid() && k == hashing && layer == munroLayer && window == discard && keepAll == keep && source.next == 0
      ensures fresh(tree) && fresh(tree.at.Values) && fresh(source) && fresh(source.own) && fresh(source.signed) && fresh(source.peaks)
    {
      k, layer, window, keepAll := hashing, munroLayer, discard, keep;
      tree := new LiveHashTree<H>(hashing);
      source := new L.Source(P(munroLayer));
      new;
      hide *;
      StartValid();
    }

    lemma StartValid()
      requires tree.Valid() && source.Valid() && source.checkpoint == NONE && tree.k == k && window > 0 && layer < 63
      requires source.perSign == P(layer) && tree.sizec == source.next == 0 && tree.pruned == {}
      ensures Valid()
    {
      hide LiveHashTree.Valid, L.Source.Valid, P;
      var x: int := 0 - window;
      SignedNow();
      Runs(x, P(layer));
    }

    /** One chunk of AddData. After every 2^layer chunks the hash to sign is the Merkle root of the last 2^layer of them. */
    method AddChunk() returns (signed: bool, munro: Bin, hash: H)
      requires Valid() && source.next < F.LIMIT
      modifies tree, tree.at.Values, source, source.own, source.signed, source.peaks
      ensures Valid() && source.next == old(source.next) + 1
      ensures signed <==> source.next % P(layer) == 0
      ensures signed ==> munro.layer == layer && munro.End() == source.next && hash == Tree(munro, k)
      ensures !signed || keepAll ==> tree.pruned == old(tree.pruned)
      ensures signed && !keepAll && source.next - window < P(layer) ==> tree.pruned == old(tree.pruned)
      ensures signed && !keepAll && source.next - window >= P(layer) ==>
        exists r: Bin :: tree.pruned == old(tree.pruned) + {r} && L.LastRun(r, source.next - window, layer)
    {
      hide LiveHashTree.Valid, L.Source.Valid, P, Behind, L.LastRun, Forgotten;
      Sizes();
      ghost var next, since := source.next, source.sinceSign;
      SignedNow();
      L.NextRemainder(source.next, source.perSign);
      source.AddChunk();
      tree.AddData();
      SignedNow();
      assert forall v :: v in tree.at.Values ==> v in old(tree.at.Values) || fresh(v);
      signed := source.sinceSign == 0;
      munro, hash := NONE, k.zero;
      if signed {
        assert source.next == next - since + P(layer);
        munro, hash := tree.AddSignedMunro(layer);
        if !keepAll {
          ghost var r := Prune();
        }
      }
    }

    /** OnDataPruneTree, right after a signature: one run more is behind the window. */
    method Prune() returns (ghost r: Bin)
      requires InStep() && source.next < P(61) && source.sinceSign == 0 && Forgotten(tree.pruned, Behind(source.next - P(layer)))
      modifies tree, tree.at.Values
      ensures Valid()
      ensures if source.next - window < P(layer) then tree.pruned == old(tree.pruned)
        else tree.pruned == old(tree.pruned) + {r} && L.LastRun(r, source.next - window, layer)
    {
      hide LiveHashTree.Valid, L.Source.Valid, P, Behind, L.LastRun, Forgotten;
      LowLast();
      var q := L.PrunePosition(source.next, window, layer);
      r := q;
      ghost var was := tree.pruned;
      RunEnd(q);
      if q != NONE {
        tree.PruneTree(q);
      }
      ForgetsRun(was, q);
    }

    /** The run ends before the window. */
    lemma RunEnd(r: Bin)
      requires r != NONE ==> L.LastRun(r, source.next - window, layer)
      ensures r != NONE ==> r.Ok() && r.End() == Behind(source.next) <= source.next - window
    {
      hide P, Bin.Parent, Bin.IsLeft;
      Runs(source.next - window, P(layer));
    }

    /** With the run just pruned, everything before its end is forgotten. */
    lemma ForgetsRun(was: set<Bin>, r: Bin)
      requires Forgotten(was, Behind(source.next - P(layer)))
      requires r == NONE <==> source.next - window < P(layer)
      requires r != NONE ==> L.LastRun(r, source.next - window, layer)
      requires tree.pruned == if r == NONE then was else was + {r}
      ensures Forgotten(tree.pruned, Behind(source.next))
    {
      hide Bin.Parent, Bin.IsLeft, P;
      var x, n := source.next - window, P(layer);
      Runs(x, n);
      assert Behind(source.next) == Behind(source.next - n) + n;
      forall c: nat | c < Behind(source.next) ensures Gone(c, tree.pruned) {
        if c >= Behind(source.next - n) {
          PowerMonotone(layer, r.layer);
          assert r in tree.pruned && r.Has(c);
        } else {
          assert Gone(c, was);
        }
      }
    }

    lemma Runs(x: int, n: nat)
      requires n > 0
      ensures x / n * n == (x - n) / n * n + n <= x
      ensures x < n ==> x / n * n <= 0
    {
      var q := (x - n) / n;
      Distribute(n, q + 1, q);
      L.Quotient(q + 1, (x - n) % n, n);
      assert x == n * (q + 1) + (x - n) % n;
      Distribute(n, x / n, q + 1);
      SignOfProduct(n, x / n - (q + 1));
      SignOfProduct(n, q + 1 - x / n);
      SignOfProduct(n, x / n - 1);
    }

    /** Everything before the last whole run behind the window is forgotten: its leaves are not in the tree any more. */
    lemma OldForgotten(c: nat)
      requires Valid() && !keepAll && c < (source.next - source.sinceSign - window) / P(layer) * P(layer)
      ensures Bin(0, c) !in tree.at && !tree.Present(Bin(0, c))
    {
      hide P, L.Source.Valid, Aligned, LiveHashTree.Core, Smallest;
      SmallPowers();
      assert Gone(c, tree.pruned);
      var p :| p in tree.pruned && p.Has(c);
      assert O.Within(Bin(0, c), p);
    }

    lemma Sizes()
      requires Valid() && source.next < F.LIMIT
      ensures tree.sizec < P(61) && tree.sizec + 1 < P(61)
    {
      hide LiveHashTree.Valid, L.Source.Valid;
      SmallPowers();
      PowerMonotone(32, 61);
    }

    lemma LowLast()
      ensures P(61) < P(63)
    {
    }

    lemma SignedNow()
      requires source.Valid() && source.checkpoint == NONE
      ensures source.sinceSign == source.next % source.perSign && source.perSign > 0
    {
      hide BinMap.Valid, BinMap.Has;
    }

    lemma Low(c: nat)
      requires source.Valid() && c < source.next
      ensures Bin(0, c).Ok()
    {
      hide BinMap.Valid, BinMap.Has;
      L.BaseOk(c);
    }

    /** No chunk of the window is ever forgotten: its leaf is in the tree, with its hash. */
    lemma WindowKept(c: nat)
      requires Valid() && c < source.next <= c + window
      ensures Bin(0, c) in tree.at && tree.at[Bin(0, c)].verified && tree.at[Bin(0, c)].hash == k.leaf(c)
    {
      hide P, L.Source.Valid, Aligned, LiveHashTree.Core, Smallest;
      var b := Bin(0, c);
      Low(c);
      assert tree.Present(b);
      tree.NodeFacts(b);
      assert tree.HashOk(tree.at[b]);
    }
  }
}
