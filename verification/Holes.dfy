/** find_empty(start): the first hole at or after a chunk, found on a copy with everything before it filled in. */
module Holes {
  import opened Powers
  import opened Bins
  import opened Peaks
  import opened BinMaps
  import opened Queries
  import Copy

  /** No chunk of the range from a up to b is missing. */
  ghost predicate Held(m: BinMap, a: nat, b: nat)
    reads m
  {
    forall i: nat :: a <= i < b ==> m.Has(i)
  }

  /** The answer to the search for a hole from chunk s on. */
  ghost predicate Hole(m: BinMap, s: nat, r: Bin)
    reads m
  {
    if r == NONE then m.root.Has(s) && Held(m, s, m.root.End())
    else r.Ok() && r.layer == 0 && s <= r.base && !m.Has(r.base) && (m.root.Has(s) ==> m.root.Has(r.base)) && Held(m, s, r.base)
  }

  lemma RootFacts(m: BinMap)
    requires m.Valid()
    ensures m.root.Ok() && m.root.base == 0 && m.root.layer >= 6
    ensures forall i: nat :: m.Has(i) ==> m.root.Has(i)
  {
  }

  /** A map with everything below chunk s filled in besides. */
  method FilledUpTo(m: BinMap, s: nat) returns (h: BinMap)
    requires m.Valid() && m.root.Has(s)
    ensures fresh(h) && h.Valid() && h.root == m.root
    ensures forall i: nat :: h.Has(i) <==> m.Has(i) || i < s
  {
    hide P, Bin.Contains, Aligned, Floor, BinMap.Has, BinMap.Valid;
    RootFacts(m);
    h := new BinMap();
    Copy.CopyMap(h, m);
    var peaks := new Bin[64](_ => NONE);
    var count := GenPeaks(s, peaks);
    ghost var ps := peaks[..count];
    var i := 0;
    while i < count
      invariant 0 <= i <= count && peaks[..count] == ps
      invariant fresh(h) && h.Valid() && h.root == m.root
      invariant forall c: nat :: h.Has(c) <==> m.Has(c) || exists k :: 0 <= k < i && ps[k].Has(c)
    {
      PeaksBelow(ps, s, i);
      InsideRoot(m.root, ps[i], s);
      h.Set(peaks[i]);
      i := i + 1;
    }
    forall c: nat ensures h.Has(c) <==> m.Has(c) || c < s {
      PeaksCover(ps, s, c);
    }
  }

  /** A bin that ends at or before a chunk of the root lies in the root and is not all of it. */
  lemma InsideRoot(root: Bin, b: Bin, s: nat)
    requires root.Ok() && b.Ok() && root.base == 0 && root.Has(s) && b.End() <= s
    ensures root.Contains(b) && !b.Contains(root)
  {
    ContainsMeaning(root, b);
    ContainsMeaning(b, root);
  }

  /** find_empty(start), start a base bin: the first hole at or after it; NONE if the rest of the root is full. */
  method FindEmptyFrom(m: BinMap, start: Bin) returns (r: Bin)
    requires m.Valid() && start.Ok() && start.layer == 0
    ensures Hole(m, start.base, r)
  {
    hide P, Bin.Contains, Aligned, Floor, BinMap.Has, BinMap.Valid;
    var vacant := IsEmptyBin(m, start);
    BaseBin(start);
    RootFacts(m);
    if vacant {
      return start;
    }
    var h := FilledUpTo(m, start.base);
    var cur := ClimbToHole(h, start);
    assert m.Has(start.base);
    if cur == NONE {
      assert forall i: nat :: start.base <= i < m.root.End() ==> h.root.Has(i);
      return NONE;
    }
    r := Descend(h, cur);
    assert r.base >= start.base && !m.Has(r.base);
    assert m.root.Has(r.base);
    forall i: nat | start.base <= i < r.base ensures m.Has(i) {
      assert h.Has(i);
    }
  }

  lemma BaseBin(b: Bin)
    requires b.layer == 0
    ensures b.End() == b.base + 1
  {
  }

  /** Up from a filled base bin to the first ancestor with a hole; NONE past the root. */
  method ClimbToHole(h: BinMap, start: Bin) returns (cur: Bin)
    requires h.Valid() && start.Ok() && start.layer == 0 && h.root.Has(start.base) && h.Has(start.base)
    ensures if cur == NONE then AllFilled(h, h.root) else cur.Ok() && cur.layer > 0 && cur.Has(start.base) && !AllFilled(h, cur) && cur.End() <= h.root.End()
  {
    hide P, Bin.Contains, Aligned, Floor, BinMap.Has, BinMap.Valid;
    RootFacts(h);
    cur := start;
    BaseBin(start);
    while true
      invariant cur.Ok() && cur.layer < h.root.layer && cur.Has(start.base)
      decreases h.root.layer - cur.layer
    {
      ParentOk(cur);
      cur := cur.Parent();
      Laminar(cur.base, cur.layer, h.root.base, h.root.layer);
      var filled := IsFilledBin(h, cur);
      if !filled {
        break;
      }
      if cur == h.root {
        return NONE;
      }
    }
  }

  /** Down to the first hole of a bin that has one. */
  method Descend(h: BinMap, top: Bin) returns (cur: Bin)
    requires h.Valid() && top.Ok() && top.layer > 0 && !AllFilled(h, top)
    ensures cur.Ok() && cur.layer == 0 && top.Has(cur.base) && !h.Has(cur.base)
    ensures forall i: nat :: top.base <= i < cur.base ==> h.Has(i)
  {
    hide P, Bin.Contains, Aligned, Floor, BinMap.Has, BinMap.Valid;
    cur := top;
    while cur.layer != 0
      invariant cur.Ok() && top.base <= cur.base && cur.End() <= top.End() && !AllFilled(h, cur)
      invariant forall i: nat :: top.base <= i < cur.base ==> h.Has(i)
      decreases cur.layer
    {
      HalvesOk(cur);
      var left := IsFilledBin(h, cur.Left());
      if !left {
        cur := cur.Left();
      } else {
        var right := IsFilledBin(h, cur.Right());
        if !right {
          cur := cur.Right();
        }
      }
    }
    BaseBin(cur);
  }
}
