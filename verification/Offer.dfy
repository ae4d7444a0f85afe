/** hashtree.cpp: checking offered hashes against the peaks, climbing to the nearest hash already proven. */
module Offer {
  import opened Powers
  import opened Bins
  import opened Peaks
  import opened BinMaps
  import opened Queries
  import opened Merkle

  predicate Within(b: Bin, c: Bin) {
    c.base <= b.base && b.End() <= c.End()
  }

  /** The bin lies under one of the peaks. */
  ghost predicate Under(b: Bin, peaks: seq<Bin>) {
    b.Ok() && exists j :: 0 <= j < |peaks| && Within(b, peaks[j])
  }

  // ------------------------------------------------------------------
  // Paths

  /** The ancestors of a bin up to a bin around it. */
  lemma AncestorAt(pos: Bin, peak: Bin, l: nat)
    requires pos.Ok() && peak.Ok() && Within(pos, peak) && pos.layer <= l <= peak.layer
    ensures pos.Up(l).Ok() && Within(pos, pos.Up(l)) && Within(pos.Up(l), peak)
    ensures pos.Up(peak.layer) == peak && pos.Up(pos.layer) == pos
  {
    hide P, Aligned, Floor;
    UpSpec(pos, l);
    assert pos.Has(pos.base) && peak.Has(pos.base);
    UpUnique(pos, peak);
    UpUnique(pos, pos);
    Inner(pos, peak, l);
    Laminar(pos.Up(l).base, l, peak.base, peak.layer);
  }

  lemma Inner(pos: Bin, peak: Bin, l: nat)
    requires pos.Ok() && peak.Ok() && Within(pos, peak) && pos.layer <= l <= peak.layer
    ensures peak.base <= pos.Up(l).base < peak.End()
  {
    FloorSpec(pos.base, l);
    AlignedBelow(peak.base, l, peak.layer);
    if pos.Up(l).base < peak.base {
      AlignedStep(pos.Up(l).base, peak.base, l);
      assert false;
    }
  }

  /** One step up a path: the next ancestor is the parent, and its halves are the ancestor here and its sibling. */
  lemma PathStep(pos: Bin, peak: Bin, l: nat)
    requires pos.Ok() && peak.Ok() && Within(pos, peak) && pos.layer <= l < peak.layer
    ensures var a, u := pos.Up(l), pos.Up(l + 1);
      a.Ok() && u.Ok() && a.Parent() == u && a.Sibling().Ok() && a.Sibling() != a && a.Sibling().Parent() == u && a.Sibling().Sibling() == a &&
      (if a.IsLeft() then u.Left() == a && u.Right() == a.Sibling() else u.Right() == a && u.Left() == a.Sibling()) &&
      Within(a, peak) && Within(a.Sibling(), peak) && Within(u, peak)
  {
    hide P, Aligned, Floor;
    AncestorAt(pos, peak, l);
    AncestorAt(pos, peak, l + 1);
    var a, u := pos.Up(l), pos.Up(l + 1);
    ParentOk(a);
    assert a.Parent().Has(pos.base) && u.Has(pos.base);
    ParentIs(pos, a, l);
    HalvesOk(u);
    ParentOk(a.Sibling());
    SiblingTwice(u);
  }

  lemma ParentIs(pos: Bin, a: Bin, l: nat)
    requires a.Ok() && a.layer == l < 63 && Within(pos, a) && pos.Ok() && a.Parent().Ok() && Within(a, a.Parent())
    ensures a.Parent() == pos.Up(l + 1)
  {
    UpUnique(pos, a.Parent());
  }

  lemma SiblingTwice(u: Bin)
    requires u.Ok() && u.layer > 0
    ensures u.Left().Ok() && u.Right().Ok()
    ensures u.Left().Parent() == u && u.Right().Parent() == u && u.Left().IsLeft() && !u.Right().IsLeft()
    ensures u.Left().Sibling() == u.Right() && u.Right().Sibling() == u.Left() && u.Left() != u.Right()
  {
    hide Floor;
    HalvesOk(u);
    HalfParent(u);
  }

  lemma NumberOne(b: Bin, c: Bin)
    requires b.Ok() && c.Ok() && b.V() == c.V()
    ensures b == c
  {
    hide P, Aligned, Decode;
    DecodeBin(b);
    DecodeBin(c);
  }

  // ------------------------------------------------------------------
  // The true tree

  /** Node hashes determine their parts. */
  ghost predicate Injective<H(!new)>(k: Hashing<H>) {
    forall a: H, b: H, c: H, d: H :: k.node(a, b) == k.node(c, d) ==> a == c && b == d
  }

  /** The true hashes under the peaks: every inner one is the hash of its halves. */
  ghost predicate Truth<H(!new)>(t: Bin -> H, peaks: seq<Bin>, k: Hashing<H>) {
    forall b: Bin :: Under(b, peaks) && b.layer > 0 ==> t(b) == k.node(t(b.Left()), t(b.Right()))
  }

  /** No true hash is the zero hash. */
  ghost predicate Nonzero<H(!new)>(t: Bin -> H, peaks: seq<Bin>, k: Hashing<H>) {
    forall b: Bin :: Under(b, peaks) ==> t(b) != k.zero
  }

  /** No two hashes have the zero hash above them. */
  ghost predicate NeverZero<H(!new)>(k: Hashing<H>) {
    forall a: H, b: H :: k.node(a, b) != k.zero
  }

  /** One root, one list of peak hashes: peaks that add up to the root of other hashes have those hashes. */
  lemma RootFixesPeaks<H(!new)>(ps: seq<Bin>, hs: seq<H>, gs: seq<H>, n: nat, k: Hashing<H>)
    requires n > 0 && PeaksOf(ps, n) && Adjacent(ps) && ps != [] && |hs| == |gs| == |ps| && Injective(k)
    requires RootOf(ps, hs, k) == RootOf(ps, gs, k)
    ensures hs == gs
  {
    hide P, Aligned, Floor, Merkle.Climb;
    var c := |ps| - 1;
    ClimbFixes(ps[c], hs[c], gs[c], c, ps, hs, gs, n, k);
    assert hs == hs[..c] + [hs[c]] && gs == gs[..c] + [gs[c]];
  }

  lemma {:induction false} ClimbFixes<H(!new)>(p: Bin, h: H, g: H, c: nat, ps: seq<Bin>, hs: seq<H>, gs: seq<H>, n: nat, k: Hashing<H>)
    requires PeaksOf(ps, n) && Adjacent(ps) && c < |ps| == |hs| == |gs| && Injective(k)
    requires p.Ok() && (c > 0 ==> p.base == ps[c - 1].End() && p.layer <= ps[c - 1].layer)
    requires Merkle.Climb(p, h, c, ps, hs, k) == Merkle.Climb(p, g, c, ps, gs, k)
    ensures h == g && hs[..c] == gs[..c]
    decreases 64 - p.layer
  {
    hide P, Aligned, Floor, PeaksOf;
    if c > 0 {
      ClimbOk(p, ps[c - 1]);
      if p.layer < ps[c - 1].layer {
        BelowPeak(p, ps[c - 1]);
        ClimbFixes(p.Parent(), k.node(h, k.zero), k.node(g, k.zero), c, ps, hs, gs, n, k);
      } else {
        AtPeak(p, ps, n, c);
        ClimbFixes(p.Parent(), k.node(hs[c - 1], h), k.node(gs[c - 1], g), c - 1, ps, hs, gs, n, k);
        assert hs[..c] == hs[..c - 1] + [hs[c - 1]] && gs[..c] == gs[..c - 1] + [gs[c - 1]];
      }
    }
  }

  // ------------------------------------------------------------------
  // Marks

  /** Above a marked node everything is marked, with the siblings of inner nodes. */
  ghost predicate ClosedMarks(m: iset<nat>, peaks: seq<Bin>) {
    forall b: Bin :: Under(b, peaks) && b.V() in m && b !in peaks ==> b.Parent().V() in m && (b.layer > 0 ==> b.Sibling().V() in m)
  }

  /** What an accepted leaf marks: itself, its ancestors, and their siblings. */
  ghost function PathMarks(pos: Bin, peak: Bin): iset<nat> {
    iset v: nat | InPath(pos, peak, v)
  }

  ghost predicate InPath(pos: Bin, peak: Bin, v: nat) {
    v == pos.V() || exists l: nat :: OnPath(pos, peak, l, v)
  }

  ghost predicate OnPath(pos: Bin, peak: Bin, l: nat, v: nat) {
    pos.layer < l <= peak.layer && (v == pos.Up(l).V() || v == pos.Up(l).Sibling().V())
  }

  /** The sibling of a peak lies under no peak. */
  lemma PeakSibling(peaks: seq<Bin>, n: nat, i: nat)
    requires PeaksOf(peaks, n) && i < |peaks| && peaks[i].layer < 63
    ensures !Under(peaks[i].Sibling(), peaks) && peaks[i].Sibling().Ok()
  {
    hide P, Aligned, Floor;
    var b := peaks[i];
    ParentOk(b);
    HalvesOk(b.Parent());
    forall j | 0 <= j < |peaks| ensures !Within(b.Sibling(), peaks[j]) {
      SiblingOutside(peaks, n, i, j);
    }
  }

  lemma SiblingOutside(peaks: seq<Bin>, n: nat, i: nat, j: nat)
    requires PeaksOf(peaks, n) && i < |peaks| && j < |peaks| && peaks[i].layer < 63
    ensures !Within(peaks[i].Sibling(), peaks[j])
  {
    hide P, Aligned, Floor;
    var b, c := peaks[i], peaks[j];
    ParentOk(b);
    SiblingTwice(b.Parent());
    HalvesOk(b.Parent());
    PeaksCover(peaks, n, b.base);
    PeaksCover(peaks, n, b.Sibling().base);
    Mine(b);
    Mine(b.Sibling());
    if i < j {
      PeakLayers(peaks, n, i, j);
    } else if j < i {
      PeakLayers(peaks, n, j, i);
    }
    if Within(b.Sibling(), c) && b.Sibling() != c {
      AroundSibling(b, c);
    }
  }

  lemma Mine(b: Bin)
    ensures b.Has(b.base)
  {
  }

  lemma AroundSibling(b: Bin, c: Bin)
    requires b.Ok() && b.layer < 63 && b.Sibling().Ok() && c.Ok() && Within(b.Sibling(), c) && b.Sibling() != c
    ensures c.Has(b.base) && c.layer > b.layer
  {
    hide P, Aligned, Floor;
    var s := b.Sibling();
    ParentOk(b);
    SiblingTwice(b.Parent());
    ContainsMeaning(c, s);
    NestedOrDisjoint(c, s);
    AncestorAt(s, c, s.layer + 1);
    PathStep(s, c, s.layer);
    HalvesOk(b.Parent());
    Mine(b);
  }

  lemma {:induction false} PeakLayers(peaks: seq<Bin>, n: nat, i: nat, j: nat)
    requires PeaksOf(peaks, n) && i < j < |peaks|
    ensures peaks[i].layer > peaks[j].layer
    decreases j
  {
    hide P, Aligned, Floor;
    if i < j - 1 {
      PeakLayers(peaks, n, i, j - 1);
    }
  }

  /** Adding a path keeps the marks closed. */
  lemma PathClosed(m: iset<nat>, pos: Bin, peaks: seq<Bin>, n: nat, i: nat)
    requires PeaksOf(peaks, n) && i < |peaks| && pos.Ok() && pos.layer == 0 && Within(pos, peaks[i]) && ClosedMarks(m, peaks) && peaks[i].layer < 63
    ensures ClosedMarks(m + PathMarks(pos, peaks[i]), peaks)
  {
    hide P, Aligned, Floor, PeaksOf;
    var peak, m' := peaks[i], m + PathMarks(pos, peaks[i]);
    forall b: Bin | Under(b, peaks) && b.V() in m' && b !in peaks
      ensures b.Parent().V() in m' && (b.layer > 0 ==> b.Sibling().V() in m')
    {
      if b.V() !in m {
        OnPathClosed(b, pos, peaks, n, i);
      }
    }
  }

  lemma OnPathClosed(b: Bin, pos: Bin, peaks: seq<Bin>, n: nat, i: nat)
    requires PeaksOf(peaks, n) && i < |peaks| && pos.Ok() && pos.layer == 0 && Within(pos, peaks[i]) && peaks[i].layer < 63
    requires Under(b, peaks) && b !in peaks && b.V() in PathMarks(pos, peaks[i])
    ensures b.Parent().V() in PathMarks(pos, peaks[i])
    ensures b.layer > 0 ==> b.Sibling().V() in PathMarks(pos, peaks[i])
  {
    hide P, Aligned, Floor, PeaksOf, Bin.V;
    var peak := peaks[i];
    PeakOk(peaks, n, i);
    if b.V() == pos.V() {
      NumberOne(b, pos);
      AncestorAt(pos, peak, 0);
      assert peak.layer > 0 by {
        if peak.layer == 0 {
          AncestorAt(pos, peak, peak.layer);
        }
      }
      PathStep(pos, peak, 0);
      assert OnPath(pos, peak, 1, b.Parent().V());
    } else {
      var l: nat :| OnPath(pos, peak, l, b.V());
      AncestorAt(pos, peak, l);
      if l == peak.layer {
        PeakSibling(peaks, n, i);
        NumberEither(b, pos.Up(l), pos.Up(l).Sibling());
        assert false;
      }
      PathStep(pos, peak, l);
      NumberEither(b, pos.Up(l), pos.Up(l).Sibling());
      assert OnPath(pos, peak, l + 1, b.Parent().V());
      assert OnPath(pos, peak, l, b.Sibling().V());
    }
  }

  lemma PeakOk(peaks: seq<Bin>, n: nat, i: nat)
    requires PeaksOf(peaks, n) && i < |peaks|
    ensures peaks[i].Ok()
  {
  }

  lemma NumberEither(b: Bin, c: Bin, d: Bin)
    requires b.Ok() && c.Ok() && d.Ok() && (b.V() == c.V() || b.V() == d.V())
    ensures b == c || b == d
  {
    hide Bin.V;
    if b.V() == c.V() {
      NumberOne(b, c);
    } else {
      NumberOne(b, d);
    }
  }

  class Verifier<H(!new, ==)> {
    const k: Hashing<H>
    const peaks: seq<Bin>
    const chunks: nat
    const hashes: array<H>
    const ack: BinMap
    const marks: BinMap

    constructor (hashing: Hashing<H>, ps: seq<Bin>, n: nat, hs: array<H>, a: BinMap, m: BinMap)
      ensures k == hashing && peaks == ps && chunks == n && hashes == hs && ack == a && marks == m
    {
      k, peaks, chunks, hashes, ack, marks := hashing, ps, n, hs, a, m;
    }

    /** The tree of a file of known size; its hash file, 40 bytes a chunk, fits the address space. */
    ghost predicate Shape()
      reads ack, marks
    {
      chunks > 0 && chunks < P(60) && PeaksOf(peaks, chunks) && hashes.Length == 2 * chunks &&
      ack != marks && ack.Valid() && marks.Valid()
    }

    ghost predicate Marked(b: Bin)
      reads marks
    {
      marks.Has(b.V())
    }

    /** The numbers of the marked nodes. */
    ghost function MarkSet(): iset<nat>
      reads marks
    {
      iset v: nat | marks.Has(v)
    }

    /** Some chunk of the bin has been accepted. */
    ghost predicate Acked(b: Bin)
      reads ack
    {
      !AllEmpty(ack, b)
    }

    /** What is stored for a node. */
    ghost function Stored(b: Bin): H
      reads hashes
    {
      if b.V() < hashes.Length then hashes[b.V()] else k.zero
    }

    /** The peaks have their true hashes, and marked nodes under them too. */
    ghost predicate MarksRight(t: Bin -> H)
      reads marks, hashes
    {
      (forall j :: 0 <= j < |peaks| ==> Stored(peaks[j]) == t(peaks[j])) &&
      forall b: Bin :: Under(b, peaks) && Marked(b) ==> Stored(b) == t(b)
    }

    /** Nodes over accepted chunks are marked. */
    ghost predicate AcksMarked()
      reads marks, ack
    {
      forall b: Bin :: Under(b, peaks) && b.layer > 0 && Acked(b) ==> Marked(b)
    }

    /** What every offered hash keeps. */
    ghost predicate Sound(t: Bin -> H)
      reads marks, ack, hashes
    {
      Shape() && MarksRight(t) && ClosedMarks(MarkSet(), peaks) && AcksMarked()
    }

    /** A tree with true peaks and nothing else starts out sound. */
    lemma StartSound(t: Bin -> H)
      requires Shape() && (forall i: nat :: !ack.Has(i)) && (forall i: nat :: !marks.Has(i))
      requires forall j :: 0 <= j < |peaks| ==> Stored(peaks[j]) == t(peaks[j])
      ensures Sound(t)
    {
      hide P, Aligned, Floor, Bin.V, BinMap.Valid, BinMap.Has, PeaksOf, Under;
    }

    /** The slots of the nodes under the peaks are in the hash file, one each. */
    lemma Slot(b: Bin)
      requires chunks > 0 && PeaksOf(peaks, chunks) && Under(b, peaks)
      ensures b.V() < 2 * chunks
    {
      hide P, Aligned;
      var j :| 0 <= j < |peaks| && Within(b, peaks[j]);
      PeaksBelow(peaks, chunks, j);
      NumberBelow(b);
    }

    /** peak_for: the peak over a bin, or NONE. */
    method PeakFor(pos: Bin) returns (peak: Bin, ghost i: nat)
      requires PeaksOf(peaks, chunks) && pos.Ok()
      ensures peak == NONE <==> !Under(pos, peaks)
      ensures peak != NONE ==> i < |peaks| && peak == peaks[i] && Within(pos, peak)
    {
      hide P, Aligned, Bin.Contains;
      var pi := 0;
      while pi < |peaks| && !peaks[pi].Contains(pos)
        invariant 0 <= pi <= |peaks| && forall j :: 0 <= j < pi ==> !Within(pos, peaks[j])
      {
        ContainsMeaning(peaks[pi], pos);
        pi := pi + 1;
      }
      i := pi;
      if pi == |peaks| {
        return NONE, i;
      }
      ContainsMeaning(peaks[pi], pos);
      peak := peaks[pi];
    }

    // ----------------------------------------------------------------
    // The climb

    /** The stored hashes on a path below layer m are those of their stored halves. */
    ghost predicate Linked(pos: Bin, m: nat)
      reads hashes
    {
      forall l: nat :: pos.layer < l < m ==> LinkedAt(pos.Up(l))
    }

    ghost predicate LinkedAt(b: Bin)
      reads hashes
    {
      b.layer > 0 ==> Stored(b) == k.node(Stored(b.Left()), Stored(b.Right()))
    }

    /** What is stored beside the path of a leaf at layer l. */
    ghost function Uncle(pos: Bin, l: nat): H
      reads hashes
    {
      Stored(pos.Up(l).Sibling())
    }

    /** The siblings along a path have their true hashes. */
    ghost predicate UnclesRight(pos: Bin, peak: Bin, t: Bin -> H)
      reads hashes
    {
      forall l: nat :: pos.layer <= l < peak.layer ==> Uncle(pos, l) == t(pos.Up(l).Sibling())
    }

    /** Neither the offered hash nor one beside the path is zero. */
    ghost predicate Clear(pos: Bin, peak: Bin, hash: H)
      reads hashes
    {
      hash != k.zero && forall l: nat :: pos.layer <= l < peak.layer ==> Uncle(pos, l) != k.zero
    }

    /** What a hash file holds for a node. */
    ghost function In(hs: seq<H>, b: Bin): H {
      if b.V() < |hs| then hs[b.V()] else k.zero
    }

    ghost function Beside(hs: seq<H>, pos: Bin, l: nat): H {
      In(hs, pos.Up(l).Sibling())
    }

    /** What a climb carries to layer l: the offered hash, combined with those stored beside the path. */
    ghost function Fold(hs: seq<H>, pos: Bin, hash: H, l: nat): H {
      if l == 0 then hash
      else if pos.Up(l - 1).IsLeft() then k.node(Fold(hs, pos, hash, l - 1), Beside(hs, pos, l - 1))
      else k.node(Beside(hs, pos, l - 1), Fold(hs, pos, hash, l - 1))
    }

    /** Neither half is zero at layer l of a climb. */
    ghost predicate Full(hs: seq<H>, pos: Bin, hash: H, l: nat) {
      Fold(hs, pos, hash, l) != k.zero && Beside(hs, pos, l) != k.zero
    }

    /** The climb meets its first zero at layer l, before it comes to the peak or to a proven node. */
    ghost predicate CutAt(hs: seq<H>, pos: Bin, peak: Bin, hash: H, l: nat)
      reads marks
    {
      l < peak.layer && !Full(hs, pos, hash, l) && Unmarked(pos, l + 1) && forall m: nat :: m < l ==> Full(hs, pos, hash, m)
    }

    ghost predicate Severed(hs: seq<H>, pos: Bin, peak: Bin, hash: H)
      reads marks
    {
      exists l: nat :: CutAt(hs, pos, peak, hash, l)
    }

    /** A climb that is cut carries what is stored for the next node. */
    ghost predicate Matches(hs: seq<H>, pos: Bin, peak: Bin, hash: H)
      reads marks
    {
      exists l: nat :: CutAt(hs, pos, peak, hash, l) && Fold(hs, pos, hash, l) == In(hs, pos.Up(l + 1))
    }

    lemma CutOnce(hs: seq<H>, pos: Bin, peak: Bin, hash: H, l: nat)
      requires CutAt(hs, pos, peak, hash, l)
      ensures Severed(hs, pos, peak, hash)
      ensures Matches(hs, pos, peak, hash) <==> Fold(hs, pos, hash, l) == In(hs, pos.Up(l + 1))
    {
      hide P, Aligned, Floor, Bin.V, Full, In, Fold;
    }

    /** The hash file after a climb: the path below layer top holds what the climb carried. */
    ghost function Rewritten(hs: seq<H>, pos: Bin, hash: H, top: nat): (r: seq<H>)
      ensures |r| == |hs|
    {
      if top == 0 then hs
      else
        var r, v := Rewritten(hs, pos, hash, top - 1), pos.Up(top - 1).V();
        if v < |hs| then r[v := Fold(hs, pos, hash, top - 1)] else r
    }

    /** A climb from hs has come to p: what it carries there, or where it was cut. */
    ghost predicate Climbing(hs: seq<H>, now: seq<H>, pos: Bin, peak: Bin, hash: H, p: Bin, uphash: H, whole: bool)
      reads marks
    {
      now == Rewritten(hs, pos, hash, p.layer) &&
      if whole then uphash == Fold(hs, pos, hash, p.layer) && forall m: nat :: m < p.layer ==> Full(hs, pos, hash, m)
      else p.layer > 0 && uphash == Fold(hs, pos, hash, p.layer - 1) && CutAt(hs, pos, peak, hash, p.layer - 1)
    }

    lemma ClimbingOn(hs: seq<H>, now: seq<H>, next: seq<H>, pos: Bin, peak: Bin, hash: H, from: Bin, carried: H, p: Bin, uphash: H, whole: bool)
      requires Climbing(hs, now, pos, peak, hash, from, carried, true) && from == pos.Up(from.layer) && from.layer < peak.layer
      requires p.layer == from.layer + 1 && Unmarked(pos, p.layer) && from.V() < |now| && next == now[from.V() := carried]
      requires var u := Beside(hs, pos, from.layer);
        (whole <==> carried != k.zero && u != k.zero) &&
        uphash == if !whole then carried else if from.IsLeft() then k.node(carried, u) else k.node(u, carried)
      ensures Climbing(hs, next, pos, peak, hash, p, uphash, whole)
    {
      hide P, Aligned, Floor, Bin.V, In, Beside, Bin.IsLeft, Bin.Up;
    }

    /** The layers below which a climb rewrites the path: it is cut there, or comes to the peak or to a proven node. */
    ghost predicate Ends(hs: seq<H>, pos: Bin, peak: Bin, hash: H, top: nat)
      reads marks
    {
      0 < top <= peak.layer &&
      (CutAt(hs, pos, peak, hash, top - 1) || ((pos.Up(top) == peak || Marked(pos.Up(top))) && Unmarked(pos, top)))
    }

    /** On the path below layer top there is what the climb carried, and nothing else changes. */
    lemma {:induction false} RewrittenIs(hs: seq<H>, pos: Bin, peak: Bin, hash: H, top: nat, b: Bin)
      requires pos.Ok() && pos.layer == 0 && peak.Ok() && Within(pos, peak) && top <= peak.layer && b.Ok()
      ensures var r := Rewritten(hs, pos, hash, top);
        In(r, b) == if b.V() < |hs| && b.layer < top && b == pos.Up(b.layer) then Fold(hs, pos, hash, b.layer) else In(hs, b)
      decreases top
    {
      hide P, Aligned, Floor, Bin.V, Fold, Bin.Up;
      if top > 0 {
        RewrittenIs(hs, pos, peak, hash, top - 1, b);
        AncestorAt(pos, peak, top - 1);
        UpLayer(pos, top - 1);
        if b.V() == pos.Up(top - 1).V() {
          NumberOne(b, pos.Up(top - 1));
        }
      }
    }

    lemma UpLayer(pos: Bin, l: nat)
      ensures pos.Up(l).layer == l
    {
    }

    /** Storing the offered hash for the leaf first does not matter to the climb. */
    lemma {:induction false} StoredFirst(hs: seq<H>, pos: Bin, peak: Bin, hash: H, l: nat)
      requires pos.Ok() && pos.layer == 0 && peak.Ok() && Within(pos, peak) && l <= peak.layer && pos.V() < |hs|
      ensures var hs' := hs[pos.V() := hash];
        Fold(hs', pos, hash, l) == Fold(hs, pos, hash, l) &&
        (l < peak.layer ==> Beside(hs', pos, l) == Beside(hs, pos, l) && In(hs', pos.Up(l + 1)) == In(hs, pos.Up(l + 1))) &&
        (l > 0 ==> Rewritten(hs', pos, hash, l) == Rewritten(hs, pos, hash, l))
      decreases l
    {
      hide P, Aligned, Floor, Bin.V, Bin.IsLeft, Bin.Up;
      if l > 0 {
        StoredFirst(hs, pos, peak, hash, l - 1);
      }
      AncestorAt(pos, peak, 0);
      assert hs[pos.V() := hash][pos.V() := hash] == hs[pos.V() := hash];
      if l < peak.layer {
        PathStep(pos, peak, l);
        OtherUncle(pos, peak, 0, l);
        AncestorAt(pos, peak, l + 1);
        UpLayer(pos, l + 1);
        OtherNumber(pos, pos.Up(l).Sibling());
        OtherNumber(pos, pos.Up(l + 1));
      }
    }

    lemma OtherNumber(b: Bin, c: Bin)
      requires b.Ok() && c.Ok() && b != c
      ensures b.V() != c.V()
    {
      hide Bin.V;
      if b.V() == c.V() {
        NumberOne(b, c);
      }
    }

    lemma SameClimb(hs: seq<H>, pos: Bin, peak: Bin, hash: H)
      requires pos.Ok() && pos.layer == 0 && peak.Ok() && Within(pos, peak) && pos.V() < |hs|
      ensures var hs' := hs[pos.V() := hash];
        (Severed(hs', pos, peak, hash) <==> Severed(hs, pos, peak, hash)) && (Matches(hs', pos, peak, hash) <==> Matches(hs, pos, peak, hash))
      ensures forall top: nat :: Ends(hs[pos.V() := hash], pos, peak, hash, top) ==> Ends(hs, pos, peak, hash, top)
      ensures forall top: nat :: 0 < top <= peak.layer ==> Rewritten(hs[pos.V() := hash], pos, hash, top) == Rewritten(hs, pos, hash, top)
    {
      hide P, Aligned, Floor, Bin.V, Bin.IsLeft, Bin.Up, In, Fold, Beside, Rewritten, Unmarked, Marked;
      var hs' := hs[pos.V() := hash];
      forall l: nat | l <= peak.layer
        ensures Fold(hs', pos, hash, l) == Fold(hs, pos, hash, l)
        ensures l < peak.layer ==> Beside(hs', pos, l) == Beside(hs, pos, l) && In(hs', pos.Up(l + 1)) == In(hs, pos.Up(l + 1))
        ensures l > 0 ==> Rewritten(hs', pos, hash, l) == Rewritten(hs, pos, hash, l) {
        StoredFirst(hs, pos, peak, hash, l);
      }
      assert forall l: nat :: l < peak.layer ==> (Full(hs', pos, hash, l) <==> Full(hs, pos, hash, l));
      assert forall l: nat :: CutAt(hs', pos, peak, hash, l) <==> CutAt(hs, pos, peak, hash, l);
      if Matches(hs, pos, peak, hash) {
        var l: nat :| CutAt(hs, pos, peak, hash, l) && Fold(hs, pos, hash, l) == In(hs, pos.Up(l + 1));
        assert CutAt(hs', pos, peak, hash, l);
      }
    }

    /** Beside a sibling not known yet, an offered hash has to be that stored for the parent. */
    lemma CutFirst(hs: seq<H>, pos: Bin, peak: Bin, hash: H)
      requires pos.Ok() && pos.layer == 0 && peak.Ok() && Within(pos, peak) && pos != peak && !Marked(pos)
      requires hash == k.zero || In(hs, pos.Sibling()) == k.zero
      ensures Severed(hs, pos, peak, hash) && (Matches(hs, pos, peak, hash) <==> hash == In(hs, pos.Parent()))
    {
      hide P, Aligned, Floor, Bin.V, In;
      Strictly(pos, peak);
      AncestorAt(pos, peak, 0);
      PathStep(pos, peak, 0);
      assert CutAt(hs, pos, peak, hash, 0);
      CutOnce(hs, pos, peak, hash, 0);
    }

    /** A climb that met no zero on its way to the peak or a proven node is not cut. */
    lemma NotCut(hs: seq<H>, now: seq<H>, pos: Bin, p: Bin, peak: Bin, hash: H, uphash: H)
      requires Climbing(hs, now, pos, peak, hash, p, uphash, true)
      requires p == pos.Up(p.layer) && pos.layer == 0 && (p == peak || Marked(p))
      ensures !Severed(hs, pos, peak, hash)
    {
      hide P, Aligned, Floor, Bin.V, Full, In, Fold, Rewritten;
    }

    /** The hash computed at a place of the climb. */
    ghost predicate Computed(pos: Bin, p: Bin, hash: H, uphash: H)
      reads hashes
    {
      if p.layer == 0 then p == pos && uphash == hash
      else uphash == k.node(Stored(p.Left()), Stored(p.Right())) && Stored(pos) == hash
    }

    /** No node of the path below layer m is marked. */
    ghost predicate Unmarked(pos: Bin, m: nat)
      reads marks
    {
      forall l: nat :: pos.layer <= l < m ==> !Marked(pos.Up(l))
    }

    /** From a true top down, the stored hashes along the path and beside it are true. */
    lemma {:induction false} PathRight(pos: Bin, peak: Bin, i: nat, m: nat, l: nat, t: Bin -> H)
      requires PeaksOf(peaks, chunks) && i < |peaks| && peak == peaks[i] && pos.Ok() && pos.layer == 0 && Within(pos, peak)
      requires Injective(k) && Truth(t, peaks, k)
      requires l < m <= peak.layer && Linked(pos, m + 1) && Stored(pos.Up(m)) == t(pos.Up(m))
      ensures Stored(pos.Up(l)) == t(pos.Up(l)) && Uncle(pos, l) == t(pos.Up(l).Sibling())
      decreases m - l
    {
      hide P, Aligned, Floor, Bin.V, PeaksOf;
      if l < m - 1 {
        PathRight(pos, peak, i, m, l + 1, t);
      }
      var u := pos.Up(l + 1);
      PeakOk(peaks, chunks, i);
      PathStep(pos, peak, l);
      assert Under(u, peaks);
      assert LinkedAt(u);
    }

    /** Overwrites the hash of an unmarked node below a peak. */
    method Place(p: Bin, x: H, ghost t: Bin -> H)
      requires Sound(t) && Under(p, peaks) && p !in peaks && !Marked(p)
      modifies hashes
      ensures Sound(t) && Stored(p) == x && p.V() < hashes.Length && hashes[..] == old(hashes[..])[p.V() := x]
      ensures forall b: Bin :: b.Ok() && b != p ==> Stored(b) == old(Stored(b))
    {
      hide P, Aligned, Floor, Bin.V, BinMap.Valid, BinMap.Has, PeaksOf, ClosedMarks;
      Slot(p);
      hashes[p.V()] := x;
      forall b: Bin | b.Ok() && b != p ensures Stored(b) == old(Stored(b)) {
        if b.V() == p.V() {
          NumberOne(b, p);
        }
      }
      forall j | 0 <= j < |peaks| ensures Stored(peaks[j]) == t(peaks[j]) {
        PeakOk(peaks, chunks, j);
      }
    }

    /** Writing at layer m of a path leaves the links below it and the hashes beside it. */
    method PlaceOnPath(p: Bin, x: H, ghost pos: Bin, ghost peak: Bin, ghost m: nat, ghost hash: H, ghost t: Bin -> H)
      requires Sound(t) && Under(p, peaks) && p !in peaks && !Marked(p)
      requires pos.Ok() && pos.layer == 0 && peak.Ok() && Within(pos, peak) && m < peak.layer && p == pos.Up(m)
      requires Linked(pos, m) && Computed(pos, p, hash, x)
      modifies hashes
      ensures Sound(t) && Stored(p) == x && p.V() < hashes.Length && hashes[..] == old(hashes[..])[p.V() := x]
      ensures Linked(pos, m + 1) && Stored(pos) == hash
      ensures forall b: Bin :: b.Ok() && b != p ==> Stored(b) == old(Stored(b))
      ensures forall l: nat :: l < peak.layer ==> Uncle(pos, l) == old(Uncle(pos, l))
    {
      hide P, Aligned, Floor, Bin.V, Stored, Sound, Shape, BinMap.Has;
      Place(p, x, t);
      forall l: nat | 0 < l < m + 1 ensures LinkedAt(pos.Up(l)) {
        if l < m {
          OtherPlaces(pos, peak, m, l);
          assert old(LinkedAt(pos.Up(l)));
        } else {
          HalvesOk(p);
          assert p.Left() != p && p.Right() != p;
        }
      }
      forall l: nat | l < peak.layer ensures Uncle(pos, l) == old(Uncle(pos, l)) {
        OtherUncle(pos, peak, m, l);
      }
    }

    /** The test of the climb: no peak, nothing accepted under the node, not proven yet. */
    method CanClimb(p: Bin, peak: Bin) returns (go: bool)
      requires Shape() && p.Ok() && p.V() < P(61)
      ensures go <==> p != peak && !Acked(p) && !Marked(p)
    {
      hide Aligned, Bin.V, BinMap.Valid, BinMap.Has, PeaksOf;
      var vacant := IsEmptyBin(ack, p);
      MarkBin(p.V());
      var unproven := IsEmptyBin(marks, Bin(0, p.V()));
      OneMark(marks, p.V());
      go := p != peak && vacant && unproven;
    }

    /** The place of a climb: p is the ancestor of the leaf at its layer, everything below is unmarked, stored and linked. */
    ghost predicate Climbed(pos: Bin, p: Bin, peak: Bin, hash: H, uphash: H)
      reads hashes, marks
    {
      p.Ok() && p.layer <= peak.layer && p == pos.Up(p.layer) && Unmarked(pos, p.layer) &&
      Linked(pos, p.layer) && Computed(pos, p, hash, uphash)
    }

    /** A climb from a true leaf hash, beside true hashes. */
    ghost predicate Good(pos: Bin, p: Bin, peak: Bin, uphash: H, t: Bin -> H)
      reads hashes
    {
      UnclesRight(pos, peak, t) && uphash == t(p)
    }

    /** One step of the climb. */
    method ClimbOne(pos: Bin, from: Bin, peak: Bin, hash: H, carried: H, ghost i: nat, ghost t: Bin -> H)
      returns (p: Bin, uphash: H, whole: bool)
      requires Sound(t) && pos.Ok() && pos.layer == 0 && i < |peaks| && peak == peaks[i] && Within(pos, peak) && Truth(t, peaks, k)
      requires Climbed(pos, from, peak, hash, carried) && from != peak && !Marked(from)
      modifies hashes
      ensures Sound(t) && p.Ok() && p.layer == from.layer + 1 <= peak.layer && p == pos.Up(p.layer) && Unmarked(pos, p.layer)
      ensures forall l: nat :: l < peak.layer ==> Uncle(pos, l) == old(Uncle(pos, l))
      ensures whole ==> Climbed(pos, p, peak, hash, uphash)
      ensures whole <==> carried != k.zero && old(Uncle(pos, from.layer)) != k.zero
      ensures var u := old(Uncle(pos, from.layer));
        uphash == if !whole then carried else if from.IsLeft() then k.node(carried, u) else k.node(u, carried)
      ensures from.V() < hashes.Length && hashes[..] == old(hashes[..])[from.V() := carried]
      ensures whole && old(Good(pos, from, peak, carried, t)) ==> Good(pos, p, peak, uphash, t)
      ensures old(Good(pos, from, peak, carried, t)) && Nonzero(t, peaks, k) ==> whole
    {
      hide P, Aligned, Floor, Bin.V, BinMap.Valid, BinMap.Has, PeaksOf, ClosedMarks, MarksRight, AcksMarked, Nonzero, Truth, Stored;
      ghost var m := from.layer;
      PeakOk(peaks, chunks, i);
      AncestorAt(pos, peak, m);
      NoPeakBelow(pos, from, i, m);
      PathStep(pos, peak, m);
      p := from.Parent();
      assert p == pos.Up(m + 1) && p.layer == m + 1 && Unmarked(pos, m + 1);
      PlaceOnPath(from, carried, pos, peak, m, hash, t);
      uphash := carried;
      assert Under(p.Left(), peaks) && Under(p.Right(), peaks) && Under(p, peaks);
      var left := Read(p.Left());
      var right := Read(p.Right());
      HalvesStored(pos, peak, m, carried);
      if old(Good(pos, from, peak, carried, t)) {
        assert UnclesRight(pos, peak, t);
        TrueHalves(pos, peak, m, t);
      }
      whole := left != k.zero && right != k.zero;
      if whole {
        uphash := k.node(left, right);
      }
    }

    /** The two halves of the next node are the one stored and the one beside it. */
    lemma HalvesStored(pos: Bin, peak: Bin, m: nat, x: H)
      requires pos.Ok() && peak.Ok() && Within(pos, peak) && pos.layer <= m < peak.layer && Stored(pos.Up(m)) == x
      ensures var p := pos.Up(m).Parent();
        if pos.Up(m).IsLeft() then Stored(p.Left()) == x && Stored(p.Right()) == Uncle(pos, m)
        else Stored(p.Right()) == x && Stored(p.Left()) == Uncle(pos, m)
    {
      hide P, Aligned, Floor, Bin.V, Stored;
      PathStep(pos, peak, m);
    }

    /** Reads the hash of a node under a peak. */
    method Read(b: Bin) returns (h: H)
      requires Shape() && Under(b, peaks)
      ensures h == Stored(b)
    {
      hide Bin.V, BinMap.Valid, PeaksOf;
      Slot(b);
      return hashes[b.V()];
    }

    /** Beside true hashes, the halves of the next node have true hashes. */
    lemma TrueHalves(pos: Bin, peak: Bin, m: nat, t: Bin -> H)
      requires pos.Ok() && pos.layer == 0 && peak in peaks && peak.Ok() && Within(pos, peak) && m < peak.layer
      requires Truth(t, peaks, k) && UnclesRight(pos, peak, t) && Stored(pos.Up(m)) == t(pos.Up(m))
      ensures var p := pos.Up(m + 1);
        Stored(p.Left()) == t(p.Left()) && Stored(p.Right()) == t(p.Right()) &&
        t(p) == k.node(t(p.Left()), t(p.Right())) &&
        (Nonzero(t, peaks, k) ==> t(p.Left()) != k.zero && t(p.Right()) != k.zero)
    {
      hide P, Aligned, Floor, Bin.V, Stored;
      PathStep(pos, peak, m);
      assert Uncle(pos, m) == t(pos.Up(m).Sibling());
      var p := pos.Up(m + 1);
      assert Under(p.Left(), peaks) && Under(p.Right(), peaks) && Under(p, peaks);
    }

    lemma NoPeakBelow(pos: Bin, b: Bin, i: nat, m: nat)
      requires PeaksOf(peaks, chunks) && i < |peaks| && pos.Ok() && Within(pos, peaks[i]) && m < peaks[i].layer && pos.layer <= m && b == pos.Up(m)
      ensures b !in peaks && Under(b, peaks)
    {
      hide P, Aligned, Floor;
      AncestorAt(pos, peaks[i], m);
      PeaksCover(peaks, chunks, pos.base);
      assert Under(b, peaks);
      assert b.Has(pos.base) && peaks[i].Has(pos.base) by {
        Mine(pos);
      }
    }

    /** The climb of OfferHash from an unproven leaf: where it ends, what is computed there, and whether no zero hash cut it short. */
    method Walk(pos: Bin, peak: Bin, hash: H, ghost i: nat, ghost t: Bin -> H) returns (p: Bin, uphash: H, whole: bool)
      requires Sound(t) && pos.Ok() && pos.layer == 0 && i < |peaks| && peak == peaks[i] && Within(pos, peak) && pos != peak
      requires !Marked(pos) && !Acked(pos) && Truth(t, peaks, k)
      modifies hashes
      ensures Sound(t) && 0 < p.layer <= peak.layer && p == pos.Up(p.layer) && Unmarked(pos, p.layer)
      ensures forall l: nat :: l < peak.layer ==> Uncle(pos, l) == old(Uncle(pos, l))
      ensures whole ==> Climbed(pos, p, peak, hash, uphash) && (p == peak || Marked(p))
      ensures Climbing(old(hashes[..]), hashes[..], pos, peak, hash, p, uphash, whole)
      ensures NeverZero(k) && old(Clear(pos, peak, hash)) ==> whole
      ensures whole && old(Good(pos, pos, peak, hash, t)) ==> uphash == t(p)
      ensures old(Good(pos, pos, peak, hash, t)) && Nonzero(t, peaks, k) ==> whole
    {
      hide P, Aligned, Floor, Bin.V, BinMap.Valid, BinMap.Has, PeaksOf, ClosedMarks, MarksRight, AcksMarked, Nonzero, Truth, Stored, Linked, Good, Climbing, Beside, Uncle;
      ghost var hs := hashes[..];
      forall l: nat ensures Uncle(pos, l) == Beside(hs, pos, l) {
        BesideIs(pos, l);
      }
      ghost var good := Good(pos, pos, peak, hash, t);
      ghost var clear := NeverZero(k) && Clear(pos, peak, hash);
      PeakOk(peaks, chunks, i);
      AncestorAt(pos, peak, 0);
      NoLinks(pos, peak, hash);
      StartsClimb(hs, pos, peak, hash);
      p, uphash, whole := pos, hash, true;
      NodeBound(pos, i);
      var go := CanClimb(p, peak);
      while go
        invariant Sound(t) && p.Ok() && 0 <= p.layer <= peak.layer && p == pos.Up(p.layer) && Unmarked(pos, p.layer)
        invariant whole ==> Climbed(pos, p, peak, hash, uphash)
        invariant whole ==> (go <==> p != peak && !Acked(p) && !Marked(p))
        invariant go ==> whole
        invariant !go ==> p.layer > 0
        invariant forall l: nat :: l < peak.layer ==> Uncle(pos, l) == old(Uncle(pos, l))
        invariant Climbing(hs, hashes[..], pos, peak, hash, p, uphash, whole)
        invariant clear ==> whole && uphash != k.zero
        invariant good && whole ==> Good(pos, p, peak, uphash, t)
        invariant good && Nonzero(t, peaks, k) ==> whole
        decreases peak.layer - p.layer, go
      {
        ghost var now, from, carried := hashes[..], p, uphash;
        p, uphash, whole := ClimbOne(pos, p, peak, hash, uphash, i, t);
        ClimbingOn(hs, now, hashes[..], pos, peak, hash, from, carried, p, uphash, whole);
        go := false;
        if whole {
          AncestorAt(pos, peak, p.layer);
          NodeBound(p, i);
          go := CanClimb(p, peak);
        }
      }
      if whole && Acked(p) {
        AckedMarked(pos, p, i);
      }
      assert good && whole ==> uphash == t(p) by {
        if good && whole {
          GoodTop(pos, p, peak, uphash, t);
        }
      }
    }

    lemma BesideIs(pos: Bin, l: nat)
      ensures Uncle(pos, l) == Beside(hashes[..], pos, l)
    {
    }

    lemma StartsClimb(hs: seq<H>, pos: Bin, peak: Bin, hash: H)
      requires pos.layer == 0
      ensures Climbing(hs, hs, pos, peak, hash, pos, hash, true)
    {
    }

    lemma GoodTop(pos: Bin, p: Bin, peak: Bin, uphash: H, t: Bin -> H)
      requires Good(pos, p, peak, uphash, t)
      ensures uphash == t(p)
    {
    }

    lemma NoLinks(pos: Bin, peak: Bin, hash: H)
      requires pos.Ok() && pos.layer == 0 && pos == pos.Up(0)
      ensures Climbed(pos, pos, peak, hash, hash)
    {
    }

    lemma AckedMarked(pos: Bin, p: Bin, i: nat)
      requires PeaksOf(peaks, chunks) && AcksMarked() && i < |peaks| && pos.Ok() && Within(pos, peaks[i])
      requires 0 < p.layer <= peaks[i].layer && p == pos.Up(p.layer) && pos.layer == 0 && Acked(p)
      ensures Marked(p)
    {
      hide P, Aligned, Floor, Bin.V;
      AncestorAt(pos, peaks[i], p.layer);
      assert Under(p, peaks);
    }

    lemma NodeBound(b: Bin, i: nat)
      requires chunks < P(60) && PeaksOf(peaks, chunks) && i < |peaks| && b.Ok() && Within(b, peaks[i])
      ensures b.V() < P(61)
    {
      hide Aligned;
      PeaksBelow(peaks, chunks, i);
      NumberBelow(b);
    }

    // ----------------------------------------------------------------
    // Marking

    /** Marks one node, by its number. */
    method Mark(p: Bin)
      requires marks.Valid() && p.V() < P(63) - 1
      modifies marks
      ensures marks.Valid() && forall v: nat :: marks.Has(v) <==> old(marks.Has(v)) || v == p.V()
    {
      hide P, Aligned, BinMap.Valid, BinMap.Has, Bin.V;
      MarkBin(p.V());
      OnlyChunk(p.V());
      marks.Set(Bin(0, p.V()));
    }

    /** Marks the leaf, the siblings above it up to the layer of the peak, and its ancestors up to the peak. */
    method MarkPath(pos: Bin, peak: Bin, ghost i: nat)
      requires Shape() && pos.Ok() && pos.layer == 0 && i < |peaks| && peak == peaks[i] && Within(pos, peak) && pos != peak
      modifies marks
      ensures marks.Valid() && MarkSet() == old(MarkSet()) + PathMarks(pos, peak)
    {
      hide P, Aligned, Floor, Bin.V, BinMap.Valid, BinMap.Has, PeaksOf, SiblingTo, AncestorTo;
      PeakOk(peaks, chunks, i);
      AncestorAt(pos, peak, 0);
      NodeBound(pos, i);
      SmallNumbers();
      NothingYet(pos);
      var p := pos;
      Mark(p);
      while p.layer != peak.layer
        invariant marks.Valid() && p.layer <= peak.layer && p == if p.layer == 0 then pos else pos.Up(p.layer).Sibling()
        invariant forall v: nat :: marks.Has(v) <==> old(marks.Has(v)) || v == pos.V() || SiblingTo(pos, p.layer, v)
        decreases peak.layer - p.layer
      {
        ghost var m := p.layer;
        PathStep(pos, peak, m);
        SiblingBound(pos, peak, m + 1, i);
        SiblingMore(pos, m);
        p := p.Parent().Sibling();
        Mark(p);
      }
      p := pos;
      while p != peak
        invariant marks.Valid() && p.layer <= peak.layer && p == pos.Up(p.layer)
        invariant forall v: nat :: marks.Has(v) <==>
          old(marks.Has(v)) || v == pos.V() || SiblingTo(pos, peak.layer, v) || AncestorTo(pos, p.layer, v)
        decreases peak.layer - p.layer
      {
        ghost var m := p.layer;
        AncestorAt(pos, peak, peak.layer);
        PathStep(pos, peak, m);
        AncestorAt(pos, peak, m + 1);
        NodeBound(pos.Up(m + 1), i);
        AncestorMore(pos, m);
        p := p.Parent();
        Mark(p);
      }
      forall v: nat ensures v in MarkSet() <==> v in old(MarkSet()) + PathMarks(pos, peak) {
        WholePath(pos, peak, v);
      }
    }

    lemma SiblingBound(pos: Bin, peak: Bin, l: nat, i: nat)
      requires Shape() && pos.Ok() && pos.layer == 0 && i < |peaks| && peak == peaks[i] && Within(pos, peak) && l <= peak.layer
      ensures pos.Up(l).Sibling().V() < P(63) - 1 && pos.Up(l).Sibling().layer == l
    {
      hide Aligned, Floor, BinMap.Valid;
      AncestorAt(pos, peak, l);
      PeaksBelow(peaks, chunks, i);
      SmallNumbers();
      NumberBelow(pos.Up(l));
      PowerMonotone(l, peak.layer);
      BinSmall(pos.Up(l), chunks);
    }

    /** The nodes that an accepted path marks have true hashes. */
    lemma PathMarksRight(pos: Bin, p: Bin, i: nat, hash: H, uphash: H, t: Bin -> H, b: Bin)
      requires Sound(t) && pos.Ok() && pos.layer == 0 && i < |peaks| && Within(pos, peaks[i]) && pos != peaks[i]
      requires Injective(k) && Truth(t, peaks, k) && 0 < p.layer && Climbed(pos, p, peaks[i], hash, uphash)
      requires (p == peaks[i] || Marked(p)) && uphash == Stored(p)
      requires Under(b, peaks) && b.V() in PathMarks(pos, peaks[i])
      ensures Stored(b) == t(b) && hash == t(pos)
    {
      hide P, Aligned, Floor, Bin.V, BinMap.Valid, BinMap.Has, PeaksOf, Stored, Injective, Truth, ClosedMarks, OnPath;
      var peak := peaks[i];
      PeakOk(peaks, chunks, i);
      AncestorAt(pos, peak, p.layer);
      AncestorAt(pos, peak, 0);
      assert Under(p, peaks);
      assert Linked(pos, p.layer + 1);
      PathRight(pos, peak, i, p.layer, 0, t);
      if b.V() == pos.V() {
        NumberOne(b, pos);
      } else {
        var l: nat :| OnPath(pos, peak, l, b.V());
        PeakLow(i);
        OnPathCase(b, pos, peaks, chunks, i, l);
        AncestorAt(pos, peak, l);
        if l < p.layer {
          PathRight(pos, peak, i, p.layer, l, t);
        } else {
          MarkedAbove(pos, peak, i, p, l);
        }
      }
    }

    /** Above a marked node of a path every ancestor is marked or the peak, and beside it every sibling is marked. */
    lemma {:induction false} MarkedAbove(pos: Bin, peak: Bin, i: nat, p: Bin, l: nat)
      requires Shape() && ClosedMarks(MarkSet(), peaks) && pos.Ok() && pos.layer == 0 && i < |peaks| && peak == peaks[i] && Within(pos, peak)
      requires 0 < p.layer <= l <= peak.layer && p == pos.Up(p.layer) && (p == peak || Marked(p))
      ensures pos.Up(l) == peak || Marked(pos.Up(l))
      ensures l < peak.layer ==> Marked(pos.Up(l).Sibling())
      decreases l
    {
      hide P, Aligned, Floor, Bin.V, BinMap.Valid, BinMap.Has, PeaksOf;
      PeakOk(peaks, chunks, i);
      AncestorAt(pos, peak, l);
      if l > p.layer {
        MarkedAbove(pos, peak, i, p, l - 1);
        PathStep(pos, peak, l - 1);
        NoPeakBelow(pos, pos.Up(l - 1), i, l - 1);
        assert Marked(pos.Up(l - 1));
      }
      if l < peak.layer {
        NoPeakBelow(pos, pos.Up(l), i, l);
      }
    }

    lemma PeakLow(i: nat)
      requires chunks < P(60) && PeaksOf(peaks, chunks) && i < |peaks|
      ensures peaks[i].layer < 60
    {
      hide Aligned;
      PeaksBelow(peaks, chunks, i);
      if peaks[i].layer >= 60 {
        PowerMonotone(60, peaks[i].layer);
        assert false;
      }
    }

    /** What a climb that succeeds shows about the path it marks. */
    lemma ClimbProves(pos: Bin, peak: Bin, i: nat, p: Bin, hash: H, uphash: H, t: Bin -> H)
      requires Sound(t) && pos.Ok() && pos.layer == 0 && i < |peaks| && peak == peaks[i] && Within(pos, peak) && pos != peak
      requires Injective(k) && Truth(t, peaks, k) && 0 < p.layer && Climbed(pos, p, peak, hash, uphash)
      requires (p == peak || Marked(p)) && uphash == Stored(p)
      ensures hash == t(pos) && ClosedMarks(MarkSet() + PathMarks(pos, peak), peaks)
      ensures forall b: Bin :: Under(b, peaks) && b.V() in PathMarks(pos, peak) ==> Stored(b) == t(b)
    {
      hide P, Aligned, Floor, Bin.V, BinMap.Valid, BinMap.Has, PeaksOf, ClosedMarks, Stored, Injective, Truth, Climbed, PathMarks;
      forall b: Bin | Under(b, peaks) && b.V() in PathMarks(pos, peak) ensures Stored(b) == t(b) {
        PathMarksRight(pos, p, i, hash, uphash, t, b);
      }
      StartsPath(pos, peak);
      assert Under(pos, peaks);
      PathMarksRight(pos, p, i, hash, uphash, t, pos);
      PeakLow(i);
      PathClosed(MarkSet(), pos, peaks, chunks, i);
    }

    /** So are the hashes beside it. */
    lemma UnclesProved(pos: Bin, i: nat, p: Bin, hash: H, uphash: H, t: Bin -> H)
      requires Sound(t) && pos.Ok() && pos.layer == 0 && i < |peaks| && Within(pos, peaks[i]) && pos != peaks[i]
      requires Injective(k) && Truth(t, peaks, k) && 0 < p.layer && Climbed(pos, p, peaks[i], hash, uphash)
      requires (p == peaks[i] || Marked(p)) && uphash == Stored(p)
      ensures UnclesRight(pos, peaks[i], t)
    {
      hide P, Aligned, Floor, Bin.V, BinMap.Valid, BinMap.Has, PeaksOf, Stored, Injective, Truth, ClosedMarks;
      var peak := peaks[i];
      PeakOk(peaks, chunks, i);
      AncestorAt(pos, peak, p.layer);
      assert Under(p, peaks);
      assert Linked(pos, p.layer + 1);
      forall l: nat | l < peak.layer ensures Uncle(pos, l) == t(pos.Up(l).Sibling()) {
        if l < p.layer {
          PathRight(pos, peak, i, p.layer, l, t);
        } else {
          MarkedAbove(pos, peak, i, p, l);
          PathStep(pos, peak, l);
          assert Under(pos.Up(l).Sibling(), peaks);
        }
      }
    }

    /** Checks a leaf that has been stored in the file hs: climbs, compares, and marks the path on success. */
    method CheckLeaf(pos: Bin, peak: Bin, hash: H, ghost hs: seq<H>, ghost i: nat, ghost t: Bin -> H) returns (ok: bool, whole: bool, ghost top: nat)
      requires Sound(t) && pos.Ok() && pos.layer == 0 && i < |peaks| && peak == peaks[i] && Within(pos, peak) && pos != peak
      requires !Marked(pos) && !Acked(pos) && Injective(k) && Truth(t, peaks, k)
      requires pos.V() < |hs| && hashes[..] == hs[pos.V() := hash]
      modifies hashes, marks
      ensures Shape() && (whole || !ok ==> Sound(t))
      ensures whole <==> !old(Severed(hs, pos, peak, hash))
      ensures if whole then ok <==> hash == t(pos) && old(UnclesRight(pos, peak, t)) else ok <==> old(Matches(hs, pos, peak, hash))
      ensures old(Ends(hs, pos, peak, hash, top)) && hashes[..] == Rewritten(hs, pos, hash, top)
      ensures NeverZero(k) && old(Clear(pos, peak, hash)) ==> whole
      ensures old(Good(pos, pos, peak, hash, t)) && Nonzero(t, peaks, k) ==> whole
      ensures MarkSet() == if ok then old(MarkSet()) + PathMarks(pos, peak) else old(MarkSet())
    {
      hide P, Aligned, Floor, Bin.V, BinMap.Valid, BinMap.Has, PeaksOf, ClosedMarks, Stored, Injective, Truth, Climbed, PathMarks, Nonzero, Climbing, Rewritten, Severed, Matches, CutAt, Ends;
      PeakOk(peaks, chunks, i);
      var p, uphash;
      p, uphash, whole := Walk(pos, peak, hash, i, t);
      top := p.layer;
      WalkEnds(hs[pos.V() := hash], hashes[..], pos, peak, hash, p, uphash, whole);
      SameClimb(hs, pos, peak, hash);
      assert Ends(hs, pos, peak, hash, top);
      AncestorAt(pos, peak, p.layer);
      assert Under(p, peaks);
      if whole {
        TopRight(p, i, t);
      }
      var stored := Read(p);
      StoredIs(p);
      ok := uphash == stored;
      if ok {
        if whole {
          ClimbProves(pos, peak, i, p, hash, uphash, t);
          UnclesProved(pos, i, p, hash, uphash, t);
        }
        MarkPath(pos, peak, i);
        assert forall b: Bin :: Marked(b) <==> b.V() in MarkSet();
      }
    }

    lemma StoredIs(p: Bin)
      ensures Stored(p) == In(hashes[..], p)
    {
    }

    /** Where a climb ends, and what its comparison shows if it was cut. */
    lemma WalkEnds(hs: seq<H>, now: seq<H>, pos: Bin, peak: Bin, hash: H, p: Bin, uphash: H, whole: bool)
      requires Climbing(hs, now, pos, peak, hash, p, uphash, whole) && pos.Ok() && pos.layer == 0 && peak.Ok() && Within(pos, peak)
      requires 0 < p.layer <= peak.layer && p == pos.Up(p.layer) && Unmarked(pos, p.layer) && (whole ==> p == peak || Marked(p))
      ensures whole <==> !Severed(hs, pos, peak, hash)
      ensures !whole ==> (uphash == In(now, p) <==> Matches(hs, pos, peak, hash))
      ensures Ends(hs, pos, peak, hash, p.layer) && now == Rewritten(hs, pos, hash, p.layer)
    {
      hide P, Aligned, Floor, Bin.V, In, Fold, Bin.Up, Rewritten;
      if whole {
        NotCut(hs, now, pos, p, peak, hash, uphash);
      } else {
        CutOnce(hs, pos, peak, hash, p.layer - 1);
        AncestorAt(pos, peak, p.layer);
        RewrittenIs(hs, pos, peak, hash, p.layer, p);
      }
    }

    lemma TopRight(p: Bin, i: nat, t: Bin -> H)
      requires Sound(t) && i < |peaks| && Under(p, peaks) && (p == peaks[i] || Marked(p))
      ensures Stored(p) == t(p)
    {
      hide P, Aligned, Floor, Bin.V, BinMap.Valid, BinMap.Has, PeaksOf, ClosedMarks, Stored;
    }

    /** Stores an unproven hash; the hashes beside the path of a leaf stay. */
    method Store(pos: Bin, peak: Bin, hash: H, ghost i: nat, ghost t: Bin -> H)
      requires Sound(t) && pos.Ok() && i < |peaks| && peak == peaks[i] && Within(pos, peak) && pos != peak && !Marked(pos)
      modifies hashes
      ensures Sound(t) && Stored(pos) == hash && pos.V() < hashes.Length && hashes[..] == old(hashes[..])[pos.V() := hash]
      ensures forall b: Bin :: b.Ok() && b != pos ==> Stored(b) == old(Stored(b))
      ensures pos.layer == 0 ==> forall l: nat :: l < peak.layer ==> Uncle(pos, l) == old(Uncle(pos, l))
    {
      hide P, Aligned, Floor, Bin.V, BinMap.Valid, BinMap.Has, PeaksOf, ClosedMarks, Stored, MarksRight, AcksMarked;
      PeakOk(peaks, chunks, i);
      Strictly(pos, peak);
      AncestorAt(pos, peak, pos.layer);
      NoPeakBelow(pos, pos, i, pos.layer);
      Place(pos, hash, t);
      if pos.layer == 0 {
        forall l: nat | l < peak.layer ensures Uncle(pos, l) == old(Uncle(pos, l)) {
          OtherUncle(pos, peak, 0, l);
        }
      }
    }

    /** A true leaf hash beside true hashes, with nothing accepted next to it. */
    ghost predicate Acceptable(pos: Bin, peak: Bin, hash: H, t: Bin -> H)
      reads ack, hashes
    {
      pos.layer == 0 && Within(pos, peak) && !Acked(pos.Parent()) &&
      hash == t(pos) && Nonzero(t, peaks, k) && UnclesRight(pos, peak, t)
    }

    /** Nothing is accepted next to the node, and no hash in the way of a climb is zero. */
    ghost predicate Decided(pos: Bin, hash: H)
      reads ack, hashes
    {
      !Acked(pos.Parent()) && NeverZero(k) && AllClear(pos, hash)
    }

    /** What the state says becomes of an offer: a leaf that nothing decides is checked by a climb. */
    ghost function Route(pos: Bin, hash: H): Outcome
      reads ack, marks, hashes
    {
      if !Under(pos, peaks) then Refused
      else if pos in peaks then Compared
      else if Acked(pos.Parent()) then Early
      else if Marked(pos) then Compared
      else if pos.layer > 0 then Kept
      else if exists j :: 0 <= j < |peaks| && Within(pos, peaks[j]) && Severed(hashes[..], pos, peaks[j], hash) then Cut
      else Walked
    }

    /** Neither the offered hash nor one beside the path to a peak is zero. */
    ghost predicate AllClear(pos: Bin, hash: H)
      reads hashes
    {
      forall j :: 0 <= j < |peaks| && Within(pos, peaks[j]) ==> Clear(pos, peaks[j], hash)
    }

    /** OfferHash on a tree of known size: the outcome and the answer are those of the state before. */
    method OfferHash(pos: Bin, hash: H, ghost t: Bin -> H) returns (ok: bool, ghost how: Outcome, ghost i: nat, ghost top: nat)
      requires Sound(t) && pos.Ok() && Injective(k) && Truth(t, peaks, k)
      modifies hashes, marks
      ensures Shape() && (how != Cut || !ok ==> Sound(t))
      ensures how != Refused ==> i < |peaks| && Within(pos, peaks[i])
      ensures how == old(Route(pos, hash))
      ensures how == Cut ==> !(NeverZero(k) && old(Clear(pos, peaks[i], hash)))
      ensures how == Refused || how == Kept ==> !ok
      ensures how == Compared ==> (ok <==> hash == t(pos))
      ensures how == Early ==> (ok <==> hash == old(Stored(pos)))
      ensures how == Walked ==> (ok <==> hash == t(pos) && old(UnclesRight(pos, peaks[i], t)))
      ensures how == Cut ==> (ok <==> old(Matches(hashes[..], pos, peaks[i], hash)))
      ensures how == Walked || how == Cut ==> old(Ends(hashes[..], pos, peaks[i], hash, top))
      ensures how == Walked || how == Cut ==> hashes[..] == Rewritten(old(hashes[..]), pos, hash, top)
      ensures MarkSet() == if ok && (how == Walked || how == Cut) then old(MarkSet()) + PathMarks(pos, peaks[i]) else old(MarkSet())
      ensures how == Refused || how == Compared || how == Early ==> hashes[..] == old(hashes[..])
      ensures how == Kept ==> Stored(pos) == hash && forall b: Bin :: b.Ok() && b != pos ==> Stored(b) == old(Stored(b))
      ensures how != Refused && old(Acceptable(pos, peaks[i], hash, t)) ==> ok && how != Cut
      ensures old(Decided(pos, hash)) ==> Sound(t) && (ok ==> hash == t(pos))
    {
      hide P, Aligned, Floor, Bin.V, BinMap.Valid, BinMap.Has, PeaksOf, ClosedMarks, Stored, Injective, Truth, Climbed, PathMarks, Nonzero, MarksRight, AcksMarked, NeverZero, Severed, Matches, CutAt, Ends, Rewritten;
      how := Refused;
      var peak;
      peak, i := PeakFor(pos);
      if peak == NONE {
        return false, how, i, 0;
      }
      assert Under(pos, peaks);
      PeakOk(peaks, chunks, i);
      if peak == pos {
        var h := Read(pos);
        TopRight(pos, i, t);
        return hash == h, Compared, i, 0;
      }
      Strictly(pos, peak);
      PathStep(pos, peak, pos.layer);
      AncestorAt(pos, peak, pos.layer);
      NoPeakBelow(pos, pos, i, pos.layer);
      var vacant := IsEmptyBin(ack, pos.Parent());
      if !vacant {
        var h := Read(pos);
        return hash == h, Early, i, 0;
      }
      NodeBound(pos, i);
      SmallNumbers();
      MarkBin(pos.V());
      OneMark(marks, pos.V());
      var unproven := IsEmptyBin(marks, Bin(0, pos.V()));
      if !unproven {
        var h := Read(pos);
        TopRight(pos, i, t);
        return hash == h, Compared, i, 0;
      }
      ghost var hs := hashes[..];
      Store(pos, peak, hash, i, t);
      if pos.layer != 0 {
        return false, Kept, i, 0;
      }
      NotAcked(pos);
      OnePeak(pos, i);
      var whole;
      ok, whole, top := CheckLeaf(pos, peak, hash, hs, i, t);
      how := if whole then Walked else Cut;
    }

    /** OfferData: a chunk whose hash is accepted is acknowledged; ack here is the map of accepted chunks. */
    method OfferData(pos: Bin, hash: H, partial: bool, ghost t: Bin -> H) returns (ok: bool, ghost how: Outcome, ghost i: nat)
      requires Sound(t) && pos.Ok() && Injective(k) && Truth(t, peaks, k)
      modifies hashes, marks, ack
      ensures how != Cut || !ok ==> Sound(t)
      ensures forall c: nat :: ack.Has(c) <==> old(ack.Has(c)) || (ok && pos == Bin(0, c))
      ensures how == old(DataRoute(pos, hash, partial))
      ensures how == Cut ==> !(NeverZero(k) && old(AllClear(pos, hash)))
      ensures how == Refused ==> !ok
      ensures how == Held ==> ok
      ensures how == Compared ==> (ok <==> hash == t(pos))
      ensures how == Early ==> (ok <==> hash == old(Stored(pos)))
      ensures how == Walked ==> (ok <==> hash == t(pos) && old(AllUncles(pos, t)))
      ensures how == Cut ==> (ok <==> old(AllMatch(pos, hash)))
      ensures how == Walked || how == Cut ==> i < |peaks| && Within(pos, peaks[i])
      ensures how != Walked && how != Cut ==> hashes[..] == old(hashes[..])
      ensures MarkSet() == if ok && (how == Walked || how == Cut) then old(MarkSet()) + PathMarks(pos, peaks[i]) else old(MarkSet())
      ensures (!partial || pos.base == chunks - 1) && old(Due(pos, hash, t)) ==> ok
      ensures old(Decided(pos, hash)) ==> Sound(t) && (ok ==> hash == t(pos))
    {
      hide P, Aligned, Floor, Bin.V, BinMap.Valid, BinMap.Has, PeaksOf, ClosedMarks, Stored, Injective, Truth, MarksRight, Ends, Rewritten, PathMarks, Severed, Matches;
      how, i := Refused, 0;
      ghost var top;
      ok := false;
      if pos.layer != 0 || (partial && pos.base != chunks - 1) {
        return;
      }
      var held := IsFilledBin(ack, pos);
      OneHeld(pos);
      if held {
        HeldBeside(pos);
        return true, Held, i;
      }
      var peak, j := PeakFor(pos);
      if peak == NONE {
        return;
      }
      ok, how, i, top := OfferHash(pos, hash, t);
      OnePeak(pos, i);
      assert how != Kept && how != Refused;
      if !ok {
        return;
      }
      assert how == Compared ==> pos in peaks || old(Marked(pos));
      assert how == Compared && pos !in peaks ==> pos.V() in MarkSet();
      forall b: Bin | how != Cut && Under(b, peaks) && b.layer > 0 && b.Has(pos.base) ensures Marked(b) {
        OverAccepted(pos, i, how, b);
      }
      ghost var marked := MarkSet();
      AcceptChunk(pos, t, how != Cut);
      assert MarkSet() == marked;
    }

    /** What the state says becomes of a chunk. */
    ghost function DataRoute(pos: Bin, hash: H, partial: bool): Outcome
      reads ack, marks, hashes
    {
      if pos.layer != 0 || (partial && pos.base != chunks - 1) then Refused
      else if ack.Has(pos.base) then Held
      else Route(pos, hash)
    }

    /** A climb that is cut carries what is stored for the next node. */
    ghost predicate AllMatch(pos: Bin, hash: H)
      reads hashes, marks
    {
      forall j :: 0 <= j < |peaks| && Within(pos, peaks[j]) ==> Matches(hashes[..], pos, peaks[j], hash)
    }

    ghost predicate AllUncles(pos: Bin, t: Bin -> H)
      reads hashes
    {
      forall j :: 0 <= j < |peaks| && Within(pos, peaks[j]) ==> UnclesRight(pos, peaks[j], t)
    }

    lemma HeldBeside(pos: Bin)
      requires pos.Ok() && pos.layer == 0 && ack.Has(pos.base)
      ensures Acked(pos.Parent())
    {
      hide BinMap.Has, Aligned, Floor;
      UpSpec(pos, 1);
      assert pos.Parent().Has(pos.base);
    }

    /** The chunk's hash is one that OfferHash has to accept. */
    ghost predicate Due(pos: Bin, hash: H, t: Bin -> H)
      reads ack, hashes
    {
      exists j :: 0 <= j < |peaks| && Acceptable(pos, peaks[j], hash, t)
    }

    lemma OnePeak(pos: Bin, i: nat)
      requires PeaksOf(peaks, chunks) && pos.Ok() && pos.layer == 0 && i < |peaks| && Within(pos, peaks[i])
      ensures forall j :: 0 <= j < |peaks| && Within(pos, peaks[j]) ==> j == i
    {
      hide PeaksOf, Bin.Ok;
      PeaksCover(peaks, chunks, pos.base);
      assert peaks[i].Has(pos.base);
      forall j | 0 <= j < |peaks| && Within(pos, peaks[j]) ensures j == i {
        assert peaks[j].Has(pos.base);
      }
    }

    /** Acknowledges a chunk all of whose inner nodes are marked. */
    method AcceptChunk(pos: Bin, ghost t: Bin -> H, ghost sure: bool)
      requires Shape() && pos.Ok() && pos.layer == 0
      requires sure ==> Sound(t) && forall b: Bin :: Under(b, peaks) && b.layer > 0 && b.Has(pos.base) ==> Marked(b)
      modifies ack
      ensures ack.Valid() && (sure ==> Sound(t))
      ensures forall c: nat :: ack.Has(c) <==> old(ack.Has(c)) || pos == Bin(0, c)
    {
      hide P, Aligned, Floor, Bin.V, BinMap.Valid, BinMap.Has, PeaksOf, ClosedMarks, MarksRight;
      OnlyChunk(pos.base);
      ack.Set(pos);
      if sure {
        forall b: Bin | Under(b, peaks) && b.layer > 0 && Acked(b) ensures Marked(b) {
          ghost var c: nat :| b.Has(c) && ack.Has(c);
          assert c == pos.base || old(Acked(b));
        }
      }
    }

    /** Every inner node over an accepted chunk is marked. */
    lemma OverAccepted(pos: Bin, i: nat, how: Outcome, b: Bin)
      requires Shape() && ClosedMarks(MarkSet(), peaks) && AcksMarked() && pos.Ok() && pos.layer == 0
      requires i < |peaks| && Within(pos, peaks[i])
      requires how == Compared || how == Early || how == Walked
      requires how == Compared ==> pos in peaks || Marked(pos)
      requires how == Early ==> Acked(pos.Parent())
      requires how == Walked ==> forall v: nat :: v in PathMarks(pos, peaks[i]) ==> marks.Has(v)
      requires Under(b, peaks) && b.layer > 0 && b.Has(pos.base)
      ensures Marked(b)
    {
      hide P, Aligned, Floor, Bin.V, BinMap.Valid, BinMap.Has, PeaksOf, ClosedMarks;
      var peak := peaks[i];
      PeakOk(peaks, chunks, i);
      BelowSame(pos, i, b);
      if how == Early {
        AncestorAt(pos, b, 1);
        PathStep(pos, b, 0);
        assert forall c: nat :: pos.Parent().Has(c) ==> b.Has(c);
      } else if how == Walked {
        assert OnPath(pos, peak, b.layer, b.V());
      } else {
        AncestorsMarked(pos, i, b.layer);
      }
    }

    /** A bin under the peaks with a chunk of a peak is under that peak, and an ancestor of the chunk. */
    lemma BelowSame(pos: Bin, i: nat, b: Bin)
      requires PeaksOf(peaks, chunks) && i < |peaks| && pos.Ok() && pos.layer == 0 && Within(pos, peaks[i])
      requires Under(b, peaks) && b.layer > 0 && b.Has(pos.base)
      ensures b == pos.Up(b.layer) && b.layer <= peaks[i].layer && Within(pos, b) && pos != peaks[i] && pos !in peaks
    {
      hide P, Aligned, Floor;
      PeakOk(peaks, chunks, i);
      UpUnique(pos, b);
      UpSpec(pos, b.layer);
      PeaksCover(peaks, chunks, pos.base);
      Mine(pos);
      var j :| 0 <= j < |peaks| && Within(b, peaks[j]);
      assert peaks[j].Has(pos.base) && peaks[i].Has(pos.base);
      ContainsMeaning(peaks[i], b);
      NestedOrDisjoint(peaks[i], b);
    }

    lemma {:induction false} AncestorsMarked(pos: Bin, i: nat, l: nat)
      requires PeaksOf(peaks, chunks) && ClosedMarks(MarkSet(), peaks) && i < |peaks| && pos.Ok() && pos.layer == 0 && Within(pos, peaks[i])
      requires Marked(pos) && l <= peaks[i].layer
      ensures Marked(pos.Up(l))
    {
      hide P, Aligned, Floor, Bin.V, BinMap.Has, PeaksOf;
      PeakOk(peaks, chunks, i);
      AncestorAt(pos, peaks[i], l);
      if l > 0 {
        AncestorsMarked(pos, i, l - 1);
        PathStep(pos, peaks[i], l - 1);
        NoPeakBelow(pos, pos.Up(l - 1), i, l - 1);
      }
    }

    lemma OneHeld(pos: Bin)
      requires pos.layer == 0 && pos.Ok()
      ensures AllFilled(ack, pos) <==> ack.Has(pos.base)
      ensures pos == Bin(0, pos.base)
    {
      hide BinMap.Has;
      assert pos.Has(pos.base);
    }

    lemma NotAcked(pos: Bin)
      requires pos.Ok() && pos.layer < 63 && !Acked(pos.Parent())
      ensures !Acked(pos)
    {
      hide P, Aligned, Floor, BinMap.Has;
      ParentOk(pos);
      forall c: nat | pos.Has(c) ensures !ack.Has(c) {
        assert pos.Parent().Has(c);
      }
    }
  }

  /** How an offered hash was dealt with: no peak over it; compared with a proven hash; compared early, beside accepted data;
      only stored; checked by a whole climb; or by a climb that a zero hash cut short. */
  datatype Outcome = Refused | Held | Compared | Early | Kept | Walked | Cut

  lemma Strictly(b: Bin, c: Bin)
    requires b.Ok() && c.Ok() && Within(b, c) && b != c
    ensures b.layer < c.layer
  {
    hide P, Aligned, Floor;
    ContainsMeaning(c, b);
    NestedOrDisjoint(c, b);
  }

  lemma StartsPath(pos: Bin, peak: Bin)
    ensures pos.V() in PathMarks(pos, peak)
  {
  }

  /** Bin numbers of a file are far from the end of the number space. */
  lemma MarkBin(v: nat)
    requires v < P(63) - 1
    ensures Bin(0, v).Ok()
  {
  }

  lemma OneMark(m: BinMap, v: nat)
    ensures AllEmpty(m, Bin(0, v)) <==> !m.Has(v)
  {
    hide BinMap.Has;
    assert Bin(0, v).Has(v);
  }

  lemma OnlyChunk(v: nat)
    ensures forall c: nat :: Bin(0, v).Has(c) <==> c == v
    ensures Bin(0, v) != NONE
  {
  }

  lemma SmallNumbers()
    ensures P(61) < P(63) - 1 && P(62) < P(63) - 1 && P(60) < P(61) < P(62)
  {
    PowerMonotone(32, 60);
    SmallPowers();
  }

  lemma BinSmall(b: Bin, n: nat)
    requires b.Ok() && b.End() <= n < P(60)
    ensures b.Sibling().V() < P(63) - 1
  {
    hide Aligned;
    SmallNumbers();
    FloorSpec(b.base, b.layer + 1);
    assert b.Sibling().base <= b.base + P(b.layer);
  }

  ghost predicate SiblingTo(pos: Bin, m: nat, v: nat) {
    exists l: nat :: SiblingAt(pos, m, l, v)
  }

  ghost predicate SiblingAt(pos: Bin, m: nat, l: nat, v: nat) {
    0 < l <= m && v == pos.Up(l).Sibling().V()
  }

  ghost predicate AncestorTo(pos: Bin, m: nat, v: nat) {
    exists l: nat :: AncestorOf(pos, m, l, v)
  }

  ghost predicate AncestorOf(pos: Bin, m: nat, l: nat, v: nat) {
    0 < l <= m && v == pos.Up(l).V()
  }

  lemma NothingYet(pos: Bin)
    ensures forall v: nat :: !SiblingTo(pos, 0, v) && !AncestorTo(pos, 0, v)
  {
  }

  lemma SiblingMore(pos: Bin, m: nat)
    ensures forall v: nat :: SiblingTo(pos, m + 1, v) <==> SiblingTo(pos, m, v) || v == pos.Up(m + 1).Sibling().V()
  {
    hide Bin.V, Bin.Sibling;
    var n := m + 1;
    forall v: nat ensures SiblingTo(pos, m + 1, v) <==> SiblingTo(pos, m, v) || v == pos.Up(m + 1).Sibling().V() {
      if v == pos.Up(m + 1).Sibling().V() {
        assert SiblingAt(pos, m + 1, m + 1, v);
      }
      if l: nat :| SiblingAt(pos, n, l, v) {
        assert l == m + 1 || SiblingAt(pos, m, l, v);
      }
      if l: nat :| SiblingAt(pos, m, l, v) {
        assert SiblingAt(pos, m + 1, l, v);
      }
    }
  }

  lemma AncestorMore(pos: Bin, m: nat)
    ensures forall v: nat :: AncestorTo(pos, m + 1, v) <==> AncestorTo(pos, m, v) || v == pos.Up(m + 1).V()
  {
    hide Bin.V;
    var n := m + 1;
    forall v: nat ensures AncestorTo(pos, m + 1, v) <==> AncestorTo(pos, m, v) || v == pos.Up(m + 1).V() {
      if v == pos.Up(m + 1).V() {
        assert AncestorOf(pos, m + 1, m + 1, v);
      }
      if l: nat :| AncestorOf(pos, n, l, v) {
        assert l == m + 1 || AncestorOf(pos, m, l, v);
      }
      if l: nat :| AncestorOf(pos, m, l, v) {
        assert AncestorOf(pos, m + 1, l, v);
      }
    }
  }

  lemma WholePath(pos: Bin, peak: Bin, v: nat)
    requires pos.layer == 0
    ensures v in PathMarks(pos, peak) <==> v == pos.V() || SiblingTo(pos, peak.layer, v) || AncestorTo(pos, peak.layer, v)
  {
    hide Bin.V, Bin.Sibling;
    if l: nat :| OnPath(pos, peak, l, v) {
      assert SiblingAt(pos, peak.layer, l, v) || AncestorOf(pos, peak.layer, l, v);
    }
    if l: nat :| SiblingAt(pos, peak.layer, l, v) {
      assert OnPath(pos, peak, l, v);
    }
    if l: nat :| AncestorOf(pos, peak.layer, l, v) {
      assert OnPath(pos, peak, l, v);
    }
  }

  /** A marked number under a peak belongs to the ancestor or to its sibling, the latter only below the peak. */
  lemma OnPathCase(b: Bin, pos: Bin, peaks: seq<Bin>, n: nat, i: nat, l: nat)
    requires PeaksOf(peaks, n) && i < |peaks| && pos.Ok() && pos.layer == 0 && Within(pos, peaks[i]) && peaks[i].layer < 63
    requires Under(b, peaks) && OnPath(pos, peaks[i], l, b.V())
    ensures 0 < l <= peaks[i].layer
    ensures b == pos.Up(l) || (b == pos.Up(l).Sibling() && l < peaks[i].layer)
  {
    hide P, Aligned, Floor, PeaksOf, Bin.V;
    var peak := peaks[i];
    PeakOk(peaks, n, i);
    AncestorAt(pos, peak, l);
    if l == peak.layer {
      PeakSibling(peaks, n, i);
    } else {
      PathStep(pos, peak, l);
    }
    NumberEither(b, pos.Up(l), pos.Up(l).Sibling());
  }

  lemma OtherPlaces(pos: Bin, peak: Bin, m: nat, l: nat)
    requires pos.Ok() && pos.layer == 0 && peak.Ok() && Within(pos, peak) && 0 < l < m < peak.layer
    ensures var u := pos.Up(l);
      u.Ok() && u.layer == l && u != pos.Up(m) && u.Left().Ok() && u.Right().Ok() && u.Left() != pos.Up(m) && u.Right() != pos.Up(m)
  {
    hide P, Aligned, Floor;
    AncestorAt(pos, peak, l);
    HalvesOk(pos.Up(l));
  }

  lemma OtherUncle(pos: Bin, peak: Bin, m: nat, l: nat)
    requires pos.Ok() && pos.layer == 0 && peak.Ok() && Within(pos, peak) && m < peak.layer && l < peak.layer
    ensures pos.Up(l).Sibling().Ok() && pos.Up(l).Sibling() != pos.Up(m)
  {
    hide P, Aligned, Floor;
    PathStep(pos, peak, l);
    PathStep(pos, peak, m);
    assert pos.Up(l).Sibling().layer == l;
  }

  lemma NumberBelow(b: Bin)
    requires b.Ok()
    ensures b.V() < 2 * b.End()
  {
  }
}
