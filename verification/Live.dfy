/** The live source: which chunks it may announce, and which subtrees it forgets. */
module Live {
  import opened Powers
  import opened Bins
  import opened Peaks
  import opened BinMaps
  import opened Find
  import Have
  import Q = Queries

  class Source {
    const perSign: nat
    const checkpoint: Bin
    var next: nat
    var sinceSign: nat
    var own: BinMap
    var signed: BinMap
    const peaks: array<Bin>
    var peakCount: nat

    /** The first chunk of this source: the one after the munro that an earlier one left behind, if there is one. */
    function Start(): nat {
      if checkpoint == NONE then 0 else checkpoint.End()
    }

    /** The end of the last signed run of chunks. */
    function Signed(): nat
      requires perSign > 0 && Start() <= next
      reads this
    {
      Start() + (next - Start()) / perSign * perSign
    }

    /** Own chunks are those produced; signed ones those below the last signed multiple; the peaks are those of all chunks. */
    ghost predicate Valid()
      reads this, own, signed, peaks
    {
      perSign > 0 && own != signed && own.Valid() && signed.Valid() && peaks.Length == 64 && (checkpoint == NONE || checkpoint.Ok()) &&
      Start() <= next <= LIMIT && sinceSign == (next - Start()) % perSign &&
      (forall i: nat :: own.Has(i) <==> Start() <= i < next) &&
      peakCount <= 63 && PeaksOf(peaks[..peakCount], next) &&
      (forall i: nat :: signed.Has(i) <==> Start() <= i < next - sinceSign)
    }

    constructor (n: nat)
      requires n > 0
      ensures Valid() && next == 0 && perSign == n && checkpoint == NONE && fresh(own) && fresh(signed) && fresh(peaks)
    {
      perSign, checkpoint, next, sinceSign, peakCount := n, NONE, 0, 0, 0;
      own := new BinMap();
      signed := new BinMap();
      peaks := new Bin[64](_ => NONE);
      new;
      hide *;
      NothingYet();
    }

    lemma NothingYet()
      requires perSign > 0 && checkpoint == NONE && next == sinceSign == peakCount == 0 && own != signed && peaks.Length == 64
      requires own.Valid() && signed.Valid() && (forall i: nat :: !own.Has(i)) && (forall i: nat :: !signed.Has(i))
      ensures Valid()
    {
      hide BinMap.Valid, BinMap.Has;
      assert peaks[..0] == [];
    }

    /** A source that goes on after the last munro of an earlier one: it announces nothing of the old chunks. */
    constructor Resume(n: nat, last: Bin)
      requires n > 0 && last.Ok() && last.End() < LIMIT
      ensures Valid() && next == last.End() && perSign == n && checkpoint == last && fresh(own) && fresh(signed) && fresh(peaks)
    {
      perSign, checkpoint, next, sinceSign := n, last, last.End(), 0;
      own := new BinMap();
      signed := new BinMap();
      peaks := new Bin[64](_ => NONE);
      new;
      hide BinMap.Valid, BinMap.Has, Valid;
      SignOld();
    }

    /** The peaks that an earlier source left behind. */
    method SignOld()
      requires signed.Valid() && own.Valid() && own != signed && peaks.Length == 64 && checkpoint.Ok() && next == checkpoint.End() < LIMIT
      requires perSign > 0 && sinceSign == 0 && forall i: nat :: !own.Has(i)
      modifies this`peakCount, signed, peaks
      ensures Valid()
    {
      hide BinMap.Valid, BinMap.Has, P, Aligned, Bin.Ok, Bin.Has, PeaksOf;
      OkNotNone(checkpoint);
      BaseOk(0);
      peakCount := GenPeaks(next, peaks);
      UpdateSigned(next);
    }

    /** UpdateSignedAckOut: the signed map becomes the peaks of the chunks so far, without those of an earlier source. */
    method UpdateSigned(ghost n: nat)
      requires signed.Valid() && peaks.Length == 64 && peakCount <= 63 && PeaksOf(peaks[..peakCount], n)
      requires checkpoint == NONE || checkpoint.Ok()
      modifies signed
      ensures signed.Valid()
      ensures forall i: nat :: signed.Has(i) <==> Start() <= i < n
    {
      hide BinMap.Valid, BinMap.Has, P, Aligned, Bin.Has;
      signed.Clear();
      ghost var ps := peaks[..peakCount];
      var i := 0;
      while i < peakCount
        invariant 0 <= i <= peakCount && peaks[..peakCount] == ps && signed.Valid()
        invariant forall c: nat :: signed.Has(c) <==> exists k :: 0 <= k < i && ps[k].Has(c)
      {
        OkNotNone(ps[i]);
        signed.Set(peaks[i]);
        i := i + 1;
      }
      forall c: nat ensures signed.Has(c) <==> c < n {
        PeaksCover(ps, n, c);
      }
      if checkpoint != NONE {
        ClearOld(n);
      }
    }

    /** The bins of the checkpoint's layer up to the checkpoint are taken out again. */
    method ClearOld(ghost n: nat)
      requires signed.Valid() && checkpoint.Ok() && forall i: nat :: signed.Has(i) <==> i < n
      modifies signed
      ensures signed.Valid()
      ensures forall i: nat :: signed.Has(i) <==> checkpoint.End() <= i < n
    {
      hide BinMap.Valid, BinMap.Has, P, Aligned;
      var l, offset := checkpoint.layer, checkpoint.base / P(checkpoint.layer);
      for i := 0 to offset + 1
        invariant signed.Valid() && forall c: nat :: signed.Has(c) <==> P(l) * i <= c < n
      {
        BinOf(checkpoint, i);
        OkNotNone(Bin(l, P(l) * i));
        signed.Reset(Bin(l, P(l) * i));
      }
      BinOf(checkpoint, offset);
    }

    /** One chunk of AddData: every perSign chunks the peaks are signed and may be announced. */
    method AddChunk()
      requires Valid() && next < LIMIT
      modifies this`next, this`sinceSign, this`peakCount, own, signed, peaks
      ensures Valid() && next == old(next) + 1
    {
      hide BinMap.Valid, BinMap.Has, P, Aligned, PeaksOf, Bin.Ok;
      BaseOk(next);
      own.Set(Bin(0, next));
      next := next + 1;
      peakCount := GenPeaks(next, peaks);
      sinceSign := sinceSign + 1;
      NextRemainder(next - 1 - Start(), perSign);
      if sinceSign == perSign {
        sinceSign := 0;
        UpdateSigned(next);
      }
    }

    /** What a source announces is its own and covered by a signature. */
    method Announce(sent: BinMap) returns (haves: seq<Bin>)
      requires Valid() && sent.Valid() && sent != signed && sent != own && Have.Within(sent, signed)
      modifies sent
      ensures Valid() && sent.Valid() && Have.Within(sent, signed)
      ensures forall k, i: nat :: 0 <= k < |haves| && haves[k].Has(i) ==> Start() <= i < Signed()
      ensures forall i: nat :: sent.Has(i) <==> old(sent.Has(i)) || exists k :: 0 <= k < |haves| && haves[k].Has(i)
      ensures forall k :: 0 <= k < |haves| ==> haves[k].Ok() && Q.Widest(signed, haves[k])
      ensures |haves| < 4 ==> forall i: nat :: Start() <= i < Signed() ==> sent.Has(i)
    {
      hide BinMap.Valid, BinMap.Has, P, Aligned, Bin.Has, Bin.Ok;
      Remainder(next - Start(), perSign);
      haves := Have.AddHave(sent, signed);
    }
  }

  /** The bins of one layer, up to a given one. */
  lemma BinOf(b: Bin, i: nat)
    requires b.Ok() && i <= b.base / P(b.layer)
    ensures Bin(b.layer, P(b.layer) * i).Ok() && P(b.layer) * i + P(b.layer) == P(b.layer) * (i + 1)
    ensures i == b.base / P(b.layer) ==> P(b.layer) * i == b.base
  {
    hide P, Aligned;
    var p, q := P(b.layer), b.base / P(b.layer);
    AlignedMod(b.base, b.layer);
    MultipleAligned(i, b.layer);
    Distribute(p, i + 1, i);
    Distribute(p, q, i);
    SignOfProduct(p, i - q);
    SignOfProduct(p, q - i);
  }

  lemma OkNotNone(b: Bin)
    requires b.Ok()
    ensures b != NONE
  {
  }

  lemma BaseOk(i: nat)
    requires i < LIMIT
    ensures Bin(0, i).Ok() && forall c: nat :: Bin(0, i).Has(c) <==> c == i
    ensures LIMIT < P(63)
  {
    PowerMonotone(32, 63);
    SmallPowers();
  }

  lemma NextRemainder(x: nat, n: nat)
    requires n > 0
    ensures (x + 1) % n == if x % n + 1 == n then 0 else x % n + 1
  {
    var q, r := x / n, x % n;
    assert x == n * q + r;
    if r + 1 == n {
      Distribute(n, q + 1, q);
      assert x + 1 == n * (q + 1);
      ProductMod(q + 1, n);
    } else {
      Quotient(q, r + 1, n);
    }
  }

  lemma Quotient(q: int, r: nat, n: nat)
    requires r < n
    ensures (n * q + r) % n == r
  {
    var x := n * q + r;
    Distribute(n, x / n, q);
    SignOfProduct(n, x / n - q);
    SignOfProduct(n, q - x / n);
    Distribute(n, q, x / n);
  }

  lemma Remainder(x: nat, n: nat)
    requires n > 0
    ensures x / n * n == x - x % n
  {
  }

  /** The subtree that ends with the last whole run of 2^k chunks before x: of a left run itself, of a right one the biggest
      that is a right child of a left child. */
  ghost predicate LastRun(r: Bin, x: int, k: nat) {
    r.Ok() && r.layer >= k && r.End() == x / P(k) * P(k) && if r.IsLeft() then r.layer == k else r.Parent().IsLeft()
  }

  /** OnDataPruneTree: the subtree to forget when the newest chunk is last, or NONE. */
  method PrunePosition(last: nat, window: nat, k: nat) returns (r: Bin)
    requires last < P(63) && k < 63
    ensures r != NONE ==> LastRun(r, last - window, k)
    ensures r == NONE <==> last - window < P(k)
  {
    hide P, Aligned, Floor, Bin.IsLeft;
    var n := P(k);
    var oldest := last - window;
    if oldest <= 0 {
      return NONE;
    }
    var extra := oldest % n;
    var start := oldest - extra;
    var left := start - n;
    if left < 0 {
      Below(oldest, n);
      return NONE;
    }
    Below(oldest, n);
    Remainder(oldest, n);
    AlignedMod(left, k);
    r := Bin(0, left);
    BaseBelow(left);
    for h := 0 to k
      invariant r.Ok() && r.layer == h && r.Has(left)
    {
      ParentOk(r);
      r := r.Parent();
    }
    FloorUnique(left, r.base, k);
    FloorUnique(left, left, k);
    if !r.IsLeft() {
      while !r.Parent().IsLeft()
        invariant r.Ok() && !r.IsLeft() && r.layer >= k && r.End() == start
        decreases 63 - r.layer
      {
        TopIsLeft(r);
        ParentOk(r);
        HalvesOk(r.Parent());
        r := r.Parent();
      }
    }
    OkNotNone(r);
  }

  lemma BaseBelow(left: nat)
    requires left < P(63)
    ensures Bin(0, left).Ok() && Bin(0, left).Has(left)
  {
  }

  lemma TopIsLeft(b: Bin)
    requires b.Ok() && !b.IsLeft()
    ensures b.layer < 63
  {
    hide P, Aligned, Floor;
    AllContains(b);
    ZeroAligned(64);
  }

  lemma Below(x: nat, n: nat)
    requires n > 0
    ensures x - x % n >= n <==> x >= n
    ensures x - x % n >= n ==> (x - x % n - n) % n == 0
  {
    var q := x / n;
    assert x == n * q + x % n;
    SignOfProduct(n, q);
    if q >= 1 {
      Distribute(n, q, 1);
      ProductMod(q - 1, n);
    }
  }
}
