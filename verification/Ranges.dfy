/** Ranges of chunks and lists of bins: chunk32_to_bin32 and bin_fragment of channel.cpp. */
module Ranges {
  import opened Powers
  import opened Bins

  /** The chunk numbers from a up to b, in order. */
  function Span(a: nat, b: nat): (s: seq<nat>)
    requires a <= b
  {
    seq(b - a, i requires 0 <= i => a + i)
  }

  lemma SpanJoin(a: nat, b: nat, c: nat)
    requires a <= b <= c
    ensures Span(a, c) == Span(a, b) + Span(b, c)
  {
  }

  function Chunks(b: Bin): seq<nat> {
    Span(b.base, b.End())
  }

  /** The chunks of a list of bins, one bin after the other. */
  function Flat(bs: seq<Bin>): seq<nat> {
    if bs == [] then [] else Chunks(bs[0]) + Flat(bs[1..])
  }

  lemma {:induction false} FlatJoin(a: seq<Bin>, b: seq<Bin>)
    ensures Flat(a + b) == Flat(a) + Flat(b)
    decreases |a|
  {
    if a == [] {
      assert a + b == b;
    } else {
      FlatJoin(a[1..], b);
      assert (a + b)[1..] == a[1..] + b;
      assert Flat(a + b) == Chunks(a[0]) + (Flat(a[1..]) + Flat(b));
    }
  }

  lemma FlatOne(b: Bin)
    ensures Flat([b]) == Chunks(b)
  {
    assert [b][1..] == [];
    assert Flat([]) == [];
  }

  lemma FlatPush(bs: seq<Bin>, b: Bin)
    ensures Flat(bs + [b]) == Flat(bs) + Chunks(b)
  {
    FlatJoin(bs, [b]);
    FlatOne(b);
  }

  // ------------------------------------------------------------------
  // chunk32_to_bin32

  predicate Inside(b: Bin, s: nat, e: nat) {
    s <= b.base && b.End() <= e + 1
  }

  /** No bin that lies in the range reaches over chunk c from before it. */
  ghost predicate Uncrossed(c: nat, s: nat, e: nat) {
    forall b: Bin :: b.Ok() && b.base < c < b.End() ==> !Inside(b, s, e)
  }

  /** Bins of the range that no bigger bin of the range contains. */
  ghost predicate Maximal(b: Bin, s: nat, e: nat) {
    b.Ok() && b.layer < 63 && Inside(b, s, e) && !Inside(b.Parent(), s, e)
  }

  /** A bigger bin around this one is around its parent. */
  lemma AroundParent(b: Bin, c: Bin)
    requires b.Ok() && c.Ok() && c.base <= b.base && b.End() <= c.End() && c != b && b.layer < 63
    ensures b.Parent().Ok() && c.base <= b.Parent().base && b.Parent().End() <= c.End()
  {
    hide P, Aligned, Floor;
    ParentOk(b);
    ContainsMeaning(c, b);
    NestedOrDisjoint(c, b);
    NestedOrDisjoint(c, b.Parent());
    ContainsMeaning(c, b.Parent());
    assert b.Has(b.base) && c.Has(b.base) && b.Parent().Has(b.base);
  }

  /** After an emitted bin nothing in the range reaches over its end. */
  lemma EndUncrossed(cur: Bin, s: nat, e: nat)
    requires Maximal(cur, s, e)
    ensures Uncrossed(cur.End(), s, e)
  {
    hide P, Aligned, Floor;
    forall b: Bin | b.Ok() && b.base < cur.End() < b.End() ensures !Inside(b, s, e) {
      Overlap(b, cur);
      AroundParent(cur, b);
    }
  }

  /** A bin that reaches over the end of another from inside contains it. */
  lemma Overlap(b: Bin, cur: Bin)
    requires b.Ok() && cur.Ok() && b.base < cur.End() < b.End()
    ensures b.base <= cur.base && b != cur
  {
    NestedOrDisjoint(b, cur);
    NestedOrDisjoint(cur, b);
    ContainsMeaning(b, cur);
    ContainsMeaning(cur, b);
    assert b.Has(cur.End() - 1) && b.Has(cur.End());
    assert cur.Has(cur.End() - 1);
  }

  lemma BaseOk(c: nat)
    requires c < P(63)
    ensures Bin(0, c).Ok() && Bin(0, c).End() == c + 1
  {
  }

  /** A bin inside a 32-bit range is far below ALL. */
  lemma LowLayer(b: Bin, e: nat)
    requires b.Ok() && b.End() <= e + 1 && e < 0x1_0000_0000
    ensures b.layer < 63 && e + 1 < P(63)
  {
    SmallPowers();
    PowerMonotone(33, 63);
    if b.layer >= 33 {
      PowerMonotone(33, b.layer);
      assert false;
    }
  }

  /** The bins describe the range: side by side from s to e, each as big as the range allows. */
  ghost predicate Describes(bs: seq<Bin>, s: nat, e: nat) {
    bs != [] && bs[0].base == s && bs[|bs| - 1].End() == e + 1 &&
    (forall k :: 0 <= k < |bs| ==> Maximal(bs[k], s, e)) &&
    forall k :: 0 < k < |bs| ==> bs[k].base == bs[k - 1].End()
  }

  /** The same up to chunk c. */
  ghost predicate DescribesTo(bs: seq<Bin>, s: nat, e: nat, c: nat) {
    (if bs == [] then c == s else bs[0].base == s && bs[|bs| - 1].End() == c) &&
    (forall k :: 0 <= k < |bs| ==> Maximal(bs[k], s, e)) &&
    forall k :: 0 < k < |bs| ==> bs[k].base == bs[k - 1].End()
  }

  /** chunk32_to_bin32. */
  method ChunkToBins(schunk: nat, echunk: nat) returns (bs: seq<Bin>)
    requires schunk <= echunk < 0x1_0000_0000
    ensures Describes(bs, schunk, echunk)
  {
    hide P, Aligned, Floor, Maximal, Uncrossed, DescribesTo, Describes;
    bs := [];
    var s, e := Bin(0, schunk), Bin(0, echunk);
    var cur := s;
    Small(echunk);
    BaseOk(schunk);
    StartRange(schunk, echunk);
    while true
      invariant cur.Ok() && Inside(cur, schunk, echunk)
      invariant DescribesTo(bs, schunk, echunk, cur.base) && Uncrossed(cur.base, schunk, echunk)
      decreases echunk + 1 - cur.base, 63 - cur.layer
    {
      LowLayer(cur, echunk);
      ParentOk(cur);
      var par := cur.Parent();
      if par.base < schunk || par.End() - 1 > echunk {
        assert Maximal(cur, schunk, echunk) by {
          MaximalNow(cur, schunk, echunk);
        }
        DescribesMore(bs, schunk, echunk, cur);
        bs := bs + [cur];
        EndUncrossed(cur, schunk, echunk);
        NextStart(cur, schunk);
        if par.base < schunk {
          cur := Bin(0, par.End() - 1 + 1);
        } else {
          cur := Bin(0, cur.End() - 1 + 1);
        }
        BaseOk(cur.base);
        if cur.base >= echunk {
          if cur == e {
            LastMaximal(e, schunk, echunk);
            DescribesMore(bs, schunk, echunk, e);
            bs := bs + [e];
          }
          DescribesAll(bs, schunk, echunk);
          break;
        }
      } else {
        NotBefore(cur, schunk, echunk);
        cur := par;
      }
    }
  }

  lemma StartRange(s: nat, e: nat)
    ensures DescribesTo([], s, e, s) && Uncrossed(s, s, e)
  {
  }

  lemma DescribesMore(bs: seq<Bin>, s: nat, e: nat, b: Bin)
    requires DescribesTo(bs, s, e, b.base) && Maximal(b, s, e)
    ensures DescribesTo(bs + [b], s, e, b.End())
  {
    hide Maximal;
  }

  lemma DescribesAll(bs: seq<Bin>, s: nat, e: nat)
    requires DescribesTo(bs, s, e, e + 1) && s <= e
    ensures Describes(bs, s, e)
  {
    hide Maximal;
  }

  /** Climbing never takes in chunks before the current one. */
  lemma NotBefore(cur: Bin, s: nat, e: nat)
    requires cur.Ok() && cur.layer < 63 && Uncrossed(cur.base, s, e) && Inside(cur.Parent(), s, e)
    ensures cur.Parent().base == cur.base
  {
    hide P, Aligned, Floor;
    ParentOk(cur);
    assert cur.Has(cur.base);
  }

  lemma Small(e: nat)
    requires e < 0x1_0000_0000
    ensures e + 1 < P(63)
  {
    SmallPowers();
    PowerMonotone(33, 63);
  }

  lemma MaximalNow(cur: Bin, s: nat, e: nat)
    requires cur.Ok() && cur.layer < 63 && Inside(cur, s, e) && !Inside(cur.Parent(), s, e)
    ensures Maximal(cur, s, e)
  {
  }

  /** Both ways of moving on lead to the end of the emitted bin. */
  lemma NextStart(cur: Bin, s: nat)
    requires cur.Ok() && cur.layer < 63 && s <= cur.base
    ensures cur.Parent().base < s ==> cur.Parent().End() == cur.End()
    ensures cur.End() > cur.base
  {
    hide P, Aligned, Floor;
    ParentOk(cur);
    HalvesOk(cur.Parent());
  }

  lemma LastMaximal(b: Bin, s: nat, e: nat)
    requires b == Bin(0, e) && b.Ok() && s <= e < 0x1_0000_0000 && Uncrossed(e, s, e)
    ensures Maximal(b, s, e)
  {
    hide P, Aligned, Floor;
    BaseOk(e);
    Small(e);
    LowLayer(b, e);
    ParentOk(b);
    HalvesOk(b.Parent());
    BaseOk(b.Parent().base);
  }

  /** The bins cover exactly the range, in order. */
  lemma {:induction false} DescribesFlat(bs: seq<Bin>, s: nat, e: nat, c: nat)
    requires DescribesTo(bs, s, e, c) && s <= c
    ensures Flat(bs) == Span(s, c)
    decreases |bs|
  {
    hide P, Maximal;
    if bs != [] {
      var n := |bs| - 1;
      var cs, b := bs[..n], bs[n];
      assert bs == cs + [b];
      Starts(bs, s, e, c, n);
      DescribesFlat(cs, s, e, b.base);
      FlatPush(cs, b);
      SpanJoin(s, b.base, c);
    }
  }

  lemma Starts(bs: seq<Bin>, s: nat, e: nat, c: nat, n: nat)
    requires DescribesTo(bs, s, e, c) && n < |bs|
    ensures s <= bs[n].base && DescribesTo(bs[..n], s, e, bs[n].base)
  {
    assert Maximal(bs[n], s, e);
  }

  /** Every bin of the range lies in one of the bins that describe it; so they are as few as can be. */
  lemma {:induction false} InOne(bs: seq<Bin>, s: nat, e: nat, c: nat, b: Bin) returns (k: nat)
    requires DescribesTo(bs, s, e, c) && s <= c && b.Ok() && Inside(b, s, e) && b.base < c
    ensures k < |bs| && bs[k].base <= b.base && b.End() <= bs[k].End()
    decreases |bs|
  {
    hide P, Aligned, Floor;
    var n := |bs| - 1;
    var t := bs[n];
    Starts(bs, s, e, c, n);
    if b.base < t.base {
      k := InOne(bs[..n], s, e, t.base, b);
    } else {
      k := n;
      assert Maximal(t, s, e);
      NestedOrDisjoint(b, t);
      NestedOrDisjoint(t, b);
      ContainsMeaning(b, t);
      ContainsMeaning(t, b);
      assert b.Has(b.base) && t.Has(b.base);
      if b.base <= t.base && t.End() <= b.End() && b != t {
        AroundParent(t, b);
        assert false;
      }
    }
  }

  // ------------------------------------------------------------------
  // bin_fragment

  /** The base bins of a bin outside a part of it, in order. */
  method Fragment(orig: Bin, cancel: Bin) returns (bv: seq<Bin>)
    requires orig.Ok() && cancel.Ok() && orig.base <= cancel.base && cancel.End() <= orig.End()
    ensures Flat(bv) == Span(orig.base, cancel.base) + Span(cancel.End(), orig.End())
    ensures forall k :: 0 <= k < |bv| ==> bv[k].Ok() && bv[k].layer == 0
  {
    hide P, Aligned, Flat;
    bv := [];
    var cur := orig.base;
    assert Flat([]) == [] by {
      FlatEmpty();
    }
    while cur < cancel.base
      invariant orig.base <= cur <= cancel.base && Flat(bv) == Span(orig.base, cur)
      invariant forall k :: 0 <= k < |bv| ==> bv[k].Ok() && bv[k].layer == 0
    {
      BaseOk(cur);
      FlatPush(bv, Bin(0, cur));
      SpanJoin(orig.base, cur, cur + 1);
      bv := bv + [Bin(0, cur)];
      cur := cur + 1;
    }
    ghost var first := Flat(bv);
    cur := cancel.End();
    while cur <= orig.End() - 1
      invariant cancel.End() <= cur <= orig.End() && Flat(bv) == first + Span(cancel.End(), cur)
      invariant forall k :: 0 <= k < |bv| ==> bv[k].Ok() && bv[k].layer == 0
    {
      BaseOk(cur);
      FlatPush(bv, Bin(0, cur));
      SpanJoin(cancel.End(), cur, cur + 1);
      bv := bv + [Bin(0, cur)];
      cur := cur + 1;
    }
  }

  lemma FlatEmpty()
    ensures Flat([]) == []
  {
  }
}
