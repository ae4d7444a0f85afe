/**
 Bin numbers: aligned power-of-two intervals of chunks.

 A bin is kept as its layer and its first chunk; `V` is the number the program
 stores (the tail-011..1 encoding).  `BinWords` relates the program's bit tricks
 on that number to the arithmetic used here.
 */
module Bins {
  import opened Powers

  datatype Bin = Bin(layer: nat, base: nat) {

    /** The bins other than NONE that a 64-bit number can hold. */
    predicate Ok() {
      layer <= 63 && Aligned(base, layer) && base + P(layer) <= P(63)
    }

    function End(): nat {
      base + P(layer)
    }

    predicate Has(i: int) {
      base <= i < End()
    }

    /** The 64-bit number that stands for this bin. */
    function V(): nat {
      2 * base + P(layer) - 1
    }

    /** The test of bin_t::contains, on numbers. */
    predicate Contains(c: Bin) {
      this != NONE && 2 * base <= c.V() < 2 * base + 2 * P(layer) - 1
    }

    function Left(): Bin
      requires layer > 0
    {
      Bin(layer - 1, base)
    }

    function Right(): Bin
      requires layer > 0
    {
      Bin(layer - 1, base + P(layer - 1))
    }

    function Parent(): Bin {
      Bin(layer + 1, Floor(base, layer + 1))
    }

    /** The half that holds chunk x. */
    function Toward(x: nat): Bin
      requires layer > 0
    {
      if x < base + P(layer - 1) then Left() else Right()
    }

    predicate IsLeft() {
      Parent().base == base
    }

    function Sibling(): Bin {
      if IsLeft() then Bin(layer, base + P(layer)) else Bin(layer, Parent().base)
    }

    /** The ancestor (or self) at a layer at least this one's. */
    function Up(l: nat): Bin {
      Bin(l, Floor(base, l))
    }
  }

  const NONE := Bin(64, 0)
  const ALL := Bin(63, 0)

  /** contains is interval inclusion. */
  lemma ContainsMeaning(b: Bin, c: Bin)
    requires b.Ok() && c.Ok()
    ensures b.Contains(c) <==> b.base <= c.base && c.End() <= b.End()
  {
    if b.Contains(c) {
      if c.layer <= b.layer {
        AlignedBelow(b.base, c.layer, b.layer);
        if c.base < b.base {
          AlignedStep(c.base, b.base, c.layer);
          assert false;
        }
        Laminar(c.base, c.layer, b.base, b.layer);
      } else {
        var m := c.base + P(c.layer - 1);
        AlignedHalves(c.base, c.layer);
        AlignedBelow(m, b.layer, c.layer - 1);
        AlignedStep(b.base, m, b.layer);
        assert false;
      }
    }
  }

  /** NONE lies in no bin and contains none. */
  lemma NoneContains(b: Bin)
    requires b.Ok()
    ensures !b.Contains(NONE) && !NONE.Contains(b)
  {
    assert P(64) == 2 * P(63);
  }

  /** Two bins are nested or disjoint. */
  lemma NestedOrDisjoint(b: Bin, c: Bin)
    requires b.Ok() && c.Ok()
    ensures b.layer >= c.layer ==> b.Contains(c) || forall i :: !(b.Has(i) && c.Has(i))
    ensures b.Contains(c) ==> b.layer >= c.layer
    ensures b.Contains(c) && b.layer == c.layer ==> b == c
  {
    ContainsMeaning(b, c);
    if b.Contains(c) && b.layer < c.layer {
      PowerMonotone(b.layer, c.layer);
      assert false;
    }
    if b.layer >= c.layer {
      AlignedBelow(b.base, c.layer, b.layer);
      if c.base < b.base {
        AlignedStep(c.base, b.base, c.layer);
      } else if c.base < b.End() {
        Laminar(c.base, c.layer, b.base, b.layer);
      }
    }
  }

  /** Comparing numbers tells in which half of a bin a smaller bin lies. */
  lemma Direction(cur: Bin, t: Bin)
    requires cur.Ok() && t.Ok()
    requires cur.base <= t.base && t.End() <= cur.End() && t != cur
    ensures t.layer < cur.layer
    ensures t.V() != cur.V()
    ensures t.V() < cur.V() <==> t.base < cur.base + P(cur.layer - 1)
    ensures t.V() < cur.V() ==> cur.Left().base <= t.base && t.End() <= cur.Left().End()
    ensures t.V() > cur.V() ==> cur.Right().base <= t.base && t.End() <= cur.Right().End()
  {
    if t.layer >= cur.layer {
      PowerMonotone(cur.layer, t.layer);
      assert false;
    }
    AlignedHalves(cur.base, cur.layer);
    var mid := cur.base + P(cur.layer - 1);
    if t.base < mid {
      Laminar(t.base, t.layer, cur.base, cur.layer - 1);
    }
  }

  lemma HalvesOk(b: Bin)
    requires b.Ok() && b.layer > 0
    ensures b.Left().Ok() && b.Right().Ok()
    ensures b.Left().base == b.base && b.Left().End() == b.Right().base && b.Right().End() == b.End()
  {
    AlignedHalves(b.base, b.layer);
  }

  /** The ancestor at layer l contains the bin, and nothing else aligned does. */
  lemma UpSpec(b: Bin, l: nat)
    requires b.Ok() && b.layer <= l <= 63
    ensures b.Up(l).Ok()
    ensures b.Up(l).base <= b.base && b.End() <= b.Up(l).End()
  {
    FloorSpec(b.base, l);
    Laminar(b.base, b.layer, b.Up(l).base, l);
    if b.Up(l).End() > P(63) {
      PowerAligned(l, 63);
      AlignedStep(b.Up(l).base, P(63), l);
      assert false;
    }
  }

  lemma UpUnique(b: Bin, c: Bin)
    requires b.Ok() && c.Ok() && c.base <= b.base < c.End()
    ensures c == b.Up(c.layer)
  {
    FloorUnique(b.base, c.base, c.layer);
  }

  lemma ParentOk(b: Bin)
    requires b.Ok() && b.layer < 63
    ensures b.Parent().Ok()
    ensures b.Parent().base <= b.base && b.End() <= b.Parent().End()
    ensures b == b.Parent().Left() || b == b.Parent().Right()
    ensures b.IsLeft() <==> b == b.Parent().Left()
    ensures b.Sibling().Ok()
    ensures b.IsLeft() ==> b.Sibling() == b.Parent().Right()
    ensures !b.IsLeft() ==> b.Sibling() == b.Parent().Left()
  {
    UpSpec(b, b.layer + 1);
    assert b.Parent() == b.Up(b.layer + 1);
    HalvesOk(b.Parent());
    if b.base < b.Parent().base + P(b.layer) {
      FloorUnique(b.base, b.Parent().base, b.layer);
      FloorUnique(b.base, b.base, b.layer);
    } else {
      FloorUnique(b.base, b.Parent().Right().base, b.layer);
      FloorUnique(b.base, b.base, b.layer);
    }
  }

  /** A bin other than ALL does not contain every bin; ALL does. */
  lemma AllContains(b: Bin)
    requires b.Ok()
    ensures ALL.Ok() && ALL.Contains(b)
    ensures b.layer == 63 ==> b == ALL
  {
    assert Aligned(0, 63) by { ZeroAligned(63); }
    ContainsMeaning(ALL, b);
  }

  /** The bin with a given number. */
  function Decode(v: nat): (b: Bin) {
    if v % 2 == 0 then Bin(0, v / 2)
    else
      var c := Decode(v / 2);
      Bin(c.layer + 1, 2 * c.base)
  }

  /** Numbers and aligned bins correspond one to one. */
  lemma {:induction false} DecodeNumber(v: nat)
    ensures Decode(v).V() == v && Aligned(Decode(v).base, Decode(v).layer)
  {
    if v % 2 == 1 {
      var c := Decode(v / 2);
      DecodeNumber(v / 2);
      assert 2 * c.base / 2 == c.base;
      assert Decode(v).V() == 2 * c.V() + 1;
    }
  }

  lemma DecodeOdd(v: nat)
    ensures Decode(2 * v + 1) == Bin(Decode(v).layer + 1, 2 * Decode(v).base)
  {
    assert (2 * v + 1) / 2 == v;
  }

  lemma {:induction false} DecodeBin(b: Bin)
    requires Aligned(b.base, b.layer)
    ensures Decode(b.V()) == b
    decreases b.layer
  {
    hide Decode;
    if b.layer > 0 {
      var c := Bin(b.layer - 1, b.base / 2);
      assert b.V() == 2 * c.V() + 1;
      DecodeBin(c);
      DecodeOdd(c.V());
    } else {
      DecodeEven(b.base);
    }
  }

  lemma DecodeEven(x: nat)
    ensures Decode(2 * x) == Bin(0, x)
  {
  }

  /** Moving a bin by an aligned distance moves its number by twice that. */
  lemma DecodeShift(v: nat, s: nat)
    requires Aligned(s, Decode(v).layer)
    ensures Decode(2 * s + v) == Bin(Decode(v).layer, s + Decode(v).base)
  {
    hide Decode, P, Aligned;
    DecodeNumber(v);
    var b := Bin(Decode(v).layer, s + Decode(v).base);
    AlignedSum(s, Decode(v).base, b.layer);
    DecodeBin(b);
  }
}
