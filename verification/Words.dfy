/** 32-bit bitmaps: the mask table and bit positions. */
module Words {
  import opened Powers
  import opened Bits
  import opened Bins

  type Word = w: nat | w < 0x1_0000_0000

  const EMPTY: Word := 0
  const FILLED: Word := 0xffffffff

  /** The table BITMAP, indexed by the low six bits of a bin number; 63 stands for every bin of 32 chunks or more. */
  function Mask(k: nat): Word
    requires k < 64
  {
    match k
    case 0 => 0x00000001 case 1 => 0x00000003 case 2 => 0x00000002 case 3 => 0x0000000f
    case 4 => 0x00000004 case 5 => 0x0000000c case 6 => 0x00000008 case 7 => 0x000000ff
    case 8 => 0x00000010 case 9 => 0x00000030 case 10 => 0x00000020 case 11 => 0x000000f0
    case 12 => 0x00000040 case 13 => 0x000000c0 case 14 => 0x00000080 case 15 => 0x0000ffff
    case 16 => 0x00000100 case 17 => 0x00000300 case 18 => 0x00000200 case 19 => 0x00000f00
    case 20 => 0x00000400 case 21 => 0x00000c00 case 22 => 0x00000800 case 23 => 0x0000ff00
    case 24 => 0x00001000 case 25 => 0x00003000 case 26 => 0x00002000 case 27 => 0x0000f000
    case 28 => 0x00004000 case 29 => 0x0000c000 case 30 => 0x00008000 case 31 => 0xffffffff
    case 32 => 0x00010000 case 33 => 0x00030000 case 34 => 0x00020000 case 35 => 0x000f0000
    case 36 => 0x00040000 case 37 => 0x000c0000 case 38 => 0x00080000 case 39 => 0x00ff0000
    case 40 => 0x00100000 case 41 => 0x00300000 case 42 => 0x00200000 case 43 => 0x00f00000
    case 44 => 0x00400000 case 45 => 0x00c00000 case 46 => 0x00800000 case 47 => 0xffff0000
    case 48 => 0x01000000 case 49 => 0x03000000 case 50 => 0x02000000 case 51 => 0x0f000000
    case 52 => 0x04000000 case 53 => 0x0c000000 case 54 => 0x08000000 case 55 => 0xff000000
    case 56 => 0x10000000 case 57 => 0x30000000 case 58 => 0x20000000 case 59 => 0xf0000000
    case 60 => 0x40000000 case 61 => 0xc0000000 case 62 => 0x80000000 case _ => 0xffffffff
  }

  /** Bit i of a number. */
  predicate Bit(w: nat, i: nat) {
    if i == 0 then w % 2 == 1 else Bit(w / 2, i - 1)
  }

  lemma {:induction false} ZeroBits(i: nat)
    ensures !Bit(0, i)
  {
    if i > 0 {
      ZeroBits(i - 1);
    }
  }

  lemma {:induction false} BitOps(a: nat, b: nat, i: nat)
    ensures Bit(And(a, b), i) <==> Bit(a, i) && Bit(b, i)
    ensures Bit(Or(a, b), i) <==> Bit(a, i) || Bit(b, i)
    ensures Bit(AndNot(a, b), i) <==> Bit(a, i) && !Bit(b, i)
  {
    hide And, Or, AndNot;
    AndDigits(a, b);
    OrDigits(a, b);
    AndNotDigits(a, b);
    if i > 0 {
      BitOps(a / 2, b / 2, i - 1);
    }
  }

  lemma {:induction false} OnesBits(n: nat, i: nat)
    ensures Bit(P(n) - 1, i) <==> i < n
  {
    if n == 0 {
      ZeroBits(i);
    } else if i > 0 {
      assert (P(n) - 1) / 2 == P(n - 1) - 1;
      OnesBits(n - 1, i - 1);
    }
  }

  lemma FilledBits(i: nat)
    requires i < 32
    ensures Bit(FILLED, i)
  {
    SmallPowers();
    OnesBits(32, i);
  }

  /** A number below P(n) is determined by its first n bits. */
  lemma {:induction false} BitsDetermine(a: nat, b: nat, n: nat)
    requires a < P(n) && b < P(n)
    requires forall i: nat :: i < n ==> (Bit(a, i) <==> Bit(b, i))
    ensures a == b
  {
    if n > 0 {
      assert Bit(a, 0) <==> Bit(b, 0);
      forall i: nat | i < n - 1 ensures Bit(a / 2, i) <==> Bit(b / 2, i) {
        assert Bit(a, i + 1) <==> Bit(b, i + 1);
      }
      BitsDetermine(a / 2, b / 2, n - 1);
    }
  }

  /** n ones, the lowest at position o. */
  function Run(n: nat, o: nat): nat {
    if o == 0 then P(n) - 1 else 2 * Run(n, o - 1)
  }

  lemma {:induction false} RunBits(n: nat, o: nat, i: nat)
    ensures Bit(Run(n, o), i) <==> o <= i < o + n
  {
    if o == 0 {
      OnesBits(n, i);
    } else if i > 0 {
      assert Run(n, o) / 2 == Run(n, o - 1);
      RunBits(n, o - 1, i - 1);
    }
  }

  lemma {:induction false} RunShift(n: nat, o: nat, k: nat)
    ensures Run(n, o + k) == P(k) * Run(n, o)
  {
    if k > 0 {
      RunShift(n, o, k - 1);
      assert Run(n, o + k) == 2 * Run(n, o + k - 1);
      assert P(k) * Run(n, o) == 2 * (P(k - 1) * Run(n, o)) by {
        DoubleProduct(P(k - 1), Run(n, o));
      }
    }
  }

  /** A run of 2n ones is a run of n next to another. */
  lemma {:induction false} RunSplit(n: nat, o: nat)
    ensures Run(2 * n, o) == Run(n, o) + Run(n, o + n)
  {
    if o == 0 {
      PowerSum(n, n);
      RunShift(n, 0, n);
    } else {
      RunSplit(n, o - 1);
      assert Run(n, o + n) == 2 * Run(n, o - 1 + n);
    }
  }

  /** Neighbouring base masks differ by one shift. */
  lemma TableShift(k: nat)
    requires k <= 60 && k % 2 == 0
    ensures Mask(k + 2) == 2 * Mask(k)
  {
  }

  /** Every other mask joins the masks of its two halves. */
  lemma TableJoin1(k: nat)
    requires k < 63 && k % 4 == 1
    ensures Mask(k) == Mask(k - 1) + Mask(k + 1)
  {
  }

  lemma TableJoin2(k: nat)
    requires k < 63 && k % 8 == 3
    ensures Mask(k) == Mask(k - 2) + Mask(k + 2)
  {
  }

  lemma TableJoin4(k: nat)
    requires k < 63 && k % 16 == 7
    ensures Mask(k) == Mask(k - 4) + Mask(k + 4)
  {
  }

  lemma TableJoin8(k: nat)
    requires k < 63 && k % 32 == 15
    ensures Mask(k) == Mask(k - 8) + Mask(k + 8)
  {
  }

  lemma TableJoin16()
    ensures Mask(31) == Mask(15) + Mask(47)
  {
  }

  lemma FirstMask()
    ensures Mask(0) == 1
  {
  }

  lemma {:induction false} BaseMask(o: nat)
    requires o < 32
    ensures Mask(2 * o) == Run(1, o)
  {
    hide Mask;
    if o == 0 {
      FirstMask();
    } else {
      assert (2 * o - 2) % 2 == 0;
      BaseMask(o - 1);
      TableShift(2 * o - 2);
      assert Run(1, o) == 2 * Run(1, o - 1);
    }
  }

  /** A table entry above the base layer joins the entries of the two halves of its bin; n chunks a half. */
  lemma MaskHalves(n: nat, k: nat)
    requires n == 1 || n == 2 || n == 4 || n == 8 || n == 16
    requires 2 * n * k + 2 * n <= 32
    ensures var o := 2 * n * k; Mask(2 * o + 2 * n - 1) == Mask(2 * o + n - 1) + Mask(2 * (o + n) + n - 1)
  {
    hide Mask;
    if n == 1 {
      TableJoin1(4 * k + 1);
    } else if n == 2 {
      TableJoin2(8 * k + 3);
    } else if n == 4 {
      TableJoin4(16 * k + 7);
    } else if n == 8 {
      TableJoin8(32 * k + 15);
    } else {
      TableJoin16();
    }
  }

  lemma MaskStep(l: nat, o: nat)
    requires 1 <= l <= 5 && Aligned(o, l) && o + P(l) <= 32
    ensures P(l) == 2 * P(l - 1)
    ensures Mask(2 * o + P(l) - 1) == Mask(2 * o + P(l - 1) - 1) + Mask(2 * (o + P(l - 1)) + P(l - 1) - 1)
  {
    hide Mask, Aligned;
    SmallPowers();
    var k := AlignedFactor(o, l);
    MaskHalves(P(l - 1), k);
  }

  lemma InWord(l: nat, o: nat)
    requires l <= 5 && Aligned(o, l) && o < 32
    ensures o + P(l) <= 32
  {
    SmallPowers();
    ZeroAligned(5);
    Laminar(o, l, 0, 5);
  }

  /** Every table entry is a run of ones, placed where its bin is. */
  lemma {:induction false} MaskRun(l: nat, o: nat)
    requires l <= 5 && Aligned(o, l) && o < 32
    ensures o + P(l) <= 32
    ensures Mask(2 * o + P(l) - 1) == Run(P(l), o)
  {
    hide Mask, P, Aligned, Run;
    InWord(l, o);
    if l == 0 {
      SmallPowers();
      BaseMask(o);
    } else {
      MaskStep(l, o);
      AlignedHalves(o, l);
      MaskRun(l - 1, o);
      MaskRun(l - 1, o + P(l - 1));
      RunSplit(P(l - 1), o);
    }
  }

  /** The mask of a bin below the bitmap layer selects exactly its chunks, modulo the bitmap width. */
  lemma MaskBits(b: Bin, i: nat)
    requires b.layer <= 5 && Aligned(b.base, b.layer) && i < 32
    ensures b.V() % 64 < 63
    ensures Bit(Mask(b.V() % 64), i) <==> b.base % 32 <= i < b.base % 32 + P(b.layer)
    ensures b.base % 32 + P(b.layer) <= 32
  {
    hide Mask, P, Aligned, Run, Bit;
    SmallPowers();
    var o, q := b.base % 32, b.base / 32;
    Mod32Aligned(b.base, b.layer);
    MaskRun(b.layer, o);
    RunBits(P(b.layer), o, i);
    ModBlock64(q, 2 * o + P(b.layer) - 1);
  }

  lemma ModBlock64(q: nat, r: nat)
    requires r < 64
    ensures (64 * q + r) % 64 == r
  {
  }

  lemma Mod32Aligned(x: nat, l: nat)
    requires l <= 5 && Aligned(x, l)
    ensures Aligned(x % 32, l)
  {
    AlignedMultiple(x / 32, l);
    AlignedDifference(x, x / 32 * 32, l);
  }

  lemma AlignedMultiple(q: nat, l: nat)
    requires l <= 5
    ensures Aligned(q * 32, l)
  {
    assert Aligned(q * 32, 5) by {
      assert q * 32 / 2 == q * 16 && q * 16 / 2 == q * 8 && q * 8 / 2 == q * 4 && q * 4 / 2 == q * 2 && q * 2 / 2 == q;
      assert Aligned(q * 2, 1);
      assert Aligned(q * 4, 2);
      assert Aligned(q * 8, 3);
      assert Aligned(q * 16, 4);
    }
    AlignedBelow(q * 32, l, 5);
  }

  lemma {:induction false} AlignedDifference(a: nat, b: nat, l: nat)
    requires Aligned(a, l) && Aligned(b, l) && b <= a
    ensures Aligned(a - b, l)
  {
    if l > 0 {
      AlignedDifference(a / 2, b / 2, l - 1);
      assert (a - b) / 2 == a / 2 - b / 2;
    }
  }

  lemma {:induction false} OpsBound(a: nat, b: nat, n: nat)
    ensures And(a, b) <= a && AndNot(a, b) <= a
    ensures a < P(n) && b < P(n) ==> Or(a, b) < P(n)
    decreases a + b
  {
    if a + b > 0 {
      if n > 0 {
        OpsBound(a / 2, b / 2, n - 1);
      } else {
        OpsBound(a / 2, b / 2, 0);
      }
    }
  }

  function WordAnd(a: Word, b: Word): Word {
    OpsBound(a, b, 0);
    And(a, b)
  }

  function WordAndNot(a: Word, b: Word): Word {
    OpsBound(a, b, 0);
    AndNot(a, b)
  }

  function WordOr(a: Word, b: Word): Word {
    SmallPowers();
    OpsBound(a, b, 32);
    Or(a, b)
  }

  lemma ModBlock(base: nat, i: nat)
    requires base % 32 == 0 && base <= i < base + 32
    ensures i % 32 == i - base
  {
  }

  /** Within its block of 32 chunks, the mask of a bin selects exactly the bin. */
  lemma MaskInBlock(b: Bin, i: nat)
    requires b.Ok() && b.layer <= 5 && b.Up(5).Has(i)
    ensures b.V() % 64 < 63
    ensures Bit(Mask(b.V() % 64), i % 32) <==> b.Has(i)
  {
    hide Mask, Bit, Aligned, Floor;
    MaskBits(b, i % 32);
    UpSpec(b, 5);
    AlignedMod32(b.Up(5).base, 5);
    SmallPowers();
    ModBlock(b.Up(5).base, i);
    ModBlock(b.Up(5).base, b.base);
  }

  /** Storing bits under the mask of a bin changes exactly the chunks of the bin, within its block of 32. */
  lemma MaskedWord(b: Bin, bits: Word, bm: Word, i: nat)
    requires b.Ok() && b.layer <= 5 && b.Up(5).Has(i)
    ensures Bit(WordOr(WordAndNot(bm, Mask(b.V() % 64)), WordAnd(bits, Mask(b.V() % 64))), i % 32)
            <==> if b.Has(i) then Bit(bits, i % 32) else Bit(bm, i % 32)
  {
    hide Mask, Bit, Aligned, Floor, P, And, AndNot, Or;
    var m := Mask(b.V() % 64);
    MaskInBlock(b, i);
    BitOps(WordAndNot(bm, m), WordAnd(bits, m), i % 32);
    BitOps(bm, m, i % 32);
    BitOps(bits, m, i % 32);
  }

  /** Masking what was stored under a mask gives back what was stored. */
  lemma MaskedBack(bits: Word, bm: Word, m: Word)
    ensures WordAnd(WordOr(WordAndNot(bm, m), WordAnd(bits, m)), m) == WordAnd(bits, m)
  {
    hide And, AndNot, Or, Bit;
    var a, b := WordAnd(WordOr(WordAndNot(bm, m), WordAnd(bits, m)), m), WordAnd(bits, m);
    forall i: nat | i < 32 ensures Bit(a, i) <==> Bit(b, i) {
      BitOps(WordOr(WordAndNot(bm, m), WordAnd(bits, m)), m, i);
      BitOps(WordAndNot(bm, m), WordAnd(bits, m), i);
      BitOps(bm, m, i);
      BitOps(bits, m, i);
    }
    SmallPowers();
    BitsDetermine(a, b, 32);
  }

  /** Two words that agree under the mask of a bin agree on the bin. */
  lemma AgreeOnBin(b: Bin, v: Word, w: Word, i: nat)
    requires b.Ok() && b.layer <= 5 && b.Has(i)
    requires WordAnd(v, Mask(b.V() % 64)) == WordAnd(w, Mask(b.V() % 64))
    ensures Bit(v, i % 32) <==> Bit(w, i % 32)
  {
    hide Mask, Bit, Aligned, Floor, P, And;
    UpSpec(b, 5);
    MaskInBlock(b, i);
    BitOps(v, Mask(b.V() % 64), i % 32);
    BitOps(w, Mask(b.V() % 64), i % 32);
  }

  /** No bit of a bin's mask is set exactly when no chunk of the bin is. */
  lemma LowEmpty(b: Bin, w: Word)
    requires b.Ok() && b.layer <= 5
    ensures b.V() % 64 < 63
    ensures WordAnd(w, Mask(b.V() % 64)) == EMPTY <==> forall i: nat :: b.Has(i) ==> !Bit(w, i % 32)
  {
    hide Mask, Bit, Aligned, Floor, P;
    MaskBits(b, 0);
    var m := Mask(b.V() % 64);
    assert WordAnd(EMPTY, m) == EMPTY;
    if WordAnd(w, m) == EMPTY {
      forall i: nat | b.Has(i) ensures !Bit(w, i % 32) {
        UpSpec(b, 5);
        MaskInBlock(b, i);
        BitOps(w, m, i % 32);
        ZeroBits(i % 32);
      }
    } else if forall i: nat :: b.Has(i) ==> !Bit(w, i % 32) {
      forall i: nat | b.Has(i) ensures !Bit(EMPTY, i % 32) {
        ZeroBits(i % 32);
      }
      MaskedAgree(b, w, EMPTY);
    }
  }

  /** Every bit of a bin's mask is set exactly when every chunk of the bin is. */
  lemma LowFilled(b: Bin, w: Word)
    requires b.Ok() && b.layer <= 5
    ensures b.V() % 64 < 63
    ensures WordAnd(w, Mask(b.V() % 64)) == Mask(b.V() % 64) <==> forall i: nat :: b.Has(i) ==> Bit(w, i % 32)
  {
    hide Mask, Bit, Aligned, Floor, P;
    MaskBits(b, 0);
    var m := Mask(b.V() % 64);
    forall i: nat ensures Bit(FILLED, i % 32) {
      FilledBits(i % 32);
    }
    FilledAnd(m);
    if WordAnd(w, m) == m {
      forall i: nat | b.Has(i) ensures Bit(w, i % 32) {
        AgreeOnBin(b, w, FILLED, i);
      }
    } else if forall i: nat :: b.Has(i) ==> Bit(w, i % 32) {
      MaskedAgree(b, w, FILLED);
    }
  }

  lemma FilledAnd(m: Word)
    ensures WordAnd(FILLED, m) == m
  {
    hide And, Bit;
    forall i: nat | i < 32 ensures Bit(WordAnd(FILLED, m), i) <==> Bit(m, i) {
      FilledBits(i);
      BitOps(FILLED, m, i);
    }
    SmallPowers();
    BitsDetermine(WordAnd(FILLED, m), m, 32);
  }

  /** Two words that agree on a bin agree under its mask. */
  lemma MaskedAgree(b: Bin, v: Word, w: Word)
    requires b.Ok() && b.layer <= 5 && b.V() % 64 < 63
    ensures (forall i: nat :: b.Has(i) ==> (Bit(v, i % 32) <==> Bit(w, i % 32))) ==> WordAnd(v, Mask(b.V() % 64)) == WordAnd(w, Mask(b.V() % 64))
  {
    hide Mask, Bit, Aligned, Floor, P, And;
    if forall i: nat :: b.Has(i) ==> (Bit(v, i % 32) <==> Bit(w, i % 32)) {
      var m := Mask(b.V() % 64);
      forall k: nat | k < 32 ensures Bit(WordAnd(v, m), k) <==> Bit(WordAnd(w, m), k) {
        BitOps(v, m, k);
        BitOps(w, m, k);
        UpSpec(b, 5);
        SmallPowers();
        AlignedMod32(b.Up(5).base, 5);
        var i := b.Up(5).base + k;
        ModBlock(b.Up(5).base, i);
        MaskInBlock(b, i);
      }
      SmallPowers();
      BitsDetermine(WordAnd(v, m), WordAnd(w, m), 32);
    }
  }
}
