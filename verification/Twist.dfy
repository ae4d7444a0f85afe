/** Twisting: permuting chunks by exclusive-or with a mask, on bins and inside bitmaps. */
module Twist {
  import opened Powers
  import opened Bits
  import opened Bins
  import opened Words
  import opened Leftmost

  /** bin_t::twisted. */
  function Twisted(b: Bin, mask: nat): Bin {
    Bin(b.layer, Xor(b.base, Floor(mask, b.layer)))
  }

  /** The chunks of a twisted bin are the twisted chunks of the bin. */
  lemma TwistedHas(b: Bin, mask: nat, i: nat)
    requires Aligned(b.base, b.layer)
    ensures Twisted(b, mask).Has(i) <==> b.Has(Xor(i, mask))
    ensures Aligned(Twisted(b, mask).base, b.layer)
  {
    hide P, Xor, Floor, Aligned;
    var t, l := Twisted(b, mask), b.layer;
    FloorSpec(mask, l);
    XorAligned(b.base, Floor(mask, l), l);
    XorFloor(i, mask, l);
    XorInvolution(b.base, Floor(mask, l));
    XorInvolution(Floor(i, l), Floor(mask, l));
    FloorSpec(i, l);
    FloorSpec(Xor(i, mask), l);
    if t.Has(i) {
      FloorUnique(i, t.base, l);
    }
    if b.Has(Xor(i, mask)) {
      FloorUnique(Xor(i, mask), b.base, l);
    }
  }

  // ------------------------------------------------------------------
  // The swaps inside a 32-bit word

  /** The positions whose digit k is 0. */
  function LowMask(k: nat): Word
    requires k < 5
  {
    match k case 0 => 0x55555555 case 1 => 0x33333333 case 2 => 0x0f0f0f0f case 3 => 0x00ff00ff case _ => 0x0000ffff
  }

  /** The positions whose digit k is 1. */
  function HighMask(k: nat): Word
    requires k < 5
  {
    match k case 0 => 0xAAAAAAAA case 1 => 0xCCCCCCCC case 2 => 0xf0f0f0f0 case 3 => 0xff00ff00 case _ => 0xffff0000
  }

  /** The factor of a shift by 2^k places. */
  function Factor(k: nat): (s: nat)
    requires k < 5
    ensures s > 0 && s == P(P(k))
  {
    SmallPowers();
    match k case 0 => 2 case 1 => 4 case 2 => 16 case 3 => 256 case _ => 65536
  }

  /** ((w & low) << 2^k) | ((w & high) >> 2^k). */
  function Swap(w: Word, k: nat): Word
    requires k < 5
  {
    SwapBound(w, k);
    Or(And(w, LowMask(k)) * Factor(k), And(w, HighMask(k)) / Factor(k))
  }

  lemma SwapBound(w: Word, k: nat)
    requires k < 5
    ensures Or(And(w, LowMask(k)) * Factor(k), And(w, HighMask(k)) / Factor(k)) < 0x1_0000_0000
  {
    hide And, Or, P;
    OpsBound(LowMask(k), w, 0);
    OpsBound(HighMask(k), w, 0);
    AndCommutes(w, LowMask(k));
    AndCommutes(w, HighMask(k));
    var a, b := And(w, LowMask(k)), And(w, HighMask(k));
    ShiftBounds(a, b, k);
    SmallPowers();
    OpsBound(a * Factor(k), b / Factor(k), 32);
  }

  lemma ShiftBounds(a: nat, b: nat, k: nat)
    requires k < 5 && a <= LowMask(k) && b <= HighMask(k)
    ensures a * Factor(k) < 0x1_0000_0000 && b / Factor(k) < 0x1_0000_0000
  {
    hide P;
    if k == 0 {
    } else if k == 1 {
    } else if k == 2 {
    } else if k == 3 {
    } else {
    }
  }

  lemma {:induction false} AndCommutes(a: nat, b: nat)
    ensures And(a, b) == And(b, a)
    decreases a + b
  {
    if a > 0 && b > 0 {
      AndCommutes(a / 2, b / 2);
    }
  }

  lemma ShiftDownBits(w: nat, q: nat, k: nat, i: nat)
    requires q == w / P(k)
    ensures Bit(q, i) <==> Bit(w, i + k)
  {
    hide P, Bit;
    var n := w % P(k);
    assert w == P(k) * q + n;
    SplitBits(q, n, k, i + k);
  }

  lemma ShiftUpBits(w: nat, k: nat, i: nat)
    ensures Bit(w * P(k), i) <==> i >= k && Bit(w, i - k)
  {
    assert w * P(k) == P(k) * w + 0;
    SplitBits(w, 0, k, i);
    ZeroBits(i);
  }

  /** n blocks of 2^k ones and 2^k zeros. */
  function Stripes(k: nat, n: nat): nat {
    if n == 0 then 0 else P(P(k + 1)) * Stripes(k, n - 1) + (P(P(k)) - 1)
  }

  lemma {:induction false} DigitLow(i: nat, k: nat)
    requires i < P(k + 1)
    ensures Bit(i, k) <==> i >= P(k)
  {
    if k > 0 {
      DigitLow(i / 2, k - 1);
    }
  }

  lemma {:induction false} DigitPeriod(i: nat, k: nat)
    ensures Bit(i + P(k + 1), k) <==> Bit(i, k)
  {
    if k > 0 {
      assert (i + P(k + 1)) / 2 == i / 2 + P(k);
      DigitPeriod(i / 2, k - 1);
    }
  }

  lemma HalfPower(k: nat)
    ensures P(k + 1) == 2 * P(k) && P(k) < P(k + 1)
  {
  }

  lemma {:induction false} StripeBits(k: nat, n: nat, i: nat)
    requires i < n * P(k + 1)
    ensures Bit(Stripes(k, n), i) <==> !Bit(i, k)
  {
    hide P, Bit;
    var p := P(k + 1);
    assert n > 0;
    assert P(P(k)) - 1 < P(p) by {
      HalfPower(k);
      PowerMonotone(P(k), p);
    }
    OnesBits(P(k), i);
    SplitBits(Stripes(k, n - 1), P(P(k)) - 1, p, i);
    if i < p {
      DigitLow(i, k);
    } else {
      assert i - p < (n - 1) * p by {
        assert n * p == (n - 1) * p + p;
      }
      StripeBits(k, n - 1, i - p);
      DigitPeriod(i - p, k);
    }
  }

  lemma StripeTable()
    ensures Stripes(0, 16) == 0x55555555 && Stripes(1, 8) == 0x33333333 && Stripes(2, 4) == 0x0f0f0f0f
    ensures Stripes(3, 2) == 0x00ff00ff && Stripes(4, 1) == 0x0000ffff
  {
    SmallPowers();
    assert Stripes(0, 1) == 0x1;
    assert Stripes(0, 2) == 0x5;
    assert Stripes(0, 3) == 0x15;
    assert Stripes(0, 4) == 0x55;
    assert Stripes(0, 5) == 0x155;
    assert Stripes(0, 6) == 0x555;
    assert Stripes(0, 7) == 0x1555;
    assert Stripes(0, 8) == 0x5555;
    assert Stripes(0, 9) == 0x15555;
    assert Stripes(0, 10) == 0x55555;
    assert Stripes(0, 11) == 0x155555;
    assert Stripes(0, 12) == 0x555555;
    assert Stripes(0, 13) == 0x1555555;
    assert Stripes(0, 14) == 0x5555555;
    assert Stripes(0, 15) == 0x15555555;
    assert Stripes(0, 16) == 0x55555555;
    assert Stripes(1, 1) == 0x3;
    assert Stripes(1, 2) == 0x33;
    assert Stripes(1, 3) == 0x333;
    assert Stripes(1, 4) == 0x3333;
    assert Stripes(1, 5) == 0x33333;
    assert Stripes(1, 6) == 0x333333;
    assert Stripes(1, 7) == 0x3333333;
    assert Stripes(1, 8) == 0x33333333;
  }

  /** The low mask selects the positions whose digit k is 0, the high mask the others. */
  lemma MaskDigits(k: nat, i: nat)
    requires k < 5 && i < 32
    ensures Bit(LowMask(k), i) <==> !Bit(i, k)
    ensures HighMask(k) == LowMask(k) * Factor(k)
  {
    hide Bit;
    StripeTable();
    assert P(1) == 2 && P(2) == 4 && P(3) == 8 && P(4) == 16 && P(5) == 32;
    var n := match k case 0 => 16 case 1 => 8 case 2 => 4 case 3 => 2 case _ => 1;
    StripeBits(k, n, i);
  }

  /** Exclusive-or with a single digit flips that digit. */
  lemma {:induction false} XorPower(i: nat, k: nat)
    ensures Bit(i, k) ==> i >= P(k)
    ensures Xor(i, P(k)) == if Bit(i, k) then i - P(k) else i + P(k)
  {
    hide Xor;
    XorDigits(i, P(k));
    if k == 0 {
      XorZero(i / 2);
    } else {
      XorPower(i / 2, k - 1);
    }
  }

  lemma {:induction false} FlipDigit(i: nat, k: nat)
    ensures Bit(Xor(i, P(k)), k) <==> !Bit(i, k)
  {
    if k == 0 {
      XorZero(i / 2);
    } else {
      FlipDigit(i / 2, k - 1);
    }
  }

  lemma FlipInside(i: nat, k: nat)
    requires i < 32 && k < 5
    ensures Xor(i, P(k)) < 32
  {
    hide P, Xor;
    SmallPowers();
    PowerMonotone(k, 4);
    XorBound(i, P(k), 5);
  }

  /** The place i - s has digit k set, if i has it clear. */
  lemma BelowDigit(i: nat, k: nat)
    requires i >= P(k)
    ensures Bit(i - P(k), k) <==> !Bit(i, k)
  {
    hide P, Bit, Xor;
    var j := i - P(k);
    FlipDigit(j, k);
    XorPower(j, k);
    FlipDigit(i, k);
    XorPower(i, k);
  }

  /** A swap moves every bit to the place with digit k flipped. */
  lemma SwapBits(w: Word, k: nat, i: nat)
    requires k < 5 && i < 32
    ensures Xor(i, P(k)) < 32
    ensures Bit(Swap(w, k), i) <==> Bit(w, Xor(i, P(k)))
  {
    hide P, Bit, Xor, And, Or;
    var s := P(k);
    var lo, hi := And(w, LowMask(k)), And(w, HighMask(k));
    FlipInside(i, k);
    FlipDigit(i, k);
    XorPower(i, k);
    BitOps(lo * Factor(k), hi / Factor(k), i);
    ShiftUpBits(lo, s, i);
    ShiftDownBits(hi, hi / Factor(k), s, i);
    BitOps(w, HighMask(k), i + s);
    MaskDigits(k, i);
    ShiftUpBits(LowMask(k), s, i + s);
    if i >= s {
      BitOps(w, LowMask(k), i - s);
      MaskDigits(k, i - s);
      BelowDigit(i, k);
    }
  }

  /** The swaps of the leaf search, one for each digit of the twist. */
  function TwistWord(w: Word, t: nat): Word {
    var w0 := if Bit(t, 0) then Swap(w, 0) else w;
    var w1 := if Bit(t, 1) then Swap(w0, 1) else w0;
    var w2 := if Bit(t, 2) then Swap(w1, 2) else w1;
    var w3 := if Bit(t, 3) then Swap(w2, 3) else w2;
    if Bit(t, 4) then Swap(w3, 4) else w3
  }

  /** The first k digits of t. */
  function Low(t: nat, k: nat): nat {
    if k == 0 then 0 else Low(t, k - 1) + (if Bit(t, k - 1) then P(k - 1) else 0)
  }

  lemma {:induction false} LowBound(t: nat, k: nat)
    ensures Low(t, k) < P(k)
  {
    if k > 0 {
      LowBound(t, k - 1);
    }
  }

  lemma {:induction false} LowDigit(t: nat, k: nat)
    requires k > 0
    ensures Low(t, k) == 2 * Low(t / 2, k - 1) + t % 2
  {
    if k > 1 {
      LowDigit(t, k - 1);
    }
  }

  lemma {:induction false} LowAll(t: nat, k: nat)
    requires t < P(k)
    ensures Low(t, k) == t
  {
    if k > 0 {
      LowAll(t / 2, k - 1);
      LowDigit(t, k);
    }
  }

  /** Bit i of w' is the bit of w at i exclusive-or m. */
  ghost predicate Moved(w': Word, w: Word, m: nat) {
    forall i: nat :: i < 32 ==> Xor(i, m) < 32 && (Bit(w', i) <==> Bit(w, Xor(i, m)))
  }

  /** One more digit of the twist: if w' holds w twisted by the first k digits, the next swap adds digit k. */
  lemma SwapStep(w: Word, w': Word, t: nat, k: nat)
    requires k < 5 && Moved(w', w, Low(t, k))
    ensures Moved(if Bit(t, k) then Swap(w', k) else w', w, Low(t, k + 1))
  {
    hide P, Bit, Xor, And, Or, Swap;
    var w'' := if Bit(t, k) then Swap(w', k) else w';
    var m := Low(t, k + 1);
    forall i: nat | i < 32 ensures Xor(i, m) < 32 && (Bit(w'', i) <==> Bit(w, Xor(i, m))) {
      if Bit(t, k) {
        SwapBits(w', k, i);
        XorAssociative(i, P(k), Low(t, k));
        LowBound(t, k);
        PowerAligned(k, k);
        XorDisjoint(P(k), Low(t, k), k);
      }
    }
  }

  lemma NotMoved(w: Word)
    ensures Moved(w, w, 0)
  {
    forall i: nat ensures Xor(i, 0) == i {
      XorZero(i);
    }
  }

  /** The swaps together move every bit i to where the twist takes it. */
  lemma TwistWordBits(w: Word, t: nat)
    requires t < 32
    ensures Moved(TwistWord(w, t), w, t)
  {
    hide Bit, Xor, And, Or, Swap, P, Moved;
    var w0 := if Bit(t, 0) then Swap(w, 0) else w;
    var w1 := if Bit(t, 1) then Swap(w0, 1) else w0;
    var w2 := if Bit(t, 2) then Swap(w1, 2) else w1;
    var w3 := if Bit(t, 3) then Swap(w2, 3) else w2;
    NotMoved(w);
    SwapStep(w, w, t, 0);
    SwapStep(w, w0, t, 1);
    SwapStep(w, w1, t, 2);
    SwapStep(w, w2, t, 3);
    SwapStep(w, w3, t, 4);
    SmallPowers();
    LowAll(t, 5);
  }

  /** A twisted word is empty exactly when the word is. */
  lemma TwistWordEmpty(w: Word, t: nat)
    requires t < 32 && w != EMPTY
    ensures TwistWord(w, t) != EMPTY
  {
    hide Bit, Xor, And, Or, Swap, P, TwistWord;
    TwistWordBits(w, t);
    SmallPowers();
    if forall k: nat :: k < 32 ==> !Bit(w, k) {
      forall k: nat | k < 32 ensures Bit(w, k) <==> Bit(EMPTY, k) {
        ZeroBits(k);
      }
      BitsDetermine(w, EMPTY, 32);
    } else {
      var k: nat :| k < 32 && Bit(w, k);
      XorInvolution(k, t);
      XorBound(k, t, 5);
      ZeroBits(Xor(k, t));
    }
  }
}
