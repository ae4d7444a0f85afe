/** bitmap_to_bin: from a bitmap to the filled bin that starts at its lowest set bit. */
module Leftmost {
  import opened Powers
  import opened Bits
  import opened Bins
  import opened Words

  /** The rows of BITMAP_TO_BIN repeat one pattern: the number of the leftmost filled bin of a nibble. */
  function NibbleBin(n: nat): (v: nat)
    requires 0 < n < 16
    ensures v <= 6
  {
    match n
    case 1 => 0 case 2 => 2 case 3 => 1 case 4 => 4 case 5 => 0 case 6 => 2 case 7 => 1 case 8 => 6
    case 9 => 0 case 10 => 2 case 11 => 1 case 12 => 5 case 13 => 0 case 14 => 2 case _ => 3
  }

  /** The table BITMAP_TO_BIN: 0xff for no bit, the leftmost filled bin otherwise. */
  function ByteBin(x: nat): (v: nat)
    requires x < 256
    ensures x > 0 ==> v < 16
  {
    if x == 0 then 0xff
    else if x == 0xff then 7
    else if x % 16 != 0 then NibbleBin(x % 16)
    else 8 + NibbleBin(x / 16)
  }

  /** b & -b on 32 bits: the lowest set bit. */
  function LowBit(b: Word): nat {
    And(b, (0x1_0000_0000 - b) % 0x1_0000_0000)
  }

  function BitmapToBin(b: Word): (v: nat)
    requires b != EMPTY
  {
    var t := ByteBin(b % 256);
    if t < 16 then
      if t != 7 then t
      else
        var low := LowBit((b + 1) % 0x1_0000_0000);
        if low == 0 then 31 else if low % 0x1_0000 == 0 then 15 else 7
    else
      var b1 := b / 256;
      var t1 := ByteBin(b1 % 256);
      if t1 <= 15 then 16 + t1
      else
        var b2 := b1 / 256;
        var t2 := ByteBin(b2 % 256);
        if t2 < 16 then
          if t2 != 7 then 32 + t2
          else if LowBit((b2 + 1) % 0x1_0000_0000) % 0x1_0000 == 0 then 47 else 39
        else 48 + ByteBin(b2 / 256)
  }

  /** The bin is filled in w and nothing below it is set. */
  ghost predicate StartsWith(w: nat, b: Bin) {
    Aligned(b.base, b.layer) &&
    (forall i: nat :: b.Has(i) ==> Bit(w, i)) &&
    (forall i: nat :: i < b.base ==> !Bit(w, i))
  }

  lemma {:induction false} SplitBits(q: nat, n: nat, k: nat, i: nat)
    requires n < P(k)
    ensures Bit(P(k) * q + n, i) <==> if i < k then Bit(n, i) else Bit(q, i - k)
  {
    if k > 0 {
      assert P(k) * q + n == 2 * (P(k - 1) * q) + n by {
        DoubleProduct(P(k - 1), q);
      }
      assert (P(k) * q + n) / 2 == P(k - 1) * q + n / 2;
      if i > 0 {
        SplitBits(q, n / 2, k - 1, i - 1);
      }
    }
  }

  /** The lower part of a word decides, if it has a set bit. */
  lemma LowPart(q: nat, n: nat, k: nat, b: Bin)
    requires n < P(k) && StartsWith(n, b) && b.End() <= k
    ensures StartsWith(P(k) * q + n, b)
  {
    hide Bit, P, Aligned;
    var w := P(k) * q + n;
    forall i: nat ensures Bit(w, i) <==> if i < k then Bit(n, i) else Bit(q, i - k) {
      SplitBits(q, n, k, i);
    }
    assert b.base <= k;
  }

  /** Otherwise the upper part does, k places further. */
  lemma HighPart(q: nat, k: nat, b: Bin)
    requires StartsWith(q, b) && Aligned(k, b.layer)
    ensures StartsWith(P(k) * q, Bin(b.layer, b.base + k))
  {
    hide Bit, P, Aligned;
    AlignedSum(b.base, k, b.layer);
    forall i: nat ensures Bit(P(k) * q, i) <==> i >= k && Bit(q, i - k) {
      assert P(k) * q + 0 == P(k) * q;
      SplitBits(q, 0, k, i);
      ZeroBits(i);
    }
    forall i: nat | Bin(b.layer, b.base + k).Has(i) ensures Bit(P(k) * q, i) {
      assert b.Has(i - k);
    }
  }

  lemma BitStep(n: nat, i: nat)
    ensures Bit(n, 0) <==> n % 2 == 1
    ensures Bit(n, i + 1) <==> Bit(n / 2, i)
  {
  }

  lemma NibbleBits(n: nat)
    requires n < 16
    ensures Bit(n, 0) <==> n % 2 == 1
    ensures Bit(n, 1) <==> n % 4 >= 2
    ensures Bit(n, 2) <==> n % 8 >= 4
    ensures Bit(n, 3) <==> n >= 8
  {
    hide Bit;
    BitStep(n, 0);
    BitStep(n, 1);
    BitStep(n, 2);
    BitStep(n / 2, 0);
    BitStep(n / 2, 1);
    BitStep(n / 2 / 2, 0);
    BitStep(n / 2 / 2 / 2, 0);
  }

  /** The seven bins inside a nibble. */
  lemma NibbleBinOf(v: nat) returns (b: Bin)
    requires v <= 6
    ensures b == Decode(v) && Aligned(b.base, b.layer) && b.layer <= 2
    ensures v == 0 ==> b.base == 0 && b.End() == 1
    ensures v == 1 ==> b.base == 0 && b.End() == 2
    ensures v == 2 ==> b.base == 1 && b.End() == 2
    ensures v == 3 ==> b.base == 0 && b.End() == 4
    ensures v == 4 ==> b.base == 2 && b.End() == 3
    ensures v == 5 ==> b.base == 2 && b.End() == 4
    ensures v == 6 ==> b.base == 3 && b.End() == 4
  {
    hide Decode;
    SmallPowers();
    assert Aligned(0, 1) && Aligned(0, 2) && Aligned(2, 1);
    b := if v == 1 then Bin(1, 0) else if v == 3 then Bin(2, 0) else if v == 5 then Bin(1, 2) else Bin(0, v / 2);
    assert b.V() == v;
    DecodeBin(b);
  }

  lemma NibbleStarts(n: nat)
    requires 0 < n < 16
    ensures StartsWith(n, Decode(NibbleBin(n))) && Decode(NibbleBin(n)).layer <= 2 && Decode(NibbleBin(n)).End() <= 4
  {
    hide Bit, P, Aligned, Decode;
    NibbleBits(n);
    var b := NibbleBinOf(NibbleBin(n));
    forall i: nat | b.Has(i) ensures Bit(n, i) {
      assert i == 0 || i == 1 || i == 2 || i == 3;
    }
    forall i: nat | i < b.base ensures !Bit(n, i) {
      assert i == 0 || i == 1 || i == 2;
    }
  }

  lemma OnesStart(n: nat, l: nat)
    requires n == P(l)
    ensures StartsWith(P(n) - 1, Bin(l, 0))
  {
    hide Bit, P;
    ZeroAligned(l);
    var w := P(n) - 1;
    forall i: nat ensures Bit(w, i) <==> i < n {
      OnesBits(n, i);
    }
  }

  lemma ByteStarts(x: nat)
    requires 0 < x < 256
    ensures StartsWith(x, Decode(ByteBin(x))) && Decode(ByteBin(x)).layer <= 3 && Decode(ByteBin(x)).End() <= 8
    ensures ByteBin(x) == 7 <==> x == 255
  {
    hide Bit, Decode, StartsWith, Bin.End;
    SmallPowers();
    if x == 255 {
      OnesStart(8, 3);
      DecodeBin(Bin(3, 0));
      EndIs(Bin(3, 0));
    } else if x % 16 != 0 {
      var b := Decode(NibbleBin(x % 16));
      NibbleStarts(x % 16);
      LowPart(x / 16, x % 16, 4, b);
    } else {
      var b := Decode(NibbleBin(x / 16));
      NibbleStarts(x / 16);
      PowerAligned(b.layer, 2);
      HighPart(x / 16, 4, b);
      DecodeShift(NibbleBin(x / 16), 4);
      EndIs(b);
      EndIs(Decode(ByteBin(x)));
    }
  }

  lemma EndIs(b: Bin)
    ensures b.End() == b.base + P(b.layer)
  {
  }

  /** The lowest set bit has as many trailing zeros as the number. */
  lemma {:induction false} NegationAnd(c: nat, n: nat, k: nat)
    requires 0 < c < P(n)
    ensures And(c, P(n) - c) > 0
    ensures Aligned(And(c, P(n) - c), k) <==> Aligned(c, k)
    decreases n
  {
    if c % 2 == 0 {
      assert (P(n) - c) / 2 == P(n - 1) - c / 2;
      NegationAnd(c / 2, n - 1, if k > 0 then k - 1 else 0);
      if k > 0 {
        assert And(c, P(n) - c) / 2 == And(c / 2, P(n - 1) - c / 2);
      }
    } else {
      assert (P(n) - c) % 2 == 1;
    }
  }

  lemma LowBitSpec(c: Word)
    ensures LowBit(c) == 0 <==> c == 0
    ensures LowBit(c) % 0x1_0000 == 0 <==> c % 0x1_0000 == 0
  {
    hide P, Aligned, And;
    SmallPowers();
    if c == 0 {
      AndZero(0x1_0000_0000 % 0x1_0000_0000);
    } else {
      NegationAnd(c, 32, 16);
      AlignedMod(c, 16);
      AlignedMod(LowBit(c), 16);
    }
  }

  lemma AndZero(b: nat)
    ensures And(0, b) == 0
  {
  }

  lemma Shifted(q: nat, v: nat, k: nat)
    requires StartsWith(q, Decode(v)) && Aligned(k, Decode(v).layer)
    ensures StartsWith(P(k) * q, Decode(2 * k + v))
    ensures Decode(2 * k + v).layer == Decode(v).layer && Decode(2 * k + v).End() == Decode(v).End() + k
  {
    hide StartsWith, Aligned, Decode, P;
    HighPart(q, k, Decode(v));
    DecodeShift(v, k);
  }

  lemma AlignedConstants(l: nat)
    ensures l <= 3 ==> Aligned(8, l) && Aligned(24, l)
    ensures l <= 4 ==> Aligned(16, l)
  {
    assert Aligned(8, 3) && Aligned(24, 3) && Aligned(16, 4);
    if l <= 3 {
      AlignedBelow(8, l, 3);
      AlignedBelow(24, l, 3);
    }
    if l <= 4 {
      AlignedBelow(16, l, 4);
    }
  }

  /** 2^l ones at the bottom of a word: the bin of layer l at offset 0. */
  lemma OnesBelow(b: nat, l: nat)
    requires b % P(P(l)) == P(P(l)) - 1
    ensures StartsWith(b, Decode(P(l) - 1)) && Decode(P(l) - 1) == Bin(l, 0)
  {
    hide Bit, Decode, P, Aligned;
    var n := P(l);
    OnesStart(n, l);
    assert Aligned(0, l) by {
      ZeroAligned(l);
    }
    DecodeBin(Bin(l, 0));
    assert b == P(n) * (b / P(n)) + (P(n) - 1);
    LowPart(b / P(n), P(n) - 1, n, Bin(l, 0));
  }

  lemma PlusOne(b: Word)
    ensures (b + 1) % 0x1_0000_0000 == 0 <==> b == 0xffff_ffff
    ensures (b + 1) % 0x1_0000_0000 % 0x1_0000 == 0 <==> b % 0x1_0000 == 0xffff
  {
  }

  lemma LowByte(b: Word)
    requires b % 256 != 0
    ensures StartsWith(b, Decode(BitmapToBin(b)))
    ensures Decode(BitmapToBin(b)).layer <= 5 && Decode(BitmapToBin(b)).End() <= 32
  {
    hide Bit, Decode, StartsWith, ByteBin, LowBit, Aligned, P, And;
    ByteStarts(b % 256);
    SmallPowers();
    if ByteBin(b % 256) != 7 {
      LowPart(b / 256, b % 256, 8, Decode(ByteBin(b % 256)));
    } else {
      LowOnes(b);
    }
  }

  lemma LowOnes(b: Word)
    requires b % 256 == 255
    ensures var low := LowBit((b + 1) % 0x1_0000_0000);
      var v := if low == 0 then 31 else if low % 0x1_0000 == 0 then 15 else 7;
      StartsWith(b, Decode(v)) && Decode(v).layer <= 5 && Decode(v).End() <= 32
  {
    hide Bit, Decode, StartsWith, ByteBin, LowBit, Aligned, P, And;
    PlusOne(b);
    LowBitSpec((b + 1) % 0x1_0000_0000);
    SmallPowers();
    if b == 0xffff_ffff {
      OnesBelow(b, 5);
    } else if b % 0x1_0000 == 0xffff {
      OnesBelow(b, 4);
    } else {
      OnesBelow(b, 3);
    }
  }

  lemma ThirdByte(b: nat)
    requires b < 0x1_0000 && b % 256 != 0
    ensures var t := ByteBin(b % 256);
      var v := if t != 7 then t else if LowBit((b + 1) % 0x1_0000_0000) % 0x1_0000 == 0 then 15 else 7;
      StartsWith(b, Decode(v)) && Decode(v).layer <= 4 && Decode(v).End() <= 16
  {
    hide Bit, Decode, StartsWith, ByteBin, LowBit, Aligned, P, And;
    ByteStarts(b % 256);
    SmallPowers();
    if ByteBin(b % 256) != 7 {
      LowPart(b / 256, b % 256, 8, Decode(ByteBin(b % 256)));
    } else {
      LowBitSpec(b + 1);
      if b == 0xffff {
        OnesBelow(b, 4);
      } else {
        OnesBelow(b, 3);
      }
    }
  }

  // ------------------------------------------------------------------
  // No bigger bin is filled

  /** A bit of the parent, below bit n, is not set. */
  ghost predicate Gap(w: nat, b: Bin, n: nat) {
    exists i: nat :: i < n && b.Parent().Has(i) && !Bit(w, i)
  }

  lemma LowGap(q: nat, n: nat, k: nat, b: Bin)
    requires n < P(k) && Gap(n, b, k)
    ensures Gap(P(k) * q + n, b, k)
  {
    hide Bit, P, Bin.Parent;
    var i: nat :| i < k && b.Parent().Has(i) && !Bit(n, i);
    SplitBits(q, n, k, i);
  }

  /** Moved up by k places; a bin at 0 becomes a right half if k is no multiple of twice its length. */
  lemma HighGap(q: nat, k: nat, b: Bin, n: nat)
    requires Aligned(b.base, b.layer) && Aligned(k, b.layer)
    requires if Aligned(k, b.layer + 1) then Gap(q, b, n) else b.base == 0
    ensures Gap(P(k) * q, Bin(b.layer, b.base + k), n + k)
  {
    hide Bit, P, Aligned, Floor;
    var c, l := Bin(b.layer, b.base + k), b.layer + 1;
    assert P(k) * q + 0 == P(k) * q;
    if Aligned(k, l) {
      var i: nat :| i < n && b.Parent().Has(i) && !Bit(q, i);
      FloorSpec(b.base, l);
      AlignedSum(Floor(b.base, l), k, l);
      FloorUnique(b.base + k, Floor(b.base, l) + k, l);
      SplitBits(q, 0, k, i + k);
      assert c.Parent().Has(i + k);
    } else {
      FloorSpec(k, l);
      if Floor(k, l) == k {
        assert false;
      }
      SplitBits(q, 0, k, k - 1);
      ZeroBits(k - 1);
      assert c.Parent().Has(k - 1);
    }
  }

  /** A number that is not all ones below bit n has a gap there. */
  lemma SomeZero(w: nat, n: nat) returns (i: nat)
    requires w % P(n) != P(n) - 1
    ensures i < n && !Bit(w, i)
  {
    hide Bit, P;
    if forall j: nat :: j < n ==> Bit(w, j) {
      forall j: nat | j < n ensures Bit(w % P(n), j) <==> Bit(P(n) - 1, j) {
        SplitBits(w / P(n), w % P(n), n, j);
        OnesBits(n, j);
      }
      BitsDetermine(w % P(n), P(n) - 1, n);
      assert false;
    }
    i :| i < n && !Bit(w, i);
  }

  lemma ZeroGap(w: nat, l: nat)
    requires w % P(P(l + 1)) != P(P(l + 1)) - 1
    ensures Gap(w, Bin(l, 0), P(l + 1))
  {
    hide Bit, P, Aligned, Floor;
    var i := SomeZero(w, P(l + 1));
    ZeroAligned(l + 1);
    FloorUnique(0, 0, l + 1);
    assert Bin(l, 0).Parent().Has(i);
  }

  lemma NibbleGap(n: nat)
    requires 0 < n < 16
    ensures if n == 15 then Decode(NibbleBin(n)) == Bin(2, 0) else Decode(NibbleBin(n)).layer <= 1 && Gap(n, Decode(NibbleBin(n)), 4)
  {
    hide Bit, P, Aligned, Decode, Floor;
    NibbleBits(n);
    var b := NibbleBinOf(NibbleBin(n));
    SmallPowers();
    if n != 15 {
      UpToFour(b.base, b.layer + 1);
      var i := if b.layer == 1 then (if n % 8 >= 4 then 3 else 2) - (if b.base == 2 then 2 else 0)
        else if b.base % 2 == 0 then b.base + 1 else b.base - 1;
      assert b.Parent().Has(i) && !Bit(n, i);
    }
  }

  lemma UpToFour(x: nat, l: nat)
    requires x < 4 && 1 <= l <= 2
    ensures Floor(x, l) == if l == 2 then 0 else x - x % 2
  {
    SmallPowers();
    assert Aligned(0, 2) && Aligned(0, 1) && Aligned(2, 1);
    FloorUnique(x, if l == 2 then 0 else x - x % 2, l);
  }

  lemma ByteGap(x: nat)
    requires 0 < x < 256
    ensures if x == 255 then Decode(ByteBin(x)) == Bin(3, 0) else Decode(ByteBin(x)).layer <= 2 && Gap(x, Decode(ByteBin(x)), 8)
  {
    hide Bit, Decode, Gap, NibbleBin, Aligned, Floor;
    SmallPowers();
    assert P(4) == 16 && P(8) == 256;
    if x == 255 {
      ZeroAligned(3);
      DecodeBin(Bin(3, 0));
    } else if x % 16 == 15 {
      NibbleGap(15);
      ZeroGap(x, 2);
    } else if x % 16 != 0 {
      NibbleGap(x % 16);
      LowGap(x / 16, x % 16, 4, Decode(NibbleBin(x % 16)));
      Wider(x, Decode(ByteBin(x)), 4, 8);
    } else {
      NibbleGap(x / 16);
      NibbleStarts(x / 16);
      var b := Decode(NibbleBin(x / 16));
      FourAligned(b.layer);
      HighGap(x / 16, 4, b, 4);
      DecodeShift(NibbleBin(x / 16), 4);
    }
  }

  lemma Wider(w: nat, b: Bin, n: nat, m: nat)
    requires Gap(w, b, n) && n <= m
    ensures Gap(w, b, m)
  {
  }

  lemma FourAligned(l: nat)
    requires l <= 2
    ensures Aligned(4, l) && Aligned(0, l) && (Aligned(4, l + 1) <==> l < 2)
  {
    assert Aligned(4, 2) && !Aligned(4, 3) && Aligned(4, 1) && Aligned(4, 0);
  }

  lemma LowWordGap(b: Word)
    requires b % 256 != 0 && Decode(BitmapToBin(b)).layer < 5
    ensures Gap(b, Decode(BitmapToBin(b)), 32)
  {
    hide Bit, Decode, Gap, ByteBin, LowBit, Aligned, P, And;
    ByteGap(b % 256);
    SmallPowers();
    SevenOnly(b % 256);
    if ByteBin(b % 256) != 7 {
      LowGap(b / 256, b % 256, 8, Decode(ByteBin(b % 256)));
      Wider(b, Decode(ByteBin(b % 256)), 8, 32);
    } else {
      PlusOne(b);
      LowBitSpec((b + 1) % 0x1_0000_0000);
      OnesBins();
      if b % 0x1_0000 == 0xffff {
        ZeroGap(b, 4);
      } else {
        ZeroGap(b, 3);
        Wider(b, Bin(3, 0), 16, 32);
      }
    }
  }

  lemma SevenOnly(x: nat)
    requires 0 < x < 256
    ensures ByteBin(x) == 7 <==> x == 255
  {
    hide NibbleBin;
  }

  lemma OnesBins()
    ensures Decode(7) == Bin(3, 0) && Decode(15) == Bin(4, 0) && Decode(31) == Bin(5, 0)
  {
    hide Decode, Aligned;
    SmallPowers();
    ZeroAligned(3);
    ZeroAligned(4);
    ZeroAligned(5);
    DecodeBin(Bin(3, 0));
    DecodeBin(Bin(4, 0));
    DecodeBin(Bin(5, 0));
  }

  /** The last byte of a word, or its second: nothing below it is set. */
  lemma ByteUp(q: nat, x: nat, k: nat)
    requires 0 < x < 256 && q % 256 == x && (k == 8 || k == 24)
    ensures Gap(P(k) * q, Decode(2 * k + ByteBin(x)), 8 + k)
  {
    hide Bit, Decode, Gap, ByteBin, Aligned, P;
    ByteStarts(x);
    ByteGap(x);
    SmallPowers();
    var b := Decode(ByteBin(x));
    StartAligned(x, b);
    AlignedConstants(b.layer);
    DecodeShift(ByteBin(x), k);
    BytePlaces(b.layer);
    if x != 255 {
      LowGap(q / 256, x, 8, b);
    }
    HighGap(q, k, b, 8);
  }

  lemma StartAligned(w: nat, b: Bin)
    requires StartsWith(w, b)
    ensures Aligned(b.base, b.layer)
  {
  }

  lemma BytePlaces(l: nat)
    ensures l <= 2 ==> Aligned(8, l + 1) && Aligned(24, l + 1)
    ensures l <= 3 ==> Aligned(16, l + 1)
    ensures !Aligned(8, 4) && !Aligned(24, 4) && !Aligned(16, 5)
  {
    AlignedConstants(l + 1);
    assert !Aligned(1, 1) && !Aligned(3, 1);
    assert !Aligned(2, 2) && !Aligned(6, 2);
    assert !Aligned(4, 3) && !Aligned(12, 3);
    assert !Aligned(8, 4);
  }

  lemma ThirdGap(b: nat)
    requires b < 0x1_0000 && b % 256 != 0
    ensures var t := ByteBin(b % 256);
      var v := if t != 7 then t else if LowBit((b + 1) % 0x1_0000_0000) % 0x1_0000 == 0 then 15 else 7;
      if b == 0xffff then v == 15 && Decode(v) == Bin(4, 0) else Decode(v).layer <= 3 && Gap(b, Decode(v), 16)
  {
    hide Bit, Decode, Gap, ByteBin, LowBit, Aligned, P, And;
    ByteGap(b % 256);
    SmallPowers();
    SevenOnly(b % 256);
    if ByteBin(b % 256) != 7 {
      LowGap(b / 256, b % 256, 8, Decode(ByteBin(b % 256)));
      Wider(b, Decode(ByteBin(b % 256)), 8, 16);
    } else {
      LowBitSpec(b + 1);
      OnesBins();
      if b != 0xffff {
        ZeroGap(b, 3);
      }
    }
  }

  /** No bigger bin that starts in the block is filled. */
  lemma WordGap(b: Word)
    requires b != EMPTY && Decode(BitmapToBin(b)).layer < 5
    ensures Gap(b, Decode(BitmapToBin(b)), 32)
  {
    hide Bit, Decode, Gap, LowBit, Aligned, P, ByteBin;
    var b1 := b / 256;
    var b2 := b1 / 256;
    assert P(8) == 256 && P(16) == 0x1_0000 && P(24) == 0x100_0000 by {
      SmallPowers();
      PowerSum(8, 8);
      PowerSum(16, 8);
    }
    ByteRange(b % 256);
    ByteRange(b1 % 256);
    ByteRange(b2 % 256);
    if b % 256 != 0 {
      LowWordGap(b);
    } else if b1 % 256 != 0 {
      ByteUp(b1, b1 % 256, 8);
      Wider(b, Decode(BitmapToBin(b)), 16, 32);
    } else if b2 % 256 != 0 {
      ThirdByte(b2);
      ThirdGap(b2);
      var v := BitmapToBin(b) - 32;
      StartAligned(b2, Decode(v));
      AlignedConstants(Decode(v).layer);
      BytePlaces(Decode(v).layer);
      DecodeShift(v, 16);
      HighGap(b2, 16, Decode(v), 16);
    } else {
      ByteUp(b2 / 256, b2 / 256, 24);
    }
  }

  lemma ByteRange(x: nat)
    requires x < 256
    ensures if x == 0 then ByteBin(x) == 0xff else ByteBin(x) < 16
  {
  }

  /** The result is the biggest filled bin of the bitmap that starts at its lowest set bit. */
  lemma WordStarts(b: Word)
    requires b != EMPTY
    ensures StartsWith(b, Decode(BitmapToBin(b)))
    ensures Decode(BitmapToBin(b)).layer <= 5 && Decode(BitmapToBin(b)).End() <= 32
    ensures Decode(BitmapToBin(b)).layer < 5 ==> Gap(b, Decode(BitmapToBin(b)), 32)
    ensures b != FILLED ==> Decode(BitmapToBin(b)).layer < 5
  {
    hide Bit, Decode, BitmapToBin;
    WordPlace(b);
    if Decode(BitmapToBin(b)).layer < 5 {
      WordGap(b);
    } else {
      WholeWord(b, Decode(BitmapToBin(b)));
    }
  }

  lemma WholeWord(w: Word, b: Bin)
    requires StartsWith(w, b) && b.layer == 5 && b.End() <= 32
    ensures w == FILLED
  {
    hide Bit, Aligned;
    SmallPowers();
    forall i: nat | i < 32 ensures Bit(w, i) <==> Bit(FILLED, i) {
      assert b.Has(i);
      FilledBits(i);
    }
    BitsDetermine(w, FILLED, 32);
  }

  lemma WordPlace(b: Word)
    requires b != EMPTY
    ensures StartsWith(b, Decode(BitmapToBin(b)))
    ensures Decode(BitmapToBin(b)).layer <= 5 && Decode(BitmapToBin(b)).End() <= 32
  {
    hide Bit, Decode, StartsWith, LowBit, Aligned, Bin.End, P, NibbleBin;
    var b1 := b / 256;
    var b2 := b1 / 256;
    assert P(8) == 256 && P(16) == 0x1_0000 && P(24) == 0x100_0000 by {
      SmallPowers();
      PowerSum(8, 8);
      PowerSum(16, 8);
    }
    if b % 256 != 0 {
      LowByte(b);
    } else if b1 % 256 != 0 {
      ByteStarts(b1 % 256);
      LowPart(b2, b1 % 256, 8, Decode(ByteBin(b1 % 256)));
      AlignedConstants(Decode(ByteBin(b1 % 256)).layer);
      Shifted(b1, ByteBin(b1 % 256), 8);
    } else if b2 % 256 != 0 {
      ThirdByte(b2);
      AlignedConstants(Decode(BitmapToBin(b) - 32).layer);
      Shifted(b2, BitmapToBin(b) - 32, 16);
    } else {
      ByteStarts(b2 / 256);
      AlignedConstants(Decode(ByteBin(b2 / 256)).layer);
      Shifted(b2 / 256, ByteBin(b2 / 256), 24);
    }
  }
}
