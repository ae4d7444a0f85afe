/** Flowing the highest bit of a mask down, and the bin that results. */
module Flow {
  import opened Powers
  import opened Bits
  import opened Bins
  import opened Words
  import Twist

  /** s | s >> 1 | ... : six steps for 64 bits. */
  function FlowDown(s: nat): nat {
    var s1 := Or(s, s / 2);
    var s2 := Or(s1, s1 / 4);
    var s4 := Or(s2, s2 / 16);
    var s8 := Or(s4, s4 / 256);
    var s16 := Or(s8, s8 / 0x1_0000);
    Or(s16, s16 / 0x1_0000_0000)
  }

  /** The bits from k down, j of them, are set, and none above. */
  ghost predicate TopOnes(s: nat, k: nat, j: nat) {
    forall i: nat :: (i > k ==> !Bit(s, i)) && (k < i + j && i <= k ==> Bit(s, i))
  }

  lemma FlowStep(s: nat, q: nat, k: nat, j: nat)
    requires TopOnes(s, k, j) && q == s / P(j)
    ensures TopOnes(Or(s, q), k, 2 * j)
  {
    hide Bit, Or, P;
    var t := Or(s, q);
    forall i: nat ensures (i > k ==> !Bit(t, i)) && (k < i + 2 * j && i <= k ==> Bit(t, i)) {
      BitOps(s, q, i);
      Twist.ShiftDownBits(s, q, j, i);
      assert Bit(s, i + j) || !Bit(s, i + j);
    }
  }

  lemma {:induction false} HighestBit(s: nat, k: nat)
    requires P(k) <= s < P(k + 1)
    ensures TopOnes(s, k, 1)
  {
    forall i: nat ensures (i > k ==> !Bit(s, i)) && (i == k ==> Bit(s, i)) {
      if i >= k {
        BitAt(s, k, i);
      }
    }
  }

  lemma {:induction false} BitAt(s: nat, k: nat, i: nat)
    requires P(k) <= s < P(k + 1) && i >= k
    ensures Bit(s, i) <==> i == k
  {
    if k > 0 {
      BitAt(s / 2, k - 1, i - 1);
    } else if i > 0 {
      ZeroBits(i - 1);
    }
  }

  /** For a mask of fewer than 64 bits, all bits from the highest down are set. */
  lemma FlowDownSpec(s: nat, k: nat)
    requires P(k) <= s < P(k + 1) && k < 64
    ensures FlowDown(s) == P(k + 1) - 1
  {
    hide Bit, Or, P, TopOnes;
    SmallPowers();
    HighestBit(s, k);
    var s1 := Or(s, s / 2);
    var s2 := Or(s1, s1 / 4);
    var s4 := Or(s2, s2 / 16);
    var s8 := Or(s4, s4 / 256);
    var s16 := Or(s8, s8 / 0x1_0000);
    FlowStep(s, s / 2, k, 1);
    FlowStep(s1, s1 / 4, k, 2);
    FlowStep(s2, s2 / 16, k, 4);
    FlowStep(s4, s4 / 256, k, 8);
    FlowStep(s8, s8 / 0x1_0000, k, 16);
    FlowStep(s16, s16 / 0x1_0000_0000, k, 32);
    AllOnes(FlowDown(s), k);
  }

  lemma AllOnes(s: nat, k: nat)
    requires TopOnes(s, k, 64) && k < 64
    ensures s == P(k + 1) - 1
  {
    hide Bit, P;
    var n := Width(s);
    var m := if n > k + 1 then n else k + 1;
    PowerMonotone(n, m);
    PowerMonotone(k + 1, m);
    var ones := P(k + 1) - 1;
    forall i: nat | i < m ensures Bit(s, i) <==> Bit(ones, i) {
      OnesBits(k + 1, i);
    }
    BitsDetermine(s, ones, m);
  }

  lemma {:induction false} Width(s: nat) returns (n: nat)
    ensures s < P(n)
  {
    if s == 0 {
      n := 0;
    } else {
      n := Width(s / 2);
      n := n + 1;
    }
  }

  /** Every positive number has a highest bit. */
  lemma {:induction false} Highest(s: nat) returns (k: nat)
    requires s > 0
    ensures P(k) <= s < P(k + 1)
  {
    if s == 1 {
      k := 0;
    } else {
      k := Highest(s / 2);
      k := k + 1;
    }
  }

  /** s + 1 + (s >> 1) after the flow: the bin of the highest bit of s, from 2^k to 2^(k+1). */
  lemma FlowBin(s: nat, k: nat)
    requires P(k) <= s < P(k + 1) && k < 64
    ensures Decode(FlowDown(s) + 1 + FlowDown(s) / 2) == Bin(k, P(k))
  {
    hide Bit, Or, FlowDown, Decode;
    FlowDownSpec(s, k);
    assert (2 * P(k) - 1) / 2 == P(k) - 1;
    PowerAligned(k, k);
    assert Bin(k, P(k)).V() == FlowDown(s) + 1 + FlowDown(s) / 2;
    DecodeBin(Bin(k, P(k)));
  }
}
