/** The order of a twisted search: chunk i comes before chunk j if i exclusive-or twist is the smaller number. */
module Order {
  import opened Powers
  import opened Bits
  import opened Bins
  import opened Twist

  /** Where a twisted search comes to a chunk. */
  function Rank(i: nat, twist: nat): nat {
    Xor(i, twist)
  }

  lemma RankOne(i: nat, j: nat, twist: nat)
    requires Rank(i, twist) == Rank(j, twist)
    ensures i == j
  {
    XorInvolution(i, twist);
    XorInvolution(j, twist);
  }

  lemma {:induction false} XorCommutes(a: nat, b: nat)
    ensures Xor(a, b) == Xor(b, a)
    decreases a + b
  {
    if a + b > 0 {
      XorCommutes(a / 2, b / 2);
    }
  }

  lemma XorSwap(a: nat, b: nat, c: nat, d: nat)
    ensures Xor(Xor(a, b), Xor(c, d)) == Xor(Xor(a, c), Xor(b, d))
  {
    hide Xor;
    XorAssociative(a, b, Xor(c, d));
    XorAssociative(b, c, d);
    XorCommutes(b, c);
    XorAssociative(c, b, d);
    XorAssociative(a, c, Xor(b, d));
  }

  /** The binary digit k of a number and what it adds to the number cut there. */
  lemma {:induction false} FloorBit(t: nat, k: nat)
    ensures Floor(t, k) == Floor(t, k + 1) + (if And(t, P(k)) != 0 then P(k) else 0)
  {
    hide And;
    AndDigits(t, P(k));
    if k == 0 {
      AndDigits(t / 2, 0);
      AndNone(t / 2);
    } else {
      FloorBit(t / 2, k - 1);
    }
  }

  lemma AndNone(a: nat)
    ensures And(a, 0) == 0
  {
  }

  /** All chunks of one bin come before all of another. */
  ghost predicate Precedes(a: Bin, b: Bin, twist: nat) {
    forall j: nat, i: nat :: a.Has(j) && b.Has(i) ==> Rank(j, twist) < Rank(i, twist)
  }

  lemma RankedBefore(a: Bin, b: Bin, twist: nat)
    requires Aligned(a.base, a.layer) && Aligned(b.base, b.layer)
    requires Twisted(a, twist).End() <= Twisted(b, twist).base
    ensures Precedes(a, b, twist)
  {
    hide P, Xor, Floor, Aligned, Twisted;
    forall j: nat, i: nat | a.Has(j) && b.Has(i) ensures Rank(j, twist) < Rank(i, twist) {
      XorInvolution(j, twist);
      XorInvolution(i, twist);
      TwistedHas(a, twist, Xor(j, twist));
      TwistedHas(b, twist, Xor(i, twist));
    }
  }

  /** The digit of the twist at a bin's halves says which comes first. */
  lemma TwistHalves(b: Bin, twist: nat)
    requires Aligned(b.base, b.layer) && b.layer > 0
    ensures if And(twist, P(b.layer) / 2) != 0 then Precedes(b.Right(), b.Left(), twist) else Precedes(b.Left(), b.Right(), twist)
  {
    hide P, Xor, Floor, Aligned, And, Precedes;
    var l, f := b.layer - 1, Floor(twist, b.layer);
    var p, a := P(l), Xor(b.base, f);
    PowerMonotone(l, b.layer);
    DoublePower(l);
    FloorBit(twist, l);
    FloorSpec(twist, b.layer);
    XorAligned(b.base, f, b.layer);
    AlignedHalves(b.base, b.layer);
    XorDisjoint(b.base, p, b.layer);
    XorDisjoint(f, p, b.layer);
    XorDisjoint(a, p, b.layer);
    XorSwap(b.base, p, f, 0);
    XorSwap(b.base, 0, f, p);
    XorSwap(b.base, p, f, p);
    XorZero(b.base);
    XorZero(f);
    XorZero(p);
    XorSelf(p);
    XorZero(a);
    if And(twist, p) != 0 {
      RankedBefore(b.Right(), b.Left(), twist);
    } else {
      RankedBefore(b.Left(), b.Right(), twist);
    }
  }

  lemma DoublePower(l: nat)
    ensures P(l + 1) == 2 * P(l)
  {
  }

  lemma PrecedesPart(a: Bin, b: Bin, c: Bin, d: Bin, twist: nat)
    requires Precedes(a, b, twist) && a.base <= c.base && c.End() <= a.End() && b.base <= d.base && d.End() <= b.End()
    ensures Precedes(c, d, twist)
  {
    hide Rank;
  }

  /** Low digits change alone. */
  lemma XorLow(a: nat, u: nat, v: nat, l: nat)
    requires Aligned(a, l) && u < P(l) && v < P(l)
    ensures Xor(a + u, v) == a + Xor(u, v)
  {
    hide P, Xor, Aligned;
    XorDisjoint(a, u, l);
    XorAssociative(a, u, v);
    XorBound(u, v, l);
    XorDisjoint(a, Xor(u, v), l);
  }

  /** Digits above and below a layer change apart. */
  lemma XorParts(a: nat, u: nat, f: nat, v: nat, l: nat)
    requires Aligned(a, l) && Aligned(f, l) && u < P(l) && v < P(l)
    ensures Xor(a + u, f + v) == Xor(a, f) + Xor(u, v) && Xor(u, v) < P(l) && Aligned(Xor(a, f), l)
  {
    hide P, Xor, Aligned;
    XorDisjoint(a, u, l);
    XorDisjoint(f, v, l);
    XorSwap(a, u, f, v);
    XorBound(u, v, l);
    XorAligned(a, f, l);
    XorDisjoint(Xor(a, f), Xor(u, v), l);
  }

  /** Inside a bin only the low digits of the twist matter for the order. */
  lemma RankIn(b: Bin, twist: nat, i: nat)
    requires Aligned(b.base, b.layer) && b.Has(i)
    ensures Rank(i, twist) == Twisted(b, twist).base + Xor(i - b.base, twist % P(b.layer))
    ensures Xor(i - b.base, twist % P(b.layer)) < P(b.layer)
  {
    hide P, Xor, Floor, Aligned;
    TwistCut(twist, b.layer);
    FloorSpec(twist, b.layer);
    XorParts(b.base, i - b.base, Floor(twist, b.layer), twist % P(b.layer), b.layer);
  }

  lemma TwistCut(twist: nat, l: nat)
    ensures twist == Floor(twist, l) + twist % P(l)
  {
    hide P, Floor, Aligned;
    var p, q := P(l), twist / P(l);
    assert twist == p * q + twist % p;
    MultipleAligned(q, l);
    FloorUnique(twist, p * q, l);
  }

  // ------------------------------------------------------------------
  // The first of a set of chunks

  /** The chunk of a set that a twisted search of a bin comes to first. */
  ghost predicate IsFirst(c: nat, bin: Bin, want: iset<nat>, twist: nat) {
    bin.Has(c) && c in want && forall i: nat :: bin.Has(i) && i in want ==> Rank(c, twist) <= Rank(i, twist)
  }

  lemma FirstOne(c: nat, d: nat, bin: Bin, want: iset<nat>, twist: nat)
    requires IsFirst(c, bin, want, twist) && IsFirst(d, bin, want, twist)
    ensures c == d
  {
    hide Rank;
    RankOne(c, d, twist);
  }

  lemma {:induction false} FirstExists(bin: Bin, want: iset<nat>, twist: nat, i: nat) returns (c: nat)
    requires bin.Has(i) && i in want
    ensures IsFirst(c, bin, want, twist)
    decreases Rank(i, twist)
  {
    hide Rank;
    if j: nat :| bin.Has(j) && j in want && Rank(j, twist) < Rank(i, twist) {
      c := FirstExists(bin, want, twist, j);
    } else {
      c := i;
    }
  }

  /** Without a twist the first chunk is the least one. */
  lemma NoTwistRank(i: nat)
    ensures Rank(i, 0) == i
  {
    XorZero(i);
  }
}
