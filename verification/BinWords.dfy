/** bin.h and bin.cpp: the 64-bit tricks on bin numbers compute the interval operations of Bins. */
module BinWords {
  import opened Powers
  import opened Bits
  import opened Bins
  import opened Twist

  const TOP: int := 0x1_0000_0000_0000_0000

  /** Reduction to the width of the machine word. */
  function Wrap(x: int): (r: nat)
    ensures r < TOP && (0 <= x < TOP ==> r == x) && (-TOP <= x < 0 ==> r == x + TOP)
  {
    x % TOP
  }

  /** v ^ (v + 1). */
  function LayerBits(v: nat): nat {
    Xor(v, Wrap(v + 1))
  }

  /** t & -t for t = v + 1. */
  function BaseLength(v: nat): nat {
    And(Wrap(v + 1), Wrap(0 - Wrap(v + 1)))
  }

  /** (v & (v + 1)) >> 1. */
  function BaseOffset(v: nat): nat {
    And(v, Wrap(v + 1)) / 2
  }

  /** v & (v + 1). */
  function BaseLeft(v: nat): nat {
    And(v, Wrap(v + 1))
  }

  /** (v | (v + 1)) - 1. */
  function BaseRight(v: nat): nat {
    Wrap(Or(v, Wrap(v + 1)) - 1)
  }

  /** (v | lbs) & (-2 - lbs) for lbs the layer bits. */
  function ParentOf(v: nat): nat {
    And(Or(v, LayerBits(v)), Wrap(-2 - LayerBits(v)))
  }

  function LeftOf(v: nat): nat {
    Xor(v, BaseLength(v) / 2)
  }

  function RightOf(v: nat): nat {
    Wrap(v + BaseLength(v) / 2)
  }

  function SiblingOf(v: nat): nat {
    Xor(v, Wrap(LayerBits(v) + 1))
  }

  predicate LeftChild(v: nat) {
    And(v, Wrap(LayerBits(v) + 1)) == 0
  }

  /** v ^ ((mask << 1) & ~lbs). */
  function TwistedOf(v: nat, mask: nat): nat {
    Xor(v, And(Wrap(2 * mask), Wrap(-1 - LayerBits(v))))
  }

  predicate ContainsNumber(v: nat, w: nat) {
    v != NONE.V() && And(v, Wrap(v + 1)) <= w < Or(v, Wrap(v + 1))
  }

  // ------------------------------------------------------------------
  // Digits

  lemma {:induction false} AndComplement(a: nat, n: nat)
    requires a < P(n)
    ensures And(a, P(n) - 1 - a) == 0
  {
    if n > 0 {
      AndComplement(a / 2, n - 1);
      assert (P(n) - 1 - a) / 2 == P(n - 1) - 1 - a / 2;
    }
  }

  /** Masking with the complement removes the digits of x. */
  lemma {:induction false} AndNotIs(a: nat, x: nat, n: nat)
    requires a < P(n) && x < P(n)
    ensures And(a, P(n) - 1 - x) == AndNot(a, x)
  {
    if n > 0 {
      AndNotIs(a / 2, x / 2, n - 1);
      assert (P(n) - 1 - x) / 2 == P(n - 1) - 1 - x / 2;
    }
  }

  /** A number and its successor differ in the lowest 0 and the 1s below it. */
  lemma {:induction false} SuccessorBits(b: Bin)
    requires Aligned(b.base, b.layer)
    ensures And(b.V(), b.V() + 1) == 2 * b.base
    ensures Or(b.V(), b.V() + 1) == 2 * b.base + 2 * P(b.layer) - 1
    ensures Xor(b.V(), b.V() + 1) == 2 * P(b.layer) - 1
    decreases b.layer
  {
    hide And, Or, Xor, P, Floor, Aligned;
    if b.layer == 0 {
      BaseParent(b);
      SameBits(b.base);
      StepBits(b.base, b.base);
    } else {
      var c := Bin(b.layer - 1, b.base / 2);
      Halved(b, c);
      SuccessorBits(c);
      StepBits(c.V(), c.V() + 1);
    }
  }

  /** One more digit below: 1 under the first number and 0 under the second, or the reverse. */
  lemma StepBits(a: nat, x: nat)
    ensures And(2 * a + 1, 2 * x) == 2 * And(a, x) && Or(2 * a + 1, 2 * x) == 2 * Or(a, x) + 1
    ensures Xor(2 * a + 1, 2 * x) == 2 * Xor(a, x) + 1
    ensures And(2 * a, 2 * x + 1) == 2 * And(a, x) && Or(2 * a, 2 * x + 1) == 2 * Or(a, x) + 1
    ensures Xor(2 * a, 2 * x + 1) == 2 * Xor(a, x) + 1
  {
    XorDigits(2 * a + 1, 2 * x);
    XorDigits(2 * a, 2 * x + 1);
  }

  lemma {:induction false} SameBits(a: nat)
    ensures And(a, a) == a && Or(a, a) == a && Xor(a, a) == 0
  {
    if a > 0 {
      SameBits(a / 2);
    }
  }

  /** x & -x is the lowest 1 of x. */
  lemma {:induction false} LowestOne(b: Bin, n: nat)
    requires Aligned(b.base, b.layer) && b.V() + 1 < P(n)
    ensures And(b.V() + 1, P(n) - (b.V() + 1)) == P(b.layer)
    decreases b.layer
  {
    var x := b.V() + 1;
    if b.layer == 0 {
      AndComplement(b.base, n - 1);
      assert (P(n) - x) / 2 == P(n - 1) - 1 - b.base;
    } else {
      var c := Bin(b.layer - 1, b.base / 2);
      assert n > 0 && x == 2 * (c.V() + 1);
      LowestOne(c, n - 1);
    }
  }

  lemma TopPower()
    ensures P(64) == TOP && P(63) == 0x8000_0000_0000_0000
  {
    SmallPowers();
    PowerSum(32, 32);
  }

  lemma NumberBound(b: Bin)
    requires b.Ok()
    ensures b.V() + 1 < TOP && 2 * P(b.layer) <= TOP
  {
    TopPower();
    hide P;
    PowerMonotone(b.layer, 63);
    assert b.V() + 1 == 2 * b.base + P(b.layer);
    PowerMonotone(0, b.layer);
    assert P(0) == 1 by { SmallPowers(); }
  }

  // ------------------------------------------------------------------
  // The theorems

  /** The accessors give the interval. */
  lemma IntervalOf(b: Bin)
    requires b.Ok()
    ensures LayerBits(b.V()) == 2 * P(b.layer) - 1
    ensures BaseLength(b.V()) == P(b.layer) && BaseOffset(b.V()) == b.base
    ensures BaseLeft(b.V()) == Bin(0, b.base).V() && BaseRight(b.V()) == Bin(0, b.End() - 1).V()
  {
    hide P, And, Or, Xor, Aligned;
    TopPower();
    NumberBound(b);
    SuccessorBits(b);
    LowestOne(b, 64);
    SmallPowers();
  }

  /** contains is the comparison of numbers used everywhere else. */
  lemma ContainsOf(b: Bin, c: Bin)
    requires b.Ok() && c.Ok()
    ensures ContainsNumber(b.V(), c.V()) <==> b.Contains(c)
  {
    TopPower();
    NumberBound(b);
    SuccessorBits(b);
    hide P, And, Or, Xor, Aligned;
    assert NONE.V() == P(64) - 1;
  }

  lemma BaseDigits(o: nat)
    ensures AndNot(Or(2 * o, 1), 2) == 2 * (2 * (o / 2)) + 1
    ensures And(2 * o, 2) == 0 <==> o % 2 == 0
    ensures Xor(2 * o, 2) == if o % 2 == 0 then 2 * o + 2 else 2 * o - 2
  {
    assert Or(2 * o, 1) == 2 * Or(o, 0) + 1;
    Zeros(o);
    assert AndNot(2 * o + 1, 2) == 2 * AndNot(o, 1) + 1;
    assert AndNot(o, 1) == 2 * AndNot(o / 2, 0);
    Zeros(o / 2);
    assert And(2 * o, 2) == 2 * And(o, 1);
    assert Xor(2 * o, 2) == 2 * Xor(o, 1);
    XorDigits(o, 1);
  }

  lemma {:induction false} Zeros(o: nat)
    ensures Or(o, 0) == o && Or(0, o) == o && AndNot(o, 0) == o && Xor(o, 0) == o && And(o, 0) == 0
  {
    if o > 0 {
      Zeros(o / 2);
    }
  }

  /** A bin above layer 0 is a half-sized one followed by a digit 1; so are its relatives. */
  lemma Halved(b: Bin, c: Bin)
    requires Aligned(b.base, b.layer) && b.layer > 0 && c == Bin(b.layer - 1, b.base / 2)
    ensures Aligned(c.base, c.layer) && b.V() == 2 * c.V() + 1 && P(b.layer) == 2 * P(c.layer) && b.base == 2 * c.base
    ensures b.Parent().V() == 2 * c.Parent().V() + 1 && (b.IsLeft() <==> c.IsLeft())
    ensures b.Sibling().V() == 2 * c.Sibling().V() + 1
  {
    assert Floor(b.base, b.layer + 1) == 2 * Floor(c.base, c.layer + 1);
    hide Floor, Aligned;
    assert P(b.layer + 1) == 2 * P(c.layer + 1);
  }

  lemma BaseParent(b: Bin)
    requires b.layer == 0
    ensures b.V() == 2 * b.base && P(0) == 1 && P(1) == 2 && b.Parent() == Bin(1, 2 * (b.base / 2))
  {
    assert Floor(b.base, 1) == 2 * Floor(b.base / 2, 0);
  }

  lemma {:induction false} ParentDigits(b: Bin)
    requires Aligned(b.base, b.layer)
    ensures AndNot(Or(b.V(), 2 * P(b.layer) - 1), 2 * P(b.layer)) == b.Parent().V()
    ensures And(b.V(), 2 * P(b.layer)) == 0 <==> b.IsLeft()
    decreases b.layer
  {
    hide And, Or, AndNot, P, Floor, Aligned;
    if b.layer == 0 {
      BaseParent(b);
      BaseDigits(b.base);
    } else {
      var c := Bin(b.layer - 1, b.base / 2);
      Halved(b, c);
      ParentDigits(c);
      OddDigits(c.V(), P(c.layer));
    }
  }

  lemma OddDigits(v: nat, p: nat)
    requires p > 0
    ensures Or(2 * v + 1, 4 * p - 1) == 2 * Or(v, 2 * p - 1) + 1
    ensures AndNot(2 * Or(v, 2 * p - 1) + 1, 4 * p) == 2 * AndNot(Or(v, 2 * p - 1), 2 * p) + 1
    ensures And(2 * v + 1, 4 * p) == 2 * And(v, 2 * p)
    ensures Xor(2 * v + 1, 4 * p) == 2 * Xor(v, 2 * p) + 1
  {
    assert (4 * p - 1) / 2 == 2 * p - 1;
  }

  /** parent: also of ALL, whose parent is NONE. */
  lemma ParentNumber(b: Bin)
    requires b.Ok()
    ensures ParentOf(b.V()) == b.Parent().V()
    ensures b == ALL ==> b.Parent() == NONE
  {
    hide And, Or, AndNot, Xor, P, Floor, Aligned;
    TopPower();
    NumberBound(b);
    SuccessorBits(b);
    ParentDigits(b);
    ZeroAligned(64);
    var a, lbs := Or(b.V(), LayerBits(b.V())), LayerBits(b.V());
    OrBound(b.V(), lbs, 64);
    if b.layer < 63 {
      assert 2 * P(b.layer) < TOP by {
        PowerMonotone(b.layer, 63);
      }
      AndNotIs(a, lbs + 1, 64);
    } else {
      AllContains(b);
      SmallPowers();
      AndNotIs(a, 0, 64);
      Zeros(a);
      OrFull(b.V(), 64);
    }
  }

  lemma {:induction false} OrBound(a: nat, b: nat, n: nat)
    requires a < P(n) && b < P(n)
    ensures Or(a, b) < P(n)
  {
    if n > 0 {
      OrBound(a / 2, b / 2, n - 1);
    }
  }

  lemma {:induction false} OrFull(a: nat, n: nat)
    requires a < P(n)
    ensures Or(a, P(n) - 1) == P(n) - 1
  {
    hide Or;
    OrDigits(a, P(n) - 1);
    if n == 0 {
      OrDigits(0, 0);
    } else {
      OrFull(a / 2, n - 1);
      assert (P(n) - 1) / 2 == P(n - 1) - 1;
    }
  }

  /** is_left and sibling. */
  lemma SiblingNumber(b: Bin)
    requires b.Ok() && b.layer < 63
    ensures SiblingOf(b.V()) == b.Sibling().V()
    ensures LeftChild(b.V()) <==> b.IsLeft()
  {
    hide And, Or, Xor, P, Floor, Aligned;
    TopPower();
    NumberBound(b);
    SuccessorBits(b);
    ParentDigits(b);
    SiblingDigits(b);
    assert 2 * P(b.layer) < TOP by {
      PowerMonotone(b.layer, 63);
    }
  }

  lemma SiblingBase(b: Bin)
    requires b.layer == 0
    ensures Xor(b.V(), 2 * P(0)) == b.Sibling().V()
  {
    hide Xor, Floor, Aligned;
    BaseParent(b);
    BaseDigits(b.base);
  }

  lemma {:induction false} SiblingDigits(b: Bin)
    requires Aligned(b.base, b.layer)
    ensures Xor(b.V(), 2 * P(b.layer)) == b.Sibling().V()
    decreases b.layer
  {
    hide Xor, P, Floor, Aligned, Bin.V, Bin.Sibling;
    if b.layer == 0 {
      SiblingBase(b);
    } else {
      var c := Bin(b.layer - 1, b.base / 2);
      Halved(b, c);
      SiblingDigits(c);
      OddDigits(c.V(), P(c.layer));
    }
  }

  /** In 64 bits ALL is its own sibling. */
  lemma SiblingOfAll()
    ensures SiblingOf(ALL.V()) == ALL.V()
  {
    hide P, Xor, LayerBits, Wrap, Bin.V, Aligned;
    AllOk();
    IntervalOf(ALL);
    TopPower();
    WrapTop();
    XorZero(ALL.V());
  }

  lemma AllOk()
    ensures ALL.Ok()
  {
    ZeroAligned(63);
  }

  lemma WrapTop()
    ensures Wrap(TOP) == 0
  {
  }

  /** left and right; a base bin is its own left and right child. */
  lemma ChildNumbers(b: Bin)
    requires b.Ok()
    ensures b.layer > 0 ==> LeftOf(b.V()) == b.Left().V() && RightOf(b.V()) == b.Right().V()
    ensures b.layer == 0 ==> LeftOf(b.V()) == b.V() && RightOf(b.V()) == b.V()
  {
    hide And, Or, AndNot, Xor, Floor, Aligned;
    NumberBound(b);
    IntervalOf(b);
    if b.layer == 0 {
      assert P(0) / 2 == 0;
      Zeros(b.V());
    } else {
      LeftDigits(b);
      assert b.Right().V() == b.V() + P(b.layer - 1);
      assert b.Right().V() < TOP by {
        HalvesOk(b);
        NumberBound(b.Right());
      }
    }
  }

  lemma {:induction false} LeftDigits(b: Bin)
    requires Aligned(b.base, b.layer) && b.layer > 0
    ensures Xor(b.V(), P(b.layer - 1)) == b.Left().V()
    decreases b.layer
  {
    hide Xor, P, Floor, Aligned;
    var c := Bin(b.layer - 1, b.base / 2);
    Halved(b, c);
    if b.layer == 1 {
      BaseParent(c);
      Zeros(c.V());
      StepXor(c.V(), 0);
    } else {
      LeftDigits(c);
      Quarter(b, c);
      StepBits(c.V(), P(c.layer - 1));
    }
  }

  lemma StepXor(a: nat, x: nat)
    ensures Xor(2 * a + 1, 2 * x + 1) == 2 * Xor(a, x)
  {
    XorDigits(2 * a + 1, 2 * x + 1);
  }

  lemma Quarter(b: Bin, c: Bin)
    requires b.layer > 1 && c == Bin(b.layer - 1, b.base / 2) && b.base == 2 * c.base
    ensures P(b.layer - 1) == 2 * P(c.layer - 1) && b.Left().V() == 2 * c.Left().V() + 1
  {
  }

  lemma {:induction false} TwistDigits(b: Bin, mask: nat)
    requires Aligned(b.base, b.layer)
    ensures AndNot(2 * mask, 2 * P(b.layer) - 1) == 2 * Floor(mask, b.layer)
    ensures Xor(b.V(), 2 * Floor(mask, b.layer)) == Twisted(b, mask).V()
    decreases b.layer
  {
    hide And, AndNot, Xor, P, Floor, Aligned;
    if b.layer == 0 {
      TwistBase(b, mask);
    } else {
      var c := Bin(b.layer - 1, b.base / 2);
      Halved(b, c);
      TwistDigits(c, mask / 2);
      TwistHalved(b, c, mask);
      LowDigit(mask, 2 * P(c.layer) - 1);
      TwistOdd(c.V(), mask, P(c.layer), Floor(mask / 2, c.layer));
    }
  }

  lemma TwistBase(b: Bin, mask: nat)
    requires b.layer == 0
    ensures AndNot(2 * mask, 2 * P(b.layer) - 1) == 2 * Floor(mask, b.layer)
    ensures Xor(b.V(), 2 * Floor(mask, b.layer)) == Twisted(b, mask).V()
  {
    EvenDigits(mask, b.base);
    BaseParent(b);
    hide And, AndNot, Xor, P, Aligned;
    assert Floor(mask, 0) == mask;
  }

  lemma EvenDigits(m: nat, o: nat)
    ensures AndNot(2 * m, 1) == 2 * m && Xor(2 * o, 2 * m) == 2 * Xor(o, m)
  {
    hide AndNot, Xor, Or, And;
    EvenAndNot(m);
    Zeros(m);
    XorDigits(2 * o, 2 * m);
    assert 2 * o / 2 == o && 2 * m / 2 == m;
  }

  lemma EvenAndNot(m: nat)
    ensures AndNot(2 * m, 1) == 2 * AndNot(m, 0)
  {
    assert 2 * m / 2 == m && 2 * m % 2 == 0;
    hide Xor, Or, And;
  }

  lemma TwistHalved(b: Bin, c: Bin, mask: nat)
    requires b.layer > 0 && c == Bin(b.layer - 1, b.base / 2) && b.base == 2 * c.base
    ensures Floor(mask, b.layer) == 2 * Floor(mask / 2, c.layer)
    ensures Twisted(b, mask).V() == 2 * Twisted(c, mask / 2).V() + 1
  {
    hide Floor, Xor, P;
    var f := Floor(mask / 2, c.layer);
    FloorHalved(mask, b.layer);
    XorDigits(2 * c.base, 2 * f);
  }

  lemma FloorHalved(x: nat, l: nat)
    requires l > 0
    ensures Floor(x, l) == 2 * Floor(x / 2, l - 1) && P(l) == 2 * P(l - 1)
  {
  }

  lemma TwistOdd(v: nat, mask: nat, p: nat, f: nat)
    requires p > 0
    ensures AndNot(2 * mask, 4 * p - 1) == 2 * AndNot(mask, 2 * p - 1)
    ensures Xor(2 * v + 1, 2 * (2 * f)) == 2 * Xor(v, 2 * f) + 1
  {
    assert (4 * p - 1) / 2 == 2 * p - 1;
    XorDigits(2 * v + 1, 2 * (2 * f));
  }

  lemma LowDigit(mask: nat, q: nat)
    requires q % 2 == 1
    ensures AndNot(mask, q) == AndNot(2 * (mask / 2), q)
  {
    var h := mask / 2;
    assert AndNot(mask, q) == 2 * AndNot(h, q / 2) by {
      Zero(q / 2);
    }
    assert 2 * h / 2 == h;
    Zero(q);
  }

  lemma Zero(q: nat)
    ensures AndNot(0, q) == 0
  {
  }

  /** twisted; the top digit of the mask is shifted out. */
  lemma TwistedNumber(b: Bin, mask: nat)
    requires b.Ok() && mask < TOP
    ensures TwistedOf(b.V(), mask) == Twisted(b, mask % P(63)).V()
  {
    hide And, AndNot, Xor, Or, P, Floor, Aligned;
    TopPower();
    NumberBound(b);
    SuccessorBits(b);
    var m, lbs := mask % P(63), LayerBits(b.V());
    assert Wrap(2 * mask) == 2 * m;
    AndNotIs(2 * m, lbs, 64);
    TwistDigits(b, m);
  }

  // ------------------------------------------------------------------
  // layer(): the multiply-and-look-up trick

  function DeBruijn(i: nat): nat
    requires i < 32
  {
    match i
    case 0 => 0 case 1 => 1 case 2 => 28 case 3 => 2 case 4 => 29 case 5 => 14 case 6 => 24 case 7 => 3
    case 8 => 30 case 9 => 22 case 10 => 20 case 11 => 15 case 12 => 25 case 13 => 17 case 14 => 4 case 15 => 8
    case 16 => 31 case 17 => 27 case 18 => 13 case 19 => 23 case 20 => 21 case 21 => 19 case 22 => 16 case 23 => 7
    case 24 => 26 case 25 => 12 case 26 => 18 case 27 => 6 case 28 => 11 case 29 => 5 case 30 => 10 case _ => 9
  }

  /** The five digits that select a table entry. */
  function Slot(t: nat): nat {
    Wrap(t * 0x077C_B531) / 0x800_0000 % 32
  }

  function LayerOf(v: nat): int {
    if v == NONE.V() then -1
    else
      var tail := BaseLength(v);
      if tail > 0x8000_0000 then 32 + DeBruijn(Slot(tail / 0x1_0000 / 0x1_0000))
      else DeBruijn(Slot(tail))
  }

  lemma FirstPowers()
    ensures P(0) == 0x1 && P(1) == 0x2 && P(2) == 0x4 && P(3) == 0x8 && P(4) == 0x10 && P(5) == 0x20 && P(6) == 0x40 && P(7) == 0x80 && P(8) == 0x100 && P(9) == 0x200 && P(10) == 0x400 && P(11) == 0x800 && P(12) == 0x1000 && P(13) == 0x2000 && P(14) == 0x4000 && P(15) == 0x8000
    ensures P(16) == 0x10000 && P(17) == 0x20000 && P(18) == 0x40000 && P(19) == 0x80000 && P(20) == 0x100000 && P(21) == 0x200000 && P(22) == 0x400000 && P(23) == 0x800000 && P(24) == 0x1000000 && P(25) == 0x2000000 && P(26) == 0x4000000 && P(27) == 0x8000000 && P(28) == 0x10000000 && P(29) == 0x20000000 && P(30) == 0x40000000 && P(31) == 0x80000000
  {
    assert P(0) == 0x1;
    assert P(1) == 0x2;
    assert P(2) == 0x4;
    assert P(3) == 0x8;
    assert P(4) == 0x10;
    assert P(5) == 0x20;
    assert P(6) == 0x40;
    assert P(7) == 0x80;
    assert P(8) == 0x100;
    assert P(9) == 0x200;
    assert P(10) == 0x400;
    assert P(11) == 0x800;
    assert P(12) == 0x1000;
    assert P(13) == 0x2000;
    assert P(14) == 0x4000;
    assert P(15) == 0x8000;
    assert P(16) == 0x10000;
    assert P(17) == 0x20000;
    assert P(18) == 0x40000;
    assert P(19) == 0x80000;
    assert P(20) == 0x100000;
    assert P(21) == 0x200000;
    assert P(22) == 0x400000;
    assert P(23) == 0x800000;
    assert P(24) == 0x1000000;
    assert P(25) == 0x2000000;
    assert P(26) == 0x4000000;
    assert P(27) == 0x8000000;
    assert P(28) == 0x10000000;
    assert P(29) == 0x20000000;
    assert P(30) == 0x40000000;
    assert P(31) == 0x80000000;
  }

  lemma Rows0(j: nat)
    requires 0 <= j < 8
    ensures DeBruijn(Slot(P(j))) == j && P(j) <= 0x8000_0000
  {
    FirstPowers();
    hide P;
    if j == 0 {
      assert P(0) == 0x1 && Slot(0x1) == 0;
    } else if j == 1 {
      assert P(1) == 0x2 && Slot(0x2) == 1;
    } else if j == 2 {
      assert P(2) == 0x4 && Slot(0x4) == 3;
    } else if j == 3 {
      assert P(3) == 0x8 && Slot(0x8) == 7;
    } else if j == 4 {
      assert P(4) == 0x10 && Slot(0x10) == 14;
    } else if j == 5 {
      assert P(5) == 0x20 && Slot(0x20) == 29;
    } else if j == 6 {
      assert P(6) == 0x40 && Slot(0x40) == 27;
    } else {
      assert P(7) == 0x80 && Slot(0x80) == 23;
    }
  }

  lemma Rows1(j: nat)
    requires 8 <= j < 16
    ensures DeBruijn(Slot(P(j))) == j && P(j) <= 0x8000_0000
  {
    FirstPowers();
    hide P;
    if j == 8 {
      assert P(8) == 0x100 && Slot(0x100) == 15;
    } else if j == 9 {
      assert P(9) == 0x200 && Slot(0x200) == 31;
    } else if j == 10 {
      assert P(10) == 0x400 && Slot(0x400) == 30;
    } else if j == 11 {
      assert P(11) == 0x800 && Slot(0x800) == 28;
    } else if j == 12 {
      assert P(12) == 0x1000 && Slot(0x1000) == 25;
    } else if j == 13 {
      assert P(13) == 0x2000 && Slot(0x2000) == 18;
    } else if j == 14 {
      assert P(14) == 0x4000 && Slot(0x4000) == 5;
    } else {
      assert P(15) == 0x8000 && Slot(0x8000) == 11;
    }
  }

  lemma Rows2(j: nat)
    requires 16 <= j < 24
    ensures DeBruijn(Slot(P(j))) == j && P(j) <= 0x8000_0000
  {
    FirstPowers();
    hide P;
    if j == 16 {
      assert P(16) == 0x10000 && Slot(0x10000) == 22;
    } else if j == 17 {
      assert P(17) == 0x20000 && Slot(0x20000) == 13;
    } else if j == 18 {
      assert P(18) == 0x40000 && Slot(0x40000) == 26;
    } else if j == 19 {
      assert P(19) == 0x80000 && Slot(0x80000) == 21;
    } else if j == 20 {
      assert P(20) == 0x100000 && Slot(0x100000) == 10;
    } else if j == 21 {
      assert P(21) == 0x200000 && Slot(0x200000) == 20;
    } else if j == 22 {
      assert P(22) == 0x400000 && Slot(0x400000) == 9;
    } else {
      assert P(23) == 0x800000 && Slot(0x800000) == 19;
    }
  }

  lemma Rows3(j: nat)
    requires 24 <= j < 32
    ensures DeBruijn(Slot(P(j))) == j && P(j) <= 0x8000_0000
  {
    FirstPowers();
    hide P;
    if j == 24 {
      assert P(24) == 0x1000000 && Slot(0x1000000) == 6;
    } else if j == 25 {
      assert P(25) == 0x2000000 && Slot(0x2000000) == 12;
    } else if j == 26 {
      assert P(26) == 0x4000000 && Slot(0x4000000) == 24;
    } else if j == 27 {
      assert P(27) == 0x8000000 && Slot(0x8000000) == 17;
    } else if j == 28 {
      assert P(28) == 0x10000000 && Slot(0x10000000) == 2;
    } else if j == 29 {
      assert P(29) == 0x20000000 && Slot(0x20000000) == 4;
    } else if j == 30 {
      assert P(30) == 0x40000000 && Slot(0x40000000) == 8;
    } else {
      assert P(31) == 0x80000000 && Slot(0x80000000) == 16;
    }
  }

  /** Every power of two below 2^32 finds its exponent in the table. */
  lemma Row(j: nat)
    requires j < 32
    ensures DeBruijn(Slot(P(j))) == j && P(j) <= 0x8000_0000
  {
    hide P;
    if j < 8 {
      Rows0(j);
    } else if j < 16 {
      Rows1(j);
    } else if j < 24 {
      Rows2(j);
    } else {
      Rows3(j);
    }
  }

  lemma LayerNumber(b: Bin)
    requires b.Ok() || b == NONE
    ensures LayerOf(b.V()) == if b == NONE then -1 else b.layer
  {
    hide And, Or, Xor, Aligned, P, DeBruijn, Slot;
    if b != NONE {
      TopPower();
      assert NONE.V() == P(64) - 1;
      NumberBound(b);
      IntervalOf(b);
      if b.layer < 32 {
        Row(b.layer);
      } else {
        Row(b.layer - 32);
        PowerSum(b.layer - 32, 32);
        SmallPowers();
      }
    }
  }
}
