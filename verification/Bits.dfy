/** Bitwise operators on natural numbers, one binary digit at a time. */
module Bits {
  import opened Powers

  function And(a: nat, b: nat): nat {
    if a == 0 || b == 0 then 0 else 2 * And(a / 2, b / 2) + (if a % 2 == 1 && b % 2 == 1 then 1 else 0)
  }

  function Or(a: nat, b: nat): nat
    decreases a + b
  {
    if a == 0 && b == 0 then 0 else 2 * Or(a / 2, b / 2) + (if a % 2 == 1 || b % 2 == 1 then 1 else 0)
  }

  function Xor(a: nat, b: nat): nat
    decreases a + b
  {
    if a == 0 && b == 0 then 0 else 2 * Xor(a / 2, b / 2) + (if a % 2 != b % 2 then 1 else 0)
  }

  /** a & ~b. */
  function AndNot(a: nat, b: nat): nat {
    if a == 0 then 0 else 2 * AndNot(a / 2, b / 2) + (if a % 2 == 1 && b % 2 == 0 then 1 else 0)
  }

  lemma AndDigits(a: nat, b: nat)
    ensures And(a, b) / 2 == And(a / 2, b / 2)
    ensures And(a, b) % 2 == if a % 2 == 1 && b % 2 == 1 then 1 else 0
  {
  }

  lemma OrDigits(a: nat, b: nat)
    ensures Or(a, b) / 2 == Or(a / 2, b / 2)
    ensures Or(a, b) % 2 == if a % 2 == 1 || b % 2 == 1 then 1 else 0
  {
  }

  lemma AndNotDigits(a: nat, b: nat)
    ensures AndNot(a, b) / 2 == AndNot(a / 2, b / 2)
    ensures AndNot(a, b) % 2 == if a % 2 == 1 && b % 2 == 0 then 1 else 0
  {
  }

  lemma {:induction false} XorZero(a: nat)
    ensures Xor(a, 0) == a && Xor(0, a) == a
  {
    if a > 0 {
      XorZero(a / 2);
    }
  }

  lemma {:induction false} XorSelf(a: nat)
    ensures Xor(a, a) == 0
  {
    if a > 0 {
      XorSelf(a / 2);
    }
  }

  lemma {:induction false} XorAssociative(a: nat, b: nat, c: nat)
    ensures Xor(Xor(a, b), c) == Xor(a, Xor(b, c))
    decreases a + b + c
  {
    if a + b + c > 0 {
      XorAssociative(a / 2, b / 2, c / 2);
      XorDigits(a, b);
      XorDigits(b, c);
      XorDigits(Xor(a, b), c);
      XorDigits(a, Xor(b, c));
    }
  }

  lemma XorDigits(a: nat, b: nat)
    ensures Xor(a, b) / 2 == Xor(a / 2, b / 2)
    ensures Xor(a, b) % 2 == if a % 2 != b % 2 then 1 else 0
  {
  }

  /** Applying the same mask twice gives the number back. */
  lemma XorInvolution(a: nat, m: nat)
    ensures Xor(Xor(a, m), m) == a
  {
    XorAssociative(a, m, m);
    XorSelf(m);
    XorZero(a);
  }

  lemma {:induction false} XorBound(a: nat, b: nat, n: nat)
    requires a < P(n) && b < P(n)
    ensures Xor(a, b) < P(n)
  {
    if n > 0 {
      XorBound(a / 2, b / 2, n - 1);
      XorDigits(a, b);
    }
  }

  lemma {:induction false} XorFloor(a: nat, b: nat, l: nat)
    ensures Floor(Xor(a, b), l) == Xor(Floor(a, l), Floor(b, l))
  {
    if l > 0 {
      XorFloor(a / 2, b / 2, l - 1);
      XorDigits(a, b);
      XorDigits(Floor(a, l), Floor(b, l));
      assert Floor(a, l) / 2 == Floor(a / 2, l - 1);
      assert Floor(b, l) / 2 == Floor(b / 2, l - 1);
    }
  }

  /** On disjoint digits exclusive-or is addition. */
  lemma {:induction false} XorDisjoint(a: nat, b: nat, l: nat)
    requires Aligned(a, l) && b < P(l)
    ensures Xor(a, b) == a + b
  {
    if l == 0 {
      XorZero(a);
    } else {
      XorDisjoint(a / 2, b / 2, l - 1);
      XorDigits(a, b);
    }
  }

  lemma {:induction false} XorAligned(a: nat, b: nat, l: nat)
    requires Aligned(a, l) && Aligned(b, l)
    ensures Aligned(Xor(a, b), l)
  {
    if l > 0 {
      XorAligned(a / 2, b / 2, l - 1);
      XorDigits(a, b);
    }
  }
}
