/** Powers of two and positions aligned to them, in the recursive form the proofs use. */
module Powers {

  /** Two to the power n. */
  function P(n: nat): (r: nat)
    ensures r > 0
  {
    if n == 0 then 1 else 2 * P(n - 1)
  }

  /** x is a multiple of P(l). */
  predicate Aligned(x: nat, l: nat) {
    l == 0 || (x % 2 == 0 && Aligned(x / 2, l - 1))
  }

  /** The greatest multiple of P(l) that is at most x. */
  function Floor(x: nat, l: nat): nat {
    if l == 0 then x else 2 * Floor(x / 2, l - 1)
  }

  lemma {:induction false} PowerMonotone(a: nat, b: nat)
    requires a <= b
    ensures P(a) <= P(b)
    ensures a < b ==> 2 * P(a) <= P(b)
    decreases b
  {
    if a < b {
      PowerMonotone(a, b - 1);
    }
  }

  lemma {:induction false} FloorSpec(x: nat, l: nat)
    ensures Aligned(Floor(x, l), l)
    ensures Floor(x, l) <= x < Floor(x, l) + P(l)
  {
    if l > 0 {
      FloorSpec(x / 2, l - 1);
    }
  }

  lemma {:induction false} FloorUnique(x: nat, b: nat, l: nat)
    requires Aligned(b, l)
    requires b <= x < b + P(l)
    ensures b == Floor(x, l)
  {
    if l > 0 {
      FloorUnique(x / 2, b / 2, l - 1);
    }
  }

  /** Both halves of an aligned interval are aligned one layer below. */
  lemma {:induction false} AlignedHalves(b: nat, l: nat)
    requires l > 0 && Aligned(b, l)
    ensures Aligned(b, l - 1)
    ensures Aligned(b + P(l - 1), l - 1)
  {
    if l > 1 {
      AlignedHalves(b / 2, l - 1);
      assert (b + P(l - 1)) / 2 == b / 2 + P(l - 2);
    }
  }

  lemma {:induction false} AlignedBelow(b: nat, k: nat, l: nat)
    requires k <= l && Aligned(b, l)
    ensures Aligned(b, k)
    decreases l
  {
    if k < l {
      AlignedHalves(b, l);
      AlignedBelow(b, k, l - 1);
    }
  }

  lemma {:induction false} AlignedSum(a: nat, b: nat, l: nat)
    requires Aligned(a, l) && Aligned(b, l)
    ensures Aligned(a + b, l)
  {
    if l > 0 {
      AlignedSum(a / 2, b / 2, l - 1);
      assert (a + b) / 2 == a / 2 + b / 2;
    }
  }

  lemma {:induction false} PowerAligned(k: nat, l: nat)
    requires k <= l
    ensures Aligned(P(l), k)
  {
    if k > 0 {
      PowerAligned(k - 1, l - 1);
    }
  }

  /** An aligned interval that starts inside a bigger aligned one lies wholly inside it. */
  lemma {:induction false} Laminar(a: nat, k: nat, b: nat, l: nat)
    requires Aligned(a, k) && Aligned(b, l) && k <= l
    requires b <= a < b + P(l)
    ensures a + P(k) <= b + P(l)
  {
    if k > 0 {
      Laminar(a / 2, k - 1, b / 2, l - 1);
    } else {
    }
  }

  /** An aligned position strictly above another aligned position of the same layer is a whole step above it. */
  lemma {:induction false} AlignedStep(a: nat, b: nat, l: nat)
    requires Aligned(a, l) && Aligned(b, l) && a < b
    ensures a + P(l) <= b
  {
    if l > 0 {
      AlignedStep(a / 2, b / 2, l - 1);
    }
  }

  lemma {:induction false} ZeroAligned(l: nat)
    ensures Aligned(0, l) && Floor(0, l) == 0
  {
    if l > 0 {
      ZeroAligned(l - 1);
    }
  }

  lemma SmallPowers()
    ensures P(0) == 1 && P(1) == 2 && P(2) == 4 && P(3) == 8 && P(4) == 16 && P(5) == 32 && P(6) == 64
    ensures P(8) == 0x100 && P(16) == 0x1_0000 && P(32) == 0x1_0000_0000
  {
    assert P(16) == 0x1_0000 by {
      PowerSum(8, 8);
    }
    PowerSum(16, 16);
  }

  lemma {:induction false} PowerSum(a: nat, b: nat)
    ensures P(a + b) == P(a) * P(b)
  {
    if b > 0 {
      PowerSum(a, b - 1);
    }
  }

  /** Position modulo 32, the width of a bitmap, of an aligned interval start. */
  lemma {:induction false} AlignedMod32(b: nat, l: nat)
    requires l >= 5 && Aligned(b, l)
    ensures b % 32 == 0
    ensures P(l) % 32 == 0
  {
    AlignedBelow(b, 5, l);
    PowerAligned(5, l);
    Aligned5(b);
    Aligned5(P(l));
  }

  lemma Aligned5(b: nat)
    requires Aligned(b, 5)
    ensures b % 32 == 0
  {
    assert Aligned(b / 2, 4);
    assert Aligned(b / 2 / 2, 3);
    assert Aligned(b / 2 / 2 / 2, 2);
    assert Aligned(b / 2 / 2 / 2 / 2, 1);
  }

  lemma DoubleProduct(a: nat, b: nat)
    ensures 2 * a * b == 2 * (a * b)
  {
  }

  lemma {:induction false} AlignedFactor(o: nat, l: nat) returns (k: nat)
    requires Aligned(o, l)
    ensures o == P(l) * k
  {
    if l == 0 {
      k := o;
    } else {
      k := AlignedFactor(o / 2, l - 1);
      DoubleProduct(P(l - 1), k);
    }
  }

  lemma {:induction false} MultipleAligned(k: nat, l: nat)
    ensures Aligned(P(l) * k, l)
  {
    if l > 0 {
      DoubleProduct(P(l - 1), k);
      MultipleAligned(k, l - 1);
    }
  }

  /** Aligned means divisible. */
  lemma AlignedMod(x: nat, l: nat)
    ensures Aligned(x, l) <==> x % P(l) == 0
  {
    hide P, Aligned;
    if Aligned(x, l) {
      var k := AlignedFactor(x, l);
      ProductMod(k, P(l));
    }
    if x % P(l) == 0 {
      assert x == P(l) * (x / P(l));
      MultipleAligned(x / P(l), l);
    }
  }

  lemma SignOfProduct(p: nat, d: int)
    requires p > 0
    ensures d >= 1 ==> p * d >= p
    ensures d <= 0 ==> p * d <= 0
  {
  }

  lemma Distribute(p: int, a: int, b: int)
    ensures p * (a - b) == p * a - p * b
  {
  }

  lemma ProductMod(k: nat, p: nat)
    requires p > 0
    ensures p * k % p == 0
  {
    var x := p * k;
    var q := x / p;
    Distribute(p, k, q);
    SignOfProduct(p, k - q);
    assert x == p * q + x % p;
  }
}
