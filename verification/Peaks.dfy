/** gen_peaks: the peak bins of a length. */
module Peaks {
  import opened Powers
  import opened Bins

  /** Bins of strictly falling layers that lie side by side from chunk 0 up to chunk n. */
  ghost predicate PeaksOf(ps: seq<Bin>, n: nat) {
    (forall k :: 0 <= k < |ps| ==> ps[k].Ok()) &&
    (forall k :: 0 < k < |ps| ==> ps[k - 1].layer > ps[k].layer && ps[k - 1].End() == ps[k].base) &&
    (if ps == [] then n == 0 else ps[0].base == 0 && ps[|ps| - 1].End() == n)
  }

  /** The same list, lowest layer first, down to chunk a. */
  ghost predicate Rising(ps: seq<Bin>, a: nat, n: nat) {
    (forall k :: 0 <= k < |ps| ==> ps[k].Ok()) &&
    (forall k :: 0 < k < |ps| ==> ps[k].layer > ps[k - 1].layer && ps[k].End() == ps[k - 1].base) &&
    (if ps == [] then n == a else ps[|ps| - 1].base == a && ps[0].End() == n)
  }

  lemma {:induction false} PeaksBelow(ps: seq<Bin>, n: nat, k: nat)
    requires PeaksOf(ps, n) && k < |ps|
    ensures ps[k].End() <= n && (k > 0 ==> PeaksOf(ps[..k], ps[k].base))
    decreases |ps| - k
  {
    hide P;
    if k < |ps| - 1 {
      PeaksBelow(ps, n, k + 1);
    }
    if k > 0 {
      var qs := ps[..k];
      assert forall j :: 0 <= j < k ==> qs[j] == ps[j];
    }
  }

  /** The peaks partition the first n chunks. */
  lemma {:induction false} PeaksCover(ps: seq<Bin>, n: nat, i: nat)
    requires PeaksOf(ps, n)
    ensures i < n <==> exists k :: 0 <= k < |ps| && ps[k].Has(i)
    ensures forall j, k :: 0 <= j < k < |ps| && ps[j].Has(i) ==> !ps[k].Has(i)
    decreases |ps|
  {
    hide P;
    if ps != [] {
      var m := |ps| - 1;
      PeaksBelow(ps, n, m);
      var qs := ps[..m];
      assert forall j :: 0 <= j < m ==> qs[j] == ps[j];
      if m > 0 {
        PeaksCover(qs, ps[m].base, i);
      } else {
        assert PeaksOf([], 0);
      }
      if ps[m].base <= i < n {
        assert ps[m].Has(i);
      } else if i < ps[m].base {
        var k :| 0 <= k < |qs| && qs[k].Has(i);
        assert ps[k].Has(i);
      }
      forall k | 0 <= k < |ps| && ps[k].Has(i) ensures i < n {
        PeaksBelow(ps, n, k);
      }
      forall j | 0 <= j < m && ps[j].Has(i) ensures !ps[m].Has(i) {
        assert qs[j].Has(i);
      }
    }
  }

  lemma PeaksNone(ps: seq<Bin>, n: nat)
    requires PeaksOf(ps, n)
    ensures ps == [] <==> n == 0
  {
  }

  /** The lowest peak has the highest layer that the length is aligned to. */
  lemma LowestPeak(ps: seq<Bin>, n: nat)
    requires PeaksOf(ps, n) && ps != []
    ensures var l := ps[|ps| - 1].layer; Aligned(n, l) && !Aligned(n, l + 1)
  {
    hide Aligned;
    var k := |ps| - 1;
    var b := ps[k];
    PowerAligned(b.layer, b.layer);
    AlignedSum(b.base, P(b.layer), b.layer);
    if k > 0 {
      var c := ps[k - 1];
      PowerAligned(c.layer, c.layer);
      AlignedSum(c.base, P(c.layer), c.layer);
      AlignedBelow(b.base, b.layer + 1, c.layer);
    } else {
      ZeroAligned(b.layer + 1);
    }
    if Aligned(n, b.layer + 1) {
      AlignedStep(b.base, n, b.layer + 1);
      assert false;
    }
  }

  /** A length has one list of peaks. */
  lemma {:induction false} PeaksUnique(ps: seq<Bin>, qs: seq<Bin>, n: nat)
    requires PeaksOf(ps, n) && PeaksOf(qs, n)
    ensures ps == qs
    decreases |ps|
  {
    hide P, Aligned;
    PeaksNone(ps, n);
    PeaksNone(qs, n);
    if n > 0 {
      var a, b := |ps| - 1, |qs| - 1;
      LowestPeak(ps, n);
      LowestPeak(qs, n);
      SameLowest(n, ps[a].layer, qs[b].layer);
      PeaksBelow(ps, n, a);
      PeaksBelow(qs, n, b);
      assert a == 0 ==> PeaksOf(ps[..a], ps[a].base);
      assert b == 0 ==> PeaksOf(qs[..b], qs[b].base);
      PeaksUnique(ps[..a], qs[..b], ps[a].base);
      assert ps == ps[..a] + [ps[a]] && qs == qs[..b] + [qs[b]];
    }
  }

  lemma SameLowest(n: nat, l: nat, m: nat)
    requires Aligned(n, l) && !Aligned(n, l + 1) && Aligned(n, m) && !Aligned(n, m + 1)
    ensures l == m
  {
    if l < m {
      AlignedBelow(n, l + 1, m);
    } else if m < l {
      AlignedBelow(n, m + 1, l);
    }
  }

  ghost function Times(a: nat, p: nat): (r: nat) {
    SignOfProduct(p + 1, a);
    a * p
  }

  lemma TimesOdd(k: nat, q: nat)
    ensures Times(2 * k + 1, q) == Times(k, 2 * q) + q
    ensures Times(2 * k, q) == Times(k, 2 * q) == q * (2 * k)
  {
    Distribute(q, 2 * k + 1, 2 * k);
    assert q * (2 * k + 1 - 2 * k) == q;
  }

  lemma TimesNumber(m: nat, q: nat)
    requires m > 0 && q > 0
    ensures (2 * m - 1) * q == 2 * Times(m, q) - q
    ensures Times(m, q) >= q
  {
    Distribute(q, 2 * m, 1);
    SignOfProduct(q, m);
  }

  /** The bin number computed from an odd remaining length. */
  function PeakCode(m: nat, layer: nat): int {
    (2 * m - 1) * P(layer) - 1
  }

  /** The number that gen_peaks stores for an odd remaining length is the peak before what is already listed. */
  lemma PeakNumber(m: nat, layer: nat, n: nat)
    requires m % 2 == 1 && Times(m, P(layer)) <= n < P(63)
    ensures PeakCode(m, layer) >= 0 && Decode(PeakCode(m, layer)) == Bin(layer, Times(m / 2, P(layer + 1)))
    ensures var b := Decode(PeakCode(m, layer)); b.Ok() && b.End() == Times(m, P(layer))
  {
    var k, q := m / 2, P(layer);
    assert P(layer + 1) == 2 * q && m == 2 * k + 1;
    Halving(m, layer, n);
    TimesNumber(m, q);
    TimesOdd(k, q);
    MultipleAligned(2 * k, layer);
    assert PeakCode(m, layer) == 2 * Times(m, q) - q - 1;
    hide P, Decode, Aligned, Times, PeakCode;
    var b := Bin(layer, Times(k, P(layer + 1)));
    DecodeBin(b);
  }

  /** What is left after a halving still fits below the length, so the layer stays below 63. */
  lemma Halving(m: nat, layer: nat, n: nat)
    requires m > 0 && Times(m, P(layer)) <= n < P(63)
    ensures Times(m / 2, P(layer + 1)) <= n
    ensures m % 2 == 0 ==> Times(m / 2, P(layer + 1)) == Times(m, P(layer))
    ensures m / 2 > 0 ==> layer + 1 < 63
    ensures layer < 63
  {
    var k, q := m / 2, P(layer);
    assert P(layer + 1) == 2 * q;
    TimesOdd(k, q);
    TimesNumber(m, q);
    if k > 0 {
      TimesNumber(k, 2 * q);
    }
    hide P, Times;
    assert m == 2 * k || m == 2 * k + 1;
    TooHigh(layer);
    TooHigh(layer + 1);
  }

  lemma TooHigh(layer: nat)
    ensures layer >= 63 ==> P(layer) >= P(63)
  {
    if layer >= 63 {
      PowerMonotone(63, layer);
    }
  }

  lemma WholeTimes(n: nat)
    ensures Times(n, P(0)) == n && Times(0, P(n)) == 0
  {
  }

  /** One more peak at the low end of the list. */
  lemma RisingMore(ps: seq<Bin>, b: Bin, a: nat, n: nat)
    requires Rising(ps, a, n) && b.Ok() && b.End() == a
    requires forall k :: 0 <= k < |ps| ==> ps[k].layer < b.layer
    ensures Rising(ps + [b], b.base, n)
  {
  }

  /** gen_peaks: the peaks of a length, highest first, with NONE after them. */
  method GenPeaks(length: nat, peaks: array<Bin>) returns (pp: nat)
    requires length < P(63) && peaks.Length >= 64
    modifies peaks
    ensures pp <= 63 && PeaksOf(peaks[..pp], length) && peaks[pp] == NONE
  {
    hide P, Aligned, Decode, Times, Rising, PeakCode;
    pp := 0;
    var layer: nat, rest: nat := 0, length;
    WholeTimes(length);
    assert Rising([], length, length) by {
      RisingNone(length);
    }
    assert peaks[..0] == [];
    while rest != 0
      invariant Times(rest, P(layer)) <= length && pp <= layer && (rest > 0 ==> layer < 63)
      invariant pp <= 63
      invariant Rising(peaks[..pp], Times(rest, P(layer)), length)
      invariant forall k :: 0 <= k < pp ==> peaks[k].layer < layer
      decreases rest
    {
      Halving(rest, layer, length);
      if rest % 2 == 1 {
        PeakNumber(rest, layer, length);
        RisingMore(peaks[..pp], Decode(PeakCode(rest, layer)), Times(rest, P(layer)), length);
        peaks[pp] := Decode(PeakCode(rest, layer));
        assert peaks[..pp + 1] == peaks[..pp] + [peaks[pp]];
        pp := pp + 1;
      }
      rest := rest / 2;
      layer := layer + 1;
    }
    WholeTimes(layer);
    TurnAround(peaks, pp, length);
    peaks[pp] := NONE;
  }

  lemma RisingNone(n: nat)
    ensures Rising([], n, n)
  {
  }

  /** The second loop of gen_peaks: reverses the list in place. */
  method TurnAround(peaks: array<Bin>, pp: nat, ghost n: nat)
    requires pp <= peaks.Length && Rising(peaks[..pp], 0, n)
    modifies peaks
    ensures PeaksOf(peaks[..pp], n)
  {
    hide Rising, PeaksOf;
    ghost var up := peaks[..pp];
    var i := 0;
    while i < pp / 2
      invariant 0 <= i <= pp / 2
      invariant forall k :: 0 <= k < i ==> peaks[k] == up[pp - 1 - k] && peaks[pp - 1 - k] == up[k]
      invariant forall k :: i <= k < pp - i ==> peaks[k] == up[k]
    {
      var memo := peaks[pp - 1 - i];
      peaks[pp - 1 - i] := peaks[i];
      peaks[i] := memo;
      i := i + 1;
    }
    Turned(up, peaks[..pp], n);
  }

  lemma Turned(up: seq<Bin>, down: seq<Bin>, n: nat)
    requires Rising(up, 0, n) && |down| == |up|
    requires forall k :: 0 <= k < |up| ==> down[k] == up[|up| - 1 - k]
    ensures PeaksOf(down, n)
  {
    forall k | 0 < k < |down| ensures down[k - 1].layer > down[k].layer && down[k - 1].End() == down[k].base {
      var j := |up| - k;
      assert up[j].layer > up[j - 1].layer && up[j].End() == up[j - 1].base;
      assert down[k] == up[j - 1] && down[k - 1] == up[j];
    }
  }
}
