/** getopt_long.c: exchanging two adjacent blocks of an argument vector in place, along gcd-many cycles. */
module Getopt {
  import opened Powers

  ghost function Product(g: int, q: int): int {
    g * q
  }

  ghost predicate Divides(g: int, a: int) {
    exists q: int :: Product(g, q) == a
  }

  /** g divides both numbers and is a combination of them. */
  ghost predicate IsGcd(g: int, a: int, b: int, x: int, y: int) {
    g > 0 && g == Product(a, x) + Product(b, y) && Divides(g, a) && Divides(g, b)
  }

  /** Such a number is the greatest common divisor. */
  lemma GcdGreatest(g: int, a: int, b: int, x: int, y: int, d: int)
    requires IsGcd(g, a, b, x, y) && d > 0 && Divides(d, a) && Divides(d, b)
    ensures d <= g
  {
    var p, q :| Product(d, p) == a && Product(d, q) == b;
    assert g == d * (x * p + y * q);
    SignOfProduct(d, x * p + y * q);
  }

  lemma Remainder(a: int, b: int)
    requires b > 0
    ensures a == Product(b, a / b) + a % b
    ensures forall d: int :: Divides(d, b) && Divides(d, a % b) ==> Divides(d, a)
  {
    forall d: int | Divides(d, b) && Divides(d, a % b) ensures Divides(d, a) {
      var p, q :| Product(d, p) == b && Product(d, q) == a % b;
      var m := a / b;
      assert a == b * m + a % b;
      Regroup(d, p, m);
      assert Product(d, p * m + q) == a;
    }
  }

  lemma Regroup(d: int, p: int, m: int)
    ensures d * p * m == d * (p * m)
  {
  }

  lemma Combination(a: int, b: int, u: int, v: int, x: int, y: int, m: int, first: int, second: int)
    requires a == Product(first, u) + Product(second, v) && b == Product(first, x) + Product(second, y)
    ensures a - Product(b, m) == Product(first, u - m * x) + Product(second, v - m * y)
  {
    Distribute(first, u, m * x);
    Distribute(second, v, m * y);
    assert b * m == first * (m * x) + second * (m * y);
  }

  /** Euclid's loop. */
  method Gcd(first: int, second: int) returns (g: int, ghost x: int, ghost y: int)
    requires first > 0 && second > 0
    ensures IsGcd(g, first, second, x, y)
    ensures g > 0 && Divides(g, first) && Divides(g, second)
    ensures forall d: int :: d > 0 && Divides(d, first) && Divides(d, second) ==> d <= g
  {
    var a, b := first, second;
    ghost var u, v := 1, 0;
    x, y := 0, 1;
    var c := a % b;
    Remainder(a, b);
    Self(first, second);
    hide Divides, Product;
    while c != 0
      invariant b > 0 && c == a % b && a == Product(b, a / b) + c
      invariant a == Product(first, u) + Product(second, v) && b == Product(first, x) + Product(second, y)
      invariant forall d: int :: Divides(d, b) && Divides(d, c) ==> Divides(d, first) && Divides(d, second)
      decreases b
    {
      ghost var m := a / b;
      Combination(a, b, u, v, x, y, m, first, second);
      u, v, x, y := x, y, u - m * x, v - m * y;
      a := b;
      b := c;
      c := a % b;
      Remainder(a, b);
    }
    g := b;
    Self(b, b);
    forall d: int | d > 0 && Divides(d, first) && Divides(d, second) ensures d <= g {
      GcdGreatest(g, first, second, x, y, d);
    }
  }

  lemma Self(a: int, b: int)
    ensures Divides(b, b) && Divides(b, 0)
    ensures a == Product(a, 1) + Product(b, 0) && b == Product(a, 0) + Product(b, 1)
  {
    assert Product(b, 1) == b && Product(b, 0) == 0;
  }

  // ------------------------------------------------------------------
  // The cycles

  /** Where the exchange takes the entry at a place: n entries in front go behind the m others. */
  function Next(p: nat, n: nat, m: nat): nat {
    if p >= n then p - n else p + m
  }

  function Orbit(c: nat, j: nat, n: nat, m: nat): nat {
    if j == 0 then c else Next(Orbit(c, j - 1, n, m), n, m)
  }

  lemma ProductStep(n: int, j: int)
    ensures Product(n, j + 1) == Product(n, j) + n && Product(n, 0) == 0
  {
    Distribute(n, j + 1, j);
  }

  /** After j steps the place is j blocks back, up to full rounds. */
  lemma {:induction false} OrbitPlace(c: nat, j: nat, n: nat, m: nat) returns (k: int)
    requires c < n + m
    ensures Orbit(c, j, n, m) < n + m
    ensures Orbit(c, j, n, m) == c - Product(n, j) + Product(n + m, k)
  {
    hide Product;
    if j == 0 {
      k := 0;
      ProductStep(n, 0);
      ProductStep(n + m, 0);
    } else {
      var h := OrbitPlace(c, j - 1, n, m);
      k := if Orbit(c, j - 1, n, m) >= n then h else h + 1;
      ProductStep(n, j - 1);
      ProductStep(n + m, h);
    }
  }

  /** A multiple of t strictly between -t and t is 0. */
  lemma Between(t: int, q: int)
    requires t > 0 && -t < Product(t, q) < t
    ensures q == 0
  {
    SignOfProduct(t, q);
    SignOfProduct(t, -q);
  }

  lemma OrbitInjective(c: nat, a: nat, b: nat, n: nat, m: nat, g: int, x: int, y: int, len: int)
    requires c < n + m && n > 0 && m > 0 && IsGcd(g, n, m, x, y) && Product(g, len) == n + m
    requires a < b && b - a < len
    ensures Orbit(c, a, n, m) != Orbit(c, b, n, m)
  {
    hide Orbit;
    var h := OrbitPlace(c, a, n, m);
    var k := OrbitPlace(c, b, n, m);
    if Orbit(c, a, n, m) == Orbit(c, b, n, m) {
      var d, e, t := b - a, k - h, n + m;
      Distribute(n, b, a);
      Distribute(t, k, h);
      assert n * d == t * e;
      // g * d is a multiple of t below t
      Recombine(n, t, x, y);
      var z := (x - y) * e + y * d;
      Chain(g, d, n, t, x - y, y, e);
      Distribute(g, len, d);
      SignOfProduct(g, d);
      SignOfProduct(g, len - d);
      Between(t, z);
      assert false;
    }
  }

  lemma Recombine(n: int, t: int, x: int, y: int)
    ensures x * n + y * (t - n) == (x - y) * n + y * t
  {
  }

  lemma Chain(g: int, d: int, n: int, t: int, p: int, q: int, e: int)
    requires g == p * n + q * t && n * d == t * e
    ensures g * d == Product(t, p * e + q * d)
  {
    assert g * d == p * n * d + q * t * d;
    assert p * n * d == p * (n * d);
    assert p * (t * e) == t * (p * e);
    assert q * t * d == t * (q * d);
    Distribute(t, p * e, -(q * d));
  }

  /** Two places that differ by a multiple of the total length are one. */
  lemma SamePlace(p: nat, q: nat, t: int, e: int)
    requires p < t && q < t && p - q == Product(t, e)
    ensures p == q
  {
    Between(t, e);
    ProductStep(t, 0);
  }

  /** The places of an orbit differ by multiples of the greatest common divisor. */
  lemma OrbitClass(c: nat, j: nat, n: nat, m: nat, g: int, nq: int, len: int)
    requires c < n + m && Product(g, nq) == n && Product(g, len) == n + m
    ensures Divides(g, Orbit(c, j, n, m) - c)
  {
    hide Orbit;
    var k := OrbitPlace(c, j, n, m);
    Regroup(g, nq, j);
    Regroup(g, len, k);
    Distribute(g, len * k, nq * j);
    assert Product(g, len * k - nq * j) == Orbit(c, j, n, m) - c;
  }

  /** Every such place is reached within one round. */
  lemma Reach(c: nat, p: nat, n: nat, m: nat, g: int, x: int, y: int, nq: int, len: int) returns (j: nat)
    requires c < n + m && p < n + m && n > 0 && m > 0 && IsGcd(g, n, m, x, y)
    requires Product(g, nq) == n && Product(g, len) == n + m && len > 0 && Divides(g, p - c)
    ensures j < len && Orbit(c, j, n, m) == p
  {
    hide Orbit;
    var s :| Product(g, s) == p - c;
    var t, z := n + m, -(s * (x - y));
    j := z % len;
    var w := z / len;
    assert z == len * w + j;
    var k := OrbitPlace(c, j, n, m);
    Steps(p - c, g, n, t, x, y, nq, len, s, w, j);
    ghost var e := s * y - nq * w;
    Distribute(t, e, k);
    SamePlace(p, Orbit(c, j, n, m), t, e - k);
  }

  lemma Steps(d: int, g: int, n: int, t: int, x: int, y: int, nq: int, len: int, s: int, w: int, j: int)
    requires g == Product(n, x) + Product(t - n, y) && Product(g, nq) == n && Product(g, len) == t && Product(g, s) == d
    requires -(s * (x - y)) == len * w + j
    ensures d == Product(t, s * y - nq * w) - Product(n, j)
  {
    Distribute(n, x, y);
    Distribute(y, t, n);
    assert g == n * (x - y) + t * y;
    var z := x - y;
    Expand(d, g, n, t, z, y, s);
    assert n * (s * z) == n * (-(len * w + j));
    Turns(g, n, t, nq, len, w);
    Distribute(n, -(len * w), j);
    Distribute(t, s * y, nq * w);
    NegateProduct(n, len * w);
  }

  lemma NegateProduct(a: int, b: int)
    ensures a * -b == -(a * b)
  {
  }

  lemma Expand(d: int, g: int, n: int, t: int, z: int, y: int, s: int)
    requires g == n * z + t * y && d == g * s
    ensures d == n * (s * z) + t * (s * y)
  {
    assert d == n * z * s + t * y * s;
  }

  lemma Turns(g: int, n: int, t: int, nq: int, len: int, w: int)
    requires g * nq == n && g * len == t
    ensures n * (len * w) == t * (nq * w)
  {
    assert n * (len * w) == g * nq * len * w;
    assert t * (nq * w) == g * len * nq * w;
  }

  ghost predicate SameClass(g: int, p: int, c: int) {
    Divides(g, p - c)
  }

  /** One cycle as two lists: each place once, with the place its entry goes to, which is the next in line. */
  ghost predicate Cycle(from: seq<nat>, to: seq<nat>, c: nat, n: nat, m: nat) {
    |from| == |to| > 0 && from[0] == c && to[|to| - 1] == c &&
    (forall j :: 0 <= j < |from| ==> from[j] < n + m && to[j] < n + m) &&
    (forall j :: 0 <= j < |to| ==> to[j] == Next(from[j], n, m)) &&
    (forall j :: 0 <= j < |to| - 1 ==> to[j] == from[j + 1]) &&
    (forall i, j :: 0 <= i < j < |from| ==> from[i] != from[j])
  }

  /** The orbit of c is a cycle through exactly the places of its class. */
  lemma OrbitCycle(c: nat, n: nat, m: nat, g: int, x: int, y: int, nq: int, len: nat) returns (from: seq<nat>, to: seq<nat>)
    requires c < n + m && n > 0 && m > 0 && IsGcd(g, n, m, x, y)
    requires Product(g, nq) == n && Product(g, len) == n + m && len > 0
    ensures Cycle(from, to, c, n, m) && |from| == len
    ensures forall p: nat :: p < n + m ==> (SameClass(g, p, c) <==> p in from)
  {
    from := seq(len, j requires 0 <= j => Orbit(c, j, n, m));
    to := seq(len, j requires 0 <= j => Orbit(c, j + 1, n, m));
    OrbitStart(c, n, m);
    hide Orbit, Next, IsGcd, Divides, Product;
    forall j | 0 <= j < len ensures from[j] < n + m && to[j] == Next(from[j], n, m) {
      var k := OrbitPlace(c, j, n, m);
      OrbitStep(c, j, n, m);
    }
    forall i, j | 0 <= i < j < len ensures from[i] != from[j] {
      OrbitInjective(c, i, j, n, m, g, x, y, len);
    }
    forall p: nat | p < n + m ensures SameClass(g, p, c) <==> p in from {
      OnOrbit(from, c, p, n, m, g, x, y, nq, len);
    }
    var k := OrbitPlace(c, len, n, m);
    Whole(c, k, n, m, g, nq, len);
    SamePlace(to[len - 1], c, n + m, k - nq);
  }

  lemma OnOrbit(from: seq<nat>, c: nat, p: nat, n: nat, m: nat, g: int, x: int, y: int, nq: int, len: nat)
    requires c < n + m && p < n + m && n > 0 && m > 0 && IsGcd(g, n, m, x, y)
    requires Product(g, nq) == n && Product(g, len) == n + m && len > 0
    requires |from| == len && forall j :: 0 <= j < len ==> from[j] == Orbit(c, j, n, m)
    ensures SameClass(g, p, c) <==> p in from
  {
    hide Orbit, IsGcd, Product;
    ClassOrbit(c, p, n, m, g, x, y, nq, len);
    if SameClass(g, p, c) {
      var j: nat :| j < len && Orbit(c, j, n, m) == p;
      assert from[j] == p;
    }
    if p in from {
      var j: nat :| j < len && from[j] == p;
      OrbitClass(c, j, n, m, g, nq, len);
    }
  }

  lemma OrbitStart(c: nat, n: nat, m: nat)
    ensures Orbit(c, 0, n, m) == c
  {
  }

  lemma OrbitStep(c: nat, j: nat, n: nat, m: nat)
    ensures Orbit(c, j + 1, n, m) == Next(Orbit(c, j, n, m), n, m)
  {
  }

  lemma ClassOrbit(c: nat, p: nat, n: nat, m: nat, g: int, x: int, y: int, nq: int, len: nat)
    requires c < n + m && p < n + m && n > 0 && m > 0 && IsGcd(g, n, m, x, y)
    requires Product(g, nq) == n && Product(g, len) == n + m && len > 0
    ensures SameClass(g, p, c) <==> exists j: nat :: j < len && Orbit(c, j, n, m) == p
  {
    hide Orbit, Divides, Product, IsGcd;
    if SameClass(g, p, c) {
      var j := Reach(c, p, n, m, g, x, y, nq, len);
    }
    if j: nat :| j < len && Orbit(c, j, n, m) == p {
      OrbitClass(c, j, n, m, g, nq, len);
    }
  }

  lemma Whole(c: int, k: int, n: int, m: int, g: int, nq: int, len: int)
    requires Product(g, nq) == n && Product(g, len) == n + m
    ensures Product(n + m, k) - Product(n, len) == Product(n + m, k - nq)
  {
    var t := n + m;
    Distribute(t, k, nq);
    Turns(g, n, t, nq, len, 1);
  }

  /** The places of cycle i are those with remainder i, and stay so. */
  lemma ClassOf(q: nat, n: nat, m: nat, g: int, i: nat)
    requires g > 0 && Divides(g, n) && Divides(g, m) && i < g
    ensures SameClass(g, q, n + i) <==> q % g == i
    ensures Next(q, n, m) % g == q % g
  {
    var nq :| Product(g, nq) == n;
    var mq :| Product(g, mq) == m;
    hide Divides;
    var h, r := q / g, q % g;
    assert q == Product(g, h) + r;
    hide Product;
    assert SameClass(g, q, n + i) <==> q % g == i by {
      ClassIs(q, n, g, i, nq, h, r);
    }
    if q >= n {
      Shifted(q - n, g, h, -nq, r);
    } else {
      Shifted(q + m, g, h, mq, r);
    }
    ProductStep(g, 0);
    NegateProduct(g, nq);
  }

  lemma Shifted(p: nat, g: int, h: int, d: int, r: int)
    requires g > 0 && 0 <= r < g && p == Product(g, h) + Product(g, d) + r
    ensures p % g == r
  {
    Distribute(g, h, -d);
    UniqueRemainder(g, h + d, r, p / g, p % g);
  }

  lemma ClassIs(q: nat, n: nat, g: int, i: nat, nq: int, h: int, r: nat)
    requires g > 0 && Product(g, nq) == n && q == Product(g, h) + r && i < g && r < g
    ensures SameClass(g, q, n + i) <==> r == i
  {
    if r == i {
      Distribute(g, h, nq);
      assert Product(g, h - nq) == q - (n + i);
    }
    if SameClass(g, q, n + i) {
      var e :| Product(g, e) == q - (n + i);
      Distribute(g, nq, -e);
      UniqueRemainder(g, h, r, nq + e, i);
    }
  }

  lemma UniqueRemainder(g: int, a: int, r: int, b: int, s: int)
    requires g > 0 && 0 <= r < g && 0 <= s < g && g * a + r == g * b + s
    ensures a == b && r == s
  {
    Distribute(g, a, b);
    Between(g, a - b);
  }

  // ------------------------------------------------------------------
  // The exchange

  lemma CycleAt(from: seq<nat>, to: seq<nat>, c: nat, n: nat, m: nat, h: nat)
    requires Cycle(from, to, c, n, m) && h < |from|
    ensures |from| == |to| && from[0] == c && to[h] == from[if h < |from| - 1 then h + 1 else 0]
    ensures from[h] < n + m && to[h] < n + m && to[h] == if from[h] >= n then from[h] - n else from[h] + m
  {
  }

  lemma PlacesApart(from: seq<nat>, to: seq<nat>, c: nat, n: nat, m: nat, h: nat, k: nat)
    requires Cycle(from, to, c, n, m) && h < |from| && k < |from| && h != k
    ensures from[h] != from[k]
  {
  }

  /** The state of the block after j swaps: j entries are in place and the start holds the entry in hand. */
  ghost predicate Turned<T>(v: seq<T>, w: seq<T>, j: nat, from: seq<nat>, to: seq<nat>, c: nat)
    requires |from| == |to| && j <= |from|
  {
    |v| == |w| && c < |v| && (forall h :: 0 <= h < |from| ==> from[h] < |v|) && (forall h :: 0 <= h < |to| ==> to[h] < |v|) &&
    (forall h :: 0 <= h < j && h < |from| - 1 ==> v[to[h]] == w[from[h]]) &&
    (forall h :: j < h < |from| ==> v[from[h]] == w[from[h]]) &&
    (j < |from| ==> v[c] == w[from[j]]) && (0 < j == |from| ==> v[c] == w[from[j - 1]]) &&
    forall q: nat :: q < |v| && q !in from ==> v[q] == w[q]
  }

  lemma TurnStart<T>(w: seq<T>, from: seq<nat>, to: seq<nat>, c: nat, n: nat, m: nat)
    requires Cycle(from, to, c, n, m) && |w| == n + m
    ensures Turned(w, w, 0, from, to, c)
  {
  }

  lemma TurnStep<T>(v: seq<T>, v': seq<T>, w: seq<T>, j: nat, from: seq<nat>, to: seq<nat>, c: nat, n: nat, m: nat)
    requires Cycle(from, to, c, n, m) && j < |from| && Turned(v, w, j, from, to, c)
    requires v' == v[to[j] := v[c]][c := v[to[j]]]
    ensures Turned(v', w, j + 1, from, to, c)
  {
    hide Cycle;
    var len := |from|;
    CycleAt(from, to, c, n, m, j);
    forall h | 0 <= h < j + 1 && h < len - 1 ensures v'[to[h]] == w[from[h]] {
      DoneStay(from, to, c, n, m, h, j);
    }
    forall h | j + 1 < h < len ensures v'[from[h]] == w[from[h]] {
      PlacesApart(from, to, c, n, m, h, 0);
      PlacesApart(from, to, c, n, m, h, j + 1);
    }
    if j < len - 1 {
      PlacesApart(from, to, c, n, m, j + 1, 0);
    }
    forall q: nat | q < |v| && q !in from ensures v'[q] == w[q] {
      assert q != from[0] && q != to[j];
    }
  }

  /** A place already filled is neither the start nor, later, the place of the swap. */
  lemma DoneStay(from: seq<nat>, to: seq<nat>, c: nat, n: nat, m: nat, h: nat, j: nat)
    requires Cycle(from, to, c, n, m) && h <= j < |from| && h < |from| - 1
    ensures to[h] != c && (h < j ==> to[h] != to[j])
  {
    hide Cycle;
    CycleAt(from, to, c, n, m, h);
    CycleAt(from, to, c, n, m, j);
    PlacesApart(from, to, c, n, m, h + 1, 0);
    if h < j {
      PlacesApart(from, to, c, n, m, h + 1, if j < |from| - 1 then j + 1 else 0);
    }
  }

  /** The entries at the listed places are where the exchange takes them, the others are where they were. */
  ghost predicate Carried<T>(v: seq<T>, w: seq<T>, from: seq<nat>, n: nat, m: nat) {
    |v| == |w| && (forall p: nat :: p in from ==> p < |v| && Next(p, n, m) < |v| && v[Next(p, n, m)] == w[p]) &&
    forall q: nat :: q < |v| && q !in from ==> v[q] == w[q]
  }

  lemma TurnEnd<T>(v: seq<T>, w: seq<T>, from: seq<nat>, to: seq<nat>, c: nat, n: nat, m: nat)
    requires Cycle(from, to, c, n, m) && Turned(v, w, |from|, from, to, c)
    ensures Carried(v, w, from, n, m)
  {
    forall p: nat | p in from ensures p < |v| && Next(p, n, m) < |v| && v[Next(p, n, m)] == w[p] {
      var h :| 0 <= h < |from| && from[h] == p;
      CycleAt(from, to, c, n, m, h);
    }
  }

  /** Exchanges two entries of a part of the array. */
  method Swap<T>(a: array<T>, pos: nat, cstart: nat, ghost start: nat, ghost end: nat, ghost p: nat, ghost c: nat)
    requires start <= pos < end <= a.Length && start <= cstart < end && p == pos - start && c == cstart - start
    modifies a
    ensures var v := old(a[start..end]);
      a[start..end] == v[p := v[c]][c := v[p]]
    ensures a[..start] == old(a[..start]) && a[end..] == old(a[end..])
  {
    var swap := a[pos];
    a[pos] := a[cstart];
    a[cstart] := swap;
  }

  /** One step of a cycle: the place moves on and its entry is exchanged with the one at the start of the cycle. */
  method Step<T>(a: array<T>, start: nat, n: nat, m: nat, cstart: nat, at: nat,
                 ghost w: seq<T>, ghost j: nat, ghost from: seq<nat>, ghost to: seq<nat>, ghost c: nat) returns (pos: nat)
    requires start + n + m <= a.Length && c < n + m && cstart == start + c
    requires Cycle(from, to, c, n, m) && j < |from| && at == start + from[j]
    requires Turned(a[start..start + n + m], w, j, from, to, c)
    modifies a
    ensures pos == start + to[j] && Turned(a[start..start + n + m], w, j + 1, from, to, c)
    ensures a[..start] == old(a[..start]) && a[start + n + m..] == old(a[start + n + m..])
  {
    hide Cycle, Turned;
    CycleAt(from, to, c, n, m, j);
    pos := at;
    if pos >= start + n {
      pos := pos - n;
    } else {
      pos := pos + m;
    }
    ghost var v := a[start..start + n + m];
    Swap(a, pos, cstart, start, start + n + m, to[j], c);
    TurnStep(v, a[start..start + n + m], w, j, from, to, c, n, m);
  }

  /** One cycle of swaps: every entry of the class goes to its new place. */
  method Turn<T>(a: array<T>, start: nat, n: nat, m: nat, len: nat, c: nat, ghost from: seq<nat>, ghost to: seq<nat>)
    requires start + n + m <= a.Length && c < n + m && Cycle(from, to, c, n, m) && |from| == len > 0
    modifies a
    ensures Carried(a[start..start + n + m], old(a[start..start + n + m]), from, n, m)
    ensures a[..start] == old(a[..start]) && a[start + n + m..] == old(a[start + n + m..])
  {
    hide Next, Cycle, Turned, Carried;
    ghost var w := a[start..start + n + m];
    var cstart, pos := start + c, start + c;
    TurnStart(w, from, to, c, n, m);
    CycleAt(from, to, c, n, m, 0);
    var j := 0;
    while j < len
      invariant 0 <= j <= len && pos == start + (if j < len then from[j] else c)
      invariant Turned(a[start..start + n + m], w, j, from, to, c)
      invariant a[..start] == old(a[..start]) && a[start + n + m..] == old(a[start + n + m..])
    {
      CycleAt(from, to, c, n, m, j);
      pos := Step(a, start, n, m, cstart, pos, w, j, from, to, c);
      j := j + 1;
    }
    TurnEnd(a[start..start + n + m], w, from, to, c, n, m);
  }

  /** After i cycles: places with smaller remainders are done, the others untouched. */
  ghost predicate Cycled<T>(v: seq<T>, w: seq<T>, i: nat, g: int, n: nat, m: nat)
    requires g > 0
  {
    |v| == |w| == n + m &&
    (forall p: nat :: p < n + m && p % g < i ==> Next(p, n, m) < n + m && v[Next(p, n, m)] == w[p]) &&
    forall q: nat :: q < n + m && q % g >= i ==> v[q] == w[q]
  }

  lemma CycledStep<T>(u: seq<T>, v: seq<T>, w: seq<T>, i: nat, g: int, x: int, y: int, n: nat, m: nat, from: seq<nat>)
    requires IsGcd(g, n, m, x, y) && i < g && Cycled(v, w, i, g, n, m) && Carried(u, v, from, n, m)
    requires forall p: nat :: p < n + m ==> (SameClass(g, p, n + i) <==> p in from)
    ensures Cycled(u, w, i + 1, g, n, m)
  {
    forall p: nat | p < n + m ensures p in from <==> p % g == i {
      ClassOf(p, n, m, g, i);
    }
    hide IsGcd;
    forall p: nat | p < n + m && p % g < i + 1 ensures Next(p, n, m) < n + m && u[Next(p, n, m)] == w[p] {
      ClassOf(p, n, m, g, i);
      if p % g == i {
        assert p in from;
      } else {
        assert Next(p, n, m) !in from;
      }
    }
  }

  lemma Exchanged<T>(v: seq<T>, w: seq<T>, g: int, n: nat, m: nat)
    requires g > 0 && Cycled(v, w, g, g, n, m)
    ensures v == w[n..] + w[..n]
  {
    var u := w[n..] + w[..n];
    forall q | 0 <= q < n + m ensures v[q] == u[q] {
      var p := if q < m then q + n else q - m;
      assert p % g < g && Next(p, n, m) == q;
    }
  }

  /** permute_args: the two blocks change places, each in its order. */
  method PermuteArgs<T>(start: nat, mid: nat, end: nat, nargv: array<T>)
    requires start < mid < end <= nargv.Length
    modifies nargv
    ensures nargv[start..end] == old(nargv[mid..end]) + old(nargv[start..mid])
    ensures nargv[..start] == old(nargv[..start]) && nargv[end..] == old(nargv[end..])
  {
    hide Product, Divides, IsGcd, Next, Cycle, Carried, Cycled, SameClass;
    var nnonopts := mid - start;
    var nopts := end - mid;
    var ncycle, x, y := Gcd(nnonopts, nopts);
    GcdParts(ncycle, nnonopts, nopts, x, y);
    var cyclelen := (end - start) / ncycle;
    ghost var w := nargv[start..end];
    Untouched(w, ncycle, nnonopts, nopts);
    for i := 0 to ncycle
      invariant Cycled(nargv[start..end], w, i, ncycle, nnonopts, nopts)
      invariant nargv[..start] == old(nargv[..start]) && nargv[end..] == old(nargv[end..])
    {
      ghost var from, to := OrbitCycle(nnonopts + i, nnonopts, nopts, ncycle, x, y, nnonopts / ncycle, cyclelen);
      ghost var v := nargv[start..end];
      Turn(nargv, start, nnonopts, nopts, cyclelen, nnonopts + i, from, to);
      CycledStep(nargv[start..end], v, w, i, ncycle, x, y, nnonopts, nopts, from);
    }
    Exchanged(nargv[start..end], w, ncycle, nnonopts, nopts);
  }

  lemma GcdParts(g: int, n: nat, m: nat, x: int, y: int)
    requires IsGcd(g, n, m, x, y) && n > 0 && m > 0
    ensures 0 < g <= m && Product(g, n / g) == n && Product(g, (n + m) / g) == n + m && (n + m) / g > 0
  {
    var p, q :| Product(g, p) == n && Product(g, q) == m;
    UniqueRemainder(g, n / g, n % g, p, 0);
    Distribute(g, p, -q);
    UniqueRemainder(g, (n + m) / g, (n + m) % g, p + q, 0);
    SignOfProduct(g, q);
    SignOfProduct(g, p);
  }

  lemma Untouched<T>(w: seq<T>, g: int, n: nat, m: nat)
    requires g > 0 && |w| == n + m
    ensures Cycled(w, w, 0, g, n, m)
  {
  }
}
