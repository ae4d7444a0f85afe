/** sha1.cpp: streaming SHA-1 against the standard's definition (FIPS 180-4, sections 4.1.1, 5.1.1 and 6.1.2). */
module Sha1 {
  /** The five words of the hash value, or of the working variables. */
  datatype Regs = Regs(a: bv32, b: bv32, c: bv32, d: bv32, e: bv32)

  function Rol(x: bv32, n: nat): bv32
    requires 0 < n < 32
  {
    (x << n) | (x >> (32 - n))
  }

  // ------------------------------------------------------------------
  // The standard

  function Ch(x: bv32, y: bv32, z: bv32): bv32 {
    (x & y) ^ (!x & z)
  }

  function Parity(x: bv32, y: bv32, z: bv32): bv32 {
    x ^ y ^ z
  }

  function Maj(x: bv32, y: bv32, z: bv32): bv32 {
    (x & y) ^ (x & z) ^ (y & z)
  }

  function F(t: nat, x: bv32, y: bv32, z: bv32): bv32 {
    if t < 20 then Ch(x, y, z) else if 40 <= t < 60 then Maj(x, y, z) else Parity(x, y, z)
  }

  function K(t: nat): bv32 {
    if t < 20 then 0x5a827999 else if t < 40 then 0x6ed9eba1 else if t < 60 then 0x8f1bbcdc else 0xca62c1d6
  }

  function Blend(x: bv32, y: bv32, z: bv32, u: bv32): bv32 {
    Rol(x ^ y ^ z ^ u, 1)
  }

  /** The message schedule of 80 words. */
  function Schedule(m: seq<bv32>, t: nat): bv32
    requires |m| == 16
  {
    if t < 16 then m[t]
    else Blend(Schedule(m, t - 3), Schedule(m, t - 8), Schedule(m, t - 14), Schedule(m, t - 16))
  }

  function Total(r: bv32, f: bv32, e: bv32, k: bv32, w: bv32): bv32 {
    r + f + e + k + w
  }

  function Step(s: Regs, t: nat, w: bv32): Regs {
    Regs(Total(Rol(s.a, 5), F(t, s.b, s.c, s.d), s.e, K(t), w), s.a, Rol(s.b, 30), s.c, s.d)
  }

  /** The working variables after t steps. */
  function State(h: Regs, m: seq<bv32>, t: nat): Regs
    requires |m| == 16
  {
    if t == 0 then h else Step(State(h, m, t - 1), t - 1, Schedule(m, t - 1))
  }

  function Plus(h: Regs, s: Regs): Regs {
    Regs(h.a + s.a, h.b + s.b, h.c + s.c, h.d + s.d, h.e + s.e)
  }

  /** One block. */
  function Compress(h: Regs, m: seq<bv32>): Regs
    requires |m| == 16
  {
    Plus(h, State(h, m, 80))
  }

  // ------------------------------------------------------------------
  // The block function of the program

  lemma ChIs(b: bv32, c: bv32, d: bv32)
    ensures ((c ^ d) & b) ^ d == Ch(b, c, d)
  {
  }

  lemma MajIs(b: bv32, c: bv32, d: bv32)
    ensures (b & c) + (d & (b ^ c)) == Maj(b, c, d)
  {
  }

  /** The last 16 words of the schedule, each in the slot of its number modulo 16. */
  ghost predicate Rolling(w: seq<bv32>, m: seq<bv32>, t: nat) {
    |w| == 16 && |m| == 16 && forall s: nat :: s < t <= s + 16 ==> w[s % 16] == Schedule(m, s)
  }

  lemma Plus16(x: nat)
    ensures (x + 16) % 16 == x % 16
  {
  }

  lemma Back(t: nat)
    requires t >= 16
    ensures (t + 13) % 16 == (t - 3) % 16 && (t + 8) % 16 == (t - 8) % 16 && (t + 2) % 16 == (t - 14) % 16 && t % 16 == (t - 16) % 16
  {
    var p, q, r, s := t - 3, t - 8, t - 14, t - 16;
    Plus16(p);
    Plus16(q);
    Plus16(r);
    Plus16(s);
    assert t + 13 == p + 16 && t + 8 == q + 16 && t + 2 == r + 16 && t == s + 16;
  }

  /** The four taps of the rolling array are those of the schedule. */
  lemma Mixed(w: seq<bv32>, m: seq<bv32>, t: nat)
    requires Rolling(w, m, t) && t >= 16
    ensures Blend(w[(t + 13) % 16], w[(t + 8) % 16], w[(t + 2) % 16], w[t % 16]) == Schedule(m, t)
  {
    hide Blend, Schedule;
    Back(t);
    var p, q, r, s := t - 3, t - 8, t - 14, t - 16;
    assert w[p % 16] == Schedule(m, p) && w[q % 16] == Schedule(m, q) && w[r % 16] == Schedule(m, r) && w[s % 16] == Schedule(m, s);
    LaterWord(m, t);
  }

  lemma LaterWord(m: seq<bv32>, t: nat)
    requires |m| == 16 && t >= 16
    ensures Schedule(m, t) == Blend(Schedule(m, t - 3), Schedule(m, t - 8), Schedule(m, t - 14), Schedule(m, t - 16))
  {
    hide Blend;
  }

  lemma FirstWord(m: seq<bv32>, t: nat)
    requires |m| == 16 && t < 16
    ensures Schedule(m, t) == m[t]
  {
    hide Blend;
  }

  lemma RollOn(w: seq<bv32>, m: seq<bv32>, t: nat)
    requires Rolling(w, m, t)
    ensures Rolling(w[t % 16 := Schedule(m, t)], m, t + 1)
  {
    hide Schedule;
    var v := w[t % 16 := Schedule(m, t)];
    forall s: nat | s < t + 1 <= s + 16 ensures v[s % 16] == Schedule(m, s) {
      if s < t {
        assert s % 16 != t % 16;
      }
    }
  }

  /** The mixing function of the program. */
  function Mix(t: nat, b: bv32, c: bv32, d: bv32): bv32 {
    if t < 20 then ((c ^ d) & b) ^ d
    else if t < 40 then b ^ c ^ d
    else if t < 60 then (b & c) + (d & (b ^ c))
    else b ^ c ^ d
  }

  lemma MixIs(t: nat, b: bv32, c: bv32, d: bv32)
    ensures Mix(t, b, c, d) == F(t, b, c, d)
  {
    ChIs(b, c, d);
    MajIs(b, c, d);
    hide Ch, Maj;
  }

  /** E += TEMP + ... */
  function Raised(e: bv32, temp: bv32, r: bv32, f: bv32, k: bv32): bv32 {
    e + (temp + r + f + k)
  }

  /** One round: two registers change, the caller renames the rest. */
  method T(w: array<bv32>, data: seq<bv32>, t: nat, a: bv32, b: bv32, c: bv32, d: bv32, e: bv32, ghost h: Regs) returns (e': bv32, b': bv32)
    requires w.Length == 16 && |data| == 16 && Rolling(w[..], data, t) && State(h, data, t) == Regs(a, b, c, d, e)
    modifies w
    ensures Rolling(w[..], data, t + 1) && State(h, data, t + 1) == Regs(e', a, b', c, d)
  {
    hide Rolling, Mix, F, K, Rol, State, Blend, Total, Raised, Schedule;
    var temp;
    if t < 16 {
      temp := data[t];
      FirstWord(data, t);
    } else {
      temp := Blend(w[(t + 13) % 16], w[(t + 8) % 16], w[(t + 2) % 16], w[t % 16]);
      Mixed(w[..], data, t);
    }
    RollOn(w[..], data, t);
    MixIs(t, b, c, d);
    NextState(h, data, t);
    Sum(e, temp, Rol(a, 5), F(t, b, c, d), K(t));
    w[t % 16] := temp;
    assert w[..] == old(w[..])[t % 16 := temp];
    e' := Raised(e, temp, Rol(a, 5), Mix(t, b, c, d), K(t));
    b' := Rol(b, 30);
  }

  lemma NextState(h: Regs, m: seq<bv32>, t: nat)
    requires |m| == 16
    ensures State(h, m, t + 1) == Step(State(h, m, t), t, Schedule(m, t))
  {
  }

  lemma Sum(e: bv32, w: bv32, r: bv32, f: bv32, k: bv32)
    ensures Raised(e, w, r, f, k) == Total(r, f, e, k, w)
  {
  }

  /** Round 1. */
  method Round1(w: array<bv32>, data: seq<bv32>, va: bv32, vb: bv32, vc: bv32, vd: bv32, ve: bv32, ghost h: Regs)
    returns (a: bv32, b: bv32, c: bv32, d: bv32, e: bv32)
    requires w.Length == 16 && |data| == 16 && Rolling(w[..], data, 0) && State(h, data, 0) == Regs(va, vb, vc, vd, ve)
    modifies w
    ensures Rolling(w[..], data, 20) && State(h, data, 20) == Regs(a, b, c, d, e)
  {
    hide State, Rolling;
    a, b, c, d, e := va, vb, vc, vd, ve;
    e, b := T(w, data, 0, a, b, c, d, e, h);
    d, a := T(w, data, 1, e, a, b, c, d, h);
    c, e := T(w, data, 2, d, e, a, b, c, h);
    b, d := T(w, data, 3, c, d, e, a, b, h);
    a, c := T(w, data, 4, b, c, d, e, a, h);
    e, b := T(w, data, 5, a, b, c, d, e, h);
    d, a := T(w, data, 6, e, a, b, c, d, h);
    c, e := T(w, data, 7, d, e, a, b, c, h);
    b, d := T(w, data, 8, c, d, e, a, b, h);
    a, c := T(w, data, 9, b, c, d, e, a, h);
    e, b := T(w, data, 10, a, b, c, d, e, h);
    d, a := T(w, data, 11, e, a, b, c, d, h);
    c, e := T(w, data, 12, d, e, a, b, c, h);
    b, d := T(w, data, 13, c, d, e, a, b, h);
    a, c := T(w, data, 14, b, c, d, e, a, h);
    e, b := T(w, data, 15, a, b, c, d, e, h);
    d, a := T(w, data, 16, e, a, b, c, d, h);
    c, e := T(w, data, 17, d, e, a, b, c, h);
    b, d := T(w, data, 18, c, d, e, a, b, h);
    a, c := T(w, data, 19, b, c, d, e, a, h);
  }

  /** Round 2. */
  method Round2(w: array<bv32>, data: seq<bv32>, va: bv32, vb: bv32, vc: bv32, vd: bv32, ve: bv32, ghost h: Regs)
    returns (a: bv32, b: bv32, c: bv32, d: bv32, e: bv32)
    requires w.Length == 16 && |data| == 16 && Rolling(w[..], data, 20) && State(h, data, 20) == Regs(va, vb, vc, vd, ve)
    modifies w
    ensures Rolling(w[..], data, 40) && State(h, data, 40) == Regs(a, b, c, d, e)
  {
    hide State, Rolling;
    a, b, c, d, e := va, vb, vc, vd, ve;
    e, b := T(w, data, 20, a, b, c, d, e, h);
    d, a := T(w, data, 21, e, a, b, c, d, h);
    c, e := T(w, data, 22, d, e, a, b, c, h);
    b, d := T(w, data, 23, c, d, e, a, b, h);
    a, c := T(w, data, 24, b, c, d, e, a, h);
    e, b := T(w, data, 25, a, b, c, d, e, h);
    d, a := T(w, data, 26, e, a, b, c, d, h);
    c, e := T(w, data, 27, d, e, a, b, c, h);
    b, d := T(w, data, 28, c, d, e, a, b, h);
    a, c := T(w, data, 29, b, c, d, e, a, h);
    e, b := T(w, data, 30, a, b, c, d, e, h);
    d, a := T(w, data, 31, e, a, b, c, d, h);
    c, e := T(w, data, 32, d, e, a, b, c, h);
    b, d := T(w, data, 33, c, d, e, a, b, h);
    a, c := T(w, data, 34, b, c, d, e, a, h);
    e, b := T(w, data, 35, a, b, c, d, e, h);
    d, a := T(w, data, 36, e, a, b, c, d, h);
    c, e := T(w, data, 37, d, e, a, b, c, h);
    b, d := T(w, data, 38, c, d, e, a, b, h);
    a, c := T(w, data, 39, b, c, d, e, a, h);
  }

  /** Round 3. */
  method Round3(w: array<bv32>, data: seq<bv32>, va: bv32, vb: bv32, vc: bv32, vd: bv32, ve: bv32, ghost h: Regs)
    returns (a: bv32, b: bv32, c: bv32, d: bv32, e: bv32)
    requires w.Length == 16 && |data| == 16 && Rolling(w[..], data, 40) && State(h, data, 40) == Regs(va, vb, vc, vd, ve)
    modifies w
    ensures Rolling(w[..], data, 60) && State(h, data, 60) == Regs(a, b, c, d, e)
  {
    hide State, Rolling;
    a, b, c, d, e := va, vb, vc, vd, ve;
    e, b := T(w, data, 40, a, b, c, d, e, h);
    d, a := T(w, data, 41, e, a, b, c, d, h);
    c, e := T(w, data, 42, d, e, a, b, c, h);
    b, d := T(w, data, 43, c, d, e, a, b, h);
    a, c := T(w, data, 44, b, c, d, e, a, h);
    e, b := T(w, data, 45, a, b, c, d, e, h);
    d, a := T(w, data, 46, e, a, b, c, d, h);
    c, e := T(w, data, 47, d, e, a, b, c, h);
    b, d := T(w, data, 48, c, d, e, a, b, h);
    a, c := T(w, data, 49, b, c, d, e, a, h);
    e, b := T(w, data, 50, a, b, c, d, e, h);
    d, a := T(w, data, 51, e, a, b, c, d, h);
    c, e := T(w, data, 52, d, e, a, b, c, h);
    b, d := T(w, data, 53, c, d, e, a, b, h);
    a, c := T(w, data, 54, b, c, d, e, a, h);
    e, b := T(w, data, 55, a, b, c, d, e, h);
    d, a := T(w, data, 56, e, a, b, c, d, h);
    c, e := T(w, data, 57, d, e, a, b, c, h);
    b, d := T(w, data, 58, c, d, e, a, b, h);
    a, c := T(w, data, 59, b, c, d, e, a, h);
  }

  /** Round 4. */
  method Round4(w: array<bv32>, data: seq<bv32>, va: bv32, vb: bv32, vc: bv32, vd: bv32, ve: bv32, ghost h: Regs)
    returns (a: bv32, b: bv32, c: bv32, d: bv32, e: bv32)
    requires w.Length == 16 && |data| == 16 && Rolling(w[..], data, 60) && State(h, data, 60) == Regs(va, vb, vc, vd, ve)
    modifies w
    ensures Rolling(w[..], data, 80) && State(h, data, 80) == Regs(a, b, c, d, e)
  {
    hide State, Rolling;
    a, b, c, d, e := va, vb, vc, vd, ve;
    e, b := T(w, data, 60, a, b, c, d, e, h);
    d, a := T(w, data, 61, e, a, b, c, d, h);
    c, e := T(w, data, 62, d, e, a, b, c, h);
    b, d := T(w, data, 63, c, d, e, a, b, h);
    a, c := T(w, data, 64, b, c, d, e, a, h);
    e, b := T(w, data, 65, a, b, c, d, e, h);
    d, a := T(w, data, 66, e, a, b, c, d, h);
    c, e := T(w, data, 67, d, e, a, b, c, h);
    b, d := T(w, data, 68, c, d, e, a, b, h);
    a, c := T(w, data, 69, b, c, d, e, a, h);
    e, b := T(w, data, 70, a, b, c, d, e, h);
    d, a := T(w, data, 71, e, a, b, c, d, h);
    c, e := T(w, data, 72, d, e, a, b, c, h);
    b, d := T(w, data, 73, c, d, e, a, b, h);
    a, c := T(w, data, 74, b, c, d, e, a, h);
    e, b := T(w, data, 75, a, b, c, d, e, h);
    d, a := T(w, data, 76, e, a, b, c, d, h);
    c, e := T(w, data, 77, d, e, a, b, c, h);
    b, d := T(w, data, 78, c, d, e, a, b, h);
    a, c := T(w, data, 79, b, c, d, e, a, h);
  }

  /** blk_SHA1_Block. */
  method Block(h: Regs, data: seq<bv32>) returns (r: Regs)
    requires |data| == 16
    ensures r == Compress(h, data)
  {
    hide State, Rolling, Plus;
    var w := new bv32[16](_ => 0);
    StartRolling(w[..], h, data);
    var a, b, c, d, e := Round1(w, data, h.a, h.b, h.c, h.d, h.e, h);
    a, b, c, d, e := Round2(w, data, a, b, c, d, e, h);
    a, b, c, d, e := Round3(w, data, a, b, c, d, e, h);
    a, b, c, d, e := Round4(w, data, a, b, c, d, e, h);
    r := Plus(h, Regs(a, b, c, d, e));
  }

  lemma StartRolling(w: seq<bv32>, h: Regs, m: seq<bv32>)
    requires |w| == 16 && |m| == 16
    ensures Rolling(w, m, 0) && State(h, m, 0) == h
  {
  }

  // ------------------------------------------------------------------
  // Messages

  const INITIAL := Regs(0x67452301, 0xefcdab89, 0x98badcfe, 0x10325476, 0xc3d2e1f0)

  function BigEndian(a: bv8, b: bv8, c: bv8, d: bv8): bv32 {
    ((a as bv32) << 24) | ((b as bv32) << 16) | ((c as bv32) << 8) | (d as bv32)
  }

  /** The 16 words of a block. */
  function Words(b: seq<bv8>): (s: seq<bv32>)
    requires |b| == 64
    ensures |s| == 16
  {
    seq(16, i requires 0 <= i < 16 => BigEndian(b[4 * i], b[4 * i + 1], b[4 * i + 2], b[4 * i + 3]))
  }

  /** The hash value after a message of whole blocks. */
  function Digest(m: seq<bv8>): Regs
    requires |m| % 64 == 0
  {
    if m == [] then INITIAL else Compress(Digest(m[..|m| - 64]), Words(m[|m| - 64..]))
  }

  lemma DigestMore(m: seq<bv8>, b: seq<bv8>)
    requires |m| % 64 == 0 && |b| == 64
    ensures |m + b| % 64 == 0 && Digest(m + b) == Compress(Digest(m), Words(b))
  {
    hide Compress, Words;
    var n := m + b;
    assert n[..|n| - 64] == m && n[|n| - 64..] == b;
  }

  /** The whole blocks of a message. */
  function Whole(m: seq<bv8>): nat
    ensures Whole(m) <= |m| && Whole(m) % 64 == 0 && |m| - Whole(m) == |m| % 64
  {
    |m| / 64 * 64
  }

  /** Four bytes of a number below 2^32, most significant first. */
  function Bytes4(x: nat): (s: seq<bv8>)
    ensures |s| == 4
  {
    [Byte(x / 0x100_0000), Byte(x / 0x1_0000), Byte(x / 0x100), Byte(x)]
  }

  function Byte(x: nat): bv8 {
    Narrow(x % 256)
  }

  function Narrow(x: nat): bv8
    requires x < 256
  {
    x as bv8
  }

  /** The message length in bits as eight bytes, most significant first. */
  function LengthBytes(x: nat): (s: seq<bv8>)
    ensures |s| == 8
  {
    [Byte(x / 0x100_0000_0000_0000), Byte(x / 0x1_0000_0000_0000), Byte(x / 0x100_0000_0000), Byte(x / 0x1_0000_0000)] +
    [Byte(x / 0x100_0000), Byte(x / 0x1_0000), Byte(x / 0x100), Byte(x)]
  }

  function Zeros(k: nat): (s: seq<bv8>)
    ensures |s| == k
  {
    seq(k, i => 0)
  }

  /** The padded message: a 1 bit, the fewest zeros, and the length. */
  ghost predicate Padded(m: seq<bv8>, p: seq<bv8>) {
    exists k: nat :: PaddedBy(m, p, k)
  }

  ghost predicate PaddedBy(m: seq<bv8>, p: seq<bv8>, k: nat) {
    k < 64 && p == m + [0x80] + Zeros(k) + LengthBytes(8 * |m|) && |p| % 64 == 0
  }

  /** A message has one padding. */
  lemma PaddedOnce(m: seq<bv8>, p: seq<bv8>, q: seq<bv8>)
    requires Padded(m, p) && Padded(m, q)
    ensures p == q
  {
    var j: nat :| PaddedBy(m, p, j);
    var k: nat :| PaddedBy(m, q, k);
    hide LengthBytes, Zeros;
    OneCount(|m| + 9, j, k);
  }

  lemma OneCount(n: nat, j: nat, k: nat)
    requires j < 64 && k < 64 && (n + j) % 64 == 0 && (n + k) % 64 == 0
    ensures j == k
  {
    var u, v := (n + j) / 64, (n + k) / 64;
    assert j - k == 64 * (u - v);
  }

  /** The two 32-bit halves the program writes are the eight length bytes. */
  lemma LengthHalves(n: nat)
    requires n < 0x2000_0000_0000_0000
    ensures Bytes4(n / 0x2000_0000 % 0x1_0000_0000) + Bytes4(n * 8 % 0x1_0000_0000) == LengthBytes(8 * n)
  {
    hide Byte;
    var x := 8 * n;
    assert n / 0x2000_0000 == x / 0x1_0000_0000 < 0x1_0000_0000;
    HighHalf(x);
    LowHalf(x);
  }

  lemma HighHalf(x: nat)
    ensures Bytes4(x / 0x1_0000_0000) ==
      [Byte(x / 0x100_0000_0000_0000), Byte(x / 0x1_0000_0000_0000), Byte(x / 0x100_0000_0000), Byte(x / 0x1_0000_0000)]
  {
    hide Byte;
    var h := x / 0x1_0000_0000;
    assert h / 0x100_0000 == x / 0x100_0000_0000_0000;
    assert h / 0x1_0000 == x / 0x1_0000_0000_0000;
    assert h / 0x100 == x / 0x100_0000_0000;
  }

  lemma LowHalf(x: nat)
    ensures Bytes4(x % 0x1_0000_0000) == [Byte(x / 0x100_0000), Byte(x / 0x1_0000), Byte(x / 0x100), Byte(x)]
  {
    hide Byte;
    LowByte(x, 0x100_0000);
    LowByte(x, 0x1_0000);
    LowByte(x, 0x100);
    LowByte(x, 1);
  }

  lemma LowByte(x: nat, d: nat)
    requires d == 1 || d == 0x100 || d == 0x1_0000 || d == 0x100_0000
    ensures Byte(x % 0x1_0000_0000 / d) == Byte(x / d)
  {
    hide Byte;
    var q, lo := x / 0x1_0000_0000, x % 0x1_0000_0000;
    assert x == 0x1_0000_0000 * q + lo;
    if d == 1 {
      SameByte(x, lo, 0x100_0000 * q);
    } else if d == 0x100 {
      SameByte(x / d, lo / d, 0x1_0000 * q);
    } else if d == 0x1_0000 {
      SameByte(x / d, lo / d, 0x100 * q);
    } else {
      SameByte(x / d, lo / d, q);
    }
  }

  lemma SameByte(x: nat, y: nat, q: nat)
    requires x == 256 * q + y
    ensures Byte(x) == Byte(y)
  {
    hide Narrow;
    assert x % 256 == y % 256;
  }

  // ------------------------------------------------------------------
  // The streaming interface

  lemma PaddingDone(m: seq<bv8>, p: seq<bv8>, zeros: nat, tail: seq<bv8>)
    requires zeros == (55 - |m| % 64) % 64 && tail == LengthBytes(8 * |m|) && p == m + ([0x80] + Zeros(zeros)) + tail
    ensures PaddedBy(m, p, zeros) && Whole(p) == |p| && p[..Whole(p)] == p
  {
    hide LengthBytes, Zeros;
    assert |p| == |m| + 9 + zeros;
    assert p == m + [0x80] + Zeros(zeros) + tail;
  }

  /** Data that do not fill the buffer leave the whole blocks as they are. */
  lemma StillOpen(m: seq<bv8>, input: seq<bv8>)
    requires |m| % 64 + |input| < 64
    ensures Whole(m + input) == Whole(m) && (m + input)[..Whole(m)] == m[..Whole(m)]
    ensures (m + input)[Whole(m)..] == m[Whole(m)..] + input && |m + input| % 64 == |m| % 64 + |input|
  {
  }

  /** Whole blocks and what is left over. */
  lemma Rest(m: seq<bv8>, done: seq<bv8>, data: seq<bv8>)
    requires |done| % 64 == 0 && done + data == m && |data| < 64
    ensures Whole(m) == |done| && m[..Whole(m)] == done && m[Whole(m)..] == data && |m| % 64 == |data|
  {
  }

  class Context {
    var h: Regs
    var size: nat
    const w: array<bv8>

    /** The context stands for the message so far: whole blocks are in the hash value, the rest is in the buffer. */
    ghost predicate Absorbed(m: seq<bv8>)
      reads this, w
    {
      w.Length == 64 && size == |m| && h == Digest(m[..Whole(m)]) && w[..|m| % 64] == m[Whole(m)..]
    }

    /** blk_SHA1_Init. */
    constructor ()
      ensures Absorbed([]) && fresh(w)
    {
      h := INITIAL;
      size := 0;
      w := new bv8[64](_ => 0);
    }

    /** blk_SHA1_Update: the context then stands for the message with the data appended. */
    method Update(input: seq<bv8>, ghost m: seq<bv8>)
      requires Absorbed(m)
      modifies this, w
      ensures Absorbed(m + input)
    {
      hide Compress, Words, Digest;
      var data := input;
      var lenW := size % 64;
      size := size + |data|;
      ghost var done := m[..Whole(m)];
      if lenW != 0 {
        var left := 64 - lenW;
        if |data| < left {
          left := |data|;
        }
        Copy(lenW, data[..left]);
        lenW := (lenW + left) % 64;
        data := data[left..];
        if lenW != 0 {
          StillOpen(m, input);
          assert w[..lenW] == m[Whole(m)..] + input;
          return;
        }
        ghost var b := w[..];
        assert b == m[Whole(m)..] + input[..left];
        assert m == done + m[Whole(m)..] && input == input[..left] + data;
        assert done + b + data == m + input;
        DigestMore(done, b);
        h := Block(h, Words(w[..]));
        done := done + b;
      }
      Blocks(data, done, m + input);
    }

    /** The part of blk_SHA1_Update after the buffer is empty. */
    method Blocks(input: seq<bv8>, ghost before: seq<bv8>, ghost m: seq<bv8>)
      requires w.Length == 64 && |before| % 64 == 0 && h == Digest(before) && before + input == m && size == |m|
      modifies this`h, w
      ensures Absorbed(m)
    {
      hide Compress, Words, Digest;
      var data := input;
      ghost var done := before;
      while |data| >= 64
        invariant |done| % 64 == 0 && h == Digest(done) && done + data == m && w.Length == 64
        decreases |data|
      {
        DigestMore(done, data[..64]);
        h := Block(h, Words(data[..64]));
        done := done + data[..64];
        data := data[64..];
      }
      if |data| > 0 {
        Copy(0, data);
      }
      Rest(m, done, data);
    }

    method Copy(at: nat, data: seq<bv8>)
      requires at + |data| <= w.Length
      modifies w
      ensures w[..] == old(w[..at]) + data + old(w[at + |data|..])
    {
      forall i | 0 <= i < |data| {
        w[at + i] := data[i];
      }
    }

    /** blk_SHA1_Final: the digest of the padded message. */
    method Final(ghost m: seq<bv8>) returns (r: Regs, ghost p: seq<bv8>)
      requires Absorbed(m) && |m| < 0x2000_0000_0000_0000
      modifies this, w
      ensures Padded(m, p) && |p| % 64 == 0 && r == Digest(p)
    {
      hide Compress, Words, Digest, Bytes4, LengthBytes, Zeros;
      var high := Bytes4(size / 0x2000_0000 % 0x1_0000_0000);
      var low := Bytes4(size * 8 % 0x1_0000_0000);
      var i := size % 64;
      var zeros := (55 - i) % 64;
      Update([0x80] + Zeros(zeros), m);
      Update(high + low, m + ([0x80] + Zeros(zeros)));
      LengthHalves(|m|);
      p := m + ([0x80] + Zeros(zeros)) + (high + low);
      PaddingDone(m, p, zeros, high + low);
      r := h;
    }
  }

  function Joined(parts: seq<seq<bv8>>): seq<bv8> {
    if parts == [] then [] else Joined(parts[..|parts| - 1]) + parts[|parts| - 1]
  }

  lemma JoinedMore(parts: seq<seq<bv8>>, i: nat)
    requires i <= |parts|
    ensures Joined(parts[..0]) == [] && (i < |parts| ==> Joined(parts[..i + 1]) == Joined(parts[..i]) + parts[i])
  {
    if i < |parts| {
      assert parts[..i + 1][..i] == parts[..i];
    }
  }

  /** The digest of the padded message. */
  ghost predicate IsHash(m: seq<bv8>, r: Regs) {
    exists p: seq<bv8> :: Padded(m, p) && HashOf(p, r)
  }

  ghost predicate HashOf(p: seq<bv8>, r: Regs) {
    |p| % 64 == 0 && r == Digest(p)
  }

  /** However a message is split into updates, the result is the digest of the padded message. */
  method HashParts(parts: seq<seq<bv8>>) returns (r: Regs)
    requires |Joined(parts)| < 0x2000_0000_0000_0000
    ensures IsHash(Joined(parts), r)
  {
    hide Digest, Padded, Context.Absorbed, Joined;
    JoinedMore(parts, 0);
    var ctx := new Context();
    for i := 0 to |parts|
      invariant fresh(ctx) && fresh(ctx.w) && ctx.Absorbed(Joined(parts[..i]))
    {
      JoinedMore(parts, i);
      ctx.Update(parts[i], Joined(parts[..i]));
    }
    assert parts[..|parts|] == parts;
    ghost var p;
    r, p := ctx.Final(Joined(parts));
    assert HashOf(p, r);
  }

  /** Updates that spell the same message give the same digest. */
  lemma OneHash(m: seq<bv8>, r: Regs, s: Regs)
    requires IsHash(m, r) && IsHash(m, s)
    ensures r == s
  {
    hide Padded;
    var p: seq<bv8> :| Padded(m, p) && HashOf(p, r);
    var q: seq<bv8> :| Padded(m, q) && HashOf(q, s);
    PaddedOnce(m, p, q);
  }

  // ------------------------------------------------------------------
  // A known answer: the message "abc" (FIPS 180-4 gives the same one as an example)

  const ABC: seq<bv8> := [0x61, 0x62, 0x63]

  /** The words of the padded message. */
  ghost predicate AbcWords(m: seq<bv32>) {
    |m| == 16 && m[0] == 0x61626380 && m[15] == 0x18 && forall i: nat :: 0 < i < 15 ==> m[i] == 0
  }

  lemma Later(m: seq<bv32>, t: nat, w: bv32)
    requires |m| == 16 && t >= 16 && Blend(Schedule(m, t - 3), Schedule(m, t - 8), Schedule(m, t - 14), Schedule(m, t - 16)) == w
    ensures Schedule(m, t) == w
  {
    hide Blend, Schedule;
    LaterWord(m, t);
  }

  lemma Turn(m: seq<bv32>, t: nat, s: Regs, w: bv32, next: bv32) returns (r: Regs)
    requires |m| == 16 && State(INITIAL, m, t) == s && Schedule(m, t) == w && Total(Rol(s.a, 5), F(t, s.b, s.c, s.d), s.e, K(t), w) == next
    ensures State(INITIAL, m, t + 1) == r == Regs(next, s.a, Rol(s.b, 30), s.c, s.d)
  {
    hide Rol, F, K, Total, Schedule, State;
    NextState(INITIAL, m, t);
    r := Regs(next, s.a, Rol(s.b, 30), s.c, s.d);
  }

  lemma AbcWords0(m: seq<bv32>)
    requires |m| == 16 && AbcWords(m)
    ensures Schedule(m, 0) == 0x61626380 && Schedule(m, 1) == 0x00000000
    ensures Schedule(m, 2) == 0x00000000 && Schedule(m, 3) == 0x00000000
    ensures Schedule(m, 4) == 0x00000000 && Schedule(m, 5) == 0x00000000
    ensures Schedule(m, 6) == 0x00000000 && Schedule(m, 7) == 0x00000000
    ensures Schedule(m, 8) == 0x00000000 && Schedule(m, 9) == 0x00000000
    ensures Schedule(m, 10) == 0x00000000 && Schedule(m, 11) == 0x00000000
    ensures Schedule(m, 12) == 0x00000000 && Schedule(m, 13) == 0x00000000
    ensures Schedule(m, 14) == 0x00000000 && Schedule(m, 15) == 0x00000018
  {
    hide Schedule, Blend;
    FirstWord(m, 0);
    FirstWord(m, 1);
    FirstWord(m, 2);
    FirstWord(m, 3);
    FirstWord(m, 4);
    FirstWord(m, 5);
    FirstWord(m, 6);
    FirstWord(m, 7);
    FirstWord(m, 8);
    FirstWord(m, 9);
    FirstWord(m, 10);
    FirstWord(m, 11);
    FirstWord(m, 12);
    FirstWord(m, 13);
    FirstWord(m, 14);
    FirstWord(m, 15);
  }

  lemma AbcWords16(m: seq<bv32>)
    requires |m| == 16 && AbcWords(m)
    ensures Schedule(m, 16) == 0xc2c4c700 && Schedule(m, 17) == 0x00000000
    ensures Schedule(m, 18) == 0x00000030 && Schedule(m, 19) == 0x85898e01
    ensures Schedule(m, 20) == 0x00000000 && Schedule(m, 21) == 0x00000060
    ensures Schedule(m, 22) == 0x0b131c03 && Schedule(m, 23) == 0x00000030
    ensures Schedule(m, 24) == 0x85898ec1 && Schedule(m, 25) == 0x16263806
    ensures Schedule(m, 26) == 0x00000000 && Schedule(m, 27) == 0x00000180
    ensures Schedule(m, 28) == 0x2c4c700c && Schedule(m, 29) == 0x000000f0
    ensures Schedule(m, 30) == 0x93afb507 && Schedule(m, 31) == 0x5898e048
  {
    hide Schedule, AbcWords;
    AbcWords0(m);
    Later(m, 16, 0xc2c4c700);
    Later(m, 17, 0x00000000);
    Later(m, 18, 0x00000030);
    Later(m, 19, 0x85898e01);
    Later(m, 20, 0x00000000);
    Later(m, 21, 0x00000060);
    Later(m, 22, 0x0b131c03);
    Later(m, 23, 0x00000030);
    Later(m, 24, 0x85898ec1);
    Later(m, 25, 0x16263806);
    Later(m, 26, 0x00000000);
    Later(m, 27, 0x00000180);
    Later(m, 28, 0x2c4c700c);
    Later(m, 29, 0x000000f0);
    Later(m, 30, 0x93afb507);
    Later(m, 31, 0x5898e048);
  }

  lemma AbcWords32(m: seq<bv32>)
    requires |m| == 16 && AbcWords(m)
    ensures Schedule(m, 32) == 0x8e9a9202 && Schedule(m, 33) == 0x00000600
    ensures Schedule(m, 34) == 0xb131c0f0 && Schedule(m, 35) == 0x16263bc6
    ensures Schedule(m, 36) == 0x4ebed41e && Schedule(m, 37) == 0x626380a1
    ensures Schedule(m, 38) == 0x16263806 && Schedule(m, 39) == 0x000018c0
    ensures Schedule(m, 40) == 0xd2e138c4 && Schedule(m, 41) == 0x00000f00
    ensures Schedule(m, 42) == 0x3afb5079 && Schedule(m, 43) == 0x898e04e5
    ensures Schedule(m, 44) == 0xe2ba3c2b && Schedule(m, 45) == 0x000060c0
    ensures Schedule(m, 46) == 0x053a37cd && Schedule(m, 47) == 0x74458547
  {
    hide Schedule, AbcWords;
    AbcWords16(m);
    Later(m, 32, 0x8e9a9202);
    Later(m, 33, 0x00000600);
    Later(m, 34, 0xb131c0f0);
    Later(m, 35, 0x16263bc6);
    Later(m, 36, 0x4ebed41e);
    Later(m, 37, 0x626380a1);
    Later(m, 38, 0x16263806);
    Later(m, 39, 0x000018c0);
    Later(m, 40, 0xd2e138c4);
    Later(m, 41, 0x00000f00);
    Later(m, 42, 0x3afb5079);
    Later(m, 43, 0x898e04e5);
    Later(m, 44, 0xe2ba3c2b);
    Later(m, 45, 0x000060c0);
    Later(m, 46, 0x053a37cd);
    Later(m, 47, 0x74458547);
  }

  lemma AbcWords48(m: seq<bv32>)
    requires |m| == 16 && AbcWords(m)
    ensures Schedule(m, 48) == 0xda9415ed && Schedule(m, 49) == 0x26380a16
    ensures Schedule(m, 50) == 0x626383a1 && Schedule(m, 51) == 0x4ebf54de
    ensures Schedule(m, 52) == 0x3835b44b && Schedule(m, 53) == 0x0000f600
    ensures Schedule(m, 54) == 0x1e84c7a3 && Schedule(m, 55) == 0x98e04d98
    ensures Schedule(m, 56) == 0x651d16a0 && Schedule(m, 57) == 0x62658ca1
    ensures Schedule(m, 58) == 0x458544d6 && Schedule(m, 59) == 0x44584cb7
    ensures Schedule(m, 60) == 0x7ba06619 && Schedule(m, 61) == 0x6380aea2
    ensures Schedule(m, 62) == 0x0ae55269 && Schedule(m, 63) == 0x627b49a1
  {
    hide Schedule, AbcWords;
    AbcWords32(m);
    Later(m, 48, 0xda9415ed);
    Later(m, 49, 0x26380a16);
    Later(m, 50, 0x626383a1);
    Later(m, 51, 0x4ebf54de);
    Later(m, 52, 0x3835b44b);
    Later(m, 53, 0x0000f600);
    Later(m, 54, 0x1e84c7a3);
    Later(m, 55, 0x98e04d98);
    Later(m, 56, 0x651d16a0);
    Later(m, 57, 0x62658ca1);
    Later(m, 58, 0x458544d6);
    Later(m, 59, 0x44584cb7);
    Later(m, 60, 0x7ba06619);
    Later(m, 61, 0x6380aea2);
    Later(m, 62, 0x0ae55269);
    Later(m, 63, 0x627b49a1);
  }

  lemma AbcWords64(m: seq<bv32>)
    requires |m| == 16 && AbcWords(m)
    ensures Schedule(m, 64) == 0x7cd45c9d && Schedule(m, 65) == 0x000f0000
    ensures Schedule(m, 66) == 0xfb50753a && Schedule(m, 67) == 0xec6765e8
    ensures Schedule(m, 68) == 0xba3c2be2 && Schedule(m, 69) == 0x0060c000
    ensures Schedule(m, 70) == 0x3a37cd05 && Schedule(m, 71) == 0x458546f4
    ensures Schedule(m, 72) == 0xb8599dd6 && Schedule(m, 73) == 0x380a1a26
    ensures Schedule(m, 74) == 0x01e02203 && Schedule(m, 75) == 0xe7cc3456
    ensures Schedule(m, 76) == 0xe6e60b69 && Schedule(m, 77) == 0x00f60a00
    ensures Schedule(m, 78) == 0x5795ef4f && Schedule(m, 79) == 0x822e0879
  {
    hide Schedule, AbcWords;
    AbcWords48(m);
    Later(m, 64, 0x7cd45c9d);
    Later(m, 65, 0x000f0000);
    Later(m, 66, 0xfb50753a);
    Later(m, 67, 0xec6765e8);
    Later(m, 68, 0xba3c2be2);
    Later(m, 69, 0x0060c000);
    Later(m, 70, 0x3a37cd05);
    Later(m, 71, 0x458546f4);
    Later(m, 72, 0xb8599dd6);
    Later(m, 73, 0x380a1a26);
    Later(m, 74, 0x01e02203);
    Later(m, 75, 0xe7cc3456);
    Later(m, 76, 0xe6e60b69);
    Later(m, 77, 0x00f60a00);
    Later(m, 78, 0x5795ef4f);
    Later(m, 79, 0x822e0879);
  }

  lemma AbcSteps0(m: seq<bv32>)
    requires |m| == 16 && AbcWords(m)
    ensures State(INITIAL, m, 20) == Regs(0xfd9e1d7d, 0xdc64901d, 0x20aa99ca, 0xd3a49608, 0xc82f758b)
  {
    hide State, Schedule, AbcWords;
    NoSteps(m);
    AbcWords0(m);
    AbcWords16(m);
    var s := Regs(0x67452301, 0xefcdab89, 0x98badcfe, 0x10325476, 0xc3d2e1f0);
    s := Turn(m, 0, s, 0x61626380, 0x0116fc33);
    s := Turn(m, 1, s, 0x00000000, 0x8990536d);
    s := Turn(m, 2, s, 0x00000000, 0xa1390f08);
    s := Turn(m, 3, s, 0x00000000, 0xcdd8e11b);
    s := Turn(m, 4, s, 0x00000000, 0xcfd499de);
    s := Turn(m, 5, s, 0x00000000, 0x3fc7ca40);
    s := Turn(m, 6, s, 0x00000000, 0x993e30c1);
    s := Turn(m, 7, s, 0x00000000, 0x9e8c07d4);
    s := Turn(m, 8, s, 0x00000000, 0x4b6ae328);
    s := Turn(m, 9, s, 0x00000000, 0x8351f929);
    s := Turn(m, 10, s, 0x00000000, 0xfbda9e89);
    s := Turn(m, 11, s, 0x00000000, 0x63188fe4);
    s := Turn(m, 12, s, 0x00000000, 0x4607b664);
    s := Turn(m, 13, s, 0x00000000, 0x9128f695);
    s := Turn(m, 14, s, 0x00000000, 0x196bee77);
    s := Turn(m, 15, s, 0x00000018, 0x20bdd62f);
    s := Turn(m, 16, s, 0xc2c4c700, 0x4e925823);
    s := Turn(m, 17, s, 0x00000000, 0x82aa6728);
    s := Turn(m, 18, s, 0x00000030, 0xdc64901d);
    s := Turn(m, 19, s, 0x85898e01, 0xfd9e1d7d);
  }

  lemma AbcSteps20(m: seq<bv32>)
    requires |m| == 16 && AbcWords(m)
    ensures State(INITIAL, m, 40) == Regs(0x32de1cba, 0x4c986405, 0xf718e5cf, 0x03d447f6, 0xf72eec32)
  {
    hide State, Schedule, AbcWords;
    AbcSteps0(m);
    AbcWords16(m);
    AbcWords32(m);
    var s := Regs(0xfd9e1d7d, 0xdc64901d, 0x20aa99ca, 0xd3a49608, 0xc82f758b);
    s := Turn(m, 20, s, 0x00000000, 0x1a37b0ca);
    s := Turn(m, 21, s, 0x00000060, 0x33a23bfc);
    s := Turn(m, 22, s, 0x0b131c03, 0x21283486);
    s := Turn(m, 23, s, 0x00000030, 0xd541f12d);
    s := Turn(m, 24, s, 0x85898ec1, 0xc7567dc6);
    s := Turn(m, 25, s, 0x16263806, 0x48413ba4);
    s := Turn(m, 26, s, 0x00000000, 0xbe35fbd5);
    s := Turn(m, 27, s, 0x00000180, 0x4aa84d97);
    s := Turn(m, 28, s, 0x2c4c700c, 0x8370b52e);
    s := Turn(m, 29, s, 0x000000f0, 0xc5fbaf5d);
    s := Turn(m, 30, s, 0x93afb507, 0x1267b407);
    s := Turn(m, 31, s, 0x5898e048, 0x3b845d33);
    s := Turn(m, 32, s, 0x8e9a9202, 0x046faa0a);
    s := Turn(m, 33, s, 0x00000600, 0x2c0ebc11);
    s := Turn(m, 34, s, 0xb131c0f0, 0x21796ad4);
    s := Turn(m, 35, s, 0x16263bc6, 0xdcbbb0cb);
    s := Turn(m, 36, s, 0x4ebed41e, 0x0f511fd8);
    s := Turn(m, 37, s, 0x626380a1, 0xdc63973f);
    s := Turn(m, 38, s, 0x16263806, 0x4c986405);
    s := Turn(m, 39, s, 0x000018c0, 0x32de1cba);
  }

  lemma AbcSteps40(m: seq<bv32>)
    requires |m| == 16 && AbcWords(m)
    ensures State(INITIAL, m, 60) == Regs(0x3f52de5a, 0x09d785fd, 0x3498bfd4, 0xf211824f, 0xd79915ab)
  {
    hide State, Schedule, AbcWords;
    AbcSteps20(m);
    AbcWords32(m);
    AbcWords48(m);
    var s := Regs(0x32de1cba, 0x4c986405, 0xf718e5cf, 0x03d447f6, 0xf72eec32);
    s := Turn(m, 40, s, 0xd2e138c4, 0xfc87dedf);
    s := Turn(m, 41, s, 0x00000f00, 0x970a0d5c);
    s := Turn(m, 42, s, 0x3afb5079, 0x7f193dc5);
    s := Turn(m, 43, s, 0x898e04e5, 0xee1b1aaf);
    s := Turn(m, 44, s, 0xe2ba3c2b, 0x40f28e09);
    s := Turn(m, 45, s, 0x000060c0, 0x1c51e1f2);
    s := Turn(m, 46, s, 0x053a37cd, 0xa01b846c);
    s := Turn(m, 47, s, 0x74458547, 0xbead02ca);
    s := Turn(m, 48, s, 0xda9415ed, 0xbaf39337);
    s := Turn(m, 49, s, 0x26380a16, 0x120731c5);
    s := Turn(m, 50, s, 0x626383a1, 0x641db2ce);
    s := Turn(m, 51, s, 0x4ebf54de, 0x3847ad66);
    s := Turn(m, 52, s, 0x3835b44b, 0xe490436d);
    s := Turn(m, 53, s, 0x0000f600, 0x27e9f1d8);
    s := Turn(m, 54, s, 0x1e84c7a3, 0x7b71f76d);
    s := Turn(m, 55, s, 0x98e04d98, 0x5e6456af);
    s := Turn(m, 56, s, 0x651d16a0, 0xc846093f);
    s := Turn(m, 57, s, 0x62658ca1, 0xd262ff50);
    s := Turn(m, 58, s, 0x458544d6, 0x09d785fd);
    s := Turn(m, 59, s, 0x44584cb7, 0x3f52de5a);
  }

  lemma AbcSteps60(m: seq<bv32>)
    requires |m| == 16 && AbcWords(m)
    ensures State(INITIAL, m, 80) == Regs(0x42541b35, 0x5738d5e1, 0x21834873, 0x681e6df6, 0xd8fdf6ad)
  {
    hide State, Schedule, AbcWords;
    AbcSteps40(m);
    AbcWords48(m);
    AbcWords64(m);
    var s := Regs(0x3f52de5a, 0x09d785fd, 0x3498bfd4, 0xf211824f, 0xd79915ab);
    s := Turn(m, 60, s, 0x7ba06619, 0xd756c147);
    s := Turn(m, 61, s, 0x6380aea2, 0x548c9cb2);
    s := Turn(m, 62, s, 0x0ae55269, 0xb66c020b);
    s := Turn(m, 63, s, 0x627b49a1, 0x6b61c9e1);
    s := Turn(m, 64, s, 0x7cd45c9d, 0x19dfa7ac);
    s := Turn(m, 65, s, 0x000f0000, 0x101655f9);
    s := Turn(m, 66, s, 0xfb50753a, 0x0c3df2b4);
    s := Turn(m, 67, s, 0xec6765e8, 0x78dd4d2b);
    s := Turn(m, 68, s, 0xba3c2be2, 0x497093c0);
    s := Turn(m, 69, s, 0x0060c000, 0x3f2588c2);
    s := Turn(m, 70, s, 0x3a37cd05, 0xc199f8c7);
    s := Turn(m, 71, s, 0x458546f4, 0x39859de7);
    s := Turn(m, 72, s, 0xb8599dd6, 0xedb42de4);
    s := Turn(m, 73, s, 0x380a1a26, 0x11793f6f);
    s := Turn(m, 74, s, 0x01e02203, 0x5ee76897);
    s := Turn(m, 75, s, 0xe7cc3456, 0x63f7dab7);
    s := Turn(m, 76, s, 0xe6e60b69, 0xa079b7d9);
    s := Turn(m, 77, s, 0x00f60a00, 0x860d21cc);
    s := Turn(m, 78, s, 0x5795ef4f, 0x5738d5e1);
    s := Turn(m, 79, s, 0x822e0879, 0x42541b35);
  }

  lemma NoSteps(m: seq<bv32>)
    requires |m| == 16
    ensures State(INITIAL, m, 0) == INITIAL
  {
  }

  /** The padding of "abc" is one block with these words. */
  lemma AbcPadded(p: seq<bv8>)
    requires p == ABC + [0x80] + Zeros(52) + LengthBytes(24)
    ensures |p| == 64 && PaddedBy(ABC, p, 52) && AbcWords(Words(p))
  {
    hide Words, LengthBytes, AbcWords;
    AbcBytes(p);
    AbcWordsOf(p);
  }

  ghost predicate AbcBlock(p: seq<bv8>) {
    |p| == 64 && p[0] == 0x61 && p[1] == 0x62 && p[2] == 0x63 && p[3] == 0x80 && p[63] == 24 && forall i :: 4 <= i < 63 ==> p[i] == 0
  }

  lemma AbcBytes(p: seq<bv8>)
    requires p == ABC + [0x80] + Zeros(52) + LengthBytes(24)
    ensures AbcBlock(p)
  {
    hide LengthBytes;
    BytesOrder();
  }

  lemma AbcWordsOf(p: seq<bv8>)
    requires AbcBlock(p)
    ensures AbcWords(Words(p))
  {
    hide BigEndian;
    AbcEnds();
    forall i: nat | 0 < i < 15 ensures Words(p)[i] == 0 {
      assert p[4 * i] == p[4 * i + 1] == p[4 * i + 2] == p[4 * i + 3] == 0;
    }
  }

  lemma AbcEnds()
    ensures BigEndian(0x61, 0x62, 0x63, 0x80) == 0x61626380 && BigEndian(0, 0, 0, 0) == 0 && BigEndian(0, 0, 0, 24) == 0x18
  {
  }

  /** The digest of "abc". */
  lemma KnownAnswer(r: Regs)
    requires IsHash(ABC, r)
    ensures r == Regs(0xa9993e36, 0x4706816a, 0xba3e2571, 0x7850c26c, 0x9cd0d89d)
  {
    hide Digest, Padded, State, AbcWords, Words, LengthBytes, Zeros, Schedule;
    var p := ABC + [0x80] + Zeros(52) + LengthBytes(24);
    AbcPadded(p);
    assert Padded(ABC, p) by {
      PaddingIs(ABC, p, 52);
    }
    var q: seq<bv8> :| Padded(ABC, q) && HashOf(q, r);
    PaddedOnce(ABC, p, q);
    DigestMore([], p);
    assert [] + p == p;
    NoBlocks();
    AbcSteps60(Words(p));
  }

  lemma PaddingIs(m: seq<bv8>, p: seq<bv8>, k: nat)
    requires PaddedBy(m, p, k)
    ensures Padded(m, p)
  {
  }

  lemma NoBlocks()
    ensures Digest([]) == INITIAL
  {
  }

  // ------------------------------------------------------------------
  // The constants and the order of the bytes

  /** The four constants are the integer parts of 2^30 times the square roots of 2, 3, 5 and 10. */
  lemma KIs(t: nat)
    ensures var n, k := if t < 20 then 2 else if t < 40 then 3 else if t < 60 then 5 else 10, K(t) as nat;
      k * k <= n * 0x1000_0000_0000_0000 < (k + 1) * (k + 1)
  {
  }

  /** A word has its bytes in order, most significant first. */
  lemma BigEndianBytes(a: bv8, b: bv8, c: bv8, d: bv8)
    ensures var w := BigEndian(a, b, c, d);
      w >> 24 == a as bv32 && (w >> 16) & 0xff == b as bv32 && (w >> 8) & 0xff == c as bv32 && w & 0xff == d as bv32
  {
  }

  lemma BytesOrder()
    ensures Bytes4(0x0102_0304) == [1, 2, 3, 4]
    ensures LengthBytes(0x0102_0304_0506_0708) == [1, 2, 3, 4, 5, 6, 7, 8]
    ensures LengthBytes(24) == [0, 0, 0, 0, 0, 0, 0, 24]
  {
    hide Narrow;
    SmallBytes();
    var x := 0x0102_0304_0506_0708;
    assert x / 0x100_0000_0000_0000 % 256 == 1 && x / 0x1_0000_0000_0000 % 256 == 2;
    assert x / 0x100_0000_0000 % 256 == 3 && x / 0x1_0000_0000 % 256 == 4;
    assert x / 0x100_0000 % 256 == 5 && x / 0x1_0000 % 256 == 6 && x / 0x100 % 256 == 7 && x % 256 == 8;
  }

  lemma SmallBytes()
    ensures Narrow(0) == 0 && Narrow(1) == 1 && Narrow(2) == 2 && Narrow(3) == 3 && Narrow(4) == 4
    ensures Narrow(5) == 5 && Narrow(6) == 6 && Narrow(7) == 7 && Narrow(8) == 8 && Narrow(24) == 24
  {
  }
}
