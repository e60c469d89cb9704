/** Poly1305 inputs in five 26-bit limbs: message blocks and the clamped key
    (src/crypto/symmetric/aead/chacha/poly1305.c; section 2.5 of RFC 8439). */
module Poly1305Input {
  import opened Arith
  import opened Limbs
  import opened Bits

  const B26: int := 0x400_0000
  const TWO128: int := 0x1_0000000000000000_0000000000000000
  const TWO130: int := 0x4_0000000000000000_0000000000000000
  /** p = 2^130 - 5. */
  const P: int := 0x3_ffffffffffffffff_fffffffffffffffb

  lemma {:induction false} FieldPowers()
    ensures Pow(B26, 5) == TWO130 && P == Pow(B26, 5) - 5
  {
    PowAdd(B26, 1, 1);
    PowAdd(B26, 2, 2);
    PowAdd(B26, 4, 1);
  }

  ghost function Limbs5(h0: int, h1: int, h2: int, h3: int, h4: int): int
  {
    h0 + h1 * 0x400_0000 + h2 * 0x10_0000_0000_0000 + h3 * 0x4000_0000_0000_0000_0000
    + h4 * 0x100_0000_0000_0000_0000_0000_0000
  }

  lemma {:induction false} FiveLimbs(h: seq<int>)
    requires |h| == 5
    ensures Val(B26, h) == Limbs5(h[0], h[1], h[2], h[3], h[4])
  {
    assert h[..5] == h && h[..0] == [];
    ValSnoc(B26, h, 0);
    ValSnoc(B26, h, 1);
    ValSnoc(B26, h, 2);
    ValSnoc(B26, h, 3);
    ValSnoc(B26, h, 4);
    assert Pow(B26, 0) == 1 && Pow(B26, 1) == B26;
    PowAdd(B26, 1, 1);
    PowAdd(B26, 2, 1);
    PowAdd(B26, 2, 2);
  }

  // ---- the clamp of RFC 8439 ----

  /** The clamped r: top four bits of bytes 3, 7, 11, 15 and low two of 4, 8, 12 cleared. */
  function ClampByte(i: nat, x: byte): byte
  {
    if i in {3, 7, 11, 15} then x % 16 else if i in {4, 8, 12} then x - x % 4 else x
  }

  function Clamped(key: seq<byte>): (r: seq<byte>)
    requires |key| == 32
    ensures |r| == 16
  {
    seq(16, i requires 0 <= i < 16 => ClampByte(i, key[i]))
  }

  // ---- loading limbs ----

  function Rd32(p: seq<byte>): (x: u32)
    requires |p| == 4
  {
    (p[0] as int) + (p[1] as int) * 0x100 + (p[2] as int) * 0x1_0000 + (p[3] as int) * 0x100_0000
  }

  /** The five 26-bit limbs of the 128-bit number t0 + t1 2^32 + t2 2^64 + t3 2^96. */
  function SplitLimbs(t0: int, t1: int, t2: int, t3: int): (l: seq<u32>)
    requires 0 <= t0 < 0x1_0000_0000 && 0 <= t1 < 0x1_0000_0000 && 0 <= t2 < 0x1_0000_0000 && 0 <= t3 < 0x1_0000_0000
    ensures |l| == 5 && l[0] < B26 && l[1] < B26 && l[2] < B26 && l[3] < B26 && l[4] < 0x100_0000
  {
    [t0 % B26,
     (t0 / 0x400_0000 + (t1 * 0x40) % 0x1_0000_0000) % B26,
     (t1 / 0x10_0000 + (t2 * 0x1000) % 0x1_0000_0000) % B26,
     (t2 / 0x4000 + (t3 * 0x4_0000) % 0x1_0000_0000) % B26,
     t3 / 0x100]
  }

  lemma {:induction false} ScaledMod(x: int, d: int, up: int)
    requires x >= 0 && d > 0 && up > 0
    ensures d * up > 0 && (x * up) % (d * up) == up * (x % d)
  {
    var q, y := x / d, x % d;
    DivMod(x, d);
    MulPos(d, up);
    MulAssoc(q, d, up);
    MulNonneg(up, y);
    MulMono(y, d - 1, up);
    DivModUnique(x * up, d * up, q, up * y);
  }

  lemma {:induction false} TailMod(x: int, z: int, k: int, up: int, m: int)
    requires 0 <= x < up && 0 <= z < m && up * m == B26
    ensures (x + up * (z + m * k)) % B26 == x + up * z
  {
    MulAssoc(up, m, k);
    MulNonneg(up, z);
    MulMono(z, m - 1, up);
    DivModUnique(x + up * (z + m * k), B26, k, x + up * z);
  }

  lemma {:induction false} Join(lo: int, hi: int, down: int, up: int, m: int)
    requires 0 <= lo < 0x1_0000_0000 && 0 <= hi && down > 0 && up > 0 && m > 0
    requires down * up == 0x1_0000_0000 && up * m == B26 && m * 0x40 == down
    ensures (lo / down + (hi * up) % 0x1_0000_0000) % B26 == lo / down + up * (hi % m)
  {
    DivLess(lo, down, up);
    DivNonneg(lo, down);
    ScaledMod(hi, down, up);
    DivDiv(hi, m, 0x40);
    TailMod(lo / down, hi % m, (hi / m) % 0x40, up, m);
  }

  lemma {:induction false} SplitValue(t0: int, t1: int, t2: int, t3: int)
    requires 0 <= t0 < 0x1_0000_0000 && 0 <= t1 < 0x1_0000_0000 && 0 <= t2 < 0x1_0000_0000 && 0 <= t3 < 0x1_0000_0000
    ensures Val(B26, SplitLimbs(t0, t1, t2, t3))
         == t0 + t1 * 0x1_0000_0000 + t2 * 0x1_0000_0000_0000_0000 + t3 * 0x1_0000_0000_0000_0000_0000_0000
  {
    Join(t0, t1, 0x400_0000, 0x40, 0x10_0000);
    Join(t1, t2, 0x10_0000, 0x1000, 0x4000);
    Join(t2, t3, 0x4000, 0x4_0000, 0x100);
    FiveLimbs(SplitLimbs(t0, t1, t2, t3));
    DivMod(t0, 0x400_0000);
    DivMod(t1, 0x10_0000);
    DivMod(t2, 0x4000);
    DivMod(t3, 0x100);
  }

  lemma {:induction false} FourBytes(p: seq<byte>)
    requires |p| == 4
    ensures Rd32(p) == Val(0x100, p)
  {
    Four(p);
  }

  lemma {:induction false} SixteenBytes(m: seq<byte>)
    requires |m| == 16
    ensures Val(0x100, m) == Rd32(m[..4]) + Rd32(m[4..8]) * 0x1_0000_0000 + Rd32(m[8..12]) * 0x1_0000_0000_0000_0000
      + Rd32(m[12..]) * 0x1_0000_0000_0000_0000_0000_0000
  {
    hide Val, Rd32;
    ValSplit(0x100, m, 4);
    ValSplit(0x100, m[4..], 4);
    ValSplit(0x100, m[8..], 4);
    assert m[4..][..4] == m[4..8] && m[4..][4..] == m[8..];
    assert m[8..][..4] == m[8..12] && m[8..][4..] == m[12..];
    FourBytes(m[..4]);
    FourBytes(m[4..8]);
    FourBytes(m[8..12]);
    FourBytes(m[12..]);
    PowAdd(0x100, 1, 1);
    PowAdd(0x100, 2, 2);
  }

  function BlockLimbs(m: seq<byte>): (l: seq<u32>)
    requires |m| == 16
    ensures |l| == 5 && l[0] < B26 && l[1] < B26 && l[2] < B26 && l[3] < B26 && l[4] < 0x100_0000
  {
    SplitLimbs(Rd32(m[..4]), Rd32(m[4..8]), Rd32(m[8..12]), Rd32(m[12..]))
  }

  lemma {:induction false} BlockValue(m: seq<byte>)
    requires |m| == 16
    ensures Val(B26, BlockLimbs(m)) == Val(0x100, m)
  {
    SixteenBytes(m);
    SplitValue(Rd32(m[..4]), Rd32(m[4..8]), Rd32(m[8..12]), Rd32(m[12..]));
  }

  // ---- the clamped key ----

  /** A mask of n1 ones, n2 zeros and n3 ones. */
  lemma {:induction false} FieldMask(v: nat, n1: nat, n2: nat, n3: nat, mask: nat)
    requires Pow(2, n1) > 0 && Pow(2, n1 + n2) > 0 && Pow(2, n3) > 0
    requires mask == Pow(2, n1) - 1 + Pow(2, n1 + n2) * (Pow(2, n3) - 1)
    ensures And(v, mask) == v % Pow(2, n1) + Pow(2, n1 + n2) * ((v / Pow(2, n1 + n2)) % Pow(2, n3))
  {
    hide And, Pow;
    var q, n := Pow(2, n1 + n2), n1 + n2;
    PowMonotone(2, n1, n);
    PowAdd(2, n1, n2);
    PowPos(2, n2);
    var low, high := v % q, v / q;
    Quotient(v, q);
    AndSplit(low, high, Pow(2, n1) - 1, Pow(2, n3) - 1, n);
    AndOnes(low, n1);
    AndOnes(high, n3);
    ModOfMod(v, Pow(2, n1), Pow(2, n2));
  }

  lemma {:induction false} Quotient(v: nat, q: int)
    requires q > 0
    ensures v / q >= 0 && 0 <= v % q < q && v == v % q + q * (v / q)
  {
    DivMod(v, q);
    DivNonneg(v, q);
  }

  /** The remainder modulo a multiple of x keeps the remainder modulo x. */
  lemma {:induction false} ModOfMod(v: nat, x: int, y: int)
    requires x > 0 && y > 0
    ensures x * y > 0 && (v % (x * y)) % x == v % x
  {
    MulPos(x, y);
    DivDiv(v, x, y);
    DivMod(v, x);
    DivModOf(v % x, x, (v / x) % y);
  }

  lemma {:induction false} MaskPowers()
    ensures Pow(2, 0) == 1 && Pow(2, 2) == 4 && Pow(2, 6) == 0x40 && Pow(2, 8) == 0x100 && Pow(2, 12) == 0x1000
    ensures Pow(2, 14) == 0x4000 && Pow(2, 18) == 0x4_0000 && Pow(2, 20) == 0x10_0000 && Pow(2, 26) == 0x400_0000
  {
    PowAdd(2, 1, 1);
    PowAdd(2, 2, 2);
    PowAdd(2, 4, 2);
    PowAdd(2, 4, 4);
    PowAdd(2, 6, 6);
    PowAdd(2, 8, 6);
    PowAdd(2, 12, 6);
    PowAdd(2, 14, 6);
    PowAdd(2, 20, 6);
  }

  /** r as loaded and masked: the bits that clamping clears fall out of each limb. */
  function KeyLimbs(t0: int, t1: int, t2: int, t3: int): (r: seq<int>)
    requires 0 <= t0 < 0x1_0000_0000 && 0 <= t1 < 0x1_0000_0000 && 0 <= t2 < 0x1_0000_0000 && 0 <= t3 < 0x1_0000_0000
    ensures |r| == 5
  {
    [And(t0, 0x3ffffff),
     And(t0 / 0x400_0000 + (t1 * 0x40) % 0x1_0000_0000, 0x3ffff03),
     And(t1 / 0x10_0000 + (t2 * 0x1000) % 0x1_0000_0000, 0x3ffc0ff),
     And(t2 / 0x4000 + (t3 * 0x4_0000) % 0x1_0000_0000, 0x3f03fff),
     And(t3 / 0x100, 0x00fffff)]
  }

  lemma {:induction false} MaskedLimbs(t0: int, t1: int, t2: int, t3: int)
    requires 0 <= t0 < 0x1_0000_0000 && 0 <= t1 < 0x1_0000_0000 && 0 <= t2 < 0x1_0000_0000 && 0 <= t3 < 0x1_0000_0000
    ensures var r := KeyLimbs(t0, t1, t2, t3);
      var v1 := t0 / 0x400_0000 + (t1 * 0x40) % 0x1_0000_0000;
      var v2 := t1 / 0x10_0000 + (t2 * 0x1000) % 0x1_0000_0000;
      var v3 := t2 / 0x4000 + (t3 * 0x4_0000) % 0x1_0000_0000;
      r[0] == t0 % 0x400_0000
      && r[1] == v1 % 4 + 0x100 * ((v1 / 0x100) % 0x4_0000)
      && r[2] == v2 % 0x100 + 0x4000 * ((v2 / 0x4000) % 0x1000)
      && r[3] == v3 % 0x4000 + 0x10_0000 * ((v3 / 0x10_0000) % 0x40)
      && r[4] == (t3 / 0x100) % 0x10_0000
  {
    hide And, Pow;
    MaskPowers();
    AndOnes(t0, 26);
    FieldMask(t0 / 0x400_0000 + (t1 * 0x40) % 0x1_0000_0000, 2, 6, 18, 0x3ffff03);
    FieldMask(t1 / 0x10_0000 + (t2 * 0x1000) % 0x1_0000_0000, 8, 6, 12, 0x3ffc0ff);
    FieldMask(t2 / 0x4000 + (t3 * 0x4_0000) % 0x1_0000_0000, 14, 6, 6, 0x3f03fff);
    AndOnes(t3 / 0x100, 20);
  }

  /** A key word with its top four and its low two bits cleared; word 0 keeps its low bits. */
  function ClampWord(t: int): int
  {
    (t - t % 4) % 0x1000_0000
  }

  lemma {:induction false} LowField(t: int, down: int, n: int, k: int)
    requires t >= 0 && n > 0 && k > 0 && down == 4 * (n * k) && 0x1000_0000 % (4 * n) == 0
    ensures ((t % down) / 4) % n == (t / 4) % n
    ensures ClampWord(t) % (4 * n) == 4 * ((t / 4) % n)
  {
    hide ClampWord;
    LowBits(t, down, n, k);
    LowClamped(t, n);
  }

  lemma {:induction false} LowBits(t: int, down: int, n: int, k: int)
    requires t >= 0 && n > 0 && k > 0 && down == 4 * (n * k)
    ensures ((t % down) / 4) % n == (t / 4) % n
  {
    MulPos(n, k);
    DivDiv(t, 4, n * k);
    DivDiv(t / 4, n, k);
    DivModUnique(t % down, 4, (t / 4) % (n * k), t % 4);
    var u := t / 4;
    ModShift(u % n, (u / n) % k, n);
    ModSmall(u % n, n);
    assert u % (n * k) == u % n + ((u / n) % k) * n;
  }

  /** The clamped word is t with its low bits cleared modulo 2^28, and 4 n divides 2^28. */
  lemma {:induction false} LowClamped(t: int, n: int)
    requires t >= 0 && n > 0 && 0x1000_0000 % (4 * n) == 0
    ensures ClampWord(t) % (4 * n) == 4 * ((t / 4) % n)
  {
    var u := t / 4;
    assert t - t % 4 == 4 * u;
    var q := 0x1000_0000 / (4 * n);
    DivMod(0x1000_0000, 4 * n);
    DivMod(4 * u, 0x1000_0000);
    var w := (4 * u) / 0x1000_0000;
    assert w * (q * (4 * n)) == (w * q) * (4 * n) by { MulAssoc(w, q, 4 * n); }
    ModShift(ClampWord(t), w * q, 4 * n);
    DivMod(u, n);
    assert 4 * u == (u / n) * (4 * n) + 4 * (u % n) by { MulAssoc(4, u / n, n); }
    DivModUnique(4 * u, 4 * n, u / n, 4 * (u % n));
  }

  lemma {:induction false} HighField(t: int, down: int, keep: int)
    requires 0 <= t && down > 0 && keep > 0 && down % 4 == 0 && down * keep == 0x1000_0000
    ensures ClampWord(t) / down == (t / down) % keep
  {
    var d4 := down / 4;
    DivDiv(t, 4, d4);
    var u := t - t % 4;
    assert u == 4 * (t / 4);
    DivDiv(u, down, keep);
    DivModUnique(u, 4, t / 4, 0);
    DivDiv(u, 4, d4);
    DivMod(u, down);
    DivModUnique(u % 0x1000_0000, down, (u / down) % keep, u % down);
  }

  lemma {:induction false} ClampLimb1(lo: int, hi: int)
    requires 0 <= lo < 0x1_0000_0000 && 0 <= hi < 0x1_0000_0000
    ensures var v := lo / 0x4000000 + (hi * 0x40) % 0x1_0000_0000;
      v % 0x4 + 0x100 * ((v / 0x100) % 0x40000)
      == (ClampWord(lo) / 0x4000000 + (ClampWord(hi) * 0x40) % 0x1_0000_0000) % B26
  {
    var x, y := lo / 0x4000000, hi % 0x4000000;
    DivModUnique(hi * 0x40, 0x1_0000_0000, hi / 0x4000000, 0x40 * y);
    var v := x + 0x40 * y;
    DivModUnique(v, 0x4, x / 0x4 + 16 * y, x % 0x4);
    DivModUnique(v, 0x100, y / 4, x + 0x40 * (y % 4));
    LowField(hi, 0x4000000, 0x40000, 0x40);
    HighField(lo, 0x4000000, 0x4);
    Join(ClampWord(lo), ClampWord(hi), 0x4000000, 0x40, 0x100000);
  }

  lemma {:induction false} ClampLimb2(lo: int, hi: int)
    requires 0 <= lo < 0x1_0000_0000 && 0 <= hi < 0x1_0000_0000
    ensures var v := lo / 0x100000 + (hi * 0x1000) % 0x1_0000_0000;
      v % 0x100 + 0x4000 * ((v / 0x4000) % 0x1000)
      == (ClampWord(lo) / 0x100000 + (ClampWord(hi) * 0x1000) % 0x1_0000_0000) % B26
  {
    var x, y := lo / 0x100000, hi % 0x100000;
    DivModUnique(hi * 0x1000, 0x1_0000_0000, hi / 0x100000, 0x1000 * y);
    var v := x + 0x1000 * y;
    DivModUnique(v, 0x100, x / 0x100 + 16 * y, x % 0x100);
    DivModUnique(v, 0x4000, y / 4, x + 0x1000 * (y % 4));
    LowField(hi, 0x100000, 0x1000, 0x40);
    HighField(lo, 0x100000, 0x100);
    Join(ClampWord(lo), ClampWord(hi), 0x100000, 0x1000, 0x4000);
  }

  lemma {:induction false} ClampLimb3(lo: int, hi: int)
    requires 0 <= lo < 0x1_0000_0000 && 0 <= hi < 0x1_0000_0000
    ensures var v := lo / 0x4000 + (hi * 0x40000) % 0x1_0000_0000;
      v % 0x4000 + 0x100000 * ((v / 0x100000) % 0x40)
      == (ClampWord(lo) / 0x4000 + (ClampWord(hi) * 0x40000) % 0x1_0000_0000) % B26
  {
    var x, y := lo / 0x4000, hi % 0x4000;
    DivModUnique(hi * 0x40000, 0x1_0000_0000, hi / 0x4000, 0x40000 * y);
    var v := x + 0x40000 * y;
    DivModUnique(v, 0x4000, x / 0x4000 + 16 * y, x % 0x4000);
    DivModUnique(v, 0x100000, y / 4, x + 0x40000 * (y % 4));
    LowField(hi, 0x4000, 0x40, 0x40);
    HighField(lo, 0x4000, 0x4000);
    Join(ClampWord(lo), ClampWord(hi), 0x4000, 0x40000, 0x100);
  }

  lemma {:induction false} FirstWord(t: int)
    requires 0 <= t < 0x1_0000_0000
    ensures (t % 0x1000_0000) % 0x400_0000 == t % 0x400_0000
    ensures (t % 0x1000_0000) / 0x400_0000 == ClampWord(t) / 0x400_0000
  {
    HighField(t, 0x400_0000, 4);
    DivDiv(t, 0x400_0000, 4);
    DivModUnique(t % 0x1000_0000, 0x400_0000, (t / 0x400_0000) % 4, t % 0x400_0000);
  }

  /** Masking the limbs of the key equals splitting the clamped key into limbs. */
  lemma {:induction false} MaskingClamps(t0: int, t1: int, t2: int, t3: int)
    requires 0 <= t0 < 0x1_0000_0000 && 0 <= t1 < 0x1_0000_0000 && 0 <= t2 < 0x1_0000_0000 && 0 <= t3 < 0x1_0000_0000
    ensures KeyLimbs(t0, t1, t2, t3)
         == SplitLimbs(t0 % 0x1000_0000, ClampWord(t1), ClampWord(t2), ClampWord(t3))
  {
    hide ClampWord, And;
    MaskedLimbs(t0, t1, t2, t3);
    ClampLimb1(t0, t1);
    ClampLimb2(t1, t2);
    ClampLimb3(t2, t3);
    FirstWord(t0);
    HighField(t3, 0x100, 0x10_0000);
  }

  function KeyR(key: seq<byte>): (r: seq<int>)
    requires |key| == 32
    ensures |r| == 5
  {
    KeyLimbs(Rd32(key[..4]), Rd32(key[4..8]), Rd32(key[8..12]), Rd32(key[12..16]))
  }

  lemma {:induction false} ClampedWord(b0: byte, b1: byte, b2: byte, b3: byte)
    ensures Rd32([b0, b1, b2, b3 % 16]) == Rd32([b0, b1, b2, b3]) % 0x1000_0000
    ensures Rd32([b0 - b0 % 4, b1, b2, b3 % 16]) == ClampWord(Rd32([b0, b1, b2, b3]))
  {
    var t := Rd32([b0, b1, b2, b3]);
    DivModUnique(t, 0x1000_0000, b3 / 16, Rd32([b0, b1, b2, b3 % 16]));
    assert t % 4 == b0 % 4;
    DivModUnique(t - t % 4, 0x1000_0000, b3 / 16, Rd32([b0 - b0 % 4, b1, b2, b3 % 16]));
  }

  /** The masked limbs hold the clamped r of RFC 8439, each limb below 2^26 and the top below 2^20. */
  lemma {:induction false} KeyValue(key: seq<byte>)
    requires |key| == 32
    ensures Val(B26, KeyR(key)) == Val(0x100, Clamped(key))
    ensures var r := KeyR(key);
      0 <= r[0] < B26 && 0 <= r[1] < B26 && 0 <= r[2] < B26 && 0 <= r[3] < B26 && 0 <= r[4] < 0x10_0000
  {
    hide Val, KeyLimbs, SplitLimbs;
    var c := Clamped(key);
    SixteenBytes(c);
    assert c[..4] == [key[0], key[1], key[2], key[3] % 16];
    assert c[4..8] == [key[4] - key[4] % 4, key[5], key[6], key[7] % 16];
    assert c[8..12] == [key[8] - key[8] % 4, key[9], key[10], key[11] % 16];
    assert c[12..] == [key[12] - key[12] % 4, key[13], key[14], key[15] % 16];
    assert key[..4] == [key[0], key[1], key[2], key[3]];
    assert key[4..8] == [key[4], key[5], key[6], key[7]];
    assert key[8..12] == [key[8], key[9], key[10], key[11]];
    assert key[12..16] == [key[12], key[13], key[14], key[15]];
    ClampedWord(key[0], key[1], key[2], key[3]);
    ClampedWord(key[4], key[5], key[6], key[7]);
    ClampedWord(key[8], key[9], key[10], key[11]);
    ClampedWord(key[12], key[13], key[14], key[15]);
    MaskingClamps(Rd32(key[..4]), Rd32(key[4..8]), Rd32(key[8..12]), Rd32(key[12..16]));
    SplitValue(Rd32(c[..4]), Rd32(c[4..8]), Rd32(c[8..12]), Rd32(c[12..]));
    TopLimbSmall(Rd32(c[..4]), Rd32(c[4..8]), Rd32(c[8..12]), Rd32(c[12..]));
  }

  lemma {:induction false} TopLimbSmall(t0: u32, t1: u32, t2: u32, t3: u32)
    requires t3 < 0x1000_0000
    ensures SplitLimbs(t0, t1, t2, t3)[4] < 0x10_0000
  {}
}
