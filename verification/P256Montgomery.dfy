/** CIOS Montgomery multiplication over an odd 256-bit modulus, R = 2^256. */
module P256Montgomery {
  import opened Arith
  import opened Limbs
  import opened P256Field

  /** One modulus with its precomputed constants. */
  datatype Mont = Mont(m: array<u64>, rr: array<u64>, one: array<u64>, n0inv: u64)

  /** r is the least non-negative residue of x. */
  ghost predicate Residue(r: int, x: int, m: int)
    requires m > 0
  {
    0 <= r < m && Cong(r, x, m)
  }

  ghost predicate ValidMont(ctx: Mont)
    reads ctx.m, ctx.rr, ctx.one
  {
    && ctx.m.Length == 4 && ctx.rr.Length == 4 && ctx.one.Length == 4
    && Int(ctx.m) > 1
    && (ctx.n0inv * ctx.m[0] + 1) % B64 == 0
    && Residue(Int(ctx.rr), R256 * R256, Int(ctx.m))
    && Residue(Int(ctx.one), R256, Int(ctx.m))
  }

  // ---- one CIOS round ----

  lemma {:induction false} MulRowEnds(low: seq<int>, c: int, ai: int, b: seq<int>, W: seq<int>, t4: int, t5: int)
    requires |b| == 4 && |low| == 4 && |W| >= 5
    requires RowDone(Val(B64, low), c, ai, b, W, 0, 4)
    requires t4 + t5 * B64 == c + W[4]
    ensures Val(B64, low + [t4, t5]) == Val(B64, W[..5]) + ai * Val(B64, b)
  {
    assert b[..4] == b && Pow(B64, 0) == 1;
    assert low + [t4, t5] == (low + [t4]) + [t5];
    ValPush(B64, low + [t4], t5);
    ValPush(B64, low, t4);
    ValSnoc(B64, W, 4);
    Scale3(t4, t5, B64, c, W[4], 0, Pow(B64, 4));
  }

  /** t += ai * b: the four product columns, then the carry into limbs 4 and 5. */
  method CiosMulRow(t: array<u64>, ai: u64, b: array<u64>)
    requires t.Length == 6 && b.Length == 4 && t != b
    modifies t
    ensures Val(B64, t[..]) == old(Val(B64, t[..5])) + ai * Int(b)
  {
    hide Val, Pow, RowDone;
    ghost var W: seq<int>, Bs: seq<int> := t[..], b[..4];
    var c: u64 := 0;
    var j := 0;
    RowStarts(ai, Bs, W, 0);
    assert t[..0] == W[..0];
    while j < 4
      invariant 0 <= j <= 4
      invariant (forall k :: j <= k < 6 ==> t[k] == W[k]) && b[..4] == Bs
      invariant RowDone(Val(B64, t[..j]), c, ai, Bs, W, 0, j)
    {
      ghost var low := t[..j];
      var lo, hi := MulAddColumn(c, ai, b[j], t[j]);
      RowStep(low, c, ai, Bs, W, 0, j, lo, hi);
      t[j] := lo;
      c := hi;
      j := j + 1;
      assert t[..j] == low + [lo];
    }
    ghost var low := t[..4];
    var s: u128 := (c as int) + t[4];
    t[4] := s % B64;
    t[5] := s / B64;
    MulRowEnds(low, c, ai, Bs, W, t[4], t[5]);
    assert t[..] == low + [t[4], t[5]];
  }

  lemma {:induction false} ReduceRowEnds(low: seq<int>, c: int, u: int, m: seq<int>, W: seq<int>, t3: int, hi: int)
    requires |m| == 4 && |low| == 3 && |W| == 6
    requires RowDone(Val(B64, [0] + low), c, u, m, W, 0, 4)
    requires t3 + hi * B64 == c + W[4]
    ensures B64 * Val(B64, low + [t3, W[5] + hi]) == Val(B64, W) + u * Val(B64, m)
  {
    var z := [0] + low;
    assert m[..4] == m && Pow(B64, 0) == 1;
    ValCons(B64, 0, low + [t3, W[5] + hi]);
    assert [0] + (low + [t3, W[5] + hi]) == (z + [t3]) + [W[5] + hi];
    ValPush(B64, z + [t3], W[5] + hi);
    ValPush(B64, z, t3);
    ValSnoc(B64, W, 4);
    ValSnoc(B64, W, 5);
    assert W[..6] == W;
    Scale3(t3, hi, B64, c, W[4], 0, Pow(B64, 4));
    assert (W[5] + hi) * Pow(B64, 5) == W[5] * Pow(B64, 5) + hi * Pow(B64, 5);
  }

  /** The multiplier u makes the lowest limb of t + u * m vanish. */
  lemma {:induction false} LowLimbVanishes(t0: int, n0: int, m0: int)
    requires (n0 * m0 + 1) % B64 == 0
    ensures var u := (t0 * n0) % B64; (u * m0 + t0) % B64 == 0
  {
    var u := (t0 * n0) % B64;
    CongRemainder(t0 * n0, B64);
    CongScale(u, t0 * n0, m0, B64);
    CongShift(u * m0, t0 * n0 * m0, t0, B64);
    assert t0 * n0 * m0 + t0 == t0 * (n0 * m0 + 1) by { MulAssoc(t0, n0, m0); }
    CongMod(n0 * m0 + 1, 0, B64);
    CongScale(n0 * m0 + 1, 0, t0, B64);
    CongTrans(u * m0 + t0, t0 * (n0 * m0 + 1), 0, B64);
    CongMod(u * m0 + t0, 0, B64);
  }

  /** The quotient of the reduced round is below 2m, so it needs five limbs, the top one 0 or 1. */
  lemma {:induction false} RoundBound(x: int, u: int, m: int, v: int)
    requires 0 <= x < (B64 + 1) * m && 0 <= u < B64 && m > 0 && B64 * v == x + u * m
    ensures 0 <= v < 2 * m
  {
    MulMono(u, B64 - 1, m);
    MulNonneg(u, m);
  }

  lemma {:induction false} TopLimb(low: seq<int>, x: int)
    requires |low| == 4 && Digits(B64, low) && Val(B64, low + [x]) < 2 * R256
    ensures x < 2
  {
    ValPush(B64, low, x);
    ValBound(B64, low);
    PowerFacts();
    if x >= 2 { MulMono(2, x, R256); }
  }

  /** t = (t + u * m) / 2^64 with the u that makes the division exact. */
  method CiosReduceRow(t: array<u64>, m: array<u64>, n0inv: u64) returns (ghost u: int)
    requires t.Length == 6 && m.Length == 4 && t != m
    requires (n0inv * m[0] + 1) % B64 == 0 && Int(m) > 0
    requires Val(B64, t[..]) < (B64 + 1) * Int(m)
    modifies t
    ensures 0 <= u < B64 && t[5] == 0 && t[4] <= 1
    ensures B64 * Val(B64, t[..5]) == old(Val(B64, t[..])) + u * Int(m)
    ensures Val(B64, t[..5]) < 2 * Int(m)
  {
    hide Val, Pow, RowDone;
    ghost var W: seq<int>, M: seq<int> := t[..], m[..4];
    var uu: u64 := (t[0] * n0inv) % B64;
    u := uu;
    LowLimbVanishes(t[0], n0inv, m[0]);
    RowStarts(u, M, W, 0);
    assert W[..0] == [];
    var lo, c := MulAddColumn(0, uu, m[0], t[0]);
    assert lo == 0 by { ModShift(lo, c, B64); ModSmall(lo, B64); }
    RowStep([], 0, u, M, W, 0, 0, 0, c);
    assert [] + [0] == [0] + t[..0];
    var j := 1;
    while j < 4
      invariant 1 <= j <= 4
      invariant (forall k :: j <= k < 6 ==> t[k] == W[k]) && m[..4] == M
      invariant RowDone(Val(B64, [0] + t[..j - 1]), c, u, M, W, 0, j)
    {
      ghost var low := [0] + t[..j - 1];
      var lo, hi := MulAddColumn(c, uu, m[j], t[j]);
      RowStep(low, c, u, M, W, 0, j, lo, hi);
      t[j - 1] := lo;
      c := hi;
      j := j + 1;
      assert [0] + t[..j - 1] == low + [lo];
    }
    ghost var low := t[..3];
    var s: u128 := (c as int) + t[4];
    ReduceRowEnds(low, c, u, M, W, s % B64, s / B64);
    t[3] := s % B64;
    ghost var top := W[5] + s / B64;
    assert t[..4] + [top] == low + [s % B64, top];
    ValBound(B64, W);
    RoundBound(Val(B64, W), u, Val(B64, M), Val(B64, t[..4] + [top]));
    TopLimb(t[..4], top);
    t[4] := t[5] + s / B64;
    t[5] := 0;
    assert t[..5] == t[..4] + [top];
  }

  // ---- the product ----

  /** One round keeps the accumulator congruent to the partial product, scaled. */
  lemma {:induction false} RoundCongruence(t: int, t': int, a: seq<int>, i: nat, b: int, u: int, m: int)
    requires i < |a| && m > 0
    requires Cong(t * Pow(B64, i), Val(B64, a[..i]) * b, m)
    requires B64 * t' == t + a[i] * b + u * m
    ensures Cong(t' * Pow(B64, i + 1), Val(B64, a[..i + 1]) * b, m)
  {
    var p, x := Pow(B64, i), a[i] * b;
    RoundScale(t, t', x, u, m, p);
    CongIntro(t' * (B64 * p), t * p + x * p, u * p, m);
    CongShift(t * p, Val(B64, a[..i]) * b, x * p, m);
    ProductRow(B64, a, i, b);
    CongTrans(t' * (B64 * p), t * p + x * p, Val(B64, a[..i]) * b + x * p, m);
  }

  lemma {:induction false} RoundScale(t: int, t': int, x: int, u: int, m: int, p: int)
    requires B64 * t' == t + x + u * m
    ensures t' * (B64 * p) == t * p + x * p + (u * p) * m
  {
    MulAssoc(u, m, p);
    MulAssoc(u, p, m);
    assert (t + x + u * m) * p == t * p + x * p + (u * m) * p;
    assert t' * (B64 * p) == (B64 * t') * p;
  }

  lemma {:induction false} RowBound(t: int, ai: int, b: int, m: int)
    requires 0 <= t < 2 * m && 0 <= ai < B64 && 0 <= b < m
    ensures 0 <= t + ai * b < (B64 + 1) * m
  {
    MulMono2(ai, b, B64 - 1, m);
  }

  /** r = t mod m for t < 2m held in five limbs. */
  method MontFinalize(r: array<u64>, t: array<u64>, m: array<u64>)
    requires r.Length == 4 && t.Length == 6 && m.Length == 4 && r != t && r != m
    requires Int(m) > 0 && Val(B64, t[..5]) < 2 * Int(m)
    modifies r
    ensures Int(r) == Val(B64, t[..5]) % Int(m)
  {
    hide Val, Pow;
    ghost var v, M := Val(B64, t[..5]), Int(m);
    ValBound(B64, t[..5]);
    ValPush(B64, t[..4], t[4]);
    assert t[..4] + [t[4]] == t[..5];
    PowerFacts();
    AddOnce2(v, M);
    var ge := FeGe(t, m);
    var sub := t[4] != 0 || ge;
    FpSet(r, t);
    assert r[..4] == t[..4];
    if sub { FeSubRaw(r, r, m); }
  }

  lemma {:induction false} AddOnce2(v: int, m: int)
    requires 0 <= v < 2 * m
    ensures v % m == if v >= m then v - m else v
  {
    if v >= m { DivModUnique(v, m, 1, v - m); } else { ModSmall(v, m); }
  }

  /** r is below m and r * 2^256 is congruent to a * b; the accumulator is below 2m
      after each of the four rounds. Only b needs to be reduced; r may be a or b. */
  method MontMul(r: array<u64>, a: array<u64>, b: array<u64>, ctx: Mont)
    requires ValidMont(ctx) && r.Length == 4 && a.Length == 4 && b.Length == 4
    requires r != ctx.m && Int(b) < Int(ctx.m)
    modifies r
    ensures Int(r) < old(Int(ctx.m))
    ensures Cong(Int(r) * R256, old(Int(a) * Int(b)), old(Int(ctx.m)))
  {
    hide Val, Pow, Cong;
    ghost var A: seq<int>, n, M := a[..4], Int(b), Int(ctx.m);
    var t := new u64[6](_ => 0);
    ValZero(B64, t[..5]);
    RoundsStart(A, n, M);
    var i := 0;
    while i < 4
      invariant 0 <= i <= 4 && fresh(t)
      invariant a[..4] == A && Int(b) == n && ctx.m[..] == old(ctx.m[..])
      invariant 0 <= Val(B64, t[..5]) < 2 * M
      invariant Cong(Val(B64, t[..5]) * Pow(B64, i), Val(B64, A[..i]) * n, M)
    {
      ghost var v := Val(B64, t[..5]);
      RowBound(v, a[i], n, M);
      CiosMulRow(t, a[i], b);
      ghost var u := CiosReduceRow(t, ctx.m, ctx.n0inv);
      RoundCongruence(v, Val(B64, t[..5]), A, i, n, u, M);
      ValBound(B64, t[..5]);
      i := i + 1;
    }
    assert A[..4] == A;
    PowerFacts();
    ghost var v := Val(B64, t[..5]);
    MontFinalize(r, t, ctx.m);
    CongRemainder(v, M);
    CongScale(v % M, v, R256, M);
    CongTrans((v % M) * R256, v * R256, Val(B64, A) * n, M);
    DivMod(v, M);
  }

  lemma {:induction false} RoundsStart(a: seq<int>, n: int, m: int)
    requires m > 0
    ensures Cong(0 * Pow(B64, 0), Val(B64, a[..0]) * n, m)
  {
    CongSelf(0, m);
  }

  // ---- 2^256 is invertible modulo m ----

  ghost function RInverse(m: int, n0: int): int
  {
    Pow((n0 * m + 1) / B64, 4)
  }

  lemma {:induction false} RInverseIsInverse(ctx: Mont)
    requires ValidMont(ctx)
    ensures Cong(R256 * RInverse(Int(ctx.m), ctx.n0inv), 1, Int(ctx.m))
  {
    hide Cong, Val, Pow;
    var m, n0 := Int(ctx.m), ctx.n0inv;
    LowLimbDivides(ctx.m[..4], n0);
    PowerOfInverse(m, n0, (n0 * m + 1) / B64);
  }

  /** What makes the low limb vanish makes the whole number divisible by 2^64. */
  lemma {:induction false} LowLimbDivides(s: seq<int>, n0: int)
    requires |s| == 4 && (n0 * s[0] + 1) % B64 == 0
    ensures (n0 * Val(B64, s) + 1) % B64 == 0
  {
    hide Val;
    assert s == [s[0]] + s[1..];
    ValCons(B64, s[0], s[1..]);
    var h := Val(B64, s[1..]);
    assert n0 * (s[0] + B64 * h) + 1 == n0 * s[0] + 1 + (n0 * h) * B64;
    ModShift(n0 * s[0] + 1, n0 * h, B64);
  }

  lemma {:induction false} PowerOfInverse(m: int, n0: int, q: int)
    requires m > 0 && n0 * m + 1 == B64 * q
    ensures Cong(R256 * Pow(q, 4), 1, m)
  {
    hide Cong;
    CongIntro(B64 * q, 1, n0, m);
    CongPow(B64 * q, 1, 4, m);
    PowMulBase(B64, q, 4);
    PowerFacts();
    OnePow(4);
  }

  lemma {:induction false} OnePow(e: nat)
    ensures Pow(1, e) == 1
  {
    if e > 0 { OnePow(e - 1); }
  }

  /** A factor with an inverse cancels from a congruence. */
  lemma {:induction false} CancelFactor(x: int, y: int, R: int, ri: int, m: int)
    requires m > 0 && Cong(R * ri, 1, m) && Cong(x * R, y * R, m)
    ensures Cong(x, y, m)
  {
    hide Cong;
    CongSelf(x, m);
    CongSelf(y, m);
    CongSelf(ri, m);
    CongMul(x, x, R * ri, 1, m);
    CongMul(y, y, R * ri, 1, m);
    CongMul(x * R, y * R, ri, ri, m);
    MulAssoc(x, R, ri);
    MulAssoc(y, R, ri);
    CongSwap(x * (R * ri), x, m);
    CongTrans(x, x * (R * ri), y * (R * ri), m);
    CongTrans(x, y * (R * ri), y, m);
  }

  // ---- the shipped contexts ----

  method Limbs4(l0: u64, l1: u64, l2: u64, l3: u64) returns (a: array<u64>)
    ensures fresh(a) && a.Length == 4 && a[0] == l0
    ensures Int(a) == l0 + l1 * B64 + l2 * B128 + l3 * 0x1_0000000000000000_0000000000000000_0000000000000000
  {
    a := new u64[4] [l0, l1, l2, l3];
    Val4(a[..4]);
  }

  lemma {:induction false} ResidueOf(x: int, m: int, q: int, r: int)
    requires x == q * m + r && 0 <= r < m
    ensures Residue(r, x, m)
  {
    CongIntro(x, r, q, m);
    CongSwap(x, r, m);
  }

  /** The constants shipped for the field prime p form a valid context. */
  method MontP() returns (ctx: Mont)
    ensures ValidMont(ctx) && Int(ctx.m) == P256 && fresh(ctx.m)
  {
    hide Int, Residue;
    var m := Limbs4(0xffffffffffffffff, 0x00000000ffffffff, 0x0000000000000000, 0xffffffff00000001);
    var rr := Limbs4(0x0000000000000003, 0xfffffffbffffffff, 0xfffffffffffffffe, 0x00000004fffffffd);
    var one := Limbs4(0x0000000000000001, 0xffffffff00000000, 0xffffffffffffffff, 0x00000000fffffffe);
    ResidueOf(R256 * R256, P256, 0x100000000fffffffffffffffefffffffefffffffeffffffff0000000000000003,
              0x4fffffffdfffffffffffffffefffffffbffffffff0000000000000003);
    ResidueOf(R256, P256, 1, 0xfffffffeffffffffffffffffffffffff000000000000000000000001);
    ctx := Mont(m, rr, one, 0x0000000000000001);
  }

  /** The constants shipped for the group order n form a valid context. */
  method MontN() returns (ctx: Mont)
    ensures ValidMont(ctx) && Int(ctx.m) == P256_N && fresh(ctx.m)
  {
    hide Int, Residue;
    var m := Limbs4(0xf3b9cac2fc632551, 0xbce6faada7179e84, 0xffffffffffffffff, 0xffffffff00000000);
    var rr := Limbs4(0x83244c95be79eea2, 0x4699799c49bd6fa6, 0x2845b2392b6bec59, 0x66e12d94f3d95620);
    var one := Limbs4(0x0c46353d039cdaaf, 0x4319055258e8617b, 0x0000000000000000, 0x00000000ffffffff);
    ResidueOf(R256 * R256, P256_N, 0x100000000fffffffffffffffeffffffff43190552df1a6c21012ffd85eedf9bfe,
              0x66e12d94f3d956202845b2392b6bec594699799c49bd6fa683244c95be79eea2);
    ResidueOf(R256, P256_N, 1, 0xffffffff00000000000000004319055258e8617b0c46353d039cdaaf);
    ctx := Mont(m, rr, one, 0xccd1c8aaee00bc4f);
  }
}
