/** The three Fermat inversions: square-and-multiply over the long-division
    product, over the Solinas product and in Montgomery form. */
module P256Inverse {
  import opened Arith
  import opened Limbs
  import opened P256Field
  import opened P256LongDivision
  import opened P256Solinas
  import opened P256Montgomery

  /** e = m - 2. */
  method ExponentOf(m: array<u64>) returns (e: array<u64>)
    requires m.Length == 4 && Int(m) >= 2
    ensures fresh(e) && e.Length == 4 && Int(e) == Int(m) - 2
  {
    e := new u64[4];
    var two := Limbs4(2, 0, 0, 0);
    FeSubRaw(e, m, two);
  }

  method SetOne(r: array<u64>)
    requires r.Length == 4
    modifies r
    ensures Int(r) == 1
  {
    r[0] := 1;
    r[1], r[2], r[3] := 0, 0, 0;
    Val4(r[..4]);
  }

  /** After `bit` rounds acc and base are congruent to a^(e mod 2^bit) and a^(2^bit). */
  ghost predicate PowProgress(acc: int, base: int, a: int, e: int, bit: nat, m: int)
    requires m > 0 && e >= 0
  {
    PowPos(2, bit);
    Cong(acc, Pow(a, e % Pow(2, bit)), m) && Cong(base, Pow(a, Pow(2, bit)), m)
  }

  lemma {:induction false} PowStart(acc: int, base: int, a: int, e: int, m: int)
    requires m > 0 && e >= 0 && Cong(acc, 1, m) && Cong(base, a, m)
    ensures PowProgress(acc, base, a, e, 0, m)
  {
    assert Pow(2, 0) == 1 && Pow(a, 0) == 1 && Pow(a, 1) == a * Pow(a, 0);
  }

  lemma {:induction false} PowRound(acc: int, base: int, acc': int, base': int, a: int, e: int, bit: nat, m: int)
    requires m > 0 && e >= 0 && PowProgress(acc, base, a, e, bit, m)
    requires if Bit(e, bit) == 1 then Cong(acc', acc * base, m) else Cong(acc', acc, m)
    requires Cong(base', base * base, m)
    ensures PowProgress(acc', base', a, e, bit + 1, m)
  {
    hide Cong;
    PowBit(a, e, bit);
    var x, y := Pow(a, e % Pow(2, bit)), Pow(a, Pow(2, bit));
    CongMul(acc, x, base, y, m);
    CongMul(base, y, base, y, m);
    CongTrans(base', base * base, y * y, m);
    if Bit(e, bit) == 1 {
      CongTrans(acc', acc * base, x * y, m);
    } else {
      CongTrans(acc', acc, x, m);
    }
  }

  lemma {:induction false} PowFinish(acc: int, base: int, a: int, e: int, bit: nat, m: int)
    requires 0 <= e < R256 && m > 0 && bit == 256 && PowProgress(acc, base, a, e, bit, m)
    ensures Cong(acc, Pow(a, e), m)
  {
    PowerFacts();
    PowPow(2, 64, 4);
    ModSmall(e, Pow(2, bit));
  }

  lemma {:induction false} CongOfMod(x: int, y: int, m: int)
    requires m > 0 && x == y % m
    ensures Cong(x, y, m)
  {
    CongRemainder(y, m);
  }

  /** r = a^(m-2) mod m over the generic reducer, for a below m. */
  method FpInv(r: array<u64>, a: array<u64>, m: array<u64>)
    requires r.Length == 4 && a.Length == 4 && m.Length == 4 && r != m
    requires Int(m) >= 2 && Int(a) < Int(m)
    modifies r
    ensures Int(r) == Pow(old(Int(a)), Int(m) - 2) % Int(m)
  {
    hide Val, Pow, PowProgress, LongDivRem;
    ghost var M, x := Int(m), Int(a);
    var e := ExponentOf(m);
    ghost var E := Int(e);
    var base := new u64[4];
    FpSet(base, a);
    assert base[..4] == base[..];
    SetOne(r);
    CongSelf(1, M);
    CongSelf(x, M);
    PowStart(1, x, x, E, M);
    var bit := 0;
    while bit < 256
      invariant 0 <= bit <= 256 && fresh(base) && fresh(e) && base != e
      invariant m[..] == old(m[..]) && Int(e) == E
      invariant Int(r) < M && Int(base) < M
      invariant PowProgress(Int(r), Int(base), x, E, bit, M)
    {
      ghost var acc, bs := Int(r), Int(base);
      assert e[..4] == e[..];
      LimbBitIsBit(e[..], bit);
      if LimbBit(e[..], bit) == 1 {
        OneOperandBelow(Int(r), Int(base), M);
        FpMul(r, r, base, m);
        DivMod(acc * bs, M);
        CongOfMod(Int(r), acc * bs, M);
      } else {
        CongSelf(acc, M);
      }
      OneOperandBelow(bs, bs, M);
      FpMul(base, base, base, m);
      DivMod(bs * bs, M);
      CongOfMod(Int(base), bs * bs, M);
      PowRound(acc, bs, Int(r), Int(base), x, E, bit, M);
      bit := bit + 1;
    }
    PowFinish(Int(r), Int(base), x, E, bit, M);
    CongReduced(Int(r), Pow(x, E), M);
  }

  /** r = a^(p-2) mod p over the Solinas product, for any 256-bit a. */
  method FpInvP(r: array<u64>, a: array<u64>, p: array<u64>)
    requires r.Length == 4 && a.Length == 4 && p.Length == 4 && r != p && Int(p) == P256
    modifies r
    ensures Int(r) == Pow(old(Int(a)), P256 - 2) % P256
  {
    hide Val, Pow, PowProgress;
    ghost var x := Int(a);
    var e := ExponentOf(p);
    ghost var E := Int(e);
    var base := new u64[4];
    FpSet(base, a);
    assert base[..4] == base[..];
    SetOne(r);
    CongSelf(1, P256);
    CongSelf(x, P256);
    PowStart(1, x, x, E, P256);
    var bit := 0;
    while bit < 256
      invariant 0 <= bit <= 256 && fresh(base) && fresh(e) && base != e
      invariant p[..] == old(p[..]) && Int(e) == E
      invariant Int(r) < P256
      invariant PowProgress(Int(r), Int(base), x, E, bit, P256)
    {
      ghost var acc, bs := Int(r), Int(base);
      assert e[..4] == e[..];
      LimbBitIsBit(e[..], bit);
      if LimbBit(e[..], bit) == 1 {
        FpMulP(r, r, base, p);
        CongOfMod(Int(r), acc * bs, P256);
      } else {
        CongSelf(acc, P256);
      }
      FpMulP(base, base, base, p);
      CongOfMod(Int(base), bs * bs, P256);
      PowRound(acc, bs, Int(r), Int(base), x, E, bit, P256);
      bit := bit + 1;
    }
    PowFinish(Int(r), Int(base), x, E, bit, P256);
    CongReduced(Int(r), Pow(x, E), P256);
  }

  // ---- Montgomery form ----

  /** x represents the residue X: it is congruent to X * R. */
  ghost predicate InForm(x: int, X: int, R: int, m: int)
    requires m > 0
  {
    Residue(x, X * R, m)
  }

  /** The product of two forms, divided by R once, is the form of the product. */
  lemma {:induction false} FormProduct(x: int, X: int, y: int, Y: int, r: int, R: int, ri: int, m: int)
    requires m > 0 && InForm(x, X, R, m) && InForm(y, Y, R, m) && Cong(R * ri, 1, m)
    requires 0 <= r < m && Cong(r * R, x * y, m)
    ensures InForm(r, X * Y, R, m)
  {
    hide Cong;
    CongMul(x, X * R, y, Y * R, m);
    FourFactors(X, Y, R);
    CongTrans(r * R, x * y, (X * Y * R) * R, m);
    CancelFactor(r, X * Y * R, R, ri, m);
  }

  lemma {:induction false} FourFactors(X: int, Y: int, R: int)
    ensures (X * R) * (Y * R) == (X * Y * R) * R
  {
  }

  /** r = a^(m-2) mod m through Montgomery form and back. */
  method MontInv(r: array<u64>, a: array<u64>, ctx: Mont)
    requires ValidMont(ctx) && r.Length == 4 && a.Length == 4
    requires r != ctx.m && r != ctx.rr && r != ctx.one
    modifies r
    ensures Int(r) == Pow(old(Int(a)), Int(ctx.m) - 2) % Int(ctx.m)
  {
    hide Val, Pow, FormProgress, InForm, Cong;
    ghost var M, x, ri := Int(ctx.m), Int(a), RInverse(Int(ctx.m), ctx.n0inv);
    RInverseIsInverse(ctx);
    var e := ExponentOf(ctx.m);
    ghost var E := Int(e);
    var base, acc := new u64[4], new u64[4];
    MontMul(base, a, ctx.rr, ctx);
    FpSet(acc, ctx.one);
    assert acc[..4] == ctx.one[..4];
    FormStart(Int(acc), Int(base), x, E, Int(ctx.rr), R256, ri, M);
    var bit := 0;
    while bit < 256
      invariant 0 <= bit <= 256 && fresh(base) && fresh(e) && fresh(acc) && base != e && base != acc && acc != e
      invariant ctx.m[..] == old(ctx.m[..]) && ctx.rr[..] == old(ctx.rr[..]) && ctx.one[..] == old(ctx.one[..])
      invariant r[..] == old(r[..]) && Int(e) == E && Int(base) < M
      invariant FormProgress(Int(acc), Int(base), x, E, bit, R256, M)
    {
      ghost var c, bs := Int(acc), Int(base);
      assert e[..4] == e[..];
      LimbBitIsBit(e[..], bit);
      if LimbBit(e[..], bit) == 1 {
        MontMul(acc, acc, base, ctx);
      }
      MontMul(base, base, base, ctx);
      FormRound(c, bs, Int(acc), Int(base), x, E, bit, R256, ri, M);
      bit := bit + 1;
    }
    var one := Limbs4(1, 0, 0, 0);
    MontMul(r, acc, one, ctx);
    FormFinish(Int(acc), Int(base), Int(r), x, E, bit, R256, ri, M);
  }

  ghost predicate FormProgress(acc: int, base: int, a: int, e: int, bit: nat, R: int, m: int)
    requires m > 0 && e >= 0
  {
    PowPos(2, bit);
    InForm(acc, Pow(a, e % Pow(2, bit)), R, m) && InForm(base, Pow(a, Pow(2, bit)), R, m)
  }

  lemma {:induction false} FormStart(acc: int, base: int, a: int, e: int, rr: int, R: int, ri: int, m: int)
    requires m > 0 && e >= 0 && Residue(acc, R, m) && Residue(rr, R * R, m) && Cong(R * ri, 1, m)
    requires 0 <= base < m && Cong(base * R, a * rr, m)
    ensures FormProgress(acc, base, a, e, 0, R, m)
  {
    hide Cong;
    FirstPowers(a);
    CongSelf(a, m);
    CongMul(a, a, rr, R * R, m);
    MulAssoc(a, R, R);
    CongTrans(base * R, a * rr, (a * R) * R, m);
    CancelFactor(base, a * R, R, ri, m);
    assert 1 * R == R;
  }

  lemma {:induction false} FirstPowers(a: int)
    ensures Pow(2, 0) == 1 && Pow(a, 0) == 1 && Pow(a, 1) == a
  {
    assert Pow(a, 1) == a * Pow(a, 0);
  }

  lemma {:induction false} FormRound(acc: int, base: int, acc': int, base': int, a: int, e: int, bit: nat, R: int,
                                     ri: int, m: int)
    requires m > 0 && e >= 0 && FormProgress(acc, base, a, e, bit, R, m) && Cong(R * ri, 1, m)
    requires if Bit(e, bit) == 1
             then 0 <= acc' < m && Cong(acc' * R, acc * base, m)
             else acc' == acc
    requires 0 <= base' < m && Cong(base' * R, base * base, m)
    ensures FormProgress(acc', base', a, e, bit + 1, R, m)
  {
    hide Cong;
    PowBit(a, e, bit);
    var x, y := Pow(a, e % Pow(2, bit)), Pow(a, Pow(2, bit));
    if Bit(e, bit) == 1 { FormProduct(acc, x, base, y, acc', R, ri, m); }
    FormProduct(base, y, base, y, base', R, ri, m);
  }

  lemma {:induction false} FormFinish(acc: int, base: int, r: int, a: int, e: int, bit: nat, R: int, ri: int, m: int)
    requires m > 0 && 0 <= e < R256 && bit == 256 && FormProgress(acc, base, a, e, bit, R, m) && Cong(R * ri, 1, m)
    requires 0 <= r < m && Cong(r * R, acc * 1, m)
    ensures r == Pow(a, e) % m
  {
    hide Cong;
    PowerFacts();
    PowPow(2, 64, 4);
    ModSmall(e, Pow(2, bit));
    CongTrans(r * R, acc, Pow(a, e) * R, m);
    CancelFactor(r, Pow(a, e), R, ri, m);
    CongReduced(r, Pow(a, e), m);
  }
}
