/** GF(2^255 - 19) in five 51-bit limbs with lazy carries
    (src/tls/handshake/core/tls/x25519.c; section 5 of RFC 7748). */
module X25519Field {
  import opened Arith
  import opened Limbs
  import opened Bits
  import opened PseudoMersenne


  const B51: int := 0x8_0000_0000_0000
  const TWO255: int := 0x80000000_00000000_00000000_00000000_00000000_00000000_00000000_00000000
  /** p = 2^255 - 19. */
  const P: int := 0x7fffffff_ffffffff_ffffffff_ffffffff_ffffffff_ffffffff_ffffffff_ffffffed

  lemma {:induction false} FieldPowers()
    ensures Pow(B51, 5) == TWO255 && P == Pow(B51, 5) - 19
  {
    PowAdd(B51, 1, 1);
    PowAdd(B51, 2, 2);
    PowAdd(B51, 4, 1);
  }

  ghost function Fe(h: array<u64>): int
    requires h.Length == 5
    reads h
  {
    Val(B51, h[..])
  }

  /** The bound that multiplication leaves behind. */
  ghost predicate Tight(h: array<u64>)
    reads h
  {
    h.Length == 5 && forall i :: 0 <= i < 5 ==> h[i] < 0x8_0000_0000_2000
  }

  /** The bound that multiplication accepts: one addition or subtraction of tight operands. */
  ghost predicate Loose(h: array<u64>)
    reads h
  {
    h.Length == 5 && forall i :: 0 <= i < 5 ==> h[i] < 0x20_0000_0000_0000
  }

  method FeSet(h: array<u64>, v: u64)
    requires h.Length == 5 && v <= 1
    modifies h
    ensures Tight(h) && Fe(h) == v
  {
    var i := 0;
    while i < 5
      invariant 0 <= i <= 5 && forall k :: 0 <= k < i ==> h[k] == 0
    {
      h[i] := 0;
      i := i + 1;
    }
    h[0] := v;
    assert h[..] == [v] + h[1..];
    ValCons(B51, v, h[1..]);
    ValZero(B51, h[1..]);
  }

  method FeCopy(h: array<u64>, f: array<u64>)
    requires h.Length == 5 && f.Length == 5
    modifies h
    ensures h[..] == old(f[..])
  {
    var i := 0;
    while i < 5
      invariant 0 <= i <= 5 && h[..i] == old(f[..i])
      invariant forall k :: i <= k < 5 ==> f[k] == old(f[k])
    {
      h[i] := f[i];
      i := i + 1;
    }
  }

  // ---- addition and subtraction ----

  method FeAdd(h: array<u64>, f: array<u64>, g: array<u64>)
    requires h.Length == 5 && Tight(f) && Tight(g)
    modifies h
    ensures Loose(h) && Fe(h) == old(Fe(f) + Fe(g))
  {
    hide Val, Pow;
    ghost var x: seq<int>, y: seq<int> := f[..], g[..];
    var i := 0;
    while i < 5
      invariant 0 <= i <= 5
      invariant forall k :: i <= k < 5 ==> f[k] == x[k] && g[k] == y[k]
      invariant forall k :: 0 <= k < i ==> h[k] == x[k] + y[k]
    {
      h[i] := (f[i] as int) + g[i];
      i := i + 1;
    }
    ValLinear(B51, x, y, 1, h[..]);
  }

  /** 2p, limb by limb: large enough to keep every limb difference non-negative. */
  const TWO_P: seq<u64> := [
    0xf_ffff_ffff_ffda, 0xf_ffff_ffff_fffe, 0xf_ffff_ffff_fffe, 0xf_ffff_ffff_fffe, 0xf_ffff_ffff_fffe]

  lemma {:induction false} TwoPValue()
    ensures Val(B51, TWO_P) == 2 * P
  {
    var s: seq<int> := TWO_P;
    assert s[..5] == s && s[..0] == [];
    ValSnoc(B51, s, 0);
    ValSnoc(B51, s, 1);
    ValSnoc(B51, s, 2);
    ValSnoc(B51, s, 3);
    ValSnoc(B51, s, 4);
    PowAdd(B51, 1, 1);
    PowAdd(B51, 2, 1);
    PowAdd(B51, 2, 2);
    assert Pow(B51, 0) == 1 && Pow(B51, 1) == B51;
  }

  method FeSub(h: array<u64>, f: array<u64>, g: array<u64>)
    requires h.Length == 5 && Tight(f) && Tight(g)
    modifies h
    ensures Loose(h) && Fe(h) == old(Fe(f) - Fe(g)) + 2 * P
  {
    hide Val, Pow;
    ghost var x: seq<int>, y: seq<int>, z: seq<int> := f[..], g[..], TWO_P;
    ghost var s := seq(5, k requires 0 <= k < 5 => x[k] + 1 * z[k]);
    var i := 0;
    while i < 5
      invariant 0 <= i <= 5
      invariant forall k :: i <= k < 5 ==> f[k] == x[k] && g[k] == y[k]
      invariant forall k :: 0 <= k < i ==> h[k] == s[k] + (-1) * y[k]
      invariant forall k :: 0 <= k < i ==> h[k] < 0x20_0000_0000_0000
    {
      h[i] := (f[i] as int) + TWO_P[i] - g[i];
      i := i + 1;
    }
    ValLinear(B51, x, z, 1, s);
    ValLinear(B51, s, y, -1, h[..]);
    TwoPValue();
  }

  // ---- multiplication ----

  const LIMB: int := 0x20_0000_0000_0000

  lemma {:induction false} ColumnTerm(t: int, x: int, y: int, n: int)
    requires 0 <= t <= n * (19 * LIMB * LIMB) && 0 <= x < LIMB && 0 <= y <= 19 * LIMB && 0 <= n < 5
    ensures 0 <= t + x * y <= (n + 1) * (19 * LIMB * LIMB) < 0x1_0000_0000_0000_0000_0000_0000_0000_0000
  {
    MulMono2(x, y, LIMB, 19 * LIMB);
  }

  lemma {:induction false} TopTerm(t: int, x: int, y: int, n: int)
    requires 0 <= t <= n * (LIMB * LIMB) && 0 <= x < LIMB && 0 <= y < LIMB && 0 <= n
    ensures 0 <= t + x * y <= (n + 1) * (LIMB * LIMB)
  {
    MulMono2(x, y, LIMB, LIMB);
  }

  /** One column of the product; the terms that cross 2^255 carry a factor 19. */
  method MulCol(f: array<u64>, g: array<u64>, i: nat) returns (t: u128)
    requires Loose(f) && Loose(g) && i < 5
    ensures t == Column(19, f[..], g[..], i, 5)
    ensures t <= 95 * LIMB * LIMB && (i == 4 ==> t <= 5 * LIMB * LIMB)
  {
    t := 0;
    var j := 0;
    while j < 5
      invariant 0 <= j <= 5
      invariant t == Column(19, f[..], g[..], i, j)
      invariant t <= j * (19 * LIMB * LIMB) && (i == 4 ==> t <= j * (LIMB * LIMB))
    {
      var gj: u64 := if i >= j then g[i - j] else g[5 + i - j] * 19;
      ColumnTerm(t, f[j], gj, j);
      if i == 4 { TopTerm(t, f[j], gj, j); }
      assert gj == WrapAt(19, g[..], j, i);
      t := t + f[j] * gj;
      j := j + 1;
    }
  }

  /** Moving 19 c into limb 0 and its overflow into limb 1 adds 19 c to the value. */
  lemma {:induction false} FoldLow(d: seq<int>, c: int)
    requires |d| == 5
    ensures var v := d[0] + c * 19;
      Val(B51, d[1 := d[1] + v / B51][0 := v % B51]) == Val(B51, d) + c * 19
  {
    var v := d[0] + c * 19;
    var e := d[1 := d[1] + v / B51];
    ValUpdate(B51, d, 1, d[1] + v / B51);
    ValUpdate(B51, e, 0, v % B51);
    assert Pow(B51, 0) == 1 && Pow(B51, 1) == B51;
    DivMod(v, B51);
  }

  /** Carry chain over the five column sums, then one fold of the top carry. */
  method FeReduce(h: array<u64>, t: array<u128>)
    requires h.Length == 5 && t.Length == 5
    requires forall i :: 0 <= i < 5 ==> t[i] <= 95 * LIMB * LIMB
    requires t[4] <= 5 * LIMB * LIMB
    modifies h, t
    ensures Tight(h) && Cong(Fe(h), old(Val(B51, t[..])), P)
  {
    hide Val, Pow, Carried;
    ghost var T: seq<int> := t[..];
    var c: u64 := 0;
    var i := 0;
    CarryStart(B51, h[..0], c, T);
    while i < 5
      invariant 0 <= i <= 5 && c <= 0x8000_0000_0000_0000
      invariant i == 5 ==> c <= 0x300_0000_0000_0000
      invariant forall k :: i <= k < 5 ==> t[k] == T[k]
      invariant forall k :: 0 <= k < i ==> h[k] < B51
      invariant Carried(B51, h[..i], c, T, i)
    {
      ghost var low, c0 := h[..i], c;
      t[i] := t[i] + c;
      h[i] := t[i] % B51;
      c := t[i] / B51;
      CarryNext(B51, low, c0, T, i, h[i], c);
      i := i + 1;
      assert h[..i] == low + [h[i - 1]];
    }
    assert h[..5] == h[..];
    CarryEnd(B51, h[..], c, T);
    ghost var d: seq<int> := h[..];
    FoldLow(d, c);
    FieldPowers();
    FoldTop(B51, 19, Val(B51, d), c, 5, Val(B51, T));
    h[0] := h[0] + c * 19;
    h[1] := h[1] + h[0] / B51;
    h[0] := h[0] % B51;
    assert h[..] == d[1 := d[1] + (d[0] + c * 19) / B51][0 := (d[0] + c * 19) % B51];
  }

  /** h = f * g modulo p; h may be f or g. */
  method FeMul(h: array<u64>, f: array<u64>, g: array<u64>)
    requires h.Length == 5 && Loose(f) && Loose(g)
    modifies h
    ensures Tight(h) && Cong(Fe(h), old(Fe(f) * Fe(g)), P)
  {
    hide Val, Pow, Column;
    ghost var F: seq<int>, G: seq<int> := f[..], g[..];
    var t := new u128[5];
    var i := 0;
    while i < 5
      invariant 0 <= i <= 5 && fresh(t) && f[..] == F && g[..] == G && h[..] == old(h[..])
      invariant forall k :: 0 <= k < i ==> t[k] == Column(19, F, G, k, 5)
      invariant forall k :: 0 <= k < i ==> t[k] <= 95 * LIMB * LIMB && (k == 4 ==> t[k] <= 5 * LIMB * LIMB)
    {
      t[i] := MulCol(f, g, i);
      i := i + 1;
    }
    assert t[..] == Columns(19, F, G, 5);
    FieldPowers();
    ProductCongruence(B51, 19, F, G);
    ghost var T: seq<int> := t[..];
    FeReduce(h, t);
    CongTrans(Fe(h), Val(B51, T), Val(B51, F) * Val(B51, G), P);
  }

  /** h = 121666 f modulo p. */
  method FeMul121666(h: array<u64>, f: array<u64>)
    requires h.Length == 5 && Loose(f)
    modifies h
    ensures Tight(h) && Cong(Fe(h), 121666 * old(Fe(f)), P)
  {
    hide Val, Pow;
    ghost var F: seq<int> := f[..];
    var t := new u128[5];
    var i := 0;
    while i < 5
      invariant 0 <= i <= 5 && fresh(t) && f[..] == F && h[..] == old(h[..])
      invariant forall k :: 0 <= k < i ==> t[k] == 0 + 121666 * F[k] && t[k] <= 5 * LIMB * LIMB
    {
      t[i] := (f[i] as int) * 121666;
      i := i + 1;
    }
    ghost var Z := seq(5, _ => 0);
    ValZero(B51, Z);
    ValLinear(B51, Z, F, 121666, t[..]);
    FeReduce(h, t);
  }

  // ---- inversion ----

  /** v is congruent to z^e. */
  ghost predicate IsPow(v: int, z: int, e: nat)
  {
    Cong(v, Pow(z, e), P)
  }

  lemma {:induction false} PowProduct(v: int, w: int, x: int, z: int, e: nat, f: nat)
    requires IsPow(v, z, e) && IsPow(w, z, f) && Cong(x, v * w, P)
    ensures IsPow(x, z, e + f)
  {
    CongMul(v, Pow(z, e), w, Pow(z, f), P);
    PowAdd(z, e, f);
    CongTrans(x, v * w, Pow(z, e) * Pow(z, f), P);
  }

  lemma {:induction false} PowOne(v: int, z: int)
    requires Cong(v, z, P)
    ensures IsPow(v, z, 1)
  {
    assert Pow(z, 1) == z * Pow(z, 0) == z;
  }

  /** The field element h is tight and holds z^e. */
  ghost predicate PowAt(h: array<u64>, z: int, e: nat)
    reads h
  {
    Tight(h) && IsPow(Fe(h), z, e)
  }

  method MulPow(h: array<u64>, f: array<u64>, g: array<u64>, ghost z: int, ghost e1: nat, ghost e2: nat)
    requires h.Length == 5 && PowAt(f, z, e1) && PowAt(g, z, e2)
    modifies h
    ensures PowAt(h, z, e1 + e2)
  {
    hide Val, Pow;
    ghost var v, w := Fe(f), Fe(g);
    FeMul(h, f, g);
    PowProduct(v, w, Fe(h), z, e1, e2);
  }

  /** out = f^(2^n). */
  method SqnPow(out: array<u64>, f: array<u64>, n: nat, ghost z: int, ghost e: nat)
    requires out.Length == 5 && PowAt(f, z, e)
    modifies out
    ensures e * Pow(2, n) >= 0 && PowAt(out, z, e * Pow(2, n))
  {
    hide Val, Pow, IsPow;
    FeCopy(out, f);
    DoublingStart(e);
    var i := 0;
    while i < n
      invariant 0 <= i <= n
      invariant e * Pow(2, i) >= 0 && PowAt(out, z, e * Pow(2, i))
    {
      DoublingStep(e, i);
      MulPow(out, out, out, z, e * Pow(2, i), e * Pow(2, i));
      i := i + 1;
    }
  }

  lemma {:induction false} DoublingStart(e: nat)
    ensures e * Pow(2, 0) == e
  {}

  lemma {:induction false} DoublingStep(e: nat, i: nat)
    ensures e * Pow(2, i + 1) == e * Pow(2, i) + e * Pow(2, i)
  {
    MulAssoc(e, 2, Pow(2, i));
  }

  lemma {:induction false} ChainPowers()
    ensures Pow(2, 2) == 4 && Pow(2, 5) == 32 && Pow(2, 10) == 0x400 && Pow(2, 20) == 0x10_0000
    ensures Pow(2, 50) == 0x4_0000_0000_0000 && Pow(2, 100) == 0x10_0000_0000_0000_0000_0000_0000
  {
    PowAdd(2, 1, 1);
    PowAdd(2, 2, 2);
    PowAdd(2, 4, 1);
    PowAdd(2, 5, 5);
    PowAdd(2, 10, 10);
    PowAdd(2, 20, 20);
    PowAdd(2, 40, 10);
    PowAdd(2, 50, 50);
  }

  lemma {:induction false} StartChain(z: array<u64>)
    requires Tight(z)
    ensures PowAt(z, Fe(z), 1)
  {
    CongSelf(Fe(z), P);
    PowOne(Fe(z), Fe(z));
  }

  /** First links of the chain: t0 = z^11 and t1 = z^(2^5 - 1). */
  method InvertLow(t0: array<u64>, t1: array<u64>, z: array<u64>, ghost x: int)
    requires t0.Length == 5 && t1.Length == 5 && t0 != t1 && t0 != z && t1 != z && PowAt(z, x, 1)
    modifies t0, t1
    ensures PowAt(t0, x, 11) && PowAt(t1, x, 31)
  {
    hide Val, Pow, PowAt;
    ChainPowers();
    var t2 := new u64[5];
    MulPow(t0, z, z, x, 1, 1);
    SqnPow(t1, t0, 2, x, 2);
    MulPow(t1, z, t1, x, 1, 8);
    MulPow(t0, t0, t1, x, 2, 9);
    MulPow(t2, t0, t0, x, 11, 11);
    MulPow(t1, t1, t2, x, 9, 22);
  }

  /** Middle links: from z^(2^5 - 1) to z^(2^50 - 1). */
  method InvertMiddle(t1: array<u64>, ghost x: int)
    requires PowAt(t1, x, 31)
    modifies t1
    ensures PowAt(t1, x, 0x3_ffff_ffff_ffff)
  {
    hide Val, Pow;
    ChainPowers();
    var t2, t3 := new u64[5], new u64[5];
    SqnPow(t2, t1, 5, x, 31);
    MulPow(t1, t2, t1, x, 31 * 32, 31);
    SqnPow(t2, t1, 10, x, 0x3ff);
    MulPow(t2, t2, t1, x, 0x3ff * 0x400, 0x3ff);
    SqnPow(t3, t2, 20, x, 0xf_ffff);
    MulPow(t2, t3, t2, x, 0xf_ffff * 0x10_0000, 0xf_ffff);
    SqnPow(t2, t2, 10, x, 0xff_ffff_ffff);
    MulPow(t1, t2, t1, x, 0xff_ffff_ffff * 0x400, 0x3ff);
  }

  const E50: nat := 0x3_ffff_ffff_ffff
  const E100: nat := 0xf_ffff_ffff_ffff_ffff_ffff_ffff
  const E200: nat := E100 * 0x10_0000_0000_0000_0000_0000_0000 + E100
  const E250: nat := E200 * 0x4_0000_0000_0000 + E50

  method InvertHigh(t1: array<u64>, t2: array<u64>, t3: array<u64>, ghost x: int)
    requires t1.Length == 5 && t2.Length == 5 && t3.Length == 5 && t1 != t2 && t1 != t3 && t2 != t3 && PowAt(t1, x, E50)
    modifies t1, t2, t3
    ensures PowAt(t1, x, E250)
  {
    hide Val, Pow, PowAt, Fe;
    ChainPowers();
    SqnPow(t2, t1, 50, x, E50);
    MulPow(t2, t2, t1, x, E50 * 0x4_0000_0000_0000, E50);
    SqnPow(t3, t2, 100, x, E100);
    MulPow(t2, t3, t2, x, E100 * 0x10_0000_0000_0000_0000_0000_0000, E100);
    SqnPow(t2, t2, 50, x, E200);
    MulPow(t1, t2, t1, x, E200 * 0x4_0000_0000_0000, E50);
  }

  /** out = z^(p - 2) through the addition chain for 2^255 - 21. */
  method FeInvert(out: array<u64>, z: array<u64>)
    requires out.Length == 5 && Tight(z)
    modifies out
    ensures PowAt(out, old(Fe(z)), P - 2)
  {
    hide Val, Pow, PowAt, Fe;
    ghost var x := Fe(z);
    StartChain(z);
    ChainPowers();
    var t0, t1, t2, t3 := new u64[5], new u64[5], new u64[5], new u64[5];
    InvertLow(t0, t1, z, x);
    InvertMiddle(t1, x);
    InvertHigh(t1, t2, t3, x);
    SqnPow(t1, t1, 5, x, E250);
    MulPow(out, t1, t0, x, E250 * 32, 11);
    assert E250 * 32 + 11 == P - 2;
  }

  // ---- conditional swap ----

  /** One limb of the masked swap: x = mask & (f ^ g), then f ^ x and g ^ x. */
  lemma {:induction false} MaskedSwap(f: u64, g: u64, swap: u64)
    requires swap <= 1
    ensures var mask: u64 := (0 - swap) % B64;
      var x := And(mask, Xor(f, g));
      Xor(f, x) == (if swap == 1 then g else f) && Xor(g, x) == (if swap == 1 then f else g)
  {
    hide And, Xor, Pow;
    if swap == 1 {
      TwoTo64();
      XorBound(f, g, 64);
      AndOnes(Xor(f, g), 64);
      ModSmall(Xor(f, g), B64);
      AndCommutes(B64 - 1, Xor(f, g));
      XorCancel(f, g);
    } else {
      AndZero(Xor(f, g));
      XorZero(f);
      XorZero(g);
    }
  }

  /** f and g trade places exactly when swap is 1. */
  method FeCswap(f: array<u64>, g: array<u64>, swap: u64)
    requires f.Length == 5 && g.Length == 5 && f != g && swap <= 1
    modifies f, g
    ensures swap == 1 ==> f[..] == old(g[..]) && g[..] == old(f[..])
    ensures swap == 0 ==> f[..] == old(f[..]) && g[..] == old(g[..])
  {
    hide And, Xor;
    var mask: u64 := (0 - swap) % B64;
    var i := 0;
    while i < 5
      invariant 0 <= i <= 5
      invariant forall k :: i <= k < 5 ==> f[k] == old(f[k]) && g[k] == old(g[k])
      invariant forall k :: 0 <= k < i ==> f[k] == (if swap == 1 then old(g[k]) else old(f[k]))
      invariant forall k :: 0 <= k < i ==> g[k] == (if swap == 1 then old(f[k]) else old(g[k]))
    {
      MaskedSwap(f[i], g[i], swap);
      var x := And(mask, Xor(f[i], g[i]));
      f[i] := Xor(f[i], x);
      g[i] := Xor(g[i], x);
      i := i + 1;
    }
  }
}
