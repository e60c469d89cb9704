/** Byte-wise scalar arithmetic modulo the Ed25519 group order L
    (src/crypto/asymmetric/ecc/ed25519/ed25519_sign.c; section 5.1.6 of RFC 8032). */
module Ed25519Scalar {
  import opened Arith
  import opened Limbs

  /** L = 2^252 + 27742317777372353535851937790883648493. */
  const L: int := 0x10000000_00000000_00000000_00000000_14def9de_a2f79cd6_5812631a_5cf5d3ed

  /** L as 32 little-endian bytes, in rows of eight. */
  const ORDER_L: seq<byte> := L0 + L1 + L2 + L3
  const L0: seq<byte> := [0xed, 0xd3, 0xf5, 0x5c, 0x1a, 0x63, 0x12, 0x58]
  const L1: seq<byte> := [0xd6, 0x9c, 0xf7, 0xa2, 0xde, 0xf9, 0xde, 0x14]
  const L2: seq<byte> := [0x00, 0x00, 0x00, 0x00, 0x00, 0x00, 0x00, 0x00]
  const L3: seq<byte> := [0x00, 0x00, 0x00, 0x00, 0x00, 0x00, 0x00, 0x10]

  ghost function Sc(r: array<byte>): (v: int)
    reads r
    ensures 0 <= v < Pow(0x100, r.Length)
  {
    ValBound(0x100, r[..]);
    Val(0x100, r[..])
  }

  lemma {:induction false} ScalarPowers()
    ensures Pow(0x100, 8) == B64
    ensures Pow(0x100, 32) == 0x1_0000000000000000_0000000000000000_0000000000000000_0000000000000000
    ensures Pow(0x100, 64) == Pow(0x100, 32) * Pow(0x100, 32)
  {
    TwoTo64();
    PowPow(2, 8, 8);
    PowAdd(0x100, 8, 8);
    PowAdd(0x100, 16, 16);
    PowAdd(0x100, 32, 32);
  }

  lemma {:induction false} TwoTo252()
    ensures L == Pow(2, 252) + 27742317777372353535851937790883648493
  {
    hide Pow;
    TwoTo64();
    PowAdd(2, 64, 64);
    PowAdd(2, 128, 64);
    PowAdd(2, 192, 60);
    PowAdd(2, 60, 4);
    Sixteen();
  }

  lemma {:induction false} Sixteen()
    ensures Pow(2, 4) == 16
  {
    PowAdd(2, 2, 2);
  }

  /** The byte table spells out L. */
  lemma {:induction false} OrderValue()
    ensures Val(0x100, ORDER_L) == L && L == Pow(2, 252) + 27742317777372353535851937790883648493
  {
    TwoTo252();
    ScalarPowers();
    ValAppend(0x100, L0 + L1 + L2, L3);
    ValAppend(0x100, L0 + L1, L2);
    ValAppend(0x100, L0, L1);
    PowAdd(0x100, 8, 8);
    PowAdd(0x100, 16, 8);
    Eight(L0);
    Eight(L1);
    Eight(L2);
    Eight(L3);
  }

  method ScGe(a: array<byte>) returns (ge: bool)
    requires a.Length == 32
    ensures ge <==> Sc(a) >= L
  {
    hide Val, Pow;
    OrderValue();
    var i := 32;
    while i > 0
      invariant 0 <= i <= 32 && a[i..] == ORDER_L[i..]
    {
      i := i - 1;
      if a[i] != ORDER_L[i] {
        assert a[..][i + 1..] == a[i + 1..];
        if a[i] < ORDER_L[i] {
          ValTopDiffers(0x100, a[..], ORDER_L, i);
        } else {
          ValTopDiffers(0x100, ORDER_L, a[..], i);
        }
        return a[i] > ORDER_L[i];
      }
      assert a[i..] == [a[i]] + a[i + 1..] && ORDER_L[i..] == [ORDER_L[i]] + ORDER_L[i + 1..];
    }
    assert a[0..] == a[..] && ORDER_L[0..] == ORDER_L;
    return true;
  }

  /** r -= L, for r >= L. */
  method ScSubL(r: array<byte>)
    requires r.Length == 32 && Sc(r) >= L
    modifies r
    ensures Sc(r) == old(Sc(r)) - L
  {
    hide Val, Pow, DiffDone;
    ghost var x: seq<int>, y: seq<int> := r[..], ORDER_L;
    OrderValue();
    var borrow := 0;
    var i := 0;
    DiffStart(0x100, r[..0], borrow, x, y);
    while i < 32
      invariant 0 <= i <= 32 && 0 <= borrow <= 1
      invariant forall k :: i <= k < 32 ==> r[k] == x[k]
      invariant DiffDone(0x100, r[..i], borrow, x, y, i)
    {
      ghost var low, br := r[..i], borrow;
      var v: int := r[i] as int - ORDER_L[i] - borrow;
      borrow := if v < 0 then 1 else 0;
      r[i] := v + borrow * 0x100;
      DiffStep(0x100, low, br, x, y, i, r[i], borrow);
      i := i + 1;
      assert r[..i] == low + [r[i - 1]];
    }
    assert r[..32] == r[..];
    DiffEnd(0x100, r[..], borrow, x, y);
  }

  lemma {:induction false} ShiftStart(b: int, s: seq<int>, bit: int)
    ensures Val(b, s[..0]) + bit * Pow(b, 0) == 2 * Val(b, s[..0]) + bit
  {}

  lemma {:induction false} ShiftStep(b: int, low: seq<int>, c: int, x: seq<int>, bit: int, i: nat, d: int, c': int)
    requires i < |x| && |low| == i && Val(b, low) + c * Pow(b, i) == 2 * Val(b, x[..i]) + bit
    requires d + c' * b == 2 * x[i] + c
    ensures Val(b, low + [d]) + c' * Pow(b, i + 1) == 2 * Val(b, x[..i + 1]) + bit
  {
    ValPush(b, low, d);
    ValSnoc(b, x, i);
    Scale3(d, c', b, c, x[i], x[i], Pow(b, i));
  }

  /** r = 2r + bit, returning the bit shifted out past 256 bits. */
  method ScShl1(r: array<byte>, bit: int) returns (carry: int)
    requires r.Length == 32 && 0 <= bit <= 1
    modifies r
    ensures 0 <= carry <= 1 && Sc(r) + carry * Pow(0x100, 32) == 2 * old(Sc(r)) + bit
  {
    hide Val, Pow;
    ghost var x: seq<int> := r[..];
    carry := bit;
    var i := 0;
    ShiftStart(0x100, r[..], bit);
    assert x[..0] == r[..][..0] == r[..0];
    while i < 32
      invariant 0 <= i <= 32 && 0 <= carry <= 1
      invariant forall k :: i <= k < 32 ==> r[k] == x[k]
      invariant Val(0x100, r[..i]) + carry * Pow(0x100, i) == 2 * Val(0x100, x[..i]) + bit
    {
      ghost var low, c := r[..i], carry;
      // The shifted byte is even, so ORing in the carry is an addition.
      var v: int := r[i] as int * 2 + carry;
      r[i] := v % 0x100;
      carry := v / 0x100;
      ShiftStep(0x100, low, c, x, bit, i, r[i], carry);
      i := i + 1;
      assert r[..i] == low + [r[i - 1]];
    }
    assert r[..32] == r[..] && x[..32] == x;
  }

  lemma {:induction false} ReducedOnce(v: int)
    requires 0 <= v < 2 * L
    ensures v % L == if v >= L then v - L else v
  {
    if v >= L { DivModUnique(v, L, 1, v - L); } else { ModSmall(v, L); }
  }

  /** r = (2r + bit) mod L for a residue r; 2L is below 2^256, so nothing is shifted out. */
  method ScDblAddBit(r: array<byte>, bit: int)
    requires r.Length == 32 && 0 <= bit <= 1 && Sc(r) < L
    modifies r
    ensures Sc(r) == (2 * old(Sc(r)) + bit) % L
  {
    hide Val, Pow;
    ScalarPowers();
    ReducedOnce(2 * Sc(r) + bit);
    var overflow := ScShl1(r, bit);
    var ge := ScGe(r);
    if overflow != 0 || ge { ScSubL(r); }
  }

  // ---- reduction of 512 bits ----

  lemma {:induction false} HornerStep(x: int, i: nat)
    requires i > 0
    ensures Pow(2, i) > 0 && Pow(2, i - 1) > 0
    ensures (2 * ((x / Pow(2, i)) % L) + Bit(x, i - 1)) % L == (x / Pow(2, i - 1)) % L
  {
    QuotientStep(x, i - 1);
    var q := x / Pow(2, i);
    CongRemainder(q, L);
    CongScale(q % L, q, 2, L);
    CongShift(2 * (q % L), 2 * q, Bit(x, i - 1), L);
    CongMod(2 * (q % L) + Bit(x, i - 1), 2 * q + Bit(x, i - 1), L);
  }

  lemma {:induction false} HornerStart(x: int, n: nat)
    requires 0 <= x < Pow(0x100, 64) && n == 512
    ensures Pow(2, n) > 0 && (x / Pow(2, n)) % L == 0
  {
    TwoTo64();
    PowPow(2, 8, 64);
    HighBitsZero(x, 512, n);
  }

  /** out = in mod L, one bit at a time from the top; the remainder stays below L. */
  method ScReduce64(out: array<byte>, src: array<byte>)
    requires out.Length == 32 && src.Length == 64 && out != src
    modifies out
    ensures Sc(out) == Sc(src) % L
  {
    hide Val, Pow, Bit;
    ghost var x := Sc(src);
    var k := 0;
    while k < 32
      invariant 0 <= k <= 32 && src[..] == old(src[..]) && forall j :: 0 <= j < k ==> out[j] == 0
    {
      out[k] := 0;
      k := k + 1;
    }
    ValZero(0x100, out[..]);
    var i := 512;
    HornerStart(x, i);
    while i > 0
      invariant 0 <= i <= 512 && src[..] == old(src[..]) && Pow(2, i) > 0
      invariant Sc(out) == (x / Pow(2, i)) % L
    {
      ByteBit(src[..], i - 1);
      HornerStep(x, i);
      i := i - 1;
      ScDblAddBit(out, (src[i / 8] / Pow(2, i % 8)) % 2);
    }
    ScanFinished(x);
  }

  lemma {:induction false} ScanFinished(x: int)
    ensures Pow(2, 0) > 0 && x / Pow(2, 0) == x
  {}

  // ---- product ----

  const COL: int := 65025  // 255 * 255

  lemma {:induction false} ColumnGrows(t: int, x: int, y: int, i: nat)
    requires i < 32 && 0 <= t <= i * COL && 0 <= x < 0x100 && 0 <= y < 0x100
    ensures 0 <= t + x * y <= (i + 1) * COL < B64
  {
    MulMono2(x, y, 255, 255);
  }

  lemma {:induction false} RowColumn(t: seq<int>, a: int, b: seq<int>, i: nat, j: nat, base: int)
    requires i + j < |t| && j < |b|
    requires Val(0x100, t) == base + a * Val(0x100, b[..j]) * Pow(0x100, i)
    ensures Val(0x100, t[i + j := t[i + j] + a * b[j]]) == base + a * Val(0x100, b[..j + 1]) * Pow(0x100, i)
  {
    ValUpdate(0x100, t, i + j, t[i + j] + a * b[j]);
    ValSnoc(0x100, b, j);
    PowAdd(0x100, i, j);
    RowTerm(a, Val(0x100, b[..j]), b[j], Pow(0x100, j), Pow(0x100, i));
  }

  /** Accumulates a[i] * b into the columns from i upwards; no column overflows. */
  method ScMulRow(t: array<u64>, a: array<byte>, b: array<byte>, i: nat)
    requires t.Length == 64 && a.Length == 32 && b.Length == 32 && i < 32
    requires forall k :: 0 <= k < 64 ==> t[k] <= i * COL
    modifies t
    ensures forall k :: 0 <= k < 64 ==> t[k] <= (i + 1) * COL
    ensures Val(0x100, t[..]) == old(Val(0x100, t[..])) + a[i] * Sc(b) * Pow(0x100, i)
  {
    hide Val, Pow;
    ghost var base, B: seq<int> := Val(0x100, t[..]), b[..];
    ValZero(0x100, B[..0]);
    var j := 0;
    while j < 32
      invariant 0 <= j <= 32
      invariant forall k :: 0 <= k < 64 ==> t[k] <= if i <= k < i + j then (i + 1) * COL else i * COL
      invariant Val(0x100, t[..]) == base + a[i] * Val(0x100, B[..j]) * Pow(0x100, i)
    {
      ghost var before := t[..];
      ColumnGrows(t[i + j], a[i], b[j], i);
      RowColumn(before, a[i], B, i, j, base);
      t[i + j] := t[i + j] + (a[i] as int) * b[j];
      assert t[..] == before[i + j := t[i + j]];
      j := j + 1;
    }
    assert B[..32] == B;
  }

  lemma {:induction false} CarryDone(low: seq<int>, c: int, t: seq<int>)
    requires |t| == 64 && Carried(0x100, low, c, t, 64) && Digits(0x100, low) && c >= 0
    requires Val(0x100, t) < Pow(0x100, 64)
    ensures c == 0 && Val(0x100, low) == Val(0x100, t)
  {
    assert t[..64] == t;
    ValBound(0x100, low);
    PowPos(0x100, 64);
    if c > 0 { MulMono(1, c, Pow(0x100, 64)); }
  }

  /** out = a * b over all 512 bits. */
  method ScMul512(out: array<byte>, a: array<byte>, b: array<byte>)
    requires out.Length == 64 && a.Length == 32 && b.Length == 32
    modifies out
    ensures Sc(out) == old(Sc(a) * Sc(b))
  {
    hide Val, Pow, Carried;
    ghost var A: seq<int>, n := a[..], Sc(b);
    var t := new u64[64](_ => 0);
    ValZero(0x100, t[..]);
    ValZero(0x100, A[..0]);
    var i := 0;
    while i < 32
      invariant 0 <= i <= 32 && fresh(t) && a[..] == A && b[..] == old(b[..]) && out[..] == old(out[..])
      invariant forall k :: 0 <= k < 64 ==> t[k] <= i * COL
      invariant Val(0x100, t[..]) == Val(0x100, A[..i]) * n
    {
      ProductRow(0x100, A, i, n);
      ScMulRow(t, a, b, i);
      i := i + 1;
    }
    assert A[..32] == A;
    ScalarPowers();
    MulMono2(Sc(a), n, Pow(0x100, 32) - 1, Pow(0x100, 32) - 1);
    ghost var T: seq<int> := t[..];
    var c: u64 := 0;
    i := 0;
    CarryStart(0x100, out[..0], c, T);
    while i < 64
      invariant 0 <= i <= 64 && fresh(t) && c <= 32 * COL
      invariant forall k :: i <= k < 64 ==> t[k] == T[k] && t[k] <= 32 * COL
      invariant Carried(0x100, out[..i], c, T, i)
    {
      ghost var low, c0 := out[..i], c;
      t[i] := t[i] + c;
      out[i] := t[i] % 0x100;
      c := t[i] / 0x100;
      CarryNext(0x100, low, c0, T, i, out[i], c);
      i := i + 1;
      assert out[..i] == low + [out[i - 1]];
    }
    assert out[..64] == out[..];
    CarryDone(out[..], c, T);
  }

  /** prod += c; a 256-bit addend cannot carry out of the 512 bits. */
  method ScAdd32(prod: array<byte>, c: array<byte>)
    requires prod.Length == 64 && c.Length == 32 && prod != c
    requires Sc(prod) + Sc(c) < Pow(0x100, 64)
    modifies prod
    ensures Sc(prod) == old(Sc(prod)) + Sc(c)
  {
    hide Val, Pow, SumDone;
    ghost var x: seq<int>, y: seq<int> := prod[..], c[..] + seq(32, _ => 0);
    Padded(c[..], y);
    var carry := 0;
    var i := 0;
    SumStart(0x100, prod[..0], carry, x, y);
    while i < 64
      invariant 0 <= i <= 64 && 0 <= carry <= 1
      invariant (forall k :: i <= k < 64 ==> prod[k] == x[k]) && c[..] == old(c[..])
      invariant SumDone(0x100, prod[..i], carry, x, y, i)
    {
      ghost var low, c0 := prod[..i], carry;
      var v: int := prod[i] as int + carry + (if i < 32 then c[i] else 0);
      prod[i] := v % 0x100;
      carry := v / 0x100;
      SumStep(0x100, low, c0, x, y, i, prod[i], carry);
      i := i + 1;
      assert prod[..i] == low + [prod[i - 1]];
    }
    assert prod[..64] == prod[..];
    SumEnd(0x100, prod[..], carry, x, y);
    PowPos(0x100, 64);
    NoCarryOut(Sc(prod), carry, Pow(0x100, 64));
  }

  lemma {:induction false} NoCarryOut(v: int, c: int, p: int)
    requires 0 <= v && 0 <= c && p > 0 && v + c * p < p
    ensures c == 0
  {
    if c > 0 { MulMono(1, c, p); }
  }

  lemma {:induction false} Padded(s: seq<int>, y: seq<int>)
    requires |s| == 32 && y == s + seq(32, _ => 0)
    ensures Val(0x100, y) == Val(0x100, s)
  {
    ValAppend(0x100, s, seq(32, _ => 0));
    ValZero(0x100, seq(32, _ => 0));
  }

  /** s = (a * b + c) mod L for all 256-bit a, b and c. */
  method ScMulAdd(s: array<byte>, a: array<byte>, b: array<byte>, c: array<byte>)
    requires s.Length == 32 && a.Length == 32 && b.Length == 32 && c.Length == 32
    modifies s
    ensures Sc(s) == old(Sc(a) * Sc(b) + Sc(c)) % L
    ensures Sc(s) < L
  {
    hide Val, Pow;
    var prod := new byte[64];
    ScMul512(prod, a, b);
    ScalarPowers();
    ghost var R := Pow(0x100, 32);
    MulMono2(Sc(a), Sc(b), R - 1, R - 1);
    assert (R - 1) * (R - 1) + R <= R * R;
    ScAdd32(prod, c);
    ScReduce64(s, prod);
  }
}
