/** 256-bit field arithmetic over four little-endian 64-bit limbs: comparison,
    addition, subtraction, the schoolbook product and the binary long-division
    reducer (src/crypto/asymmetric/ecc/p256/p256_field.c). */
module P256Field {
  import opened Arith
  import opened Limbs

  /** The field prime and the group order. */
  const P256: int := 0xffffffff00000001_0000000000000000_00000000ffffffff_ffffffffffffffff
  const P256_N: int := 0xffffffff00000000_ffffffffffffffff_bce6faada7179e84_f3b9cac2fc632551

  const B128: int := 0x1_0000_0000_0000_0000_0000_0000_0000_0000
  /** R = 2^256, one more than the largest four-limb number. */
  const R256: int := 0x1_0000_0000_0000_0000_0000_0000_0000_0000_0000_0000_0000_0000_0000_0000_0000_0000

  /** Section D.1.2.3 of FIPS 186-4: p as a sum of powers of two, n in decimal. */
  lemma {:induction false} CurveConstants()
    ensures P256 == Pow(2, 256) - Pow(2, 224) + Pow(2, 192) + Pow(2, 96) - 1
    ensures P256_N == 115792089210356248762697446949407573529996955224135760342422259061068512044369
  {
    hide Pow;
    TwoTo64();
    PowAdd(2, 64, 64);
    PowAdd(2, 128, 64);
    PowAdd(2, 192, 64);
    PowAdd(2, 64, 32);
    PowAdd(2, 192, 32);
    PowAdd(2, 32, 32);
    TwoTo32();
  }

  lemma {:induction false} TwoTo32()
    ensures Pow(2, 32) == 0x1_0000_0000
  {
    PowAdd(2, 2, 2);
    PowAdd(2, 4, 4);
    PowAdd(2, 8, 8);
    PowAdd(2, 16, 16);
  }

  /** The number held in the four low limbs. */
  ghost function Int(a: array<u64>): (v: int)
    requires a.Length >= 4
    reads a
    ensures 0 <= v < R256
  {
    ValBound(B64, a[..4]);
    PowerFacts();
    Val(B64, a[..4])
  }

  lemma {:induction false} PowerFacts()
    ensures Pow(2, 64) == B64 && Pow(B64, 4) == R256 && B64 * B64 == B128
  {
    TwoTo64();
    PowAdd(B64, 1, 1);
    PowAdd(B64, 2, 2);
  }

  lemma {:induction false} Val4(t: seq<int>)
    requires |t| == 4
    ensures Val(B64, t) == t[0] + t[1] * B64 + t[2] * B128 +
            t[3] * 0x1_0000000000000000_0000000000000000_0000000000000000
  {
    assert t[..4] == t && t[..0] == [];
    ValSnoc(B64, t, 0);
    ValSnoc(B64, t, 1);
    ValSnoc(B64, t, 2);
    ValSnoc(B64, t, 3);
    assert Pow(B64, 0) == 1 && Pow(B64, 1) == B64;
    PowAdd(B64, 1, 1);
    PowAdd(B64, 2, 1);
  }

  // ---- comparison, addition, subtraction ----

  method FeGe(a: array<u64>, b: array<u64>) returns (ge: bool)
    requires a.Length >= 4 && b.Length >= 4
    ensures ge <==> Int(a) >= Int(b)
  {
    var i := 4;
    while i > 0
      invariant 0 <= i <= 4
      invariant a[i..4] == b[i..4]
    {
      i := i - 1;
      if a[i] != b[i] {
        assert a[..4][i + 1..] == a[i + 1..4] && b[..4][i + 1..] == b[i + 1..4];
        if a[i] < b[i] {
          ValTopDiffers(B64, a[..4], b[..4], i);
        } else {
          ValTopDiffers(B64, b[..4], a[..4], i);
        }
        return a[i] > b[i];
      }
    }
    assert a[0..4] == a[..4] && b[0..4] == b[..4];
    return true;
  }

  /** The machine form of a borrow: 128-bit wrap-around, low word, bit 64. */
  method BorrowColumn(x: u64, y: u64, br: int) returns (d: u64, br': int)
    requires 0 <= br <= 1
    ensures 0 <= br' <= 1 && d - br' * B64 == x - y - br
  {
    var v: int := x - y - br;
    var t := v % B128;
    if v < 0 {
      DivModUnique(v, B128, -1, v + B128);
      DivModUnique(v + B128, B64, B64 - 1, v + B64);
    }
    d := t % B64;
    br' := (t / B64) % 2;
  }

  /** r = a - b modulo 2^256, exact when a >= b; r may be a or b. */
  method FeSubRaw(r: array<u64>, a: array<u64>, b: array<u64>)
    requires r.Length == 4 && a.Length >= 4 && b.Length >= 4
    modifies r
    ensures old(Int(a) >= Int(b)) ==> Int(r) == old(Int(a) - Int(b))
    ensures old(Int(a) < Int(b)) ==> Int(r) == old(Int(a) - Int(b)) + R256
  {
    hide Val, Pow, DiffDone;
    ghost var x: seq<int>, y: seq<int> := a[..4], b[..4];
    var br := 0;
    var i := 0;
    DiffStart(B64, r[..0], br, x, y);
    while i < 4
      invariant 0 <= i <= 4 && 0 <= br <= 1
      invariant forall k :: i <= k < 4 ==> a[k] == x[k] && b[k] == y[k]
      invariant DiffDone(B64, r[..i], br, x, y, i)
    {
      ghost var low := r[..i];
      var d, br' := BorrowColumn(a[i], b[i], br);
      DiffStep(B64, low, br, x, y, i, d, br');
      r[i] := d;
      br := br';
      i := i + 1;
      assert r[..i] == low + [d];
    }
    DiffEnd(B64, r[..4], br, x, y);
    PowerFacts();
  }

  /** t = a + b over 256 bits and the carry out of bit 255; t may be a or b. */
  method FeAddRaw(t: array<u64>, a: array<u64>, b: array<u64>) returns (carry: u64)
    requires t.Length == 4 && a.Length >= 4 && b.Length >= 4
    modifies t
    ensures carry <= 1
    ensures Int(t) + carry * R256 == old(Int(a) + Int(b))
  {
    hide Val, Pow, SumDone;
    ghost var x: seq<int>, y: seq<int> := a[..4], b[..4];
    var c: u128 := 0;
    var i := 0;
    SumStart(B64, t[..0], c, x, y);
    while i < 4
      invariant 0 <= i <= 4 && 0 <= c <= 1
      invariant forall k :: i <= k < 4 ==> a[k] == x[k] && b[k] == y[k]
      invariant SumDone(B64, t[..i], c, x, y, i)
    {
      ghost var low, c0 := t[..i], c;
      c := c + ((a[i] as int) + b[i]);
      t[i] := c % B64;
      c := c / B64;
      SumStep(B64, low, c0, x, y, i, t[i], c);
      i := i + 1;
      assert t[..i] == low + [t[i - 1]];
    }
    SumEnd(B64, t[..4], c, x, y);
    PowerFacts();
    carry := c;
  }

  method FpSet(r: array<u64>, a: array<u64>)
    requires r.Length == 4 && a.Length >= 4
    modifies r
    ensures r[..] == old(a[..4])
  {
    var i := 0;
    ghost var A: seq<int> := a[..4];
    while i < 4
      invariant 0 <= i <= 4
      invariant r[..i] == A[..i]
      invariant forall k :: i <= k < 4 ==> a[k] == A[k]
    {
      r[i] := a[i];
      i := i + 1;
    }
  }

  /** One conditional subtraction brings a sum of two residues below m. */
  lemma {:induction false} AddOnce(x: int, y: int, m: int)
    requires 0 <= x < m && 0 <= y < m
    ensures (x + y) % m == if x + y >= m then x + y - m else x + y
  {
    if x + y >= m { DivModUnique(x + y, m, 1, x + y - m); } else { ModSmall(x + y, m); }
  }

  lemma {:induction false} SubOnce(x: int, y: int, m: int)
    requires 0 <= x < m && 0 <= y < m
    ensures (x - y) % m == if x >= y then x - y else m - (y - x)
  {
    if x >= y { ModSmall(x - y, m); } else { DivModUnique(x - y, m, -1, m - (y - x)); }
  }

  /** r = (a + b) mod m for residues a and b; r may be a or b. */
  method FpAdd(r: array<u64>, a: array<u64>, b: array<u64>, m: array<u64>)
    requires r.Length == 4 && a.Length >= 4 && b.Length >= 4 && m.Length >= 4 && r != m
    requires Int(a) < Int(m) && Int(b) < Int(m)
    modifies r
    ensures Int(r) == old(Int(a) + Int(b)) % Int(m)
  {
    var t := new u64[4];
    AddOnce(Int(a), Int(b), Int(m));
    var carry := FeAddRaw(t, a, b);
    var ge := FeGe(t, m);
    if carry != 0 || ge {
      FeSubRaw(r, t, m);
    } else {
      FpSet(r, t);
      assert t[..4] == r[..4];
    }
  }

  /** r = (a - b) mod m for residues a and b; r may be a or b. */
  method FpSub(r: array<u64>, a: array<u64>, b: array<u64>, m: array<u64>)
    requires r.Length == 4 && a.Length >= 4 && b.Length >= 4 && m.Length >= 4 && r != m
    requires Int(a) < Int(m) && Int(b) < Int(m)
    modifies r
    ensures Int(r) == old(Int(a) - Int(b)) % Int(m)
  {
    SubOnce(Int(a), Int(b), Int(m));
    var ge := FeGe(a, b);
    if ge {
      FeSubRaw(r, a, b);
    } else {
      var t := new u64[4];
      FeSubRaw(t, b, a);
      FeSubRaw(r, m, t);
    }
  }

  // ---- schoolbook product ----

  lemma {:induction false} ProductFits(x: int, y: int, c: int, w: int)
    requires 0 <= x < B64 && 0 <= y < B64 && 0 <= c < B64 && 0 <= w < B64
    ensures 0 <= x * y && 0 <= c + (x * y + w) < B128
  {
    MulMono2(x, y, B64 - 1, B64 - 1);
  }

  /** The column step of every row loop: a 128-bit accumulator takes in a product
      and a limb without overflow, then gives up its low word and keeps the rest. */
  method MulAddColumn(c: u64, x: u64, y: u64, w: u64) returns (lo: u64, hi: u64)
    ensures lo + hi * B64 == c + x * y + w
  {
    ProductFits(x, y, c, w);
    var t: u128 := (c as int) + (x * y + w);
    lo := t % B64;
    hi := t / B64;
  }

  /** j columns of the row W + ai * b * B^i are done: low digits, then a carry c. */
  ghost predicate RowDone(low: int, c: int, ai: int, b: seq<int>, W: seq<int>, i: nat, j: nat)
    requires j <= |b| && i + j <= |W|
  {
    low + c * Pow(B64, i + j) == Val(B64, W[..i + j]) + ai * Val(B64, b[..j]) * Pow(B64, i)
  }

  lemma {:induction false} RowStep(low: seq<int>, c: int, ai: int, b: seq<int>, W: seq<int>, i: nat, j: nat,
                                   lo: int, hi: int)
    requires j < |b| && i + j < |W| && |low| == i + j
    requires RowDone(Val(B64, low), c, ai, b, W, i, j)
    requires lo + hi * B64 == c + ai * b[j] + W[i + j]
    ensures RowDone(Val(B64, low + [lo]), hi, ai, b, W, i, j + 1)
  {
    Scale3(lo, hi, B64, c, ai * b[j], W[i + j], Pow(B64, i + j));
    ValSnoc(B64, W, i + j);
    ValSnoc(B64, b, j);
    ValPush(B64, low, lo);
    PowAdd(B64, i, j);
    RowTerm(ai, Val(B64, b[..j]), b[j], Pow(B64, j), Pow(B64, i));
  }

  lemma {:induction false} RowEnds(low: seq<int>, c: int, ai: int, b: seq<int>, W: seq<int>, i: nat)
    requires |b| == 4 && |low| == i + 4 <= |W|
    requires RowDone(Val(B64, low), c, ai, b, W, i, 4)
    ensures Val(B64, low + [c]) == Val(B64, W[..i + 4]) + ai * Val(B64, b) * Pow(B64, i)
  {
    assert b[..4] == b;
    ValPush(B64, low, c);
  }

  /** Adds ai * b into w at limb i; the limb above the row takes the last carry. */
  method FeMulRow(w: array<u64>, ai: u64, b: array<u64>, i: nat)
    requires w.Length == 8 && b.Length >= 4 && i < 4 && w != b
    modifies w
    ensures Val(B64, w[..i + 5]) == old(Val(B64, w[..i + 4])) + ai * Int(b) * Pow(B64, i)
    ensures w[i + 5..] == old(w[i + 5..])
  {
    hide Val, Pow, RowDone;
    ghost var W: seq<int>, Bs: seq<int> := w[..], b[..4];
    var c: u64 := 0;
    var j := 0;
    assert RowDone(Val(B64, w[..i]), 0, ai, Bs, W, i, 0) by { RowStarts(ai, Bs, W, i); }
    while j < 4
      invariant 0 <= j <= 4
      invariant (forall k :: i + j <= k < 8 ==> w[k] == W[k]) && b[..4] == Bs
      invariant RowDone(Val(B64, w[..i + j]), c, ai, Bs, W, i, j)
    {
      ghost var low := w[..i + j];
      var lo, hi := MulAddColumn(c, ai, b[j], w[i + j]);
      RowStep(low, c, ai, Bs, W, i, j, lo, hi);
      w[i + j] := lo;
      c := hi;
      j := j + 1;
      assert w[..i + j] == low + [lo];
    }
    RowEnds(w[..i + 4], c, ai, Bs, W, i);
    ghost var low := w[..i + 4];
    w[i + 4] := c;
    assert w[..i + 5] == low + [c];
  }

  lemma {:induction false} RowStarts(ai: int, b: seq<int>, W: seq<int>, i: nat)
    requires i <= |W|
    ensures RowDone(Val(B64, W[..i]), 0, ai, b, W, i, 0)
  {
    assert b[..0] == [];
  }

  lemma {:induction false} ProductStart(a: seq<int>, n: int)
    ensures Val(B64, a[..0]) * n == 0
  {}

  /** w = a * b, all 512 bits. */
  method FeMulWide(w: array<u64>, a: array<u64>, b: array<u64>)
    requires w.Length == 8 && a.Length >= 4 && b.Length >= 4 && w != a && w != b
    modifies w
    ensures Val(B64, w[..]) == Int(a) * Int(b)
  {
    hide Val, Pow;
    var i := 0;
    while i < 8
      invariant 0 <= i <= 8
      invariant forall k :: 0 <= k < i ==> w[k] == 0
      invariant a[..4] == old(a[..4]) && b[..4] == old(b[..4])
    {
      w[i] := 0;
      i := i + 1;
    }
    ghost var A: seq<int>, n := a[..4], Int(b);
    ValZero(B64, w[..4]);
    ProductStart(A, n);
    i := 0;
    while i < 4
      invariant 0 <= i <= 4
      invariant a[..4] == A && Int(b) == n
      invariant forall k :: i + 4 <= k < 8 ==> w[k] == 0
      invariant Val(B64, w[..i + 4]) == Val(B64, A[..i]) * n
    {
      ghost var tail := w[i + 5..];
      assert forall k :: 0 <= k < |tail| ==> tail[k] == w[i + 5 + k];
      FeMulRow(w, a[i], b, i);
      assert forall k :: i + 5 <= k < 8 ==> w[k] == tail[k - (i + 5)];
      ProductRow(B64, A, i, n);
      i := i + 1;
    }
    assert A[..4] == A && w[..8] == w[..];
  }
}
