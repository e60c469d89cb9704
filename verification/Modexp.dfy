/** RSA modular exponentiation: square-and-multiply over a division-free
    double-and-add product (src/crypto/asymmetric/bignum/modexp.c). */
module Modexp {
  import opened Arith
  import opened Limbs
  import opened Bignum

  ghost const TOP: int := Pow(B64, LIMBS)

  /** The fixed width is 4096 bits. */
  lemma {:induction false} TopIs()
    ensures TOP == Pow(2, 4096)
  {
    TwoTo64();
    PowPow(2, 64, 64);
  }

  // ---- limb loops ----

  /** Two wrapping 64-bit additions with the carry read off by comparison. */
  method AddColumn(x: u64, y: u64, c: u64) returns (d: u64, c': u64)
    requires c <= 1
    ensures c' <= 1 && d + c' * B64 == c + x + y
  {
    var s: u64 := (x as int + y) % B64;
    var c1 := s < x;
    d := (s as int + c) % B64;
    c' := if c1 || d < c then 1 else 0;
  }

  method SubColumn(x: u64, y: u64, br: u64) returns (d: u64, br': u64)
    requires br <= 1
    ensures br' <= 1 && d - br' * B64 == x - y - br
  {
    var t: u64 := (x as int - y) % B64;
    var b1 := x < y;
    d := (t as int - br) % B64;
    br' := if b1 || t < br then 1 else 0;
  }

  /** a += b, returning the carry out of the top limb. */
  method BnAdd(a: array<u64>, b: array<u64>) returns (c: u64)
    requires a.Length == LIMBS && b.Length == LIMBS
    modifies a
    ensures c <= 1 && Bn(a) + c * TOP == old(Bn(a) + Bn(b))
  {
    hide Val, Pow, SumDone;
    ghost var x: seq<int>, y: seq<int> := a[..], b[..];
    c := 0;
    var i := 0;
    SumStart(B64, a[..0], c, x, y);
    while i < LIMBS
      invariant 0 <= i <= LIMBS && c <= 1
      invariant forall k :: i <= k < LIMBS ==> a[k] == x[k] && b[k] == y[k]
      invariant SumDone(B64, a[..i], c, x, y, i)
    {
      ghost var low := a[..i];
      var d, c' := AddColumn(a[i], b[i], c);
      SumStep(B64, low, c, x, y, i, d, c');
      a[i] := d;
      c := c';
      i := i + 1;
      assert a[..i] == low + [d];
    }
    assert a[..LIMBS] == a[..];
    SumEnd(B64, a[..], c, x, y);
  }

  /** a -= b; when b is larger the result is short of the true difference by 2^4096. */
  method BnSub(a: array<u64>, b: array<u64>)
    requires a.Length == LIMBS && b.Length == LIMBS
    modifies a
    ensures old(Bn(a) >= Bn(b)) ==> Bn(a) == old(Bn(a) - Bn(b))
    ensures old(Bn(a) < Bn(b)) ==> Bn(a) == old(Bn(a) - Bn(b)) + TOP
  {
    hide Val, Pow, DiffDone;
    ghost var x: seq<int>, y: seq<int> := a[..], b[..];
    var br: u64 := 0;
    var i := 0;
    DiffStart(B64, a[..0], br, x, y);
    while i < LIMBS
      invariant 0 <= i <= LIMBS && br <= 1
      invariant forall k :: i <= k < LIMBS ==> a[k] == x[k] && b[k] == y[k]
      invariant DiffDone(B64, a[..i], br, x, y, i)
    {
      ghost var low := a[..i];
      var d, br' := SubColumn(a[i], b[i], br);
      DiffStep(B64, low, br, x, y, i, d, br');
      a[i] := d;
      br := br';
      i := i + 1;
      assert a[..i] == low + [d];
    }
    assert a[..LIMBS] == a[..];
    DiffEnd(B64, a[..], br, x, y);
  }

  /** a <<= 1, returning the bit shifted out of the top. */
  method BnShl1(a: array<u64>) returns (carry: u64)
    requires a.Length == LIMBS
    modifies a
    ensures carry <= 1 && Bn(a) + carry * TOP == 2 * old(Bn(a))
  {
    hide Val, Pow, SumDone;
    ghost var x: seq<int> := a[..];
    carry := 0;
    var i := 0;
    SumStart(B64, a[..0], carry, x, x);
    while i < LIMBS
      invariant 0 <= i <= LIMBS && carry <= 1
      invariant forall k :: i <= k < LIMBS ==> a[k] == x[k]
      invariant SumDone(B64, a[..i], carry, x, x, i)
    {
      ghost var low := a[..i];
      var top: u64 := a[i] / 0x8000_0000_0000_0000;
      // The shifted limb is even, so ORing in the carry bit is an addition.
      var d: u64 := (a[i] * 2) % B64 + carry;
      SumStep(B64, low, carry, x, x, i, d, top);
      a[i] := d;
      carry := top;
      i := i + 1;
      assert a[..i] == low + [d];
    }
    assert a[..LIMBS] == a[..];
    SumEnd(B64, a[..], carry, x, x);
  }

  // ---- modular steps ----

  /** r holds the low part of v = r + over * 2^4096; one subtraction reduces v < 2m,
      even when the overflow bit hides that r itself is below m. */
  method ReduceOnce(r: array<u64>, over: u64, m: array<u64>, ghost v: int)
    requires r.Length == LIMBS && m.Length == LIMBS && r != m && over <= 1
    requires Bn(r) + over * TOP == v && 0 <= v < 2 * Bn(m)
    modifies r
    ensures Bn(r) == v % Bn(m)
  {
    hide Val, Pow;
    if v >= Bn(m) { DivModUnique(v, Bn(m), 1, v - Bn(m)); } else { ModSmall(v, Bn(m)); }
    var cmp := BnCmp(r, m);
    if over != 0 || cmp >= 0 {
      BnSub(r, m);
    }
  }

  lemma {:induction false} DoubleThenAdd(r: int, a: int, m: int)
    requires m > 0
    ensures ((2 * r) % m + a) % m == (2 * r + a) % m
  {
    CongRemainder(2 * r, m);
    CongShift((2 * r) % m, 2 * r, a, m);
    CongMod((2 * r) % m + a, 2 * r + a, m);
  }

  /** r = (2r + bit * a) mod m for residues r and a. */
  method MulStep(r: array<u64>, addA: bool, a: array<u64>, m: array<u64>)
    requires r.Length == LIMBS && a.Length == LIMBS && m.Length == LIMBS && r != a && r != m
    requires Bn(r) < Bn(m) && Bn(a) < Bn(m)
    modifies r
    ensures Bn(r) == (2 * old(Bn(r)) + (if addA then Bn(a) else 0)) % Bn(m)
  {
    hide Val, Pow;
    ghost var x, M := Bn(r), Bn(m);
    var over := BnShl1(r);
    ReduceOnce(r, over, m, 2 * x);
    if addA {
      ghost var s := Bn(r) + Bn(a);
      DivMod(2 * x, M);
      DoubleThenAdd(x, Bn(a), M);
      over := BnAdd(r, a);
      ReduceOnce(r, over, m, s);
    }
  }

  // ---- bit length ----

  /** The exact number of significant bits of v. */
  ghost predicate BitLength(v: int, n: nat)
  {
    PowPos(2, n);
    v < Pow(2, n) && (n == 0 || v >= Pow(2, n - 1))
  }

  method BnTopLimb(x: array<u64>) returns (i: nat)
    requires x.Length == LIMBS
    ensures i <= LIMBS && (forall k :: i <= k < LIMBS ==> x[k] == 0)
    ensures i > 0 ==> x[i - 1] != 0
  {
    i := LIMBS;
    while i > 0 && x[i - 1] == 0
      invariant 0 <= i <= LIMBS && forall k :: i <= k < LIMBS ==> x[k] == 0
    {
      i := i - 1;
    }
  }

  method BnLimbBits(v: u64) returns (n: nat)
    requires v != 0
    ensures 1 <= n <= 64 && Pow(2, n - 1) <= v < Pow(2, n)
  {
    n := 64;
    var w := v;
    TwoTo64();
    assert Pow(2, 64) == 2 * Pow(2, 63);
    assert Pow(2, 0) == 1;
    while w < 0x8000_0000_0000_0000
      invariant 1 <= n <= 64 && 0 < w < B64 && v < Pow(2, n)
      invariant w == v * Pow(2, 64 - n)
      decreases n
    {
      HalfRange(v, n);
      w := w * 2;
      n := n - 1;
    }
    FullRange(v, n);
  }

  lemma {:induction false} ScaledOrder(v: int, p: int, q: int)
    requires p > 0
    ensures v * p < q * p <==> v < q
  {
    if v < q { MulMono(v + 1, q, p); } else { MulMono(q, v, p); }
  }

  lemma {:induction false} TopBit(n: nat)
    requires 1 <= n <= 64
    ensures Pow(2, 64 - n) > 0 && Pow(2, n - 1) * Pow(2, 64 - n) == 0x8000_0000_0000_0000
  {
    TwoTo64();
    PowAdd(2, n - 1, 64 - n);
    assert Pow(2, 64) == 2 * Pow(2, 63);
    PowPos(2, 64 - n);
  }

  lemma {:induction false} HalfRange(v: int, n: nat)
    requires 1 <= n <= 64 && v > 0 && v * Pow(2, 64 - n) < 0x8000_0000_0000_0000
    ensures v < Pow(2, n - 1) && n >= 2
    ensures v * Pow(2, 64 - (n - 1)) == 2 * (v * Pow(2, 64 - n))
  {
    TopBit(n);
    ScaledOrder(v, Pow(2, 64 - n), Pow(2, n - 1));
    assert Pow(2, 0) == 1;
    MulAssoc(v, 2, Pow(2, 64 - n));
  }

  lemma {:induction false} FullRange(v: int, n: nat)
    requires 1 <= n <= 64 && v * Pow(2, 64 - n) >= 0x8000_0000_0000_0000
    ensures v >= Pow(2, n - 1)
  {
    TopBit(n);
    ScaledOrder(v, Pow(2, 64 - n), Pow(2, n - 1));
  }

  lemma {:induction false} LeadingLimb(low: int, x: int, p: int, lo: int, hi: int)
    requires 0 <= low < p && 0 < lo <= x < hi
    ensures lo * p <= low + x * p < hi * p
  {
    MulMono(x + 1, hi, p);
    MulMono(lo, x, p);
  }

  /** Zero limbs above limb k-1 and a top limb of n bits give 64(k-1) + n bits in all. */
  lemma {:induction false} BitsFromTop(s: seq<int>, k: nat, n: nat)
    requires 0 < k <= |s| && Digits(B64, s) && (forall j :: k <= j < |s| ==> s[j] == 0)
    requires 1 <= n && Pow(2, n - 1) <= s[k - 1] < Pow(2, n)
    ensures BitLength(Val(B64, s), 64 * (k - 1) + n)
  {
    hide Val, Pow;
    ValSplit(B64, s, k);
    ValZero(B64, s[k..]);
    ValSnoc(B64, s, k - 1);
    ValBound(B64, s[..k - 1]);
    TwoTo64();
    PowPow(2, 64, k - 1);
    PowAdd(2, n, 64 * (k - 1));
    PowAdd(2, n - 1, 64 * (k - 1));
    PowPos(2, n - 1);
    LeadingLimb(Val(B64, s[..k - 1]), s[k - 1], Pow(B64, k - 1), Pow(2, n - 1), Pow(2, n));
  }

  method BnBits(x: array<u64>) returns (n: nat)
    requires x.Length == LIMBS
    ensures n <= 64 * LIMBS && BitLength(Bn(x), n)
  {
    var i := BnTopLimb(x);
    if i == 0 {
      ValZero(B64, x[..]);
      assert Pow(2, 0) == 1;
      return 0;
    }
    var b := BnLimbBits(x[i - 1]);
    BitsFromTop(x[..], i, b);
    n := (i - 1) * 64 + b;
  }

  // ---- product and power ----

  lemma {:induction false} ScanStep(x: int, i: nat)
    requires i > 0
    ensures Pow(2, i) > 0 && Pow(2, i - 1) > 0
    ensures x / Pow(2, i - 1) == 2 * (x / Pow(2, i)) + Bit(x, i - 1)
  {
    QuotientStep(x, i - 1);
  }

  lemma {:induction false} ScanStart(x: int, n: nat)
    requires x >= 0 && BitLength(x, n)
    ensures Pow(2, n) > 0 && x / Pow(2, n) == 0
  {
    HighBitsZero(x, n, n);
  }

  lemma {:induction false} ScanEnd(x: int)
    ensures Pow(2, 0) > 0 && x / Pow(2, 0) == x
  {}

  /** One bit of double-and-add: from a * q to a * (2q + bit), modulo m. */
  lemma {:induction false} ProductStep(a: int, q: int, bit: int, m: int)
    requires m > 0 && 0 <= bit <= 1
    ensures (2 * ((a * q) % m) + (if bit == 1 then a else 0)) % m == (a * (2 * q + bit)) % m
  {
    CongRemainder(a * q, m);
    CongScale((a * q) % m, a * q, 2, m);
    var x := if bit == 1 then a else 0;
    CongShift(2 * ((a * q) % m), 2 * (a * q), x, m);
    CongMod(2 * ((a * q) % m) + x, 2 * (a * q) + x, m);
    assert a * (2 * q + bit) == 2 * (a * q) + x by { assert a * bit == x; }
  }

  /** r = a * b mod m for residues a and b; r may be a or b. */
  method Modmul(r: array<u64>, a: array<u64>, b: array<u64>, m: array<u64>)
    requires r.Length == LIMBS && a.Length == LIMBS && b.Length == LIMBS && m.Length == LIMBS && r != m
    requires Bn(a) < Bn(m)
    modifies r
    ensures Bn(r) == old(Bn(a) * Bn(b)) % Bn(m)
  {
    hide Val, Pow, BitLength, Bit;
    ghost var x, y, M := Bn(a), Bn(b), Bn(m);
    var acc := new u64[LIMBS](_ => 0);
    ValZero(B64, acc[..]);
    var i := BnBits(b);
    ScanStart(y, i);
    ModSmall(0, M);
    while i > 0
      invariant 0 <= i <= 64 * LIMBS && fresh(acc) && Pow(2, i) > 0
      invariant a[..] == old(a[..]) && b[..] == old(b[..]) && m[..] == old(m[..])
      invariant Bn(acc) == (x * (y / Pow(2, i))) % M
    {
      DivMod(x * (y / Pow(2, i)), M);
      LimbBitIsBit(b[..], i - 1);
      ScanStep(y, i);
      ProductStep(x, y / Pow(2, i), Bit(y, i - 1), M);
      MulStep(acc, LimbBit(b[..], i - 1) == 1, a, m);
      i := i - 1;
    }
    ScanEnd(y);
    CopyLimbs(r, acc);
  }

  method CopyLimbs(r: array<u64>, a: array<u64>)
    requires r.Length == LIMBS && a.Length == LIMBS && r != a
    modifies r
    ensures r[..] == a[..]
  {
    forall k | 0 <= k < LIMBS { r[k] := a[k]; }
  }

  /** One exponent bit: the square of base^q, times base when the bit is set. */
  lemma {:induction false} PowerStep(base: int, q: nat, bit: int, m: int)
    requires m > 0 && 0 <= bit <= 1
    ensures var s := ((Pow(base, q) % m) * (Pow(base, q) % m)) % m;
      Pow(base, 2 * q + bit) % m == if bit == 1 then (s * base) % m else s
  {
    var p := Pow(base, q);
    CongRemainder(p, m);
    CongMul(p % m, p, p % m, p, m);
    PowAdd(base, q, q);
    var s := ((p % m) * (p % m)) % m;
    CongRemainder((p % m) * (p % m), m);
    CongTrans(s, (p % m) * (p % m), Pow(base, 2 * q), m);
    CongScale(s, Pow(base, 2 * q), base, m);
    CongMod((p % m) * (p % m), Pow(base, 2 * q), m);
    CongMod(s * base, Pow(base, 2 * q) * base, m);
    assert bit == 1 ==> Pow(base, 2 * q + bit) == base * Pow(base, 2 * q);
  }

  /** out = base^exp mod m for every modulus above 1, every base below it and every
      exponent; out may be any of the operands except the modulus. */
  method BnModexp(out: array<u64>, base: array<u64>, exp: array<u64>, m: array<u64>)
    requires out.Length == LIMBS && base.Length == LIMBS && exp.Length == LIMBS && m.Length == LIMBS && out != m
    requires Bn(m) > 1 && Bn(base) < Bn(m)
    modifies out
    ensures Bn(out) == Pow(old(Bn(base)), old(Bn(exp))) % Bn(m)
  {
    hide Val, Pow, BitLength, Bit;
    ghost var x, e, M := Bn(base), Bn(exp), Bn(m);
    var result := new u64[LIMBS](_ => 0);
    result[0] := 1;
    OneLimb(result[..]);
    var i := BnBits(exp);
    ScanStart(e, i);
    PowZero(x);
    ModSmall(1, M);
    while i > 0
      invariant 0 <= i <= 64 * LIMBS && fresh(result) && Pow(2, i) > 0 && e / Pow(2, i) >= 0
      invariant base[..] == old(base[..]) && exp[..] == old(exp[..]) && m[..] == old(m[..])
      invariant Bn(result) == Pow(x, e / Pow(2, i)) % M
    {
      ghost var q := e / Pow(2, i);
      DivMod(Pow(x, q), M);
      LimbBitIsBit(exp[..], i - 1);
      ScanStep(e, i);
      PowerStep(x, q, Bit(e, i - 1), M);
      Modmul(result, result, result, m);
      DivMod((Pow(x, q) % M) * (Pow(x, q) % M), M);
      if LimbBit(exp[..], i - 1) == 1 {
        Modmul(result, result, base, m);
      }
      i := i - 1;
    }
    ScanEnd(e);
    CopyLimbs(out, result);
  }

  lemma {:induction false} OneLimb(s: seq<int>)
    requires |s| > 0 && s[0] == 1 && forall k :: 1 <= k < |s| ==> s[k] == 0
    ensures Val(B64, s) == 1
  {
    ValSplit(B64, s, 1);
    ValZero(B64, s[1..]);
    assert s[..1] == [] + [1];
    ValPush(B64, [], 1);
    assert Pow(B64, 0) == 1;
  }
}
