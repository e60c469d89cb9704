/** The generic reducer: binary long division of a 512-bit accumulator by a
    shifted modulus, and the modular product built on it. */
module P256LongDivision {
  import opened Arith
  import opened Limbs
  import opened P256Field

  // ---- bits ----

  /** Bit `bit` of m shifted left by sh, read limb by limb. */
  function MshiftBit(m: seq<u64>, sh: nat, bit: nat): int
    requires |m| == 4
  {
    if bit < sh then 0
    else if bit - sh >= 256 then 0
    else
      PowPos(2, (bit - sh) % 64);
      (m[(bit - sh) / 64] / Pow(2, (bit - sh) % 64)) % 2
  }

  lemma {:induction false} BitOfShift(x: int, sh: nat, n: nat)
    requires sh <= n
    ensures Bit(x * Pow(2, sh), n) == Bit(x, n - sh)
  {
    PowPos(2, sh);
    PowPos(2, n - sh);
    PowAdd(2, sh, n - sh);
    DivDiv(x * Pow(2, sh), Pow(2, sh), Pow(2, n - sh));
    DivModUnique(x * Pow(2, sh), Pow(2, sh), x, 0);
  }

  lemma {:induction false} BitBelowShift(x: int, sh: nat, n: nat)
    requires n < sh
    ensures Bit(x * Pow(2, sh), n) == 0
  {
    PowPos(2, n);
    PowAdd(2, n, sh - n);
    assert Pow(2, sh - n) == 2 * Pow(2, sh - n - 1);
    var h := Pow(2, sh - n - 1);
    assert x * (Pow(2, n) * (2 * h)) == (2 * (x * h)) * Pow(2, n) by {
      MulAssoc(x, Pow(2, n), 2 * h);
      MulAssoc(x * Pow(2, n), 2, h);
      MulAssoc(2, x, h);
    }
    DivModUnique(x * Pow(2, sh), Pow(2, n), 2 * (x * h), 0);
    ModShift(0, x * h, 2);
  }

  lemma {:induction false} MshiftBitIsBit(m: seq<u64>, sh: nat, bit: nat)
    requires |m| == 4
    ensures MshiftBit(m, sh, bit) == Bit(Val(B64, m) * Pow(2, sh), bit)
  {
    var x := Val(B64, m);
    if bit < sh {
      BitBelowShift(x, sh, bit);
    } else {
      BitOfShift(x, sh, bit);
      PowerFacts();
      if bit - sh >= 256 {
        ValBound(B64, m);
        PowPow(2, 64, 4);
        HighBitsZero(x, 64 * 4, bit - sh);
      } else {
        ValSubDigit(2, 64, m, (bit - sh) / 64, (bit - sh) % 64);
      }
    }
  }

  lemma {:induction false} QuotientOrder(x: int, y: int, d: int)
    requires d > 0 && x / d < y / d
    ensures x < y
  {
    DivMod(x, d);
    DivMod(y, d);
    MulMono(x / d + 1, y / d, d);
  }

  // ---- one long-division step ----

  ghost function Shifted(m: array<u64>, sh: nat): int
    requires m.Length >= 4
    reads m
  {
    Int(m) * Pow(2, sh)
  }

  lemma {:induction false} WideRange(w: seq<u64>)
    requires |w| == 8
    ensures 0 <= Val(B64, w) < Pow(B64, 8)
    ensures Pow(B64, 8) == Pow(2, 64 * 8) == R256 * R256
  {
    ValBound(B64, w);
    PowerFacts();
    PowPow(2, 64, 8);
    PowAdd(B64, 4, 4);
  }

  lemma {:induction false} ShiftedRange(x: int, sh: nat)
    requires 0 <= x < R256 && sh < 256
    ensures 0 <= x * Pow(2, sh) < R256 * R256
  {
    PowerFacts();
    PowPow(2, 64, 4);
    PowMonotone(2, sh, 64 * 4);
    PowPos(2, sh);
    MulMono2(x, Pow(2, sh), R256 - 1, R256);
  }

  /** Bit-by-bit comparison from the top decides w >= m * 2^sh. */
  method WideGeShifted(w: array<u64>, m: array<u64>, sh: nat) returns (ge: bool)
    requires w.Length == 8 && m.Length == 4 && sh < 256
    ensures ge <==> Val(B64, w[..]) >= Shifted(m, sh)
  {
    ghost var x, y := Val(B64, w[..]), Shifted(m, sh);
    assert m[..4] == m[..];
    WideRange(w[..]);
    ShiftedRange(Int(m), sh);
    var bit := 512;
    assert Pow(2, bit) > 0 && x / Pow(2, bit) == 0 && y / Pow(2, bit) == 0 by {
      HighBitsZero(x, 64 * 8, bit);
      HighBitsZero(y, 64 * 8, bit);
    }
    while bit > 0
      invariant 0 <= bit <= 512 && Pow(2, bit) > 0
      invariant x / Pow(2, bit) == y / Pow(2, bit)
    {
      bit := bit - 1;
      var wb := LimbBit(w[..], bit);
      var mb := MshiftBit(m[..], sh, bit);
      LimbBitIsBit(w[..], bit);
      MshiftBitIsBit(m[..], sh, bit);
      QuotientStep(x, bit);
      QuotientStep(y, bit);
      if wb != mb {
        if wb < mb {
          QuotientOrder(x, y, Pow(2, bit));
        } else {
          QuotientOrder(y, x, Pow(2, bit));
        }
        return wb > mb;
      }
    }
    return true;
  }

  lemma {:induction false} BitOfQuotient(x: int, k: nat, n: nat)
    ensures Pow(2, k) > 0
    ensures Bit(x / Pow(2, k), n) == Bit(x, k + n)
  {
    PowPos(2, k);
    PowPos(2, n);
    PowAdd(2, k, n);
    DivDiv(x, Pow(2, k), Pow(2, n));
  }

  /** Limb i of m * 2^sh assembled one bit at a time. */
  method ShiftedLimb(m: array<u64>, sh: nat, i: nat) returns (limb: u64)
    requires m.Length == 4
    ensures limb == DigitAt(B64, Shifted(m, sh), i)
  {
    ghost var x := Shifted(m, sh);
    assert m[..4] == m[..];
    PowPow(2, 64, i);
    PowerFacts();
    PowPos(2, 64 * i);
    ghost var y := x / Pow(2, 64 * i);
    var v := 0;
    var b := 0;
    assert Pow(2, 0) == 1;
    while b < 64
      invariant 0 <= b <= 64 && Pow(2, b) > 0
      invariant v == y % Pow(2, b)
    {
      // The bit is OR-ed in at position b; v is below 2^b, so the OR is a sum.
      var bit := MshiftBit(m[..], sh, i * 64 + b);
      MshiftBitIsBit(m[..], sh, i * 64 + b);
      BitOfQuotient(x, 64 * i, b);
      RemainderDigit(2, y, b);
      v := v + bit * Pow(2, b);
      b := b + 1;
    }
    limb := v;
  }

  /** w -= m * 2^sh, exact because the comparison has shown w >= m * 2^sh. */
  method WideSubShifted(w: array<u64>, m: array<u64>, sh: nat)
    requires w.Length == 8 && m.Length == 4 && sh < 256 && w != m
    requires Val(B64, w[..]) >= Shifted(m, sh)
    modifies w
    ensures Val(B64, w[..]) == old(Val(B64, w[..])) - Shifted(m, sh)
  {
    hide Val, Pow, DiffDone, Shifted;
    ghost var W: seq<int>, x := w[..], Shifted(m, sh);
    ghost var X := DigitsOf(B64, x, 8);
    ShiftedDigits(m, sh);
    var br := 0;
    var i := 0;
    DiffStart(B64, w[..0], br, W, X);
    while i < 8
      invariant 0 <= i <= 8 && 0 <= br <= 1
      invariant (forall k :: i <= k < 8 ==> w[k] == W[k]) && m[..] == old(m[..]) && Shifted(m, sh) == x
      invariant DiffDone(B64, w[..i], br, W, X, i)
    {
      ghost var low := w[..i];
      var mlimb := ShiftedLimb(m, sh, i);
      var d, br' := BorrowColumn(w[i], mlimb, br);
      DiffStep(B64, low, br, W, X, i, d, br');
      w[i] := d;
      br := br';
      i := i + 1;
      assert w[..i] == low + [d];
    }
    assert w[..8] == w[..];
    DiffEnd(B64, w[..], br, W, X);
  }

  lemma {:induction false} ShiftedDigits(m: array<u64>, sh: nat)
    requires m.Length == 4 && sh < 256
    ensures Val(B64, DigitsOf(B64, Shifted(m, sh), 8)) == Shifted(m, sh)
  {
    var x := Shifted(m, sh);
    ShiftedRange(Int(m), sh);
    PowerFacts();
    PowAdd(B64, 4, 4);
    DigitsOfValue(B64, x, 8);
    ModSmall(x, Pow(B64, 8));
  }

  // ---- the whole reduction ----

  /** What shift-and-subtract leaves of w after the steps sh-1, ..., 0. */
  ghost function LongDivRem(w: int, m: int, sh: nat): int
    decreases sh + 0
  {
    if sh == 0 then w
    else
      var x := m * Pow(2, sh - 1);
      LongDivRem(if w >= x then w - x else w, m, sh - 1)
  }

  /** Long division is exact whenever the quotient fits the number of steps. */
  lemma {:induction false} LongDivExact(w: int, m: int, sh: nat)
    requires m > 0 && 0 <= w < m * Pow(2, sh)
    ensures LongDivRem(w, m, sh) == w % m
    decreases sh
  {
    if sh == 0 {
      assert Pow(2, 0) == 1;
      ModSmall(w, m);
    } else {
      var x := m * Pow(2, sh - 1);
      assert m * Pow(2, sh) == 2 * x by { MulAssoc(m, 2, Pow(2, sh - 1)); }
      if w >= x {
        LongDivExact(w - x, m, sh - 1);
        ModShift(w - x, Pow(2, sh - 1), m);
      } else {
        LongDivExact(w, m, sh - 1);
      }
    }
  }

  /** When the quotient does not fit, every step subtracts. */
  lemma {:induction false} LongDivSaturates(w: int, m: int, sh: nat)
    requires m >= 0 && w >= m * Pow(2, sh)
    ensures LongDivRem(w, m, sh) == w - m * (Pow(2, sh) - 1)
    decreases sh
  {
    if sh == 0 {
      assert Pow(2, 0) == 1;
    } else {
      var p := Pow(2, sh - 1);
      assert m * Pow(2, sh) == 2 * (m * p) by { MulAssoc(m, 2, p); }
      PowPos(2, sh - 1);
      MulNonneg(m, p);
      LongDivSaturates(w - m * p, m, sh - 1);
      assert m * (Pow(2, sh) - 1) == m * p + m * (p - 1);
    }
  }

  method FeReduceStep(w: array<u64>, m: array<u64>, sh: nat)
    requires w.Length == 8 && m.Length == 4 && sh < 256 && w != m
    modifies w
    ensures var x := Shifted(m, sh); var v := old(Val(B64, w[..]));
      Val(B64, w[..]) == if v >= x then v - x else v
  {
    var ge := WideGeShifted(w, m, sh);
    if ge { WideSubShifted(w, m, sh); }
  }

  /** r takes the low 256 bits of what 256 long-division steps leave in w. */
  method FeReduceWide(r: array<u64>, w: array<u64>, m: array<u64>)
    requires r.Length == 4 && w.Length == 8 && m.Length == 4 && w != m && r != w && r != m
    modifies r, w
    ensures Int(r) == LongDivRem(old(Val(B64, w[..])), Int(m), 256) % R256
    ensures Int(m) > 0 && old(Val(B64, w[..])) < Int(m) * R256
      ==> Int(r) == old(Val(B64, w[..])) % Int(m)
  {
    hide Val, Pow;
    ghost var W, M := Val(B64, w[..]), Int(m);
    WideRange(w[..]);
    var sh := 256;
    ghost var rem := LongDivRem(W, M, sh);
    while sh > 0
      invariant 0 <= sh <= 256 && m[..] == old(m[..])
      invariant LongDivRem(Val(B64, w[..]), M, sh) == rem
    {
      sh := sh - 1;
      FeReduceStep(w, m, sh);
    }
    ghost var rest := w[..];
    assert Val(B64, rest) == rem;
    var i := 0;
    while i < 4
      invariant 0 <= i <= 4 && m[..] == old(m[..])
      invariant w[..] == rest
      invariant r[..i] == rest[..i]
    {
      r[i] := w[i];
      i := i + 1;
    }
    assert r[..4] == rest[..4];
    PowerFacts();
    ValHigh(B64, rest, 4);
    if M > 0 && W < M * R256 {
      ReducesBelow(W, M);
    }
  }

  lemma {:induction false} ReducesBelow(w: int, m: int)
    requires 0 < m < R256 && 0 <= w < m * R256
    ensures LongDivRem(w, m, 256) % R256 == w % m
  {
    ShiftCount();
    LongDivExact(w, m, 256);
    DivMod(w, m);
    ModSmall(w % m, R256);
  }

  lemma {:induction false} ShiftCount()
    ensures Pow(2, 256) == R256
  {
    PowerFacts();
    PowPow(2, 64, 4);
  }

  // ---- modular product and reduction ----

  lemma {:induction false} ZeroExtended(w: seq<int>, a: seq<int>)
    requires |w| == 8 && |a| == 4 && w[..4] == a && forall k :: 4 <= k < 8 ==> w[k] == 0
    ensures Val(B64, w) == Val(B64, a)
  {
    ValSplit(B64, w, 4);
    ValZero(B64, w[4..]);
  }

  /** r = a mod m for any 256-bit a. */
  method FpReduce(r: array<u64>, a: array<u64>, m: array<u64>)
    requires r.Length == 4 && a.Length == 4 && m.Length == 4 && r != m
    requires Int(m) > 0
    modifies r
    ensures Int(r) == old(Int(a)) % Int(m)
  {
    var w := new u64[8];
    ghost var A: seq<int> := a[..4];
    var i := 0;
    while i < 4
      invariant 0 <= i <= 4
      invariant a[..4] == A && m[..] == old(m[..])
      invariant w[..i] == A[..i]
      invariant forall k :: 4 <= k < i + 4 ==> w[k] == 0
    {
      w[i] := a[i];
      w[i + 4] := 0;
      i := i + 1;
    }
    ZeroExtended(w[..], A);
    FeReduceWide(r, w, m);
  }

  /** r is what long division leaves of a * b: the true residue a * b mod m
      whenever a * b < m * 2^256, in particular when either operand is below m. */
  method FpMul(r: array<u64>, a: array<u64>, b: array<u64>, m: array<u64>)
    requires r.Length == 4 && a.Length == 4 && b.Length == 4 && m.Length == 4 && r != m
    modifies r
    ensures Int(r) == LongDivRem(old(Int(a) * Int(b)), Int(m), 256) % R256
    ensures Int(m) > 0 && old(Int(a) * Int(b)) < Int(m) * R256
      ==> Int(r) == old(Int(a) * Int(b)) % Int(m)
  {
    var w := new u64[8];
    FeMulWide(w, a, b);
    FeReduceWide(r, w, m);
  }

  /** One reduced operand is enough to stay in range of the division, so long
      division then agrees with any other way of computing a * b mod m. */
  lemma {:induction false} OneOperandBelow(a: int, b: int, m: int)
    requires 0 <= a < R256 && 0 <= b < R256 && (a < m || b < m)
    ensures a * b < m * R256
    ensures m < R256 ==> LongDivRem(a * b, m, 256) % R256 == (a * b) % m
  {
    if a < m {
      MulMono2(a, b, m - 1, R256);
    } else {
      MulMono2(b, a, m - 1, R256);
    }
    MulNonneg(a, b);
    if m < R256 { ReducesBelow(a * b, m); }
  }

  /** A factor of two cancels modulo an odd number. */
  lemma {:induction false} OddCancel(k: int, m: int, n: nat)
    requires m > 0 && m % 2 == 1 && (k * Pow(2, n)) % m == 0
    ensures k % m == 0
    decreases n
  {
    if n > 0 {
      var x := k * Pow(2, n - 1);
      assert k * Pow(2, n) == 2 * x by { MulAssoc(k, 2, Pow(2, n - 1)); }
      HalveMultiple(x, m);
      OddCancel(k, m, n - 1);
    } else {
      assert Pow(2, 0) == 1;
    }
  }

  lemma {:induction false} HalveMultiple(x: int, m: int)
    requires m > 0 && m % 2 == 1 && (2 * x) % m == 0
    ensures x % m == 0
  {
    var q := (2 * x) / m;
    DivMod(2 * x, m);
    var h := m / 2;
    assert m == 2 * h + 1;
    assert q * m == 2 * (q * h) + q;
    var q' := q / 2;
    assert q == 2 * q';
    assert (2 * q') * m == 2 * (q' * m) by { MulAssoc(2, q', m); }
    DivModUnique(x, m, q', 0);
  }

  /** For the odd 256-bit moduli the reducer serves, the product is right exactly
      when a * b < m * 2^256: the first division step is at shift 255, so a larger
      product keeps a multiple of m that 256 steps cannot remove. */
  lemma {:induction false} FpMulCorrectIff(a: int, b: int, m: int)
    requires 0 <= a < R256 && 0 <= b < R256
    requires R256 / 2 <= m < R256 && m % 2 == 1
    ensures LongDivRem(a * b, m, 256) % R256 == (a * b) % m <==> a * b < m * R256
  {
    var w := a * b;
    MulNonneg(a, b);
    if w < m * R256 {
      ReducesBelow(w, m);
    } else {
      ShiftCount();
      LongDivSaturates(w, m, 256);
      MulMono2(a, b, R256 - 1, R256 - 1);
      var v := w - m * (R256 - 1);
      assert m <= v < m * R256;
      if v % R256 == w % m {
        CoincidenceIsLarge(w, m, v);
      }
    }
  }

  /** If the low half of v agrees with the residue by coincidence, v is huge:
      its high half is a positive multiple of m. */
  lemma {:induction false} CoincidenceIsLarge(w: int, m: int, v: int)
    requires 0 < m < R256 && m % 2 == 1 && m <= v
    requires v == w - m * (R256 - 1)
    requires v % R256 == w % m
    ensures v >= m * R256
  {
    var k := v / R256;
    DivMod(v, R256);
    DivMod(w, m);
    assert k * R256 == (w / m - (R256 - 1)) * m;
    ModShift(0, w / m - (R256 - 1), m);
    ModSmall(0, m);
    ShiftCount();
    OddCancel(k, m, 256);
    PositiveMultiple(k, m);
  }

  lemma {:induction false} PositiveMultiple(k: int, m: int)
    requires m > 0 && k > 0 && k % m == 0
    ensures k >= m
  {
    if k < m { ModSmall(k, m); }
  }

  /** The header allows any 256-bit operands; this product modulo n comes out wrong. */
  lemma {:induction false} FpMulUnreducedOperands()
    ensures LongDivRem((R256 - 1) * (R256 - 1), P256_N, 256) % R256 != ((R256 - 1) * (R256 - 1)) % P256_N
  {
    FpMulCorrectIff(R256 - 1, R256 - 1, P256_N);
  }

  /** What comes out for every modulus and all 256-bit operands: the residue while the
      product is below m * 2^256, and otherwise the low 256 bits of the product plus m. */
  lemma {:induction false} FpMulValue(a: int, b: int, m: int)
    requires 0 <= a < R256 && 0 <= b < R256 && 0 < m < R256
    ensures LongDivRem(a * b, m, 256) % R256 == if a * b < m * R256 then (a * b) % m else (a * b + m) % R256
  {
    hide LongDivRem, Pow;
    var w := a * b;
    MulNonneg(a, b);
    if w < m * R256 {
      ReducesBelow(w, m);
    } else {
      ShiftCount();
      LongDivSaturates(w, m, 256);
      LowBits(w, m);
    }
  }

  lemma {:induction false} LowBits(w: int, m: int)
    ensures (w - m * (R256 - 1)) % R256 == (w + m) % R256
  {
    ModShift(w - m * (R256 - 1), m, R256);
  }
}
