/** Integer facts used by every multi-limb proof: powers, quotients and
    remainders, and congruence modulo a positive integer. */
module Arith {

  type byte = x: int | 0 <= x < 0x100
  type u32 = x: int | 0 <= x < 0x1_0000_0000
  type u64 = x: int | 0 <= x < 0x1_0000_0000_0000_0000
  type u128 = x: int | 0 <= x < 0x1_0000_0000_0000_0000_0000_0000_0000_0000

  const B64: int := 0x1_0000_0000_0000_0000

  function Pow(b: int, e: nat): int
  {
    if e == 0 then 1 else b * Pow(b, e - 1)
  }

  lemma {:induction false} PowPos(b: int, e: nat)
    requires b > 0
    ensures Pow(b, e) > 0
  {
    if e > 0 {
      PowPos(b, e - 1);
      MulPos(b, Pow(b, e - 1));
    }
  }

  lemma MulPos(x: int, y: int)
    requires x > 0 && y > 0
    ensures x * y > 0
  {}

  lemma MulNonneg(x: int, y: int)
    requires x >= 0 && y >= 0
    ensures x * y >= 0
  {}

  lemma MulMono(x: int, y: int, k: int)
    requires x <= y && k >= 0
    ensures x * k <= y * k
  {
    MulNonneg(y - x, k);
    assert (y - x) * k == y * k - x * k;
  }

  lemma MulMono2(x: int, y: int, u: int, v: int)
    requires 0 <= x <= u && 0 <= y <= v
    ensures 0 <= x * y <= u * v
  {
    MulMono(x, u, y);
    MulMono(y, v, u);
    MulNonneg(x, y);
  }

  lemma {:induction false} PowAdd(b: int, i: nat, j: nat)
    ensures Pow(b, i + j) == Pow(b, i) * Pow(b, j)
  {
    if i > 0 {
      PowAdd(b, i - 1, j);
      assert Pow(b, i + j) == b * (Pow(b, i - 1) * Pow(b, j));
      MulAssoc(b, Pow(b, i - 1), Pow(b, j));
    }
  }

  lemma MulAssoc(x: int, y: int, z: int)
    ensures x * (y * z) == (x * y) * z
  {}

  lemma {:induction false} PowPow(b: int, i: nat, j: nat)
    ensures i * j >= 0 && Pow(Pow(b, i), j) == Pow(b, i * j)
  {
    if j > 0 {
      PowPow(b, i, j - 1);
      assert i * (j - 1) == i * j - i;
      PowAdd(b, i, i * (j - 1));
    }
  }

  lemma MulSwap(a: int, b: int, x: int, y: int)
    ensures (a * b) * (x * y) == (a * x) * (b * y)
  {
    MulAssoc(a, b, x * y);
    MulAssoc(b, x, y);
    MulAssoc(x, b, y);
    MulAssoc(a, x, b * y);
  }

  lemma {:induction false} PowMulBase(a: int, b: int, e: nat)
    ensures Pow(a * b, e) == Pow(a, e) * Pow(b, e)
  {
    if e > 0 {
      PowMulBase(a, b, e - 1);
      MulSwap(a, b, Pow(a, e - 1), Pow(b, e - 1));
    }
  }

  lemma {:induction false} PowMonotone(b: int, i: nat, j: nat)
    requires b >= 1 && i <= j
    ensures Pow(b, i) <= Pow(b, j)
  {
    PowAdd(b, i, j - i);
    PowPos(b, j - i);
    PowPos(b, i);
    MulMono(1, Pow(b, j - i), Pow(b, i));
  }

  lemma {:induction false} RowTerm(ai: int, low: int, bj: int, pj: int, pi: int)
    ensures ai * (low + bj * pj) * pi == ai * low * pi + (ai * bj) * (pi * pj)
  {
    assert ai * (low + bj * pj) == ai * low + ai * (bj * pj);
    assert ai * (bj * pj) == (ai * bj) * pj by { MulAssoc(ai, bj, pj); }
    var x, y := ai * low, ai * bj;
    assert (x + y * pj) * pi == x * pi + (y * pj) * pi;
    assert (y * pj) * pi == y * (pi * pj) by { MulAssoc(y, pj, pi); }
  }

  /** The product by repeated addition: x * y, but not for the solver to multiply out. */
  function Times(x: int, y: int): int
    decreases if y < 0 then -y else y
  {
    if y == 0 then 0 else if y > 0 then Times(x, y - 1) + x else Times(x, y + 1) - x
  }

  lemma {:induction false} TimesIs(x: int, y: int)
    ensures Times(x, y) == x * y
    decreases if y < 0 then -y else y
  {
    if y > 0 {
      TimesIs(x, y - 1);
    } else if y < 0 {
      TimesIs(x, y + 1);
    }
  }

  // ---- quotient and remainder ----

  lemma DivMod(x: int, d: int)
    requires d > 0
    ensures x == (x / d) * d + x % d && 0 <= x % d < d
  {}

  lemma DivModUnique(x: int, d: int, q: int, r: int)
    requires 0 <= r < d && x == q * d + r
    ensures x / d == q && x % d == r
  {
    var q', r' := x / d, x % d;
    DivMod(x, d);
    assert (q' - q) * d == r - r';
    if q' > q {
      MulMono(1, q' - q, d);
    } else if q' < q {
      MulMono(q' - q, -1, d);
    }
  }

  lemma DivModOf(r: int, d: int, q: int)
    requires 0 <= r < d
    ensures (r + d * q) / d == q && (r + d * q) % d == r
  {
    DivModUnique(r + d * q, d, q, r);
  }

  lemma DivNonneg(x: int, d: int)
    requires x >= 0 && d > 0
    ensures x / d >= 0
  {
    DivMod(x, d);
    if x / d < 0 { MulMono(x / d, -1, d); }
  }

  /** A quotient is below a bound exactly when the number is below the bound times the divisor. */
  lemma DivLess(x: int, d: int, k: int)
    requires d > 0
    ensures x / d < k <==> x < k * d
  {
    DivMod(x, d);
    if x / d < k {
      MulMono(x / d + 1, k, d);
    } else {
      MulMono(k, x / d, d);
    }
  }

  /** Dividing in two stages. */
  lemma DivDiv(x: int, c: int, d: int)
    requires c > 0 && d > 0
    ensures c * d > 0 && (x / c) / d == x / (c * d)
    ensures x % (c * d) == x % c + c * ((x / c) % d)
  {
    MulPos(c, d);
    var q, r := x / c, x % c;
    var q', r' := q / d, q % d;
    DivMod(x, c);
    DivMod(q, d);
    assert x == (q' * d + r') * c + r;
    assert (q' * d + r') * c == q' * (c * d) + c * r';
    MulMono(r', d - 1, c);
    assert c * r' + r < c * d by { assert (d - 1) * c == c * d - c; }
    MulNonneg(c, r');
    DivModUnique(x, c * d, q', c * r' + r);
  }

  // ---- congruence ----

  lemma ModShift(x: int, k: int, m: int)
    requires m > 0
    ensures (x + k * m) % m == x % m
  {
    DivMod(x, m);
    assert (x / m) * m + k * m == (x / m + k) * m;
    DivModUnique(x + k * m, m, x / m + k, x % m);
  }

  lemma ModSmall(x: int, m: int)
    requires 0 <= x < m
    ensures x % m == x
  {
    DivModUnique(x, m, 0, x);
  }

  ghost predicate Differ(x: int, y: int, k: int, m: int)
  {
    x == y + k * m
  }

  /** x and y differ by a multiple of m. */
  ghost predicate Cong(x: int, y: int, m: int)
    requires m > 0
  {
    exists k :: Differ(x, y, k, m)
  }

  lemma CongIntro(x: int, y: int, k: int, m: int)
    requires m > 0 && x == y + k * m
    ensures Cong(x, y, m)
  {
    assert Differ(x, y, k, m);
  }

  lemma CongElim(x: int, y: int, m: int) returns (k: int)
    requires m > 0 && Cong(x, y, m)
    ensures x == y + k * m
  {
    k :| Differ(x, y, k, m);
  }

  /** Congruent numbers are those with equal remainders. */
  lemma CongMod(x: int, y: int, m: int)
    requires m > 0
    ensures Cong(x, y, m) <==> x % m == y % m
  {
    if Cong(x, y, m) {
      var k := CongElim(x, y, m);
      ModShift(y, k, m);
    } else if x % m == y % m {
      DivMod(x, m);
      DivMod(y, m);
      MulMinus(x / m, y / m, m);
      CongIntro(x, y, x / m - y / m, m);
    }
  }

  lemma MulMinus(x: int, y: int, z: int)
    ensures (x - y) * z == x * z - y * z
  {
  }

  lemma CongSelf(x: int, m: int)
    requires m > 0
    ensures Cong(x, x, m)
  {
    CongIntro(x, x, 0, m);
  }

  lemma CongRemainder(x: int, m: int)
    requires m > 0
    ensures Cong(x % m, x, m) && Cong(x, x % m, m)
  {
    DivMod(x, m);
    CongIntro(x, x % m, x / m, m);
    CongSwap(x, x % m, m);
  }

  lemma CongSwap(x: int, y: int, m: int)
    requires m > 0 && Cong(x, y, m)
    ensures Cong(y, x, m)
  {
    var k := CongElim(x, y, m);
    MulMinus(0, k, m);
    CongIntro(y, x, 0 - k, m);
  }

  lemma CongTrans(x: int, y: int, z: int, m: int)
    requires m > 0 && Cong(x, y, m) && Cong(y, z, m)
    ensures Cong(x, z, m)
  {
    var k := CongElim(x, y, m);
    var l := CongElim(y, z, m);
    assert (k + l) * m == k * m + l * m;
    CongIntro(x, z, k + l, m);
  }

  lemma CongAdd(x: int, x': int, y: int, y': int, m: int)
    requires m > 0 && Cong(x, x', m) && Cong(y, y', m)
    ensures Cong(x + y, x' + y', m) && Cong(x - y, x' - y', m)
  {
    var k := CongElim(x, x', m);
    var l := CongElim(y, y', m);
    assert (k + l) * m == k * m + l * m && (k - l) * m == k * m - l * m;
    CongIntro(x + y, x' + y', k + l, m);
    CongIntro(x - y, x' - y', k - l, m);
  }

  lemma CongMul(x: int, x': int, y: int, y': int, m: int)
    requires m > 0 && Cong(x, x', m) && Cong(y, y', m)
    ensures Cong(x * y, x' * y', m)
  {
    var k := CongElim(x, x', m);
    var l := CongElim(y, y', m);
    assert (x' + k * m) * (y' + l * m) == x' * y' + (k * y' + l * x' + k * (l * m)) * m by {
      assert (x' + k * m) * (y' + l * m) == x' * y' + x' * (l * m) + (k * m) * y' + (k * m) * (l * m);
      assert x' * (l * m) == (l * x') * m;
      assert (k * m) * y' == (k * y') * m;
      assert (k * m) * (l * m) == (k * (l * m)) * m;
    }
    CongIntro(x * y, x' * y', k * y' + l * x' + k * (l * m), m);
  }

  lemma CongShift(x: int, y: int, c: int, m: int)
    requires m > 0 && Cong(x, y, m)
    ensures Cong(x + c, y + c, m) && Cong(c + x, c + y, m)
  {
    CongSelf(c, m);
    CongAdd(x, y, c, c, m);
  }

  lemma CongScale(x: int, y: int, c: int, m: int)
    requires m > 0 && Cong(x, y, m)
    ensures Cong(x * c, y * c, m) && Cong(c * x, c * y, m)
  {
    CongSelf(c, m);
    CongMul(x, y, c, c, m);
    CongMul(c, c, x, y, m);
  }

  lemma {:induction false} CongPow(x: int, y: int, e: nat, m: int)
    requires m > 0 && Cong(x, y, m)
    ensures Cong(Pow(x, e), Pow(y, e), m)
  {
    if e == 0 {
      CongSelf(1, m);
    } else {
      CongPow(x, y, e - 1, m);
      CongMul(x, y, Pow(x, e - 1), Pow(y, e - 1), m);
    }
  }

  /** A reduced number is determined by its residue. */
  lemma CongReduced(x: int, y: int, m: int)
    requires 0 <= x < m && Cong(x, y, m)
    ensures x == y % m
  {
    ModSmall(x, m);
    CongMod(x, y, m);
  }
}
