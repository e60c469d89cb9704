/** Little-endian numbers in a fixed base, and the single steps that carry,
    borrow and compare loops take. Digits may exceed the base (lazy carries). */
module Limbs {
  import opened Arith

  /** The integer that the digits s denote, s[0] least significant. */
  function Val(b: int, s: seq<int>): int
  {
    if |s| == 0 then 0
    else Val(b, s[..|s| - 1]) + s[|s| - 1] * Pow(b, |s| - 1)
  }

  ghost predicate Digits(b: int, s: seq<int>)
  {
    forall i :: 0 <= i < |s| ==> 0 <= s[i] < b
  }

  lemma {:induction false} ValSnoc(b: int, s: seq<int>, k: nat)
    requires k < |s|
    ensures Val(b, s[..k + 1]) == Val(b, s[..k]) + s[k] * Pow(b, k)
  {
    assert s[..k + 1][..k] == s[..k];
  }

  lemma {:induction false} ValBound(b: int, s: seq<int>)
    requires b > 0 && Digits(b, s)
    ensures 0 <= Val(b, s) < Pow(b, |s|)
  {
    if |s| > 0 {
      var k := |s| - 1;
      ValBound(b, s[..k]);
      PowPos(b, k);
      MulMono(s[k], b - 1, Pow(b, k));
      MulNonneg(s[k], Pow(b, k));
      assert (b - 1) * Pow(b, k) == Pow(b, k + 1) - Pow(b, k);
    }
  }

  lemma {:induction false} ValAppend(b: int, s: seq<int>, t: seq<int>)
    ensures Val(b, s + t) == Val(b, s) + Pow(b, |s|) * Val(b, t)
  {
    if |t| == 0 {
      assert s + t == s;
    } else {
      var k := |t| - 1;
      assert (s + t)[..|s| + k] == s + t[..k];
      ValAppend(b, s, t[..k]);
      PowAdd(b, |s|, k);
      var p, q := Pow(b, |s|), Pow(b, k);
      assert p * (Val(b, t[..k]) + t[k] * q) == p * Val(b, t[..k]) + t[k] * (p * q);
    }
  }

  lemma {:induction false} ValSplit(b: int, s: seq<int>, k: nat)
    requires k <= |s|
    ensures Val(b, s) == Val(b, s[..k]) + Pow(b, k) * Val(b, s[k..])
  {
    assert s == s[..k] + s[k..];
    ValAppend(b, s[..k], s[k..]);
  }

  lemma {:induction false} ValZero(b: int, s: seq<int>)
    requires forall i :: 0 <= i < |s| ==> s[i] == 0
    ensures Val(b, s) == 0
  {
    if |s| > 0 { ValZero(b, s[..|s| - 1]); }
  }

  lemma {:induction false} ValUpdate(b: int, s: seq<int>, k: nat, v: int)
    requires k < |s|
    ensures Val(b, s[k := v]) == Val(b, s) + (v - s[k]) * Pow(b, k)
  {
    var n := |s| - 1;
    var t := s[k := v];
    if k == n {
      assert t[..n] == s[..n];
      assert (v - s[k]) * Pow(b, k) == v * Pow(b, k) - s[k] * Pow(b, k);
    } else {
      assert t[..n] == s[..n][k := v];
      ValUpdate(b, s[..n], k, v);
    }
  }

  lemma {:induction false} LeadingDigit(p: int, lo: int, x: int, lo': int, x': int)
    requires 0 <= lo < p && 0 <= lo' && x < x'
    ensures lo + x * p < lo' + x' * p
  {
    MulMono(x + 1, x', p);
  }

  /** The most significant differing digit decides the order. */
  lemma {:induction false} ValTopDiffers(b: int, s: seq<int>, t: seq<int>, k: nat)
    requires b > 0 && |s| == |t| && k < |s| && Digits(b, s) && Digits(b, t)
    requires s[k] < t[k] && s[k + 1..] == t[k + 1..]
    ensures Val(b, s) < Val(b, t)
  {
    ValSplit(b, s, k + 1);
    ValSplit(b, t, k + 1);
    ValSnoc(b, s, k);
    ValSnoc(b, t, k);
    ValBound(b, s[..k]);
    ValBound(b, t[..k]);
    LeadingDigit(Pow(b, k), Val(b, s[..k]), s[k], Val(b, t[..k]), t[k]);
  }

  lemma {:induction false} ValInjective(b: int, s: seq<int>, t: seq<int>)
    requires b > 0 && |s| == |t| && Digits(b, s) && Digits(b, t)
    requires Val(b, s) == Val(b, t)
    ensures s == t
  {
    if |s| > 0 {
      var k := |s| - 1;
      ValBound(b, s[..k]);
      ValBound(b, t[..k]);
      if s[k] < t[k] {
        LeadingDigit(Pow(b, k), Val(b, s[..k]), s[k], Val(b, t[..k]), t[k]);
      } else if t[k] < s[k] {
        LeadingDigit(Pow(b, k), Val(b, t[..k]), t[k], Val(b, s[..k]), s[k]);
      } else {
        ValInjective(b, s[..k], t[..k]);
        assert s == s[..k] + [s[k]] && t == t[..k] + [t[k]];
      }
    }
  }

  lemma {:induction false} ValCons(b: int, x: int, t: seq<int>)
    ensures Val(b, [x] + t) == x + b * Val(b, t)
  {
    ValAppend(b, [x], t);
    assert [x][..0] == [];
    assert Pow(b, 0) == 1 && Pow(b, 1) == b;
  }

  lemma {:induction false} ValHigh(b: int, s: seq<int>, k: nat)
    requires b > 0 && k <= |s| && Digits(b, s)
    ensures Pow(b, k) > 0
    ensures Val(b, s) / Pow(b, k) == Val(b, s[k..])
    ensures Val(b, s) % Pow(b, k) == Val(b, s[..k])
  {
    PowPos(b, k);
    ValSplit(b, s, k);
    ValBound(b, s[..k]);
    DivModOf(Val(b, s[..k]), Pow(b, k), Val(b, s[k..]));
  }

  /** Digit k of a normalised number. */
  lemma {:induction false} ValDigit(b: int, s: seq<int>, k: nat)
    requires b > 0 && k < |s| && Digits(b, s)
    ensures Pow(b, k) > 0
    ensures Val(b, s) / Pow(b, k) == s[k] + b * Val(b, s[k + 1..])
    ensures (Val(b, s) / Pow(b, k)) % b == s[k]
  {
    ValHigh(b, s, k);
    assert s[k..] == [s[k]] + s[k + 1..];
    ValCons(b, s[k], s[k + 1..]);
    DivModOf(s[k], b, Val(b, s[k + 1..]));
  }

  /** Limbs of g digits in base c: digit j of limb k is digit g * k + j of the number. */
  lemma {:induction false} ValSubDigit(c: int, g: nat, s: seq<int>, k: nat, j: nat)
    requires c > 0 && k < |s| && j < g && Digits(Pow(c, g), s)
    ensures Pow(c, j) > 0
    ensures (s[k] / Pow(c, j)) % c == DigitAt(c, Val(Pow(c, g), s), g * k + j)
  {
    var b := Pow(c, g);
    PowPos(c, g);
    PowPos(c, j);
    PowPow(c, g, k);
    PowPos(b, k);
    ValDigit(b, s, k);
    PowAdd(c, g * k, j);
    PowPos(c, g * k + j);
    DivDiv(Val(b, s), Pow(b, k), Pow(c, j));
    LowDigit(s[k], Val(b, s[k + 1..]), c, g, j);
  }

  lemma {:induction false} LowDigit(x: int, hi: int, c: int, g: nat, j: nat)
    requires c > 0 && j < g
    ensures Pow(c, j) > 0
    ensures ((x + Pow(c, g) * hi) / Pow(c, j)) % c == (x / Pow(c, j)) % c
  {
    PowPos(c, j);
    PowAdd(c, j, g - j);
    assert Pow(c, g - j) == c * Pow(c, g - j - 1);
    MultipleQuotient(x, hi, Pow(c, j), c, Pow(c, g - j - 1));
  }

  lemma {:induction false} MultipleQuotient(x: int, hi: int, d: int, c: int, h: int)
    requires d > 0 && c > 0
    ensures ((x + d * (c * h) * hi) / d) % c == (x / d) % c
  {
    var e := h * hi;
    assert d * (c * h) * hi == (e * c) * d by {
      MulAssoc(d, c * h, hi);
      MulAssoc(c, h, hi);
    }
    DivMod(x, d);
    assert (x / d) * d + (e * c) * d == (x / d + e * c) * d;
    DivModUnique(x + d * (c * h) * hi, d, x / d + e * c, x % d);
    ModShift(x / d, e, c);
  }

  // ---- carry and borrow loops ----

  lemma {:induction false} ValPush(b: int, low: seq<int>, d: int)
    ensures Val(b, low + [d]) == Val(b, low) + d * Pow(b, |low|)
  {
    assert (low + [d])[..|low|] == low;
  }

  /** i columns of x + y are done: the digits low and a carry c. */
  ghost predicate SumDone(b: int, low: seq<int>, c: int, x: seq<int>, y: seq<int>, i: nat)
    requires i <= |x| && i <= |y|
  {
    |low| == i && Val(b, low) + c * Pow(b, i) == Val(b, x[..i]) + Val(b, y[..i])
  }

  lemma {:induction false} SumStart(b: int, low: seq<int>, c: int, x: seq<int>, y: seq<int>)
    requires low == [] && c == 0
    ensures SumDone(b, low, c, x, y, 0)
  {
    assert x[..0] == [] && y[..0] == [];
  }

  lemma {:induction false} SumStep(b: int, low: seq<int>, c: int, x: seq<int>, y: seq<int>, i: nat, d: int, c': int)
    requires i < |x| && i < |y| && SumDone(b, low, c, x, y, i)
    requires d + c' * b == c + x[i] + y[i]
    ensures SumDone(b, low + [d], c', x, y, i + 1)
  {
    ValPush(b, low, d);
    ValSnoc(b, x, i);
    ValSnoc(b, y, i);
    Scale3(d, c', b, c, x[i], y[i], Pow(b, i));
  }

  lemma {:induction false} Scale3(d: int, c': int, b: int, c: int, x: int, y: int, p: int)
    requires d + c' * b == c + x + y
    ensures d * p + c' * (b * p) == c * p + x * p + y * p
  {
    assert (d + c' * b) * p == c * p + x * p + y * p;
    assert (d + c' * b) * p == d * p + c' * (b * p);
  }

  lemma {:induction false} SumEnd(b: int, low: seq<int>, c: int, x: seq<int>, y: seq<int>)
    requires |x| == |y| && SumDone(b, low, c, x, y, |x|)
    ensures Val(b, low) + c * Pow(b, |x|) == Val(b, x) + Val(b, y)
  {
    assert x[..|x|] == x && y[..|y|] == y;
  }

  /** i columns of x - y are done: the digits low and a borrow br. */
  ghost predicate DiffDone(b: int, low: seq<int>, br: int, x: seq<int>, y: seq<int>, i: nat)
    requires i <= |x| && i <= |y|
  {
    |low| == i && Val(b, low) - br * Pow(b, i) == Val(b, x[..i]) - Val(b, y[..i])
  }

  lemma {:induction false} DiffStart(b: int, low: seq<int>, br: int, x: seq<int>, y: seq<int>)
    requires low == [] && br == 0
    ensures DiffDone(b, low, br, x, y, 0)
  {
    assert x[..0] == [] && y[..0] == [];
  }

  lemma {:induction false} DiffStep(b: int, low: seq<int>, br: int, x: seq<int>, y: seq<int>, i: nat, d: int, br': int)
    requires i < |x| && i < |y| && DiffDone(b, low, br, x, y, i)
    requires d - br' * b == x[i] - y[i] - br
    ensures DiffDone(b, low + [d], br', x, y, i + 1)
  {
    ValPush(b, low, d);
    ValSnoc(b, x, i);
    ValSnoc(b, y, i);
    Scale3Diff(d, br', b, br, x[i], y[i], Pow(b, i));
  }

  lemma {:induction false} Scale3Diff(d: int, br': int, b: int, br: int, x: int, y: int, p: int)
    requires d - br' * b == x - y - br
    ensures d * p - br' * (b * p) == x * p - y * p - br * p
  {
    assert (d - br' * b) * p == x * p - y * p - br * p;
    assert (d - br' * b) * p == d * p - br' * (b * p);
  }

  /** The digit difference is the true difference, plus b^n when it would be negative. */
  lemma {:induction false} DiffEnd(b: int, low: seq<int>, br: int, x: seq<int>, y: seq<int>)
    requires |x| == |y| && DiffDone(b, low, br, x, y, |x|) && b > 0
    requires Digits(b, low) && Digits(b, x) && Digits(b, y) && 0 <= br <= 1
    ensures Val(b, x) >= Val(b, y) ==> br == 0 && Val(b, low) == Val(b, x) - Val(b, y)
    ensures Val(b, x) < Val(b, y) ==> br == 1 && Val(b, low) == Val(b, x) - Val(b, y) + Pow(b, |x|)
  {
    hide Val, Pow;
    assert x[..|x|] == x && y[..|y|] == y;
    ValBound(b, low);
    ValBound(b, x);
    ValBound(b, y);
    if br == 0 { assert br * Pow(b, |x|) == 0; } else { assert br * Pow(b, |x|) == Pow(b, |x|); }
  }

  /** i columns of t are carried: digits low, carry c into the next column. */
  ghost predicate Carried(b: int, low: seq<int>, c: int, t: seq<int>, i: nat)
    requires i <= |t|
  {
    |low| == i && Val(b, low) + c * Pow(b, i) == Val(b, t[..i])
  }

  lemma {:induction false} CarryStart(b: int, low: seq<int>, c: int, t: seq<int>)
    requires low == [] && c == 0
    ensures Carried(b, low, c, t, 0)
  {
    assert t[..0] == [];
  }

  lemma {:induction false} CarryNext(b: int, low: seq<int>, c: int, t: seq<int>, i: nat, d: int, c': int)
    requires i < |t| && Carried(b, low, c, t, i) && d + c' * b == c + t[i]
    ensures Carried(b, low + [d], c', t, i + 1)
  {
    ValPush(b, low, d);
    ValSnoc(b, t, i);
    Scale3(d, c', b, c, t[i], 0, Pow(b, i));
  }

  lemma {:induction false} CarryEnd(b: int, low: seq<int>, c: int, t: seq<int>)
    requires Carried(b, low, c, t, |t|)
    ensures Val(b, low) + c * Pow(b, |t|) == Val(b, t)
  {
    assert t[..|t|] == t;
  }

  /** Row i of a schoolbook product adds a[i] * n at weight b^i. */
  lemma {:induction false} ProductRow(b: int, a: seq<int>, i: nat, n: int)
    requires i < |a|
    ensures Val(b, a[..i + 1]) * n == Val(b, a[..i]) * n + a[i] * n * Pow(b, i)
  {
    hide Val, Pow;
    ValSnoc(b, a, i);
    MulAssoc(a[i], n, Pow(b, i));
    MulAssoc(a[i], Pow(b, i), n);
  }

  /** The first n digits of x in base b. */
  ghost function DigitsOf(b: int, x: int, n: nat): (s: seq<int>)
    requires b > 0
    ensures |s| == n && Digits(b, s)
  {
    seq(n, i requires 0 <= i < n => DigitAt(b, x, i))
  }

  ghost function DigitAt(b: int, x: int, i: nat): (d: int)
    requires b > 0
    ensures 0 <= d < b
  {
    PowPos(b, i);
    (x / Pow(b, i)) % b
  }

  lemma {:induction false} RemainderDigit(b: int, x: int, i: nat)
    requires b > 0
    ensures Pow(b, i) > 0 && Pow(b, i + 1) > 0
    ensures x % Pow(b, i + 1) == x % Pow(b, i) + DigitAt(b, x, i) * Pow(b, i)
  {
    PowPos(b, i);
    PowPos(b, i + 1);
    var p := Pow(b, i);
    DivDiv(x, p, b);
    assert p * b == Pow(b, i + 1);
  }

  lemma {:induction false} DigitsOfValue(b: int, x: int, n: nat)
    requires b > 0
    ensures Pow(b, n) > 0 && Val(b, DigitsOf(b, x, n)) == x % Pow(b, n)
  {
    PowPos(b, n);
    if n > 0 {
      DigitsOfValue(b, x, n - 1);
      assert DigitsOf(b, x, n) == DigitsOf(b, x, n - 1) + [DigitAt(b, x, n - 1)];
      ValPush(b, DigitsOf(b, x, n - 1), DigitAt(b, x, n - 1));
      RemainderDigit(b, x, n - 1);
    } else {
      assert Pow(b, 0) == 1;
    }
  }

  // ---- bytes ----

  lemma {:induction false} Eight(s: seq<int>)
    requires |s| == 8
    ensures Val(0x100, s) == s[0] + s[1] * 0x100 + s[2] * 0x1_0000 + s[3] * 0x100_0000 + s[4] * 0x1_0000_0000
      + s[5] * 0x100_0000_0000 + s[6] * 0x1_0000_0000_0000 + s[7] * 0x100_0000_0000_0000
  {
    ValSplit(0x100, s, 4);
    Four(s[..4]);
    Four(s[4..]);
    PowAdd(0x100, 1, 1);
    PowAdd(0x100, 2, 2);
  }

  lemma {:induction false} Four(s: seq<int>)
    requires |s| == 4
    ensures Val(0x100, s) == s[0] + s[1] * 0x100 + s[2] * 0x1_0000 + s[3] * 0x100_0000
  {
    assert s[..4] == s && s[..0] == [];
    ValSnoc(0x100, s, 0);
    ValSnoc(0x100, s, 1);
    ValSnoc(0x100, s, 2);
    ValSnoc(0x100, s, 3);
    assert Pow(0x100, 0) == 1 && Pow(0x100, 1) == 0x100;
    PowAdd(0x100, 1, 1);
    PowAdd(0x100, 2, 1);
  }

  // ---- big-endian bytes ----

  ghost function Reversed(s: seq<int>): (t: seq<int>)
    ensures |t| == |s|
  {
    seq(|s|, i requires 0 <= i < |s| => s[|s| - 1 - i])
  }

  /** The integer a big-endian byte string denotes. */
  ghost function BeVal(s: seq<int>): int
  {
    Val(0x100, Reversed(s))
  }

  /** A byte string read one byte at a time, the most significant first. */
  lemma {:induction false} BeValPush(s: seq<int>, x: int)
    ensures BeVal(s + [x]) == 0x100 * BeVal(s) + x
  {
    assert Reversed(s + [x]) == [x] + Reversed(s);
    ValCons(0x100, x, Reversed(s));
  }

  // ---- bits ----

  ghost function Bit(x: int, n: nat): (d: int)
    ensures 0 <= d < 2
  {
    DigitAt(2, x, n)
  }

  /** Bit `bit` of a number stored in 64-bit limbs, by one shift and mask. */
  function LimbBit(s: seq<u64>, bit: nat): (d: int)
    requires bit < 64 * |s|
    ensures 0 <= d < 2
  {
    PowPos(2, bit % 64);
    (s[bit / 64] / Pow(2, bit % 64)) % 2
  }

  lemma {:induction false} LimbBitIsBit(s: seq<u64>, bit: nat)
    requires bit < 64 * |s|
    ensures LimbBit(s, bit) == Bit(Val(B64, s), bit)
  {
    TwoTo64();
    ValSubDigit(2, 64, s, bit / 64, bit % 64);
  }

  lemma {:induction false} TwoTo64()
    ensures Pow(2, 8) == 0x100 && Pow(2, 32) == 0x1_0000_0000 && Pow(2, 64) == B64
  {
    PowAdd(2, 1, 1);
    PowAdd(2, 2, 2);
    PowAdd(2, 4, 4);
    PowAdd(2, 8, 8);
    PowAdd(2, 16, 16);
    PowAdd(2, 32, 32);
  }

  lemma {:induction false} ByteBit(s: seq<byte>, i: nat)
    requires i < 8 * |s|
    ensures Pow(2, i % 8) > 0 && (s[i / 8] / Pow(2, i % 8)) % 2 == Bit(Val(0x100, s), i)
  {
    TwoTo64();
    ValSubDigit(2, 8, s, i / 8, i % 8);
  }

  lemma {:induction false} HighBitsZero(x: int, n: nat, k: nat)
    requires 0 <= x < Pow(2, n) && n <= k
    ensures Pow(2, k) > 0 && x / Pow(2, k) == 0
  {
    PowMonotone(2, n, k);
    PowPos(2, k);
    DivModUnique(x, Pow(2, k), 0, x);
  }

  /** Peeling the lowest bit off a quotient. */
  lemma {:induction false} QuotientStep(x: int, n: nat)
    ensures Pow(2, n) > 0 && Pow(2, n + 1) > 0
    ensures x / Pow(2, n) == 2 * (x / Pow(2, n + 1)) + Bit(x, n)
  {
    PowPos(2, n);
    PowPos(2, n + 1);
    DivDiv(x, Pow(2, n), 2);
    assert Pow(2, n) * 2 == Pow(2, n + 1);
    DivMod(x / Pow(2, n), 2);
  }

  // ---- square-and-multiply from the low bit ----

  /** Exponent bits below `bit` are used up; the next bit either joins in or not. */
  lemma {:induction false} PowBit(a: int, e: int, bit: nat)
    requires e >= 0
    ensures Pow(2, bit) > 0 && Pow(2, bit + 1) > 0
    ensures Bit(e, bit) == 1 ==> Pow(a, e % Pow(2, bit + 1)) == Pow(a, e % Pow(2, bit)) * Pow(a, Pow(2, bit))
    ensures Bit(e, bit) == 0 ==> Pow(a, e % Pow(2, bit + 1)) == Pow(a, e % Pow(2, bit))
    ensures Pow(a, Pow(2, bit + 1)) == Pow(a, Pow(2, bit)) * Pow(a, Pow(2, bit))
  {
    RemainderDigit(2, e, bit);
    assert Bit(e, bit) * Pow(2, bit) == if Bit(e, bit) == 1 then Pow(2, bit) else 0;
    PowAdd(a, e % Pow(2, bit), Pow(2, bit));
    PowAdd(a, Pow(2, bit), Pow(2, bit));
  }
}
