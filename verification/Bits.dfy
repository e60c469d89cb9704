/** Bitwise AND, OR and XOR on non-negative integers, as the C operators compute them,
    and the identities that masks rely on. */
module Bits {
  import opened Arith

  function And(x: nat, y: nat): (r: nat)
    ensures r <= x && r <= y
  {
    if x == 0 || y == 0 then 0
    else (if x % 2 == 1 && y % 2 == 1 then 1 else 0) + 2 * And(x / 2, y / 2)
  }

  function Xor(x: nat, y: nat): nat
    decreases x + y
  {
    if x == 0 && y == 0 then 0
    else (x % 2 + y % 2) % 2 + 2 * Xor(x / 2, y / 2)
  }

  function Or(x: nat, y: nat): (r: nat)
    ensures r >= x && r >= y
    decreases x + y
  {
    if x == 0 && y == 0 then 0
    else (if x % 2 == 1 || y % 2 == 1 then 1 else 0) + 2 * Or(x / 2, y / 2)
  }

  /** A mask of n ones keeps the low n bits. */
  lemma {:induction false} AndOnes(x: nat, n: nat)
    ensures Pow(2, n) > 0 && And(x, Pow(2, n) - 1) == x % Pow(2, n)
  {
    PowPos(2, n);
    if n == 0 {
      assert Pow(2, 0) == 1;
    } else if x == 0 {
      ModSmall(0, Pow(2, n));
    } else {
      AndOnes(x / 2, n - 1);
      assert (Pow(2, n) - 1) / 2 == Pow(2, n - 1) - 1 && (Pow(2, n) - 1) % 2 == 1;
      PowPos(2, n - 1);
      DivDiv(x, 2, Pow(2, n - 1));
    }
  }

  lemma {:induction false} AndSplitStep(x: nat, hi: nat, u: nat, v: nat, p: int)
    requires p > 0 && p * hi >= 0 && p * v >= 0 && (2 * p) * hi >= 0 && (2 * p) * v >= 0
    requires And(x / 2 + p * hi, u / 2 + p * v) == And(x / 2, u / 2) + p * And(hi, v)
    ensures And(x + (2 * p) * hi, u + (2 * p) * v) == And(x, u) + (2 * p) * And(hi, v)
  {
    hide And;
    HalveShifted(x, p, hi);
    HalveShifted(u, p, v);
    AndUnfold(x + (2 * p) * hi, u + (2 * p) * v);
    AndUnfold(x, u);
    MulAssoc(2, p, And(hi, v));
  }

  /** AND acts separately on the bits below and above position n. */
  lemma {:induction false} AndSplit(x: nat, hi: nat, u: nat, v: nat, n: nat)
    requires x < Pow(2, n) && u < Pow(2, n)
    ensures Pow(2, n) * hi >= 0 && Pow(2, n) * v >= 0
    ensures And(x + Pow(2, n) * hi, u + Pow(2, n) * v) == And(x, u) + Pow(2, n) * And(hi, v)
    decreases n
  {
    hide And;
    PowPos(2, n);
    MulNonneg(Pow(2, n), hi);
    MulNonneg(Pow(2, n), v);
    if n == 0 {
      assert Pow(2, 0) == 1;
      AndUnfold(0, 0);
    } else {
      PowPos(2, n - 1);
      AndSplit(x / 2, hi, u / 2, v, n - 1);
      AndSplitStep(x, hi, u, v, Pow(2, n - 1));
    }
  }

  lemma {:induction false} AndUnfold(x: nat, y: nat)
    ensures And(x, y) == (if x % 2 == 1 && y % 2 == 1 then 1 else 0) + 2 * And(x / 2, y / 2)
  {}

  lemma {:induction false} AndCommutes(x: nat, y: nat)
    ensures And(x, y) == And(y, x)
  {
    if x > 0 && y > 0 { AndCommutes(x / 2, y / 2); }
  }

  lemma {:induction false} AndZero(x: nat)
    ensures And(0, x) == 0
  {}

  lemma {:induction false} HalveShifted(x: nat, p: int, hi: int)
    requires p > 0
    ensures (x + (2 * p) * hi) / 2 == x / 2 + p * hi && (x + (2 * p) * hi) % 2 == x % 2
  {
    MulAssoc(2, p, hi);
    DivModUnique(x + (2 * p) * hi, 2, x / 2 + p * hi, x % 2);
  }

  lemma {:induction false} XorUnfold(x: nat, y: nat)
    ensures Xor(x, y) % 2 == (x % 2 + y % 2) % 2 && Xor(x, y) / 2 == Xor(x / 2, y / 2)
  {
    DivModUnique(Xor(x, y), 2, Xor(x / 2, y / 2), (x % 2 + y % 2) % 2);
  }

  lemma {:induction false} XorCancelStep(x: nat, y: nat)
    requires Xor(x / 2, Xor(x / 2, y / 2)) == y / 2 && Xor(y / 2, Xor(x / 2, y / 2)) == x / 2
    ensures Xor(x, Xor(x, y)) == y && Xor(y, Xor(x, y)) == x
  {
    hide Xor;
    var z := Xor(x, y);
    XorUnfold(x, y);
    XorUnfold(x, z);
    XorUnfold(y, z);
    DivMod(Xor(x, z), 2);
    DivMod(Xor(y, z), 2);
  }

  /** XOR twice with the same operand undoes itself. */
  lemma {:induction false} XorCancel(x: nat, y: nat)
    ensures Xor(x, Xor(x, y)) == y && Xor(y, Xor(x, y)) == x
    decreases x + y
  {
    if x > 0 || y > 0 {
      XorCancel(x / 2, y / 2);
      XorCancelStep(x, y);
    }
  }

  lemma {:induction false} XorZero(x: nat)
    ensures Xor(x, 0) == x
  {
    if x > 0 {
      XorZero(x / 2);
      XorUnfold(x, 0);
    }
  }

  lemma {:induction false} XorBound(x: nat, y: nat, n: nat)
    requires x < Pow(2, n) && y < Pow(2, n)
    ensures Xor(x, y) < Pow(2, n)
    decreases n
  {
    if n == 0 {
      assert Pow(2, 0) == 1;
    } else {
      XorBound(x / 2, y / 2, n - 1);
    }
  }

  /** XOR shows a difference exactly where there is one, and OR never loses it. */
  lemma {:induction false} Difference(diff: nat, x: nat, y: nat)
    ensures Or(diff, Xor(x, y)) == 0 <==> diff == 0 && x == y
  {
    XorZero(x);
    XorCancel(x, 0);
    XorCancel(x, y);
    assert Or(0, 0) == 0;
  }
}
