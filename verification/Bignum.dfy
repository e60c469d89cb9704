/** The fixed 4096-bit integer: 64 little-endian 64-bit limbs, its big-endian
    byte forms and its comparison (src/crypto/asymmetric/bignum/bignum.c). */
module Bignum {
  import opened Arith
  import opened Limbs

  const LIMBS: nat := 64

  ghost function Bn(a: array<u64>): (v: int)
    requires a.Length == LIMBS
    reads a
    ensures 0 <= v < Pow(B64, LIMBS)
  {
    ValBound(B64, a[..]);
    Val(B64, a[..])
  }

  lemma {:induction false} ByteLimb()
    ensures Pow(0x100, 8) == B64
  {
    TwoTo64();
    PowPow(2, 8, 8);
  }

  lemma {:induction false} BytePosition(i: nat)
    ensures Pow(0x100, i) == Pow(0x100, i % 8) * Pow(B64, i / 8)
  {
    ByteLimb();
    PowPow(0x100, 8, i / 8);
    assert i == i % 8 + 8 * (i / 8);
    PowAdd(0x100, i % 8, 8 * (i / 8));
  }

  /** The byte ORed into its limb lands above the bytes already there. */
  lemma {:induction false} BytePlaced(limb: int, x: int, j: nat)
    requires j < 8 && 0 <= limb < Pow(0x100, j) && 0 <= x < 0x100
    ensures 0 <= limb + x * Pow(0x100, j) < Pow(0x100, j + 1) <= B64
  {
    PowPos(0x100, j);
    MulMono(x, 0xff, Pow(0x100, j));
    MulNonneg(x, Pow(0x100, j));
    PowMonotone(0x100, j + 1, 8);
    ByteLimb();
  }

  method BnFromBe(out: array<u64>, be: seq<byte>)
    requires out.Length == LIMBS && |be| <= 8 * LIMBS
    modifies out
    ensures Bn(out) == BeVal(be)
  {
    hide Pow, Val;
    var i := 0;
    while i < LIMBS
      invariant 0 <= i <= LIMBS && forall k :: 0 <= k < i ==> out[k] == 0
    {
      out[i] := 0;
      i := i + 1;
    }
    ghost var r := Reversed(be);
    ValZero(B64, out[..]);
    ValZero(0x100, r[..0]);
    PowZero(0x100);
    i := 0;
    while i < |be|
      invariant 0 <= i <= |be|
      invariant Val(B64, out[..]) == Val(0x100, r[..i])
      invariant forall k :: 0 <= k < LIMBS && k > i / 8 ==> out[k] == 0
      invariant i / 8 < LIMBS ==> out[i / 8] < Pow(0x100, i % 8)
    {
      var pos := |be| - 1 - i;
      var k, j := i / 8, i % 8;
      ghost var before := out[..];
      BytePlaced(out[k], be[pos], j);
      out[k] := out[k] + be[pos] * Pow(0x100, j);
      assert out[..] == before[k := out[k]];
      ValUpdate(B64, before, k, out[k]);
      BytePosition(i);
      ValSnoc(0x100, r, i);
      MulAssoc(be[pos], Pow(0x100, j), Pow(B64, k));
      if j == 7 {
        assert (i + 1) / 8 == k + 1 && (i + 1) % 8 == 0;
        PowZero(0x100);
      } else {
        assert (i + 1) / 8 == k && (i + 1) % 8 == j + 1;
      }
      i := i + 1;
    }
    assert r[..|be|] == r;
  }

  lemma {:induction false} PowZero(b: int)
    ensures Pow(b, 0) == 1
  {}

  /** Writes the low |be| bytes of the number, most significant first. */
  method BnToBe(a: array<u64>, be: array<byte>)
    requires a.Length == LIMBS && be.Length <= 8 * LIMBS
    modifies be
    ensures Pow(0x100, be.Length) > 0 && BeVal(be[..]) == Bn(a) % Pow(0x100, be.Length)
  {
    hide Pow, Val;
    ghost var v := Bn(a);
    var n := be.Length;
    var i := 0;
    while i < n
      invariant 0 <= i <= n && a[..] == old(a[..])
      invariant forall k :: 0 <= k < i ==> be[k] == DigitAt(0x100, v, n - 1 - k)
    {
      var fromLsb := n - 1 - i;
      var limb := a[fromLsb / 8];
      ByteLimb();
      ValSubDigit(0x100, 8, a[..], fromLsb / 8, fromLsb % 8);
      be[i] := (limb / Pow(0x100, fromLsb % 8)) % 0x100;
      i := i + 1;
    }
    assert Reversed(be[..]) == DigitsOf(0x100, v, n);
    DigitsOfValue(0x100, v, n);
  }

  /** Storing a loaded number over the same length gives the same bytes back. */
  lemma {:induction false} LoadThenStore(be: seq<byte>, be': seq<byte>)
    requires |be'| == |be| && Pow(0x100, |be|) > 0 && BeVal(be') == BeVal(be) % Pow(0x100, |be|)
    ensures be' == be
  {
    var n := |be|;
    ValBound(0x100, Reversed(be));
    ModSmall(BeVal(be), Pow(0x100, n));
    ValInjective(0x100, Reversed(be'), Reversed(be));
    forall i | 0 <= i < n ensures be'[i] == be[i] {
      assert Reversed(be')[n - 1 - i] == Reversed(be)[n - 1 - i];
    }
  }

  function LimbCmp(x: u64, y: u64): int
  {
    if x < y then -1 else if x > y then 1 else 0
  }

  method BnCmp(a: array<u64>, b: array<u64>) returns (c: int)
    requires a.Length == LIMBS && b.Length == LIMBS
    ensures -1 <= c <= 1
    ensures c < 0 <==> Bn(a) < Bn(b)
    ensures c > 0 <==> Bn(a) > Bn(b)
  {
    hide Val, Pow;
    var k := LIMBS;
    while k > 0
      invariant 0 <= k <= LIMBS && a[k..] == b[k..]
    {
      c := LimbCmp(a[k - 1], b[k - 1]);
      if c != 0 {
        assert a[..][k..] == a[k..] && b[..][k..] == b[k..];
        if c < 0 {
          ValTopDiffers(B64, a[..], b[..], k - 1);
        } else {
          ValTopDiffers(B64, b[..], a[..], k - 1);
        }
        return;
      }
      k := k - 1;
    }
    assert a[0..] == a[..] && b[0..] == b[..];
    c := 0;
  }
}
