/** Schoolbook multiplication modulo b^n - k: a product term that crosses b^n
    wraps to the bottom multiplied by k. Shared by Poly1305 (b = 2^26, k = 5)
    and Curve25519 (b = 2^51, k = 19). */
module PseudoMersenne {
  import opened Arith
  import opened Limbs

  /** Limb i of g multiplied by b^j, wrapped. */
  function WrapAt(k: int, g: seq<int>, j: nat, i: nat): int
    requires j <= |g| && i < |g|
  {
    if i >= j then g[i - j] else g[|g| + i - j] * k
  }

  /** Column i of the product after the first j rows. */
  function Column(k: int, f: seq<int>, g: seq<int>, i: nat, j: nat): int
    requires j <= |f| == |g| && i < |g|
  {
    if j == 0 then 0 else Column(k, f, g, i, j - 1) + f[j - 1] * WrapAt(k, g, j - 1, i)
  }

  ghost function Wrapped(k: int, g: seq<int>, j: nat): (s: seq<int>)
    requires j <= |g|
    ensures |s| == |g|
  {
    seq(|g|, i requires 0 <= i < |g| => WrapAt(k, g, j, i))
  }

  ghost function Columns(k: int, f: seq<int>, g: seq<int>, j: nat): (s: seq<int>)
    requires j <= |f| == |g|
    ensures |s| == |g|
  {
    seq(|g|, i requires 0 <= i < |g| => Column(k, f, g, i, j))
  }

  lemma {:induction false} ValLinear(b: int, s: seq<int>, t: seq<int>, x: int, u: seq<int>)
    requires |s| == |t| == |u| && forall i :: 0 <= i < |s| ==> u[i] == s[i] + x * t[i]
    ensures Val(b, u) == Val(b, s) + x * Val(b, t)
  {
    if |s| > 0 {
      var n := |s| - 1;
      ValLinear(b, s[..n], t[..n], x, u[..n]);
      LinearDigit(Val(b, s[..n]), Val(b, t[..n]), s[n], t[n], x, Pow(b, n));
    }
  }

  lemma {:induction false} LinearDigit(v: int, w: int, s: int, t: int, x: int, p: int)
    ensures v + x * w + (s + x * t) * p == v + s * p + x * (w + t * p)
  {
    MulAssoc(x, t, p);
  }

  /** Multiplying by b once more shifts the limbs up and wraps the top one. */
  lemma {:induction false} WrapStep(b: int, k: int, g: seq<int>, j: nat)
    requires j < |g|
    ensures b * Val(b, Wrapped(k, g, j))
         == Val(b, Wrapped(k, g, j + 1)) + Wrapped(k, g, j)[|g| - 1] * (Pow(b, |g|) - k)
  {
    var s, t, n := Wrapped(k, g, j), Wrapped(k, g, j + 1), |g|;
    var top := s[n - 1];
    assert [0] + s == ([0] + s[..n - 1]) + [top];
    ValCons(b, 0, s);
    ValPush(b, [0] + s[..n - 1], top);
    assert t == [top * k] + s[..n - 1];
    ValCons(b, top * k, s[..n - 1]);
    ValCons(b, 0, s[..n - 1]);
    assert top * (Pow(b, n) - k) == top * Pow(b, n) - top * k;
  }

  lemma {:induction false} WrappedCongruence(b: int, k: int, g: seq<int>, j: nat)
    requires j <= |g| && Pow(b, |g|) - k > 0
    ensures Cong(Val(b, Wrapped(k, g, j)), Pow(b, j) * Val(b, g), Pow(b, |g|) - k)
  {
    var m := Pow(b, |g|) - k;
    if j == 0 {
      assert Wrapped(k, g, 0) == g;
      assert Pow(b, 0) == 1;
      CongSelf(Val(b, g), m);
    } else {
      WrappedCongruence(b, k, g, j - 1);
      WrapStep(b, k, g, j - 1);
      var v := Val(b, Wrapped(k, g, j - 1));
      CongScale(v, Pow(b, j - 1) * Val(b, g), b, m);
      CongIntro(b * v, Val(b, Wrapped(k, g, j)), Wrapped(k, g, j - 1)[|g| - 1], m);
      MulAssoc(b, Pow(b, j - 1), Val(b, g));
      CongSwap(b * v, Val(b, Wrapped(k, g, j)), m);
      CongTrans(Val(b, Wrapped(k, g, j)), b * v, Pow(b, j) * Val(b, g), m);
    }
  }

  lemma {:induction false} NoColumns(b: int, k: int, f: seq<int>, g: seq<int>)
    requires |f| == |g| && Pow(b, |g|) - k > 0
    ensures Cong(Val(b, Columns(k, f, g, 0)), Val(b, f[..0]) * Val(b, g), Pow(b, |g|) - k)
  {
    ValZero(b, Columns(k, f, g, 0));
    assert f[..0] == [];
    CongSelf(0, Pow(b, |g|) - k);
  }

  lemma {:induction false} ColumnsCongruence(b: int, k: int, f: seq<int>, g: seq<int>, j: nat)
    requires j <= |f| == |g| && Pow(b, |g|) - k > 0
    ensures Cong(Val(b, Columns(k, f, g, j)), Val(b, f[..j]) * Val(b, g), Pow(b, |g|) - k)
  {
    hide Val, Pow, Cong;
    var m := Pow(b, |g|) - k;
    if j == 0 {
      NoColumns(b, k, f, g);
    } else {
      var s, w, x := Columns(k, f, g, j - 1), Wrapped(k, g, j - 1), f[j - 1];
      ColumnsCongruence(b, k, f, g, j - 1);
      ValLinear(b, s, w, x, Columns(k, f, g, j));
      WrappedCongruence(b, k, g, j - 1);
      CongScale(Val(b, w), Pow(b, j - 1) * Val(b, g), x, m);
      CongAdd(Val(b, s), Val(b, f[..j - 1]) * Val(b, g), x * Val(b, w), x * (Pow(b, j - 1) * Val(b, g)), m);
      ValSnoc(b, f, j - 1);
      MulAssoc(x, Pow(b, j - 1), Val(b, g));
      assert (Val(b, f[..j - 1]) + x * Pow(b, j - 1)) * Val(b, g)
          == Val(b, f[..j - 1]) * Val(b, g) + (x * Pow(b, j - 1)) * Val(b, g);
    }
  }

  /** The full column vector is congruent to the product. */
  lemma {:induction false} ProductCongruence(b: int, k: int, f: seq<int>, g: seq<int>)
    requires |f| == |g| && Pow(b, |g|) - k > 0
    ensures Cong(Val(b, Columns(k, f, g, |f|)), Val(b, f) * Val(b, g), Pow(b, |g|) - k)
  {
    ColumnsCongruence(b, k, f, g, |f|);
    assert f[..|f|] == f;
  }

  // ---- folding ----

  /** Folding the carry out of the top back in, multiplied by k. */
  lemma {:induction false} FoldTop(b: int, k: int, low: int, c: int, n: nat, v: int)
    requires low + c * Pow(b, n) == v && Pow(b, n) - k > 0
    ensures Cong(low + c * k, v, Pow(b, n) - k)
  {
    assert c * (Pow(b, n) - k) == c * Pow(b, n) - c * k;
    CongIntro(v, low + c * k, c, Pow(b, n) - k);
    CongSwap(v, low + c * k, Pow(b, n) - k);
  }
}
