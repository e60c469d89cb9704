/** Byte forms of the field elements: loading 255 bits into five limbs, and the
    full reduction that stores the unique representative below p. */
module X25519Bytes {
  import opened Arith
  import opened Limbs
  import opened X25519Field

  // ---- loading ----

  lemma {:induction false} WordByte(w: int, x: int, j: nat)
    requires j < 8 && 0 <= w < Pow(0x100, j) && 0 <= x < 0x100
    ensures 0 <= w + x * Pow(0x100, j) < Pow(0x100, j + 1) <= B64
  {
    PowPos(0x100, j);
    MulMono(x, 0xff, Pow(0x100, j));
    MulNonneg(x, Pow(0x100, j));
    PowMonotone(0x100, j + 1, 8);
    TwoTo64();
    PowPow(2, 8, 8);
  }

  lemma {:induction false} EmptyWord(s: seq<int>)
    ensures Val(0x100, s[..0]) == 0 && Pow(0x100, 0) == 1
  {}

  /** Eight little-endian bytes; each byte is ORed in above the ones before it. */
  method LoadWord(s: seq<byte>) returns (w: u64)
    requires |s| == 8
    ensures w == Val(0x100, s)
  {
    hide Val, Pow;
    w := 0;
    var j := 0;
    EmptyWord(s);
    while j < 8
      invariant 0 <= j <= 8 && w == Val(0x100, s[..j]) && w < Pow(0x100, j)
    {
      WordByte(w, s[j], j);
      ValSnoc(0x100, s, j);
      w := w + s[j] * Pow(0x100, j);
      j := j + 1;
    }
    assert s[..8] == s;
  }

  ghost function Value4(w0: int, w1: int, w2: int, w3: int): int
  {
    w0 + w1 * B64 + w2 * 0x1_0000000000000000_0000000000000000
    + w3 * 0x1_0000000000000000_0000000000000000_0000000000000000
  }

  ghost function Value5(h0: int, h1: int, h2: int, h3: int, h4: int): int
  {
    h0 + h1 * 0x8_0000_0000_0000 + h2 * 0x40_0000_0000_0000_0000_0000_0000
    + h3 * 0x200_0000_0000_0000_0000_0000_0000_0000_0000_0000
    + h4 * 0x1000_0000_0000_0000_0000_0000_0000_0000_0000_0000_0000_0000_0000
  }

  lemma {:induction false} FiveLimbs(h: seq<int>)
    requires |h| == 5
    ensures Val(B51, h) == Value5(h[0], h[1], h[2], h[3], h[4])
  {
    assert h[..5] == h && h[..0] == [];
    ValSnoc(B51, h, 0);
    ValSnoc(B51, h, 1);
    ValSnoc(B51, h, 2);
    ValSnoc(B51, h, 3);
    ValSnoc(B51, h, 4);
    assert Pow(B51, 0) == 1 && Pow(B51, 1) == B51;
    PowAdd(B51, 1, 1);
    PowAdd(B51, 2, 1);
    PowAdd(B51, 2, 2);
  }

  lemma {:induction false} FourWords(s: seq<int>)
    requires |s| == 32
    ensures Val(0x100, s)
            == Value4(Val(0x100, s[..8]), Val(0x100, s[8..16]), Val(0x100, s[16..24]), Val(0x100, s[24..]))
  {
    hide Val;
    ValSplit(0x100, s, 8);
    ValSplit(0x100, s[8..], 8);
    ValSplit(0x100, s[16..], 8);
    assert s[8..][..8] == s[8..16] && s[8..][8..] == s[16..];
    assert s[16..][..8] == s[16..24] && s[16..][8..] == s[24..];
    TwoTo64();
    PowPow(2, 8, 8);
  }

  /** Limb i joins the high bits of one word with the low bits of the next. */
  function JoinLimb(lo: u64, hi: u64, down: int, up: int): (h: int)
    requires down > 0 && up > 0
    ensures 0 <= h < B51
  {
    (lo / down + (hi * up) % B64) % B51
  }

  // Shifting the next word up and masking keeps exactly the bits that fit the limb.

  lemma {:induction false} JoinLimb1(lo: u64, hi: u64)
    ensures JoinLimb(lo, hi, 0x8_0000_0000_0000, 0x2000) == lo / 0x8_0000_0000_0000 + 0x2000 * (hi % 0x40_0000_0000)
  {
    var x, y := lo / 0x8_0000_0000_0000, hi % 0x8_0000_0000_0000;
    DivModUnique(hi * 0x2000, B64, hi / 0x8_0000_0000_0000, 0x2000 * y);
    DivDiv(hi, 0x40_0000_0000, 0x2000);
    DivModUnique(x + 0x2000 * y, B51, y / 0x40_0000_0000, x + 0x2000 * (hi % 0x40_0000_0000));
  }

  lemma {:induction false} JoinLimb2(lo: u64, hi: u64)
    ensures JoinLimb(lo, hi, 0x40_0000_0000, 0x400_0000) == lo / 0x40_0000_0000 + 0x400_0000 * (hi % 0x200_0000)
  {
    var x, y := lo / 0x40_0000_0000, hi % 0x40_0000_0000;
    DivModUnique(hi * 0x400_0000, B64, hi / 0x40_0000_0000, 0x400_0000 * y);
    DivDiv(hi, 0x200_0000, 0x2000);
    DivModUnique(x + 0x400_0000 * y, B51, y / 0x200_0000, x + 0x400_0000 * (hi % 0x200_0000));
  }

  lemma {:induction false} JoinLimb3(lo: u64, hi: u64)
    ensures JoinLimb(lo, hi, 0x200_0000, 0x80_0000_0000) == lo / 0x200_0000 + 0x80_0000_0000 * (hi % 0x1000)
  {
    var x, y := lo / 0x200_0000, hi % 0x200_0000;
    DivModUnique(hi * 0x80_0000_0000, B64, hi / 0x200_0000, 0x80_0000_0000 * y);
    DivDiv(hi, 0x1000, 0x2000);
    DivModUnique(x + 0x80_0000_0000 * y, B51, y / 0x1000, x + 0x80_0000_0000 * (hi % 0x1000));
  }

  lemma {:induction false} SplitValue(w0: u64, w1: u64, w2: u64, w3: u64)
    ensures Value5(w0 % B51,
                   JoinLimb(w0, w1, 0x8_0000_0000_0000, 0x2000),
                   JoinLimb(w1, w2, 0x40_0000_0000, 0x400_0000),
                   JoinLimb(w2, w3, 0x200_0000, 0x80_0000_0000),
                   (w3 / 0x1000) % B51)
         == Value4(w0, w1, w2, w3) % TWO255
  {
    JoinLimb1(w0, w1);
    JoinLimb2(w1, w2);
    JoinLimb3(w2, w3);
    hide JoinLimb;
    var v := Value5(w0 % B51, JoinLimb(w0, w1, 0x8_0000_0000_0000, 0x2000),
      JoinLimb(w1, w2, 0x40_0000_0000, 0x400_0000), JoinLimb(w2, w3, 0x200_0000, 0x80_0000_0000), (w3 / 0x1000) % B51);
    var top := (w3 / 0x1000) / B51;
    assert w3 == w3 % 0x1000 + 0x1000 * ((w3 / 0x1000) % B51) + 0x8000_0000_0000_0000 * top;
    assert Value4(w0, w1, w2, w3) == v + top * TWO255;
    assert 0 <= v < TWO255;
    DivModUnique(Value4(w0, w1, w2, w3), TWO255, top, v);
  }

  /** h = the low 255 bits of s, every limb below 2^51. */
  method FeFromBytes(h: array<u64>, s: seq<byte>)
    requires h.Length == 5 && |s| == 32
    modifies h
    ensures Fe(h) == Val(0x100, s) % TWO255
    ensures Tight(h) && forall i :: 0 <= i < 5 ==> h[i] < B51
  {
    hide Val, Pow, JoinLimb;
    var t0 := LoadWord(s[..8]);
    var t1 := LoadWord(s[8..16]);
    var t2 := LoadWord(s[16..24]);
    var t3 := LoadWord(s[24..]);
    h[0] := t0 % B51;
    h[1] := JoinLimb(t0, t1, 0x8_0000_0000_0000, 0x2000);
    h[2] := JoinLimb(t1, t2, 0x40_0000_0000, 0x400_0000);
    h[3] := JoinLimb(t2, t3, 0x200_0000, 0x80_0000_0000);
    h[4] := (t3 / 0x1000) % B51;
    FourWords(s);
    FiveLimbs(h[..]);
    SplitValue(t0, t1, t2, t3);
  }

  // ---- full reduction ----

  /** One pass over the limbs: digits below 2^51 and the carry out of 2^255. */
  method CarryLimbs(r: array<u64>) returns (c: u64)
    requires r.Length == 5 && forall i :: 0 <= i < 5 ==> r[i] < 0x10_0000_0000_0000
    modifies r
    ensures forall i :: 0 <= i < 5 ==> r[i] < B51
    ensures Fe(r) == old(Fe(r)) % TWO255 && c == old(Fe(r)) / TWO255 && c <= 2
  {
    hide Val, Pow, Carried;
    ghost var R: seq<int> := r[..];
    c := 0;
    var i := 0;
    CarryStart(B51, r[..0], c, R);
    while i < 5
      invariant 0 <= i <= 5 && c <= 2
      invariant forall k :: i <= k < 5 ==> r[k] == R[k]
      invariant forall k :: 0 <= k < i ==> r[k] < B51
      invariant Carried(B51, r[..i], c, R, i)
    {
      ghost var low, c0 := r[..i], c;
      r[i] := r[i] + c;
      c := r[i] / B51;
      r[i] := r[i] % B51;
      CarryNext(B51, low, c0, R, i, r[i], c);
      i := i + 1;
      assert r[..i] == low + [r[i - 1]];
    }
    assert r[..5] == r[..];
    CarryEnd(B51, r[..], c, R);
    FieldPowers();
    ValBound(B51, r[..]);
    DivModUnique(Val(B51, R), TWO255, c, Val(B51, r[..]));
  }

  /** The weak pass folds the carry back in, multiplied by 19. */
  method CarryPass(r: array<u64>)
    requires r.Length == 5 && forall i :: 0 <= i < 5 ==> r[i] < 0x10_0000_0000_0000
    modifies r
    ensures Fe(r) == old(Fe(r)) % TWO255 + 19 * (old(Fe(r)) / TWO255)
    ensures forall i :: 1 <= i < 5 ==> r[i] < B51
    ensures r[0] <= old(Fe(r)) % TWO255 + 19 * (old(Fe(r)) / TWO255)
    ensures r[0] < B51 + 19 * (old(Fe(r)) / TWO255) && old(Fe(r)) / TWO255 <= 2
  {
    hide Val, Pow;
    var c := CarryLimbs(r);
    ghost var d: seq<int> := r[..];
    LowLimb(d);
    ValUpdate(B51, d, 0, d[0] + c * 19);
    assert Pow(B51, 0) == 1 by { EmptyPower(); }
    r[0] := r[0] + c * 19;
    assert r[..] == d[0 := d[0] + c * 19];
  }

  lemma {:induction false} EmptyPower()
    ensures Pow(B51, 0) == 1
  {}

  lemma {:induction false} LowLimb(d: seq<int>)
    requires |d| > 0 && Digits(B51, d)
    ensures d[0] <= Val(B51, d)
  {
    assert d == [d[0]] + d[1..];
    ValCons(B51, d[0], d[1..]);
    ValBound(B51, d[1..]);
  }

  /** Limbs below 2^52 leave the first pass at most 38 above 2^255. */
  lemma {:induction false} WeaklyReduced(v: int)
    requires v >= 0 && v / TWO255 <= 2
    ensures var v1 := v % TWO255 + 19 * (v / TWO255);
      0 <= v1 < TWO255 + 38 && Cong(v1, v, P)
      && var v2 := v1 % TWO255 + 19 * (v1 / TWO255);
         0 <= v2 < TWO255 && Cong(v2, v, P) && v1 / TWO255 <= 1 && (v1 / TWO255 == 1 ==> v2 < 57)
  {
    var v1 := v % TWO255 + 19 * (v / TWO255);
    DivMod(v, TWO255);
    assert TWO255 == P + 19;
    CongIntro(v, v1, v / TWO255, P);
    CongSwap(v, v1, P);
    DivMod(v1, TWO255);
    var v2 := v1 % TWO255 + 19 * (v1 / TWO255);
    CongIntro(v1, v2, v1 / TWO255, P);
    CongSwap(v1, v2, P);
    CongTrans(v2, v1, v, P);
  }

  lemma {:induction false} LastSubtraction(v: int)
    requires 0 <= v < TWO255
    ensures var q := (v + 19) / TWO255; 0 <= q <= 1 && (v + 19 * q) % TWO255 == v % P
  {
    if v + 19 >= TWO255 {
      DivModUnique(v + 19, TWO255, 1, v + 19 - TWO255);
      DivModUnique(v, P, 1, v - P);
    } else {
      ModSmall(v, P);
    }
  }

  lemma {:induction false} FirstDigit(s: seq<int>, x: int)
    requires |s| > 0
    ensures Val(B51, s[0 := s[0] + x]) == Val(B51, s) + x
  {
    ValUpdate(B51, s, 0, s[0] + x);
    assert Pow(B51, 0) == 1;
  }

  /** q is the carry that adding 19 would send out of 2^255. */
  method CarryOfPlus19(r: array<u64>) returns (q: u64)
    requires r.Length == 5 && forall i :: 0 <= i < 5 ==> r[i] < B51
    ensures q == (Fe(r) + 19) / TWO255
  {
    hide Val, Pow, Carried;
    ghost var R: seq<int> := r[..];
    ghost var S := R[0 := R[0] + 19];
    FirstDigit(R, 19);
    CarryStart(B51, [], 0, S);
    ghost var low: seq<int> := [(r[0] + 19) % B51];
    q := (r[0] + 19) / B51;
    CarryNext(B51, [], 0, S, 0, low[0], q);
    assert [] + [low[0]] == low;
    var i := 1;
    while i < 5
      invariant 1 <= i <= 5 && q <= 1 && |low| == i && Digits(B51, low)
      invariant Carried(B51, low, q, S, i)
    {
      ghost var d, q0 := (r[i] + q) % B51, q;
      q := (r[i] + q) / B51;
      CarryNext(B51, low, q0, S, i, d, q);
      low := low + [d];
      i := i + 1;
    }
    CarryEnd(B51, low, q, S);
    FieldPowers();
    ValBound(B51, low);
    DivModUnique(Val(B51, S), TWO255, q, Val(B51, low));
  }

  /** Two weak passes leave a congruent value below 2^255 in limbs below 2^51. */
  method WeakReduce(r: array<u64>)
    requires r.Length == 5 && forall i :: 0 <= i < 5 ==> r[i] < 0x10_0000_0000_0000
    modifies r
    ensures 0 <= Fe(r) < TWO255 && Cong(Fe(r), old(Fe(r)), P)
    ensures forall i :: 0 <= i < 5 ==> r[i] < B51
  {
    hide Val, Pow, Cong;
    ghost var v := Fe(r);
    NonNegative(r[..]);
    CarryPass(r);
    WeaklyReduced(v);
    CarryPass(r);
  }

  /** r = h mod p in limbs below 2^51, for any h with limbs below 2^52. */
  method FeCanonical(r: array<u64>, h: array<u64>)
    requires r.Length == 5 && h.Length == 5 && r != h && forall i :: 0 <= i < 5 ==> h[i] < 0x10_0000_0000_0000
    modifies r
    ensures Fe(r) == Fe(h) % P
    ensures forall i :: 0 <= i < 5 ==> r[i] < B51
  {
    hide Val, Pow, Cong;
    FeCopy(r, h);
    WeakReduce(r);
    CongMod(Fe(r), Fe(h), P);
    LastSubtraction(Fe(r));
    var q := CarryOfPlus19(r);
    ghost var d: seq<int> := r[..];
    FirstDigit(d, 19 * q);
    r[0] := r[0] + 19 * q;
    assert r[..] == d[0 := d[0] + 19 * q];
    var _ := CarryLimbs(r);
  }

  lemma {:induction false} NonNegative(s: seq<u64>)
    ensures Val(B51, s) >= 0
  {
    if |s| > 0 {
      NonNegative(s[..|s| - 1]);
      PowPos(B51, |s| - 1);
      MulNonneg(s[|s| - 1], Pow(B51, |s| - 1));
    }
  }

  // ---- storing ----

  lemma {:induction false} PackedWords(r: seq<int>)
    requires |r| == 5 && forall i :: 0 <= i < 5 ==> 0 <= r[i] < B51
    ensures Value4(r[0] + (r[1] * B51) % B64,
                   r[1] / 0x2000 + (r[2] * 0x40_0000_0000) % B64,
                   r[2] / 0x400_0000 + (r[3] * 0x200_0000) % B64,
                   r[3] / 0x80_0000_0000 + (r[4] * 0x1000) % B64)
         == Value5(r[0], r[1], r[2], r[3], r[4])
    ensures 0 <= r[0] + (r[1] * B51) % B64 < B64
    ensures 0 <= r[1] / 0x2000 + (r[2] * 0x40_0000_0000) % B64 < B64
    ensures 0 <= r[2] / 0x400_0000 + (r[3] * 0x200_0000) % B64 < B64
    ensures 0 <= r[3] / 0x80_0000_0000 + (r[4] * 0x1000) % B64 < B64
  {
    assert (r[1] * B51) % B64 == B51 * (r[1] % 0x2000);
    assert (r[2] * 0x40_0000_0000) % B64 == 0x40_0000_0000 * (r[2] % 0x400_0000);
    assert (r[3] * 0x200_0000) % B64 == 0x200_0000 * (r[3] % 0x80_0000_0000);
    assert (r[4] * 0x1000) % B64 == 0x1000 * r[4];
  }

  /** Eight bytes of one word, least significant first. */
  method StoreWord(s: array<byte>, w: u64, at: nat)
    requires at + 8 <= s.Length
    modifies s
    ensures Val(0x100, s[at..at + 8]) == w
    ensures s[..at] == old(s[..at]) && s[at + 8..] == old(s[at + 8..])
  {
    hide Val, Pow;
    var j := 0;
    while j < 8
      invariant 0 <= j <= 8
      invariant s[..at] == old(s[..at]) && s[at + 8..] == old(s[at + 8..])
      invariant forall k :: 0 <= k < j ==> s[at + k] == DigitAt(0x100, w, k)
    {
      PowPos(0x100, j);
      s[at + j] := (w / Pow(0x100, j)) % 0x100;
      j := j + 1;
    }
    assert s[at..at + 8] == DigitsOf(0x100, w, 8);
    DigitsOfValue(0x100, w, 8);
    TwoTo64();
    PowPow(2, 8, 8);
    ModSmall(w, B64);
  }

  method StoreReduced(s: array<byte>, r: array<u64>)
    requires s.Length == 32 && r.Length == 5 && forall i :: 0 <= i < 5 ==> r[i] < B51
    modifies s
    ensures Val(0x100, s[..]) == Fe(r)
  {
    hide Val, Pow;
    ghost var R: seq<int> := r[..];
    PackedWords(R);
    FiveLimbs(R);
    var w0: u64 := r[0] + (r[1] * B51) % B64;
    var w1: u64 := r[1] / 0x2000 + (r[2] * 0x40_0000_0000) % B64;
    var w2: u64 := r[2] / 0x400_0000 + (r[3] * 0x200_0000) % B64;
    var w3: u64 := r[3] / 0x80_0000_0000 + (r[4] * 0x1000) % B64;
    StoreWord(s, w0, 0);
    ghost var p1: seq<byte> := s[..8];
    StoreWord(s, w1, 8);
    ghost var p2: seq<byte> := s[..16];
    assert p2[..8] == p1;
    assert p2[8..] == s[8..16];
    StoreWord(s, w2, 16);
    ghost var p3: seq<byte> := s[..24];
    assert p3[..16] == p2;
    assert p3[16..] == s[16..24];
    StoreWord(s, w3, 24);
    ghost var now: seq<byte> := s[..];
    assert now[..24] == p3;
    assert now[24..] == s[24..32];
    StoredInTurn(now, p1, p2, p3);
    FourWords(now);
  }

  lemma {:induction false} StoredInTurn(now: seq<byte>, p1: seq<byte>, p2: seq<byte>, p3: seq<byte>)
    requires |now| == 32 && |p1| == 8 && |p2| == 16 && |p3| == 24
    requires p2[..8] == p1 && p3[..16] == p2 && now[..24] == p3
    ensures now[..8] == p1 && now[8..16] == p2[8..] && now[16..24] == p3[16..]
  {
    assert now[..8] == now[..24][..8];
    assert now[8..16] == now[..24][8..16];
    assert now[16..24] == now[..24][16..];
    assert p3[..16][..8] == p3[..8];
    assert p3[..16][8..] == p3[8..16];
  }

  /** s receives the unique representative of h below p. */
  method FeToBytes(s: array<byte>, h: array<u64>)
    requires s.Length == 32 && h.Length == 5 && forall i :: 0 <= i < 5 ==> h[i] < 0x10_0000_0000_0000
    modifies s
    ensures Val(0x100, s[..]) == Fe(h) % P
  {
    var r := new u64[5];
    FeCanonical(r, h);
    StoreReduced(s, r);
  }
}
