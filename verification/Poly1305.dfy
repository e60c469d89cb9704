/** The Poly1305 accumulator and tag: the limb code against the polynomial of
    section 2.5 of RFC 8439 (src/crypto/symmetric/aead/chacha/poly1305.c). */
module Poly1305 {
  import opened Arith
  import opened Limbs
  import opened Bits
  import opened PseudoMersenne
  import opened Poly1305Input

  // ---- the authenticator of RFC 8439 ----

  /** Horner evaluation of the message blocks, each with a one byte appended. */
  ghost function Polynomial(r: int, acc: int, msg: seq<byte>): int
    decreases |msg|
  {
    if |msg| == 0 then acc
    else
      var n := if |msg| < 16 then |msg| else 16;
      Polynomial(r, ((acc + Val(0x100, msg[..n] + [1])) * r) % P, msg[n..])
  }

  ghost function RfcTag(key: seq<byte>, msg: seq<byte>): int
    requires |key| == 32
  {
    (Polynomial(Val(0x100, Clamped(key)), 0, msg) + Val(0x100, key[16..])) % TWO128
  }

  // ---- the limb code as functions ----

  /** The accumulator between blocks: only limb 1 may exceed 26 bits, by less than 64. */
  ghost predicate Bounded(h: seq<int>)
  {
    |h| == 5 && 0 <= h[0] < B26 && 0 <= h[1] < B26 + 64 && 0 <= h[2] < B26 && 0 <= h[3] < B26 && 0 <= h[4] < B26
  }

  ghost predicate KeyBounded(r: seq<int>)
  {
    |r| == 5 && 0 <= r[0] < B26 && 0 <= r[1] < B26 && 0 <= r[2] < B26 && 0 <= r[3] < B26 && 0 <= r[4] < 0x10_0000
  }

  /** The accumulator with a block added: what the multiplication accepts. */
  ghost predicate Added(h: seq<int>)
  {
    |h| == 5 && forall i :: 0 <= i < 5 ==> 0 <= h[i] < 2 * B26 + 64
  }

  ghost function AddBlock(h: seq<int>, m: seq<byte>, hibit: int): (s: seq<int>)
    requires |h| == 5 && |m| == 16
    ensures |s| == 5
  {
    var l: seq<int> := BlockLimbs(m);
    [h[0] + l[0], h[1] + l[1], h[2] + l[2], h[3] + l[3], h[4] + (l[4] + hibit)]
  }

  /** Column i with the carry of the columns below it. */
  ghost function Chain(t: seq<int>, i: nat): int
    requires i < |t|
  {
    if i == 0 then t[0] else t[i] + Chain(t, i - 1) / B26
  }

  /** Carry through five columns, fold the top carry back times 5, carry once more. */
  ghost function CarryReduce(t: seq<int>): (h: seq<int>)
    requires |t| == 5
    ensures |h| == 5
  {
    var v := Chain(t, 0) % B26 + (Chain(t, 4) / B26) * 5;
    [v % B26, Chain(t, 1) % B26 + v / B26, Chain(t, 2) % B26, Chain(t, 3) % B26, Chain(t, 4) % B26]
  }

  ghost function MulReduce(h: seq<int>, r: seq<int>): (s: seq<int>)
    requires |h| == 5 && |r| == 5
    ensures |s| == 5
  {
    CarryReduce(Columns(5, h, r, 5))
  }

  function PadBlock(m: seq<byte>): (b: seq<byte>)
    requires |m| < 16
    ensures |b| == 16
  {
    m + [1] + seq(15 - |m|, _ => 0)
  }

  ghost function Absorb(h: seq<int>, r: seq<int>, msg: seq<byte>): (s: seq<int>)
    requires |h| == 5 && |r| == 5
    ensures |s| == 5
    decreases |msg|
  {
    if |msg| >= 16 then Absorb(MulReduce(AddBlock(h, msg[..16], 0x100_0000), r), r, msg[16..])
    else if |msg| > 0 then MulReduce(AddBlock(h, PadBlock(msg), 0), r)
    else h
  }

  // ---- the accumulator is the polynomial ----

  lemma {:induction false} AddedValue(h: seq<int>, m: seq<byte>, hibit: int)
    requires Bounded(h) && |m| == 16 && (hibit == 0 || hibit == 0x100_0000)
    ensures Added(AddBlock(h, m, hibit))
    ensures Val(B26, AddBlock(h, m, hibit)) == Val(B26, h) + Val(0x100, m) + hibit * 0x100_0000_0000_0000_0000_0000_0000
  {
    BlockValue(m);
    FiveLimbs(h);
    FiveLimbs(BlockLimbs(m));
    FiveLimbs(AddBlock(h, m, hibit));
  }

  lemma {:induction false} ChainCarried(t: seq<int>, low: seq<int>, i: nat)
    requires |t| == 5 && i < 5 && |low| == i + 1 && forall k :: 0 <= k <= i ==> low[k] == Chain(t, k) % B26
    ensures Carried(B26, low, Chain(t, i) / B26, t, i + 1)
  {
    DivMod(Chain(t, i), B26);
    if i == 0 {
      CarryStart(B26, [], 0, t);
      CarryNext(B26, [], 0, t, 0, low[0], Chain(t, 0) / B26);
      assert low == [] + [low[0]];
    } else {
      ChainCarried(t, low[..i], i - 1);
      CarryNext(B26, low[..i], Chain(t, i - 1) / B26, t, i, low[i], Chain(t, i) / B26);
      assert low == low[..i] + [low[i]];
    }
  }

  /** The exact value of a reduced vector: the top carry c is replaced by 5 c. */
  lemma {:induction false} CarryReduceExact(t: seq<int>)
    requires |t| == 5
    ensures Val(B26, CarryReduce(t)) == Val(B26, t) - (Chain(t, 4) / B26) * P
  {
    hide Val, Pow;
    var c := Chain(t, 4) / B26;
    var low := seq(5, k requires 0 <= k < 5 => Chain(t, k) % B26);
    ChainCarried(t, low, 4);
    CarryEnd(B26, low, c, t);
    FieldPowers();
    FiveLimbs(low);
    FiveLimbs(CarryReduce(t));
    DivMod(low[0] + c * 5, B26);
  }

  lemma {:induction false} CarryReduceCongruence(t: seq<int>)
    requires |t| == 5
    ensures Cong(Val(B26, CarryReduce(t)), Val(B26, t), P)
  {
    CarryReduceExact(t);
    CongIntro(Val(B26, t), Val(B26, CarryReduce(t)), Chain(t, 4) / B26, P);
    CongSwap(Val(B26, t), Val(B26, CarryReduce(t)), P);
  }

  const TERM: int := (2 * B26 + 64) * 5 * B26

  lemma {:induction false} TermBound(x: int, y: int)
    requires 0 <= x < 2 * B26 + 64 && 0 <= y <= 5 * B26
    ensures 0 <= x * y <= TERM
  {
    MulMono2(x, y, 2 * B26 + 64, 5 * B26);
  }

  lemma {:induction false} ColumnBound(h: seq<int>, r: seq<int>, i: nat, j: nat)
    requires Added(h) && KeyBounded(r) && i < 5 && j <= 5
    ensures 0 <= Column(5, h, r, i, j) <= j * TERM
  {
    if j > 0 {
      ColumnBound(h, r, i, j - 1);
      TermBound(h[j - 1], WrapAt(5, r, j - 1, i));
    }
  }

  /** The top column wraps nothing, so its carry is small enough for 32 bits times five. */
  lemma {:induction false} TopColumnBound(h: seq<int>, r: seq<int>)
    requires Added(h) && KeyBounded(r)
    ensures 0 <= Column(5, h, r, 4, 5) <= (2 * B26 + 64) * (4 * B26 + 0x10_0000)
  {
    hide Column;
    MulMono2(h[0], r[4], 2 * B26 + 64, 0x10_0000);
    MulMono2(h[1], r[3], 2 * B26 + 64, B26);
    MulMono2(h[2], r[2], 2 * B26 + 64, B26);
    MulMono2(h[3], r[1], 2 * B26 + 64, B26);
    MulMono2(h[4], r[0], 2 * B26 + 64, B26);
    TopColumnUnfold(h, r);
  }

  lemma {:induction false} TopColumnUnfold(h: seq<int>, r: seq<int>)
    requires |h| == 5 && |r| == 5
    ensures Column(5, h, r, 4, 5) == h[0] * r[4] + h[1] * r[3] + h[2] * r[2] + h[3] * r[1] + h[4] * r[0]
  {
    assert Column(5, h, r, 4, 0) == 0;
    assert Column(5, h, r, 4, 1) == h[0] * r[4];
    assert Column(5, h, r, 4, 2) == Column(5, h, r, 4, 1) + h[1] * r[3];
    assert Column(5, h, r, 4, 3) == Column(5, h, r, 4, 2) + h[2] * r[2];
    assert Column(5, h, r, 4, 4) == Column(5, h, r, 4, 3) + h[3] * r[1];
  }

  /** No 64-bit column and no 32-bit fold overflows, and the result is bounded again. */
  lemma {:induction false} CarryReduceBounds(t: seq<int>)
    requires |t| == 5 && forall i :: 0 <= i < 5 ==> 0 <= t[i] <= 5 * TERM
    requires t[4] <= (2 * B26 + 64) * (4 * B26 + 0x10_0000)
    ensures forall i :: 0 <= i < 5 ==> 0 <= Chain(t, i) < B64
    ensures 0 <= (Chain(t, 4) / B26) * 5 && Chain(t, 0) % B26 + (Chain(t, 4) / B26) * 5 < 0x1_0000_0000
    ensures Bounded(CarryReduce(t))
  {
    assert 0 <= Chain(t, 0) <= 5 * TERM;
    assert 0 <= Chain(t, 1) <= 5 * TERM + 0x1_0000_0000_0000;
    assert 0 <= Chain(t, 2) <= 5 * TERM + 0x1_0000_0000_0000;
    assert 0 <= Chain(t, 3) <= 5 * TERM + 0x1_0000_0000_0000;
    assert 0 <= Chain(t, 4) <= t[4] + 0x1_0000_0000_0000;
  }

  lemma {:induction false} MulReduceStep(h: seq<int>, r: seq<int>)
    requires Added(h) && KeyBounded(r)
    ensures Bounded(MulReduce(h, r))
    ensures Cong(Val(B26, MulReduce(h, r)), Val(B26, h) * Val(B26, r), P)
  {
    hide Val, Pow, Column, CarryReduce;
    var t := Columns(5, h, r, 5);
    forall i | 0 <= i < 5 ensures 0 <= t[i] <= 5 * TERM {
      ColumnBound(h, r, i, 5);
    }
    TopColumnBound(h, r);
    CarryReduceBounds(t);
    CarryReduceCongruence(t);
    FieldPowers();
    ProductCongruence(B26, 5, h, r);
    CongTrans(Val(B26, CarryReduce(t)), Val(B26, t), Val(B26, h) * Val(B26, r), P);
  }

  lemma {:induction false} BlockWithOne(m: seq<byte>)
    requires |m| == 16
    ensures Val(0x100, m + [1]) == Val(0x100, m) + 0x100_0000 * 0x100_0000_0000_0000_0000_0000_0000
  {
    ValPush(0x100, m, 1);
    PowAdd(0x100, 1, 1);
    PowAdd(0x100, 2, 2);
    PowAdd(0x100, 4, 4);
    PowAdd(0x100, 8, 8);
  }

  lemma {:induction false} PaddedBlock(m: seq<byte>)
    requires |m| < 16
    ensures Val(0x100, PadBlock(m)) == Val(0x100, m + [1])
  {
    var z: seq<int> := seq(15 - |m|, _ => 0);
    ValAppend(0x100, m + [1], z);
    ValZero(0x100, z);
  }

  lemma {:induction false} HornerStep(v: int, acc: int, x: int, r: int, w: int)
    requires Cong(v, acc, P) && Cong(w, (v + x) * r, P)
    ensures Cong(w, ((acc + x) * r) % P, P)
  {
    CongShift(v, acc, x, P);
    CongScale(v + x, acc + x, r, P);
    CongRemainder((acc + x) * r, P);
    CongTrans(w, (v + x) * r, (acc + x) * r, P);
    CongTrans(w, (acc + x) * r, ((acc + x) * r) % P, P);
  }

  /** After every message the accumulator is bounded and congruent to the polynomial. */
  lemma {:induction false} AbsorbIsPolynomial(h: seq<int>, r: seq<int>, acc: int, msg: seq<byte>)
    requires Bounded(h) && KeyBounded(r) && Cong(Val(B26, h), acc, P)
    ensures Bounded(Absorb(h, r, msg))
    ensures Cong(Val(B26, Absorb(h, r, msg)), Polynomial(Val(B26, r), acc, msg), P)
    decreases |msg|
  {
    hide Val, Pow, MulReduce, AddBlock;
    var R := Val(B26, r);
    if |msg| >= 16 {
      var m := msg[..16];
      var s := AddBlock(h, m, 0x100_0000);
      AddedValue(h, m, 0x100_0000);
      BlockWithOne(m);
      MulReduceStep(s, r);
      HornerStep(Val(B26, h), acc, Val(0x100, m + [1]), R, Val(B26, MulReduce(s, r)));
      AbsorbIsPolynomial(MulReduce(s, r), r, ((acc + Val(0x100, m + [1])) * R) % P, msg[16..]);
    } else if |msg| > 0 {
      var s := AddBlock(h, PadBlock(msg), 0);
      AddedValue(h, PadBlock(msg), 0);
      PaddedBlock(msg);
      MulReduceStep(s, r);
      HornerStep(Val(B26, h), acc, Val(0x100, msg + [1]), R, Val(B26, MulReduce(s, r)));
      assert msg[..|msg|] == msg;
      assert msg[|msg|..] == [];
    }
  }

  // ---- the final carry and the tag ----

  /** The accumulator after the last full carry. */
  ghost function Carry(key: seq<byte>, msg: seq<byte>): (h: seq<int>)
    requires |key| == 32
    ensures |h| == 5
  {
    CarryReduce(Absorb([0, 0, 0, 0, 0], KeyR(key), msg))
  }

  lemma {:induction false} FullCarryArith(h0: int, h1: int, e2: int, e3: int, e4: int)
    requires 0 <= h0 < B26 && 0 <= h1 < B26 + 64
    requires 0 <= e2 <= B26 && (e2 == B26 ==> h1 >= B26)
    requires 0 <= e3 <= B26 && (e3 == B26 ==> e2 == B26)
    requires 0 <= e4 <= B26 && (e4 == B26 ==> e3 == B26)
    ensures var v := h0 + (e4 / B26) * 5; 0 <= h1 % B26 + v / B26 < B26
  {}

  /** A full carry of a bounded accumulator leaves every limb below 2^26. */
  lemma {:induction false} FullCarryDigits(h: seq<int>)
    requires Bounded(h)
    ensures Digits(B26, CarryReduce(h))
  {
    assert Chain(h, 0) == h[0];
    assert Chain(h, 1) == h[1];
    var e2, e3, e4 := Chain(h, 2), Chain(h, 3), Chain(h, 4);
    assert e2 == h[2] + h[1] / B26;
    assert e3 == h[3] + e2 / B26;
    assert e4 == h[4] + e3 / B26;
    hide Chain;
    FullCarryArith(h[0], h[1], e2, e3, e4);
  }

  lemma {:induction false} ZeroBounded()
    ensures Bounded([0, 0, 0, 0, 0]) && Val(B26, [0, 0, 0, 0, 0]) == 0
  {
    ValZero(B26, [0, 0, 0, 0, 0]);
  }

  /** The carried accumulator is a 130-bit number congruent to the polynomial. */
  lemma {:induction false} CarriedIsPolynomial(key: seq<byte>, msg: seq<byte>)
    requires |key| == 32
    ensures Digits(B26, Carry(key, msg)) && 0 <= Val(B26, Carry(key, msg)) < TWO130
    ensures Cong(Val(B26, Carry(key, msg)), Polynomial(Val(0x100, Clamped(key)), 0, msg), P)
  {
    hide Val, Pow, Absorb, CarryReduce;
    KeyValue(key);
    ZeroBounded();
    CongSelf(0, P);
    AbsorbIsPolynomial([0, 0, 0, 0, 0], KeyR(key), 0, msg);
    var h := Absorb([0, 0, 0, 0, 0], KeyR(key), msg);
    FullCarryDigits(h);
    CarryReduceCongruence(h);
    CongTrans(Val(B26, CarryReduce(h)), Val(B26, h), Polynomial(Val(B26, KeyR(key)), 0, msg), P);
    ValBound(B26, CarryReduce(h));
    FieldPowers();
  }

  lemma {:induction false} PolynomialReduced(r: int, acc: int, msg: seq<byte>)
    requires 0 <= acc < P
    ensures 0 <= Polynomial(r, acc, msg) < P
    decreases |msg|
  {
    if |msg| > 0 {
      var n := if |msg| < 16 then |msg| else 16;
      PolynomialReduced(r, ((acc + Val(0x100, msg[..n] + [1])) * r) % P, msg[n..]);
    }
  }

  /** The tag that the code produces is the RFC 8439 tag exactly when the carried
      accumulator is below p: the final subtraction of p never happens. */
  lemma {:induction false} TagCorrectIff(key: seq<byte>, msg: seq<byte>)
    requires |key| == 32
    ensures (Val(B26, Carry(key, msg)) + Val(0x100, key[16..])) % TWO128 == RfcTag(key, msg)
      <==> Val(B26, Carry(key, msg)) < P
  {
    hide Val, Pow, Carry, Polynomial, Clamped;
    var v, s := Val(B26, Carry(key, msg)), Val(0x100, key[16..]);
    var w := Polynomial(Val(0x100, Clamped(key)), 0, msg);
    CarriedIsPolynomial(key, msg);
    PolynomialReduced(Val(0x100, Clamped(key)), 0, msg);
    UnreducedTagDiffers(v, w, s);
  }

  lemma {:induction false} UnreducedTagDiffers(v: int, w: int, s: int)
    requires 0 <= v < TWO130 && 0 <= w < P && Cong(v, w, P)
    ensures (v + s) % TWO128 == (w + s) % TWO128 <==> v < P
  {
    CongMod(v, w, P);
    CongMod(v + s, w + s, TWO128);
    if v < P {
      ModSmall(v, P);
      ModSmall(w, P);
    } else {
      DivModUnique(v, P, 1, v - P);
      ModSmall(w, P);
      assert v == w + P;
      if (v + s) % TWO128 == (w + s) % TWO128 {
        var k := CongElim(v + s, w + s, TWO128);
      }
    }
  }

  // ---- a message whose tag is wrong ----

  const ZERO4: seq<byte> := [0, 0, 0, 0]
  const ONES4: seq<byte> := [0xff, 0xff, 0xff, 0xff]
  const ZERO_BLOCK: seq<byte> := ZERO4 + ZERO4 + ZERO4 + ZERO4
  const UNIT_KEY: seq<byte> := [1, 0, 0, 0] + ZERO4 + ZERO4 + ZERO4 + ZERO_BLOCK
  const FIRST_BLOCK: seq<byte> := [0xfb, 0xff, 0xff, 0xff] + ONES4 + ONES4 + ONES4

  lemma {:induction false} CarryIdle(h: seq<int>)
    requires |h| == 5 && Digits(B26, h)
    ensures CarryReduce(h) == h
  {
    assert Chain(h, 0) == h[0];
    assert Chain(h, 1) == h[1];
    assert Chain(h, 2) == h[2];
    assert Chain(h, 3) == h[3];
    assert Chain(h, 4) == h[4];
  }

  lemma {:induction false} UnitColumn(h: seq<int>, i: nat, j: nat)
    requires |h| == 5 && i < 5 && j <= 5
    ensures Column(5, h, [1, 0, 0, 0, 0], i, j) == if i < j then h[i] else 0
  {
    if j > 0 { UnitColumn(h, i, j - 1); }
  }

  lemma {:induction false} UnitStep(h: seq<int>, m: seq<byte>, hibit: int)
    requires |h| == 5 && |m| == 16 && Digits(B26, AddBlock(h, m, hibit))
    ensures MulReduce(AddBlock(h, m, hibit), [1, 0, 0, 0, 0]) == AddBlock(h, m, hibit)
  {
    var s := AddBlock(h, m, hibit);
    forall i | 0 <= i < 5 ensures Columns(5, s, [1, 0, 0, 0, 0], 5)[i] == s[i] {
      UnitColumn(s, i, 5);
    }
    assert Columns(5, s, [1, 0, 0, 0, 0], 5) == s;
    CarryIdle(s);
  }

  lemma {:induction false} UnitKeyLimbs()
    ensures KeyR(UNIT_KEY) == [1, 0, 0, 0, 0]
  {
    hide And, KeyLimbs, Rd32;
    var k := UNIT_KEY;
    UnitKeyWords();
    assert k[..4] == [1, 0, 0, 0] && k[4..8] == ZERO4 && k[8..12] == ZERO4 && k[12..16] == ZERO4;
    MaskedLimbs(1, 0, 0, 0);
    assert KeyLimbs(1, 0, 0, 0) == [1, 0, 0, 0, 0];
  }

  lemma {:induction false} UnitKeyWords()
    ensures Rd32([1, 0, 0, 0]) == 1 && Rd32(ZERO4) == 0
  {}

  lemma {:induction false} FirstBlockLimbs()
    ensures BlockLimbs(FIRST_BLOCK) == [0x3fffffb, 0x3ffffff, 0x3ffffff, 0x3ffffff, 0xffffff]
  {
    hide Rd32, SplitLimbs;
    var f := FIRST_BLOCK;
    assert f[..4] == [0xfb, 0xff, 0xff, 0xff];
    assert f[4..8] == ONES4 && f[8..12] == ONES4 && f[12..] == ONES4;
    FirstBlockWords();
    FirstBlockSplit();
  }

  lemma {:induction false} FirstBlockWords()
    ensures Rd32([0xfb, 0xff, 0xff, 0xff]) == 0xfffffffb && Rd32(ONES4) == 0xffffffff
  {
  }

  lemma {:induction false} FirstBlockSplit()
    ensures SplitLimbs(0xfffffffb, 0xffffffff, 0xffffffff, 0xffffffff)
         == [0x3fffffb, 0x3ffffff, 0x3ffffff, 0x3ffffff, 0xffffff]
  {
  }

  lemma {:induction false} ZeroBlockLimbs()
    ensures BlockLimbs(ZERO_BLOCK) == [0, 0, 0, 0, 0]
  {
    var z := ZERO_BLOCK;
    assert z[..4] == ZERO4 && z[4..8] == ZERO4 && z[8..12] == ZERO4 && z[12..] == ZERO4;
  }

  /** With r = 1 this message brings the accumulator to exactly p, which the final
      selection keeps: the tag is 2^128 - 5 where RFC 8439 asks for 0. */
  lemma {:induction false} WrongTag()
    ensures var msg := FIRST_BLOCK + ZERO_BLOCK + ZERO_BLOCK;
      |UNIT_KEY| == 32 && Val(B26, Carry(UNIT_KEY, msg)) == P
      && (Val(B26, Carry(UNIT_KEY, msg)) + Val(0x100, UNIT_KEY[16..])) % TWO128 != RfcTag(UNIT_KEY, msg)
  {
    hide BlockLimbs, KeyR, MulReduce, Val, Pow, CarryReduce;
    var z: seq<int>, u := [0, 0, 0, 0, 0], [1, 0, 0, 0, 0];
    var msg := FIRST_BLOCK + ZERO_BLOCK + ZERO_BLOCK;
    UnitKeyLimbs();
    FirstBlockLimbs();
    ZeroBlockLimbs();
    var h1 := AddBlock(z, FIRST_BLOCK, 0x100_0000);
    var h2 := AddBlock(h1, ZERO_BLOCK, 0x100_0000);
    var h3 := AddBlock(h2, ZERO_BLOCK, 0x100_0000);
    UnitStep(z, FIRST_BLOCK, 0x100_0000);
    UnitStep(h1, ZERO_BLOCK, 0x100_0000);
    UnitStep(h2, ZERO_BLOCK, 0x100_0000);
    assert msg[..16] == FIRST_BLOCK && msg[16..] == ZERO_BLOCK + ZERO_BLOCK;
    assert (ZERO_BLOCK + ZERO_BLOCK)[..16] == ZERO_BLOCK && (ZERO_BLOCK + ZERO_BLOCK)[16..] == ZERO_BLOCK;
    assert ZERO_BLOCK[..16] == ZERO_BLOCK && ZERO_BLOCK[16..] == [];
    assert Absorb(h3, u, []) == h3;
    assert Absorb(h2, u, ZERO_BLOCK) == h3;
    assert Absorb(h1, u, ZERO_BLOCK + ZERO_BLOCK) == h3;
    assert Absorb(z, u, msg) == h3;
    CarryIdle(h3);
    FiveLimbs(h3);
    TagCorrectIff(UNIT_KEY, msg);
  }

  // ---- the limb code in place ----

  lemma {:induction false} ColumnsUnfold(h: seq<int>, r: seq<int>, i: nat)
    requires |h| == 5 && |r| == 5 && i < 5
    ensures Column(5, h, r, i, 5) == h[0] * WrapAt(5, r, 0, i) + h[1] * WrapAt(5, r, 1, i) + h[2] * WrapAt(5, r, 2, i)
      + h[3] * WrapAt(5, r, 3, i) + h[4] * WrapAt(5, r, 4, i)
  {
    assert Column(5, h, r, i, 0) == 0;
    assert Column(5, h, r, i, 1) == h[0] * WrapAt(5, r, 0, i);
    assert Column(5, h, r, i, 2) == Column(5, h, r, i, 1) + h[1] * WrapAt(5, r, 1, i);
    assert Column(5, h, r, i, 3) == Column(5, h, r, i, 2) + h[2] * WrapAt(5, r, 2, i);
    assert Column(5, h, r, i, 4) == Column(5, h, r, i, 3) + h[3] * WrapAt(5, r, 3, i);
  }

  lemma {:induction false} ChainUnfold(t: seq<int>, i: nat)
    requires i < |t|
    ensures Chain(t, i) == t[i] + if i == 0 then 0 else Chain(t, i - 1) / B26
  {}

  lemma {:induction false} ChainBounds(h: seq<int>)
    requires Bounded(h)
    ensures forall i :: 0 <= i < 5 ==> 0 <= Chain(h, i) <= B26 + 64
  {
    ChainUnfold(h, 0);
    ChainUnfold(h, 1);
    ChainUnfold(h, 2);
    ChainUnfold(h, 3);
    ChainUnfold(h, 4);
  }

  // ---- final selection and packing ----

  /** The last fold of the full carry, limb by limb, with nothing past 32 bits. */
  lemma {:induction false} FullCarryEnd(h: seq<int>)
    requires Bounded(h)
    ensures var v := Chain(h, 0) % B26 + (Chain(h, 4) / B26) * 5;
            0 <= v < 0x1_0000_0000 && Chain(h, 1) % B26 + v / B26 < 0x1_0000_0000
            && CarryReduce(h)[0] == v % B26 && CarryReduce(h)[1] == Chain(h, 1) % B26 + v / B26
    ensures forall k :: 2 <= k < 5 ==> CarryReduce(h)[k] == Chain(h, k) % B26
  {
    hide Chain;
    ChainBounds(h);
  }

  /** g = h + 5 with 2^26 taken off the masked top limb, which therefore always wraps. */
  method PlusFive(h: array<u32>, g: array<u32>)
    requires h.Length == 5 && g.Length == 5 && h != g && Digits(B26, h[..])
    modifies g
    ensures g[4] >= 0x8000_0000
    ensures Val(B26, g[..4] + [(g[4] + B26) % 0x1_0000_0000]) == (Val(B26, h[..]) + 5) % TWO130
  {
    hide Val, Pow, Carried;
    ghost var H: seq<int> := h[..];
    ghost var S := H[0 := H[0] + 5];
    PlusFiveValue(H);
    CarryStart(B26, g[..0], 0, S);
    var c: u32 := 5;
    var i := 0;
    while i < 5
      invariant 0 <= i <= 5 && c <= 5 && h[..] == H && (i > 0 ==> c <= 1)
      invariant i == 0 ==> c == 5
      invariant forall k :: 0 <= k < i ==> g[k] < B26
      invariant Carried(B26, g[..i], if i == 0 then 0 else c, S, i)
    {
      ghost var low, c0 := g[..i], if i == 0 then 0 else c;
      g[i] := h[i] + c;
      c := g[i] / B26;
      g[i] := g[i] % B26;
      CarryNext(B26, low, c0, S, i, g[i], c);
      i := i + 1;
      assert g[..i] == low + [g[i - 1]];
    }
    ghost var d: seq<int> := g[..];
    assert g[..5] == g[..];
    CarryEnd(B26, d, c, S);
    FieldPowers();
    ValBound(B26, d);
    DivModUnique(Val(B26, S), TWO130, c, Val(B26, d));
    g[4] := ((g[4] as int) - 0x400_0000) % 0x1_0000_0000;
    assert (g[4] + B26) % 0x1_0000_0000 == d[4];
    assert g[..4] + [d[4]] == d;
  }

  lemma {:induction false} PlusFiveValue(h: seq<int>)
    requires |h| == 5
    ensures Val(B26, h[0 := h[0] + 5]) == Val(B26, h) + 5
  {
    ValUpdate(B26, h, 0, h[0] + 5);
    assert Pow(B26, 0) == 1;
  }

  lemma {:induction false} MaskSelect(x: u32, y: u32)
    ensures And(x, 0xffff_ffff) == x && And(x, 0) == 0 && And(y, 0xffff_ffff) == y && And(y, 0) == 0
  {
    hide And;
    TwoTo64();
    AndOnes(x, 32);
    AndOnes(y, 32);
    ModSmall(x, 0x1_0000_0000);
    ModSmall(y, 0x1_0000_0000);
    AndZero(x);
    AndZero(y);
    AndCommutes(x, 0);
    AndCommutes(y, 0);
  }

  /** Branch-free choice: h stays when the top bit of g[4] is set, else h becomes g. */
  method SelectMod(h: array<u32>, g: array<u32>)
    requires h.Length == 5 && g.Length == 5 && h != g
    modifies h
    ensures g[4] >= 0x8000_0000 ==> h[..] == old(h[..])
    ensures g[4] < 0x8000_0000 ==> h[..] == g[..]
  {
    hide And;
    var mask: u32 := ((g[4] as int) / 0x8000_0000 - 1) % 0x1_0000_0000;
    assert mask == if g[4] >= 0x8000_0000 then 0 else 0xffff_ffff;
    var keep := g[4] >= 0x8000_0000;
    var i := 0;
    while i < 5
      invariant 0 <= i <= 5 && g[..] == old(g[..])
      invariant forall k :: i <= k < 5 ==> h[k] == old(h[k])
      invariant forall k :: 0 <= k < i ==> h[k] == if keep then old(h[k]) else g[k]
    {
      MaskSelect(h[i], g[i]);
      // One of the two masked halves is zero, so their OR is their sum.
      h[i] := And(h[i], 0xffff_ffff - mask) + And(g[i], mask);
      i := i + 1;
    }
  }

  /** The low 128 bits of five carried limbs as four 32-bit words. */
  function Packed(h: seq<int>): (w: seq<int>)
    requires |h| == 5 && forall i :: 0 <= i < 5 ==> 0 <= h[i] < 0x400_0000
    ensures |w| == 4 && forall i :: 0 <= i < 4 ==> 0 <= w[i] < 0x1_0000_0000
  {
    PackedFits(h[0], h[1], h[2], h[3], h[4]);
    [h[0] + (h[1] * 0x400_0000) % 0x1_0000_0000,
     h[1] / 0x40 + (h[2] * 0x10_0000) % 0x1_0000_0000,
     h[2] / 0x1000 + (h[3] * 0x4000) % 0x1_0000_0000,
     h[3] / 0x4_0000 + (h[4] * 0x100) % 0x1_0000_0000]
  }

  lemma {:induction false} PackedFits(h0: int, h1: int, h2: int, h3: int, h4: int)
    requires 0 <= h0 < B26 && 0 <= h1 < B26 && 0 <= h2 < B26 && 0 <= h3 < B26 && 0 <= h4 < B26
    ensures (h1 * 0x400_0000) % 0x1_0000_0000 == 0x400_0000 * (h1 % 0x40)
    ensures (h2 * 0x10_0000) % 0x1_0000_0000 == 0x10_0000 * (h2 % 0x1000)
    ensures (h3 * 0x4000) % 0x1_0000_0000 == 0x4000 * (h3 % 0x4_0000)
    ensures (h4 * 0x100) % 0x1_0000_0000 == 0x100 * (h4 % 0x100_0000)
  {
    DivModUnique(h1 * 0x400_0000, 0x1_0000_0000, h1 / 0x40, 0x400_0000 * (h1 % 0x40));
    DivModUnique(h2 * 0x10_0000, 0x1_0000_0000, h2 / 0x1000, 0x10_0000 * (h2 % 0x1000));
    DivModUnique(h3 * 0x4000, 0x1_0000_0000, h3 / 0x4_0000, 0x4000 * (h3 % 0x4_0000));
    DivModUnique(h4 * 0x100, 0x1_0000_0000, h4 / 0x100_0000, 0x100 * (h4 % 0x100_0000));
  }

  ghost function Words4(w: seq<int>): int
    requires |w| == 4
  {
    w[0] + w[1] * 0x1_0000_0000 + w[2] * 0x1_0000_0000_0000_0000 + w[3] * 0x1_0000_0000_0000_0000_0000_0000
  }

  lemma {:induction false} PackedValue(h: seq<int>)
    requires |h| == 5 && Digits(B26, h)
    ensures Words4(Packed(h)) == Val(B26, h) % TWO128
  {
    PackedFits(h[0], h[1], h[2], h[3], h[4]);
    FiveLimbs(h);
    var w := Packed(h);
    hide Packed;
    DivModUnique(Val(B26, h), TWO128, h[4] / 0x100_0000, Words4(w));
  }

  lemma {:induction false} WordsAreValue(w: seq<int>)
    requires |w| == 4
    ensures Val(0x1_0000_0000, w) == Words4(w) && Pow(0x1_0000_0000, 4) == TWO128
  {
    assert w[..4] == w && w[..0] == [];
    ValSnoc(0x1_0000_0000, w, 0);
    ValSnoc(0x1_0000_0000, w, 1);
    ValSnoc(0x1_0000_0000, w, 2);
    ValSnoc(0x1_0000_0000, w, 3);
    assert Pow(0x1_0000_0000, 0) == 1 && Pow(0x1_0000_0000, 1) == 0x1_0000_0000;
    PowAdd(0x1_0000_0000, 1, 1);
    PowAdd(0x1_0000_0000, 2, 1);
    PowAdd(0x1_0000_0000, 2, 2);
  }

  lemma {:induction false} StoredWord(f: int)
    requires 0 <= f
    ensures Rd32([f % 0x100, (f / 0x100) % 0x100, (f / 0x1_0000) % 0x100, (f / 0x100_0000) % 0x100])
            == f % 0x1_0000_0000
  {
    DivDiv(f, 0x100, 0x100);
    DivDiv(f, 0x1_0000, 0x100);
    DivDiv(f, 0x100_0000, 0x100);
  }

  /** The low 32 bits of f, little-endian, at one place of the tag. */
  method PutWord(tag: array<byte>, at: nat, f: u64)
    requires at + 4 <= tag.Length
    modifies tag
    ensures Rd32(tag[at..at + 4]) == f % 0x1_0000_0000
    ensures tag[..at] == old(tag[..at])
  {
    hide Rd32;
    StoredWord(f);
    tag[at] := f % 0x100;
    tag[at + 1] := (f / 0x100) % 0x100;
    tag[at + 2] := (f / 0x1_0000) % 0x100;
    tag[at + 3] := (f / 0x100_0000) % 0x100;
    assert tag[at..at + 4] == [tag[at], tag[at + 1], tag[at + 2], tag[at + 3]];
  }

  lemma {:induction false} TagIsSum(tag: seq<byte>, t: seq<int>, f: int, w: seq<int>, pad: seq<u32>)
    requires |tag| == 16 && |t| == 4 && Digits(0x1_0000_0000, t) && |w| == 4 && |pad| == 4
    requires Rd32(tag[..4]) == t[0] && Rd32(tag[4..8]) == t[1] && Rd32(tag[8..12]) == t[2] && Rd32(tag[12..]) == t[3]
    requires forall i :: 0 <= i < 4 ==> 0 <= w[i] < 0x1_0000_0000
    requires SumDone(0x1_0000_0000, t, f, w, pad, 4)
    ensures Val(0x100, tag) == (Words4(w) + Words4(pad)) % TWO128
  {
    hide Val, Pow, SumDone, Rd32;
    SumEnd(0x1_0000_0000, t, f, w, pad);
    SixteenBytes(tag);
    WordsAreValue(t);
    WordsAreValue(w);
    WordsAreValue(pad);
    ValBound(0x1_0000_0000, t);
    DivModUnique(Words4(w) + Words4(pad), TWO128, f, Words4(t));
  }

  /** tag = (v + pad) mod 2^128, little-endian, for the 128-bit v in the words w. */
  method StoreTag(tag: array<byte>, w: seq<int>, pad: seq<u32>)
    requires tag.Length == 16 && |w| == 4 && |pad| == 4 && forall i :: 0 <= i < 4 ==> 0 <= w[i] < 0x1_0000_0000
    modifies tag
    ensures Val(0x100, tag[..]) == (Words4(w) + Words4(pad)) % TWO128
  {
    hide Val, Pow, SumDone, Rd32;
    ghost var t: seq<int> := [];
    var f: u64 := 0;
    SumStart(0x1_0000_0000, t, 0, w, pad);
    var i := 0;
    while i < 4
      invariant 0 <= i <= 4 && f <= 1 && |t| == i && Digits(0x1_0000_0000, t)
      invariant forall k :: 0 <= k < i ==> Rd32(tag[4 * k..4 * k + 4]) == t[k]
      invariant SumDone(0x1_0000_0000, t, f, w, pad, i)
    {
      ghost var c := f;
      ghost var before := tag[..];
      f := f + (w[i] + pad[i]);
      PutWord(tag, 4 * i, f);
      ghost var d := f % 0x1_0000_0000;
      f := f / 0x1_0000_0000;
      SumStep(0x1_0000_0000, t, c, w, pad, i, d, f);
      forall k | 0 <= k < i ensures tag[4 * k..4 * k + 4] == before[4 * k..4 * k + 4] {
        assert tag[..4 * i][4 * k..4 * k + 4] == tag[4 * k..4 * k + 4];
      }
      t := t + [d];
      i := i + 1;
    }
    assert tag[..][..4] == tag[4 * 0..4 * 0 + 4] && tag[..][4..8] == tag[4 * 1..4 * 1 + 4];
    assert tag[..][8..12] == tag[4 * 2..4 * 2 + 4] && tag[..][12..] == tag[4 * 3..4 * 3 + 4];
    TagIsSum(tag[..], t, f, w, pad);
  }

  /** The accumulator h, the clamped key half r and the pad s. */
  class Poly {
    var r: seq<u32>
    const h: array<u32>
    var pad: seq<u32>

    ghost predicate Valid()
      reads this, h
    {
      |r| == 5 && h.Length == 5 && |pad| == 4 && KeyBounded(r)
    }

    constructor (key: seq<byte>)
      requires |key| == 32
      ensures Valid() && fresh(h) && r == KeyR(key) && h[..] == [0, 0, 0, 0, 0]
      ensures pad == [Rd32(key[16..20]), Rd32(key[20..24]), Rd32(key[24..28]), Rd32(key[28..32])]
    {
      KeyValue(key);
      r := KeyR(key);
      h := new u32[5](_ => 0);
      pad := [Rd32(key[16..20]), Rd32(key[20..24]), Rd32(key[24..28]), Rd32(key[28..32])];
    }

    /** Adds a 16-byte block with the high bit hibit; no limb overflows 32 bits. */
    method Add(m: seq<byte>, hibit: u32)
      requires Valid() && Bounded(h[..]) && |m| == 16 && (hibit == 0 || hibit == 0x100_0000)
      modifies h
      ensures Valid() && Added(h[..]) && h[..] == AddBlock(old(h[..]), m, hibit)
    {
      hide BlockLimbs;
      ghost var h0 := h[..];
      AddedValue(h0, m, hibit);
      var l := BlockLimbs(m);
      h[0] := h[0] + l[0];
      h[1] := h[1] + l[1];
      h[2] := h[2] + l[2];
      h[3] := h[3] + l[3];
      h[4] := h[4] + (l[4] + hibit);
      assert h[..] == AddBlock(h0, m, hibit);
    }

    /** Carries the five 64-bit columns back into h. */
    method CarryColumns(d: array<u64>)
      requires Valid() && d.Length == 5 && h as object != d as object
      requires forall i :: 0 <= i < 5 ==> d[i] <= 5 * TERM
      requires d[4] <= (2 * B26 + 64) * (4 * B26 + 0x10_0000)
      modifies h, d
      ensures Valid() && Bounded(h[..]) && h[..] == CarryReduce(old(d[..]))
    {
      hide Chain;
      ghost var D: seq<int> := d[..];
      CarryReduceBounds(D);
      var c: u64 := 0;
      var i := 0;
      while i < 5
        invariant 0 <= i <= 5
        invariant forall k :: i <= k < 5 ==> d[k] == D[k]
        invariant i == 0 ==> c == 0
        invariant i > 0 ==> c == Chain(D, i - 1) / B26
        invariant forall k :: 0 <= k < i ==> h[k] == Chain(D, k) % B26
      {
        ChainUnfold(D, i);
        d[i] := d[i] + c;
        h[i] := d[i] % B26;
        c := d[i] / B26;
        i := i + 1;
      }
      h[0] := h[0] + c * 5;
      h[1] := h[1] + h[0] / B26;
      h[0] := h[0] % B26;
      assert h[..] == CarryReduce(D);
    }

    /** h = h * r modulo p; the wrapped limbs r1..r4 times five still fit 32 bits. */
    method MulMod()
      requires Valid() && Added(h[..])
      modifies h
      ensures Valid() && Bounded(h[..]) && h[..] == MulReduce(old(h[..]), r)
    {
      hide CarryReduce;
      ghost var H: seq<int>, R: seq<int> := h[..], r;
      var r0, r1, r2, r3, r4 := r[0], r[1], r[2], r[3], r[4];
      var s1: u32, s2: u32, s3: u32, s4: u32 := r1 * 5, r2 * 5, r3 * 5, r4 * 5;
      forall i | 0 <= i < 5 ensures 0 <= Column(5, H, R, i, 5) <= 5 * TERM {
        ColumnBound(H, R, i, 5);
      }
      TopColumnBound(H, R);
      ColumnsUnfold(H, R, 0);
      ColumnsUnfold(H, R, 1);
      ColumnsUnfold(H, R, 2);
      ColumnsUnfold(H, R, 3);
      ColumnsUnfold(H, R, 4);
      hide Column;
      var d := new u64[5];
      d[0] := h[0] * r0 + h[1] * s4 + h[2] * s3 + h[3] * s2 + h[4] * s1;
      d[1] := h[0] * r1 + h[1] * r0 + h[2] * s4 + h[3] * s3 + h[4] * s2;
      d[2] := h[0] * r2 + h[1] * r1 + h[2] * r0 + h[3] * s4 + h[4] * s3;
      d[3] := h[0] * r3 + h[1] * r2 + h[2] * r1 + h[3] * r0 + h[4] * s4;
      d[4] := h[0] * r4 + h[1] * r3 + h[2] * r2 + h[3] * r1 + h[4] * r0;
      assert d[..] == Columns(5, H, R, 5);
      CarryColumns(d);
    }

    /** Full blocks with the high bit set, then one padded partial block. */
    method Blocks(msg: seq<byte>)
      requires Valid() && Bounded(h[..])
      modifies h
      ensures Valid() && Bounded(h[..]) && h[..] == Absorb(old(h[..]), r, msg)
    {
      hide AddBlock, MulReduce;
      var off := 0;
      ghost var goal := Absorb(h[..], r, msg);
      while |msg| - off >= 16
        invariant 0 <= off <= |msg| && Valid() && Bounded(h[..])
        invariant Absorb(h[..], r, msg[off..]) == goal
      {
        assert msg[off..][..16] == msg[off..off + 16] && msg[off..][16..] == msg[off + 16..];
        Add(msg[off..off + 16], 0x100_0000);
        MulMod();
        off := off + 16;
      }
      if off < |msg| {
        Add(PadBlock(msg[off..]), 0);
        MulMod();
      }
    }

    /** Carries from limb to limb; the top one keeps its own. */
    method CarryUp()
      requires Valid() && Bounded(h[..])
      modifies h
      ensures Valid() && h[4] == Chain(old(h[..]), 4)
      ensures forall k :: 0 <= k < 4 ==> h[k] == Chain(old(h[..]), k) % B26
    {
      hide Chain, Bounded;
      ghost var H: seq<int> := h[..];
      ChainBounds(H);
      ChainUnfold(H, 0);
      var i := 1;
      while i < 5
        invariant 1 <= i <= 5
        invariant forall k :: i <= k < 5 ==> h[k] == H[k]
        invariant h[i - 1] == Chain(H, i - 1)
        invariant forall k :: 0 <= k < i - 1 ==> h[k] == Chain(H, k) % B26
      {
        ChainUnfold(H, i);
        h[i] := h[i] + h[i - 1] / B26;
        h[i - 1] := h[i - 1] % B26;
        i := i + 1;
      }
    }

    /** The final carry of h, in place. */
    method FullCarry()
      requires Valid() && Bounded(h[..])
      modifies h
      ensures Valid() && h[..] == CarryReduce(old(h[..])) && Digits(B26, h[..])
    {
      hide Chain, CarryReduce, Bounded;
      ghost var H: seq<int> := h[..];
      FullCarryDigits(H);
      FullCarryEnd(H);
      CarryUp();
      h[0] := h[0] + (h[4] / B26) * 5;
      h[1] := h[1] + h[0] / B26;
      h[0] := h[0] % B26;
      h[4] := h[4] % B26;
      assert h[..] == CarryReduce(H);
    }

    /** The final carry, the selection that keeps h, and the sum with the pad. */
    method Finish(tag: array<byte>)
      requires Valid() && Bounded(h[..]) && tag.Length == 16
      modifies h, tag
      ensures Val(0x100, tag[..]) == (Val(B26, CarryReduce(old(h[..]))) + Words4(old(pad))) % TWO128
    {
      hide Val, Pow, CarryReduce, Packed, Words4;
      FullCarry();
      var g := new u32[5];
      PlusFive(h, g);
      SelectMod(h, g);
      ghost var H: seq<int> := h[..];
      PackedValue(H);
      var w := Packed(h[..]);
      StoreTag(tag, w, pad);
      CongRemainder(Val(B26, H), TWO128);
      CongShift(Words4(w), Val(B26, H), Words4(pad), TWO128);
      CongMod(Words4(w) + Words4(pad), Val(B26, H) + Words4(pad), TWO128);
    }
  }

  lemma {:induction false} PadWords(key: seq<byte>)
    requires |key| == 32
    ensures Words4([Rd32(key[16..20]), Rd32(key[20..24]), Rd32(key[24..28]), Rd32(key[28..32])])
            == Val(0x100, key[16..])
  {
    var s := key[16..];
    SixteenBytes(s);
    assert s[..4] == key[16..20] && s[4..8] == key[20..24] && s[8..12] == key[24..28] && s[12..] == key[28..32];
  }

  /** The one-shot tag: what the carried accumulator and the pad add up to, and the
      RFC 8439 tag whenever that accumulator is below p. */
  method QuicPoly1305(key: seq<byte>, msg: seq<byte>, tag: array<byte>)
    requires |key| == 32 && tag.Length == 16
    modifies tag
    ensures Val(0x100, tag[..]) == (Val(B26, Carry(key, msg)) + Val(0x100, key[16..])) % TWO128
    ensures Val(B26, Carry(key, msg)) < P ==> Val(0x100, tag[..]) == RfcTag(key, msg)
  {
    hide Val, Pow, RfcTag, Absorb, KeyR, CarryReduce;
    ZeroBounded();
    var st := new Poly(key);
    st.Blocks(msg);
    PadWords(key);
    st.Finish(tag);
    TagCorrectIff(key, msg);
  }
}
