/** The X25519 function: the ladder of section 5 of RFC 7748 as a recursion over the
    scalar bits in GF(p), and the limb code that computes it with delayed swaps. */
module X25519Ladder {
  import opened Arith
  import opened Limbs
  import opened Bits
  import opened X25519Field
  import opened X25519Bytes

  // ---- the reference, in GF(p) ----

  function FAdd(x: int, y: int): int { (x + y) % P }
  function FSub(x: int, y: int): int { (x - y) % P }
  function FMul(x: int, y: int): int { Times(x, y) % P }

  datatype Points = Points(x2: int, z2: int, x3: int, z3: int)

  function Swapped(s: Points): Points { Points(s.x3, s.z3, s.x2, s.z2) }

  /** The differential addition half of a step: the new (x3, z3). */
  function AddHalf(x1: int, s: Points): (int, int)
  {
    var a, b := FAdd(s.x2, s.z2), FSub(s.x2, s.z2);
    var c, d := FAdd(s.x3, s.z3), FSub(s.x3, s.z3);
    var da, cb := FMul(d, a), FMul(c, b);
    var sum, dif := FAdd(da, cb), FSub(da, cb);
    (FMul(sum, sum), FMul(x1, FMul(dif, dif)))
  }

  /** The doubling half: the new (x2, z2), with a24 = 121665. */
  function DoubleHalf(s: Points): (int, int)
  {
    var a, b := FAdd(s.x2, s.z2), FSub(s.x2, s.z2);
    var aa, bb := FMul(a, a), FMul(b, b);
    var e := FSub(aa, bb);
    (FMul(aa, bb), FMul(e, FAdd(aa, FMul(121665, e))))
  }

  function Step(x1: int, s: Points): Points
  {
    Points(DoubleHalf(s).0, DoubleHalf(s).1, AddHalf(x1, s).0, AddHalf(x1, s).1)
  }

  /** The ladder state once the bits 254, ..., t of k are used: each set bit swaps,
      steps and swaps back. */
  ghost function LadderAt(x1: int, k: int, t: nat): Points
    requires t <= 255
    decreases 255 - t
  {
    if t == 255 then Points(1, 0, x1, 1)
    else
      var s := LadderAt(x1, k, t + 1);
      if Bit(k, t) == 1 then Swapped(Step(x1, Swapped(s))) else Step(x1, s)
  }

  /** The u-coordinate of k times the point with u-coordinate u. */
  ghost function X25519(k: int, u: int): int
  {
    var s := LadderAt(u, k, 0);
    FMul(s.x2, Pow(s.z2, P - 2))
  }

  // ---- limb elements representing field elements ----

  ghost predicate Rep(h: array<u64>, v: int)
    reads h
  {
    Tight(h) && Cong(Fe(h), v, P)
  }

  ghost predicate LooseRep(h: array<u64>, v: int)
    reads h
  {
    Loose(h) && Cong(Fe(h), v, P)
  }

  lemma {:induction false} TightIsLoose(h: array<u64>, v: int)
    requires Rep(h, v)
    ensures LooseRep(h, v)
  {}

  lemma {:induction false} CongFold(x: int, y: int)
    requires Cong(x, y, P)
    ensures Cong(x, y % P, P)
  {
    CongRemainder(y, P);
    CongTrans(x, y, y % P, P);
  }

  method AddRep(h: array<u64>, f: array<u64>, g: array<u64>, ghost a: int, ghost b: int)
    requires h.Length == 5 && Rep(f, a) && Rep(g, b)
    modifies h
    ensures LooseRep(h, FAdd(a, b))
  {
    hide Val, Pow, Fe;
    CongAdd(Fe(f), a, Fe(g), b, P);
    CongFold(Fe(f) + Fe(g), a + b);
    FeAdd(h, f, g);
  }

  method SubRep(h: array<u64>, f: array<u64>, g: array<u64>, ghost a: int, ghost b: int)
    requires h.Length == 5 && Rep(f, a) && Rep(g, b)
    modifies h
    ensures LooseRep(h, FSub(a, b))
  {
    hide Val, Pow, Fe;
    CongAdd(Fe(f), a, Fe(g), b, P);
    CongFold(Fe(f) - Fe(g), a - b);
    CongIntro(Fe(f) - Fe(g) + 2 * P, Fe(f) - Fe(g), 2, P);
    CongTrans(Fe(f) - Fe(g) + 2 * P, Fe(f) - Fe(g), FSub(a, b), P);
    FeSub(h, f, g);
  }

  method MulRep(h: array<u64>, f: array<u64>, g: array<u64>, ghost a: int, ghost b: int)
    requires h.Length == 5 && LooseRep(f, a) && LooseRep(g, b)
    modifies h
    ensures Rep(h, FMul(a, b)) && LooseRep(h, FMul(a, b))
  {
    hide Val, Pow, Fe, Cong;
    ghost var v := Fe(f) * Fe(g);
    CongMul(Fe(f), a, Fe(g), b, P);
    TimesIs(a, b);
    CongFold(v, a * b);
    FeMul(h, f, g);
    CongTrans(Fe(h), v, FMul(a, b), P);
    TightIsLoose(h, FMul(a, b));
  }

  // ---- one ladder step ----

  method StepAddHalf(x3: array<u64>, z3: array<u64>, a: array<u64>, b: array<u64>, c: array<u64>, d: array<u64>,
                     x1: array<u64>, ghost u: int, ghost s: Points)
    requires x3.Length == 5 && z3.Length == 5 && x3 != z3
    requires x3 !in {a, b, c, d, x1} && z3 !in {a, b, c, d, x1}
    requires LooseRep(a, FAdd(s.x2, s.z2)) && LooseRep(b, FSub(s.x2, s.z2))
    requires LooseRep(c, FAdd(s.x3, s.z3)) && LooseRep(d, FSub(s.x3, s.z3)) && Rep(x1, u)
    modifies x3, z3
    ensures Rep(x3, AddHalf(u, s).0) && Rep(z3, AddHalf(u, s).1)
  {
    hide Val, Pow, LooseRep, Rep, FAdd, FSub, FMul;
    var da, cb := new u64[5], new u64[5];
    ghost var va, vb, vc, vd := FAdd(s.x2, s.z2), FSub(s.x2, s.z2), FAdd(s.x3, s.z3), FSub(s.x3, s.z3);
    MulRep(da, d, a, vd, va);
    MulRep(cb, c, b, vc, vb);
    ghost var vda, vcb := FMul(vd, va), FMul(vc, vb);
    AddRep(x3, da, cb, vda, vcb);
    MulRep(x3, x3, x3, FAdd(vda, vcb), FAdd(vda, vcb));
    SubRep(z3, da, cb, vda, vcb);
    MulRep(z3, z3, z3, FSub(vda, vcb), FSub(vda, vcb));
    ghost var sq := FMul(FSub(vda, vcb), FSub(vda, vcb));
    TightIsLoose(x1, u);
    MulRep(z3, z3, x1, sq, u);
    MulCommutes(sq, u);
  }

  lemma {:induction false} MulCommutes(x: int, y: int)
    ensures FMul(x, y) == FMul(y, x)
  {
    TimesIs(x, y);
    TimesIs(y, x);
  }

  /** The code adds b^2 to 121666 e, the reference a^2 to 121665 e: the same element. */
  lemma {:induction false} CurveConstant(aa: int, bb: int)
    ensures var e := FSub(aa, bb); FAdd(FMul(121666, e), bb) == FAdd(aa, FMul(121665, e))
  {
    hide Times;
    var e := FSub(aa, bb);
    TimesIs(121666, e);
    TimesIs(121665, e);
    CongRemainder(aa - bb, P);
    CongRemainder(121666 * e, P);
    CongRemainder(121665 * e, P);
    CongShift((121666 * e) % P, 121666 * e, bb, P);
    CongShift((121665 * e) % P, 121665 * e, aa, P);
    CongShift(e, aa - bb, 121665 * e + bb, P);
    CongSwap(aa + (121665 * e) % P, aa + 121665 * e, P);
    CongTrans((121666 * e) % P + bb, 121666 * e + bb, aa + 121665 * e, P);
    CongTrans((121666 * e) % P + bb, aa + 121665 * e, aa + (121665 * e) % P, P);
    CongMod((121666 * e) % P + bb, aa + (121665 * e) % P, P);
  }

  lemma {:induction false} ScaledRep(e: int, ve: int, h: int)
    requires Cong(e, ve, P) && Cong(h, 121666 * e, P)
    ensures Cong(h, FMul(121666, ve), P)
  {
    CongScale(e, ve, 121666, P);
    CongTrans(h, 121666 * e, 121666 * ve, P);
    TimesIs(121666, ve);
    CongFold(h, 121666 * ve);
  }

  method StepDoubleHalf(x2: array<u64>, z2: array<u64>, a: array<u64>, b: array<u64>, ghost s: Points)
    requires x2.Length == 5 && z2.Length == 5 && x2 != z2 && a != b
    requires x2 !in {a, b} && z2 !in {a, b}
    requires LooseRep(a, FAdd(s.x2, s.z2)) && LooseRep(b, FSub(s.x2, s.z2))
    modifies x2, z2, a, b
    ensures Rep(x2, DoubleHalf(s).0) && Rep(z2, DoubleHalf(s).1)
  {
    hide Val, Pow, FAdd, FSub, FMul, Fe, Tight, Loose, Cong;
    var e, da := new u64[5], new u64[5];
    ghost var va, vb := FAdd(s.x2, s.z2), FSub(s.x2, s.z2);
    assert a.Length == 5 && b.Length == 5 by { LooseLength(a, va); LooseLength(b, vb); }
    MulRep(a, a, a, va, va);
    MulRep(b, b, b, vb, vb);
    ghost var aa, bb := FMul(va, va), FMul(vb, vb);
    MulRep(x2, a, b, aa, bb);
    SubRep(e, a, b, aa, bb);
    ghost var ve := FSub(aa, bb);
    FeMul121666(da, e);
    ScaledRep(Fe(e), ve, Fe(da));
    AddRep(da, da, b, FMul(121666, ve), bb);
    CurveConstant(aa, bb);
    MulRep(z2, e, da, ve, FAdd(aa, FMul(121665, ve)));
  }

  lemma {:induction false} LooseLength(h: array<u64>, v: int)
    requires LooseRep(h, v)
    ensures h.Length == 5
  {}

  ghost predicate StateRep(x2: array<u64>, z2: array<u64>, x3: array<u64>, z3: array<u64>, s: Points)
    reads x2, z2, x3, z3
  {
    Rep(x2, s.x2) && Rep(z2, s.z2) && Rep(x3, s.x3) && Rep(z3, s.z3)
  }

  /** One step on (x2, z2, x3, z3): every operand of a multiplication is loose, every
      subtraction stays non-negative, and the result represents the reference step. */
  method LadderStep(x2: array<u64>, z2: array<u64>, x3: array<u64>, z3: array<u64>, x1: array<u64>,
                    ghost u: int, ghost s: Points)
    requires x2 != z2 && x2 != x3 && x2 != z3 && z2 != x3 && z2 != z3 && x3 != z3 && x1 !in {x2, z2, x3, z3}
    requires StateRep(x2, z2, x3, z3, s) && Rep(x1, u)
    modifies x2, z2, x3, z3
    ensures StateRep(x2, z2, x3, z3, Step(u, s))
  {
    hide Val, Pow, FAdd, FSub, FMul, Fe, Loose, LooseRep, AddHalf, DoubleHalf;
    var a, b, c, d := new u64[5], new u64[5], new u64[5], new u64[5];
    AddRep(a, x2, z2, s.x2, s.z2);
    SubRep(b, x2, z2, s.x2, s.z2);
    AddRep(c, x3, z3, s.x3, s.z3);
    SubRep(d, x3, z3, s.x3, s.z3);
    StepAddHalf(x3, z3, a, b, c, d, x1, u, s);
    StepDoubleHalf(x2, z2, a, b, s);
  }

  // ---- the whole ladder ----

  /** A conditional swap of both coordinates. */
  method SwapPoints(x2: array<u64>, z2: array<u64>, x3: array<u64>, z3: array<u64>, swap: u64, ghost s: Points)
    requires x2 != z2 && x2 != x3 && x2 != z3 && z2 != x3 && z2 != z3 && x3 != z3 && swap <= 1
    requires StateRep(x2, z2, x3, z3, s)
    modifies x2, z2, x3, z3
    ensures StateRep(x2, z2, x3, z3, if swap == 1 then Swapped(s) else s)
  {
    hide Val, Pow;
    FeCswap(x2, x3, swap);
    FeCswap(z2, z3, swap);
  }

  /** The state held in the limbs while a swap is still pending. */
  ghost function Pending(s: Points, swap: u64): Points
  {
    if swap == 1 then Swapped(s) else s
  }

  method Ladder(x2: array<u64>, z2: array<u64>, e: seq<byte>, x1: array<u64>, ghost u: int)
    requires x2.Length == 5 && z2.Length == 5 && x2 != z2 && x1 !in {x2, z2} && |e| == 32 && Rep(x1, u)
    modifies x2, z2
    ensures var s := LadderAt(u, Val(0x100, e), 0); Rep(x2, s.x2) && Rep(z2, s.z2)
  {
    hide Val, Pow, Step, Bit, Rep;
    ghost var k := Val(0x100, e);
    var x3, z3 := new u64[5], new u64[5];
    StartLadder(x2, z2, x3, z3, x1, u);
    var swap: u64 := 0;
    var pos := 255;
    while pos > 0
      invariant 0 <= pos <= 255 && swap <= 1 && fresh(x3) && fresh(z3) && x3 != z3
      invariant Rep(x1, u)
      invariant StateRep(x2, z2, x3, z3, Pending(LadderAt(u, k, pos), swap))
    {
      ghost var s := LadderAt(u, k, pos);
      pos := pos - 1;
      ByteBit(e, pos);
      var bit: u64 := (e[pos / 8] / Pow(2, pos % 8)) % 2;
      swap := Xor(swap, bit);
      OneBitXor();
      SwapPoints(x2, z2, x3, z3, swap, Pending(s, if swap == bit then 0 else 1));
      swap := bit;
      LadderStep(x2, z2, x3, z3, x1, u, Pending(s, bit));
    }
    SwapPoints(x2, z2, x3, z3, swap, Pending(LadderAt(u, k, 0), swap));
  }

  lemma {:induction false} OneBitXor()
    ensures Xor(0, 0) == 0 && Xor(0, 1) == 1 && Xor(1, 0) == 1 && Xor(1, 1) == 0
  {
    assert Xor(0, 0) == 0;
  }

  method StartLadder(x2: array<u64>, z2: array<u64>, x3: array<u64>, z3: array<u64>, x1: array<u64>, ghost u: int)
    requires x2.Length == 5 && z2.Length == 5 && x3.Length == 5 && z3.Length == 5 && Rep(x1, u)
    requires x2 != z2 && x2 != x3 && x2 != z3 && z2 != x3 && z2 != z3 && x3 != z3 && x1 !in {x2, z2, x3, z3}
    modifies x2, z2, x3, z3
    ensures StateRep(x2, z2, x3, z3, Points(1, 0, u, 1))
  {
    hide Val, Pow;
    FeSet(x2, 1);
    FeSet(z2, 0);
    FeCopy(x3, x1);
    assert x3[..] == x1[..];
    FeSet(z3, 1);
    CongSelf(0, P);
    CongSelf(1, P);
  }

  // ---- the exported function ----

  /** The clamped scalar of section 5 of RFC 7748. */
  function Clamp(scalar: seq<byte>): (e: seq<byte>)
    requires |scalar| == 32
    ensures |e| == 32
  {
    scalar[0 := scalar[0] - scalar[0] % 8][31 := scalar[31] % 64 + 64]
  }

  /** Clamping clears bits 0 to 2 and 255, sets bit 254 and keeps every other bit. */
  lemma {:induction false} ClampShape(scalar: seq<byte>)
    requires |scalar| == 32
    ensures var k, n := Val(0x100, Clamp(scalar)), Val(0x100, scalar);
            k % 8 == 0 && TWO255 / 2 <= k < TWO255 && k - TWO255 / 2 == n % (TWO255 / 2) / 8 * 8
  {
    hide Val, Pow;
    var e: seq<int> := Clamp(scalar);
    var p, low, mid := Pow(0x100, 31), Val(0x100, scalar[1..31]), Pow(0x100, 30);
    ThreeParts(e);
    ThreeParts(scalar);
    assert e[1..31] == scalar[1..31];
    ValBound(0x100, scalar[1..31]);
    assert |scalar[1..31]| == 30;
    PowAdd(0x100, 1, 30);
    OneByte();
    TopBytePower();
    ClampedParts(scalar[0], low, scalar[31], mid);
  }

  lemma {:induction false} OneByte()
    ensures Pow(0x100, 1) == 0x100
  {
  }

  lemma {:induction false} ThreeParts(e: seq<int>)
    requires |e| == 32
    ensures Val(0x100, e) == e[0] + 0x100 * Val(0x100, e[1..31]) + e[31] * Pow(0x100, 31)
  {
    hide Val, Pow;
    ValSnoc(0x100, e, 31);
    assert e[..32] == e && e[..31] == [e[0]] + e[1..31];
    ValCons(0x100, e[0], e[1..31]);
  }

  /** The bytes 0 and 31 clamped around the 30 between them, of 256^30 = m. */
  lemma {:induction false} ClampedParts(x: int, mid: int, y: int, m: int)
    requires 0 <= x < 0x100 && 0 <= mid < m && 0 <= y < 0x100 && 0x100 * m * 128 == TWO255
    ensures var k, n := (x - x % 8) + 0x100 * mid + (y % 64 + 64) * (0x100 * m), x + 0x100 * mid + y * (0x100 * m);
            k % 8 == 0 && TWO255 / 2 <= k < TWO255 && k - TWO255 / 2 == n % (TWO255 / 2) / 8 * 8
  {
    var p := 0x100 * m;
    var low := x + 0x100 * mid;
    var half := TWO255 / 2;
    assert half == 64 * p;
    var y0, y1 := y % 64, y / 64;
    assert y * p == y0 * p + y1 * half;
    assert 0 <= low < p;
    MulMono(y0 + 1, 64, p);
    MulNonneg(y0, p);
    var r := low + y0 * p;
    DivModUnique(low + y * p, half, y1, r);
    assert (y0 + 64) * p == y0 * p + half;
    var q := 0x20 * mid + (y0 * m) * 0x20 + x / 8;
    assert y0 * p == 0x100 * (y0 * m);
    DivModUnique(r, 8, q, x % 8);
    DivModUnique((x - x % 8) + 0x100 * mid + (y0 + 64) * p, 8, q + 64 * (0x20 * m), 0);
  }

  lemma {:induction false} TopBytePower()
    ensures Pow(0x100, 31) * 128 == TWO255
  {
    TwoTo64();
    PowPow(2, 8, 8);
    PowAdd(0x100, 8, 8);
    PowAdd(0x100, 16, 8);
    PowAdd(0x100, 24, 4);
    PowAdd(0x100, 28, 3);
    PowAdd(0x100, 1, 1);
    PowAdd(0x100, 2, 1);
    PowAdd(0x100, 2, 2);
  }

  lemma {:induction false} FinalProduct(x: int, z: int, vx: int, vz: int, zi: int, h: int)
    requires Cong(x, vx, P) && Cong(z, vz, P) && Cong(zi, Pow(z, P - 2), P) && Cong(h, x * zi, P)
    ensures h % P == FMul(vx, Pow(vz, P - 2))
  {
    hide Pow;
    CongPow(z, vz, P - 2, P);
    CongTrans(zi, Pow(z, P - 2), Pow(vz, P - 2), P);
    CongMul(x, vx, zi, Pow(vz, P - 2), P);
    CongTrans(h, x * zi, vx * Pow(vz, P - 2), P);
    CongMod(h, vx * Pow(vz, P - 2), P);
    TimesIs(vx, Pow(vz, P - 2));
  }

  /** out = X25519(clamped scalar, low 255 bits of point), as 32 little-endian bytes
      below p; the result is 1 unless every byte is zero. */
  method QuicX25519(out: array<byte>, scalar: seq<byte>, point: seq<byte>) returns (ok: bool)
    requires out.Length == 32 && |scalar| == 32 && |point| == 32
    modifies out
    ensures Val(0x100, out[..]) == X25519(Val(0x100, Clamp(scalar)), Val(0x100, point) % TWO255)
    ensures ok <==> X25519(Val(0x100, Clamp(scalar)), Val(0x100, point) % TWO255) != 0
  {
    hide Val, Pow, LadderAt, Clamp;
    var x1, x2, z2, zinv := new u64[5], new u64[5], new u64[5], new u64[5];
    var e := Clamp(scalar);
    FeFromBytes(x1, point);
    ghost var u := Val(0x100, point) % TWO255;
    ghost var s := LadderAt(u, Val(0x100, e), 0);
    CongSelf(u, P);
    Ladder(x2, z2, e, x1, u);
    FeInvert(zinv, z2);
    ghost var x, z, zi := Fe(x2), Fe(z2), Fe(zinv);
    FeMul(x2, x2, zinv);
    FinalProduct(x, z, s.x2, s.z2, zi, Fe(x2));
    FeToBytes(out, x2);
    ok := Nonzero(out);
  }

  lemma {:induction false} ZeroValue(s: seq<byte>)
    ensures Val(0x100, s) == 0 <==> forall i :: 0 <= i < |s| ==> s[i] == 0
  {
    if forall i :: 0 <= i < |s| ==> s[i] == 0 {
      ValZero(0x100, s);
    } else if Val(0x100, s) == 0 {
      var z := seq(|s|, _ => 0);
      ValZero(0x100, z);
      ValInjective(0x100, s, z);
    }
  }

  /** The OR over all bytes is nonzero exactly when the number is. */
  method Nonzero(out: array<byte>) returns (ok: bool)
    requires out.Length == 32
    ensures ok <==> Val(0x100, out[..]) != 0
  {
    var any := false;
    var i := 0;
    while i < 32
      invariant 0 <= i <= 32 && (any <==> exists k :: 0 <= k < i && out[k] != 0)
    {
      any := any || out[i] != 0;
      i := i + 1;
    }
    ZeroValue(out[..]);
    ok := any;
  }
}
