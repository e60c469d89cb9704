/** Fast reduction modulo the P-256 prime: a signed sum of nine rearrangements of
    the sixteen 32-bit words of the product (section D.2.3 of FIPS 186-4). */
module P256Solinas {
  import opened Arith
  import opened Limbs
  import opened P256Field

  const B32: int := 0x1_0000_0000

  /** Word indices of the terms s1..s9, least significant first; 0xff is a zero word. */
  const P256_TERMS: seq<seq<byte>> := [
    [0, 1, 2, 3, 4, 5, 6, 7],
    [0xff, 0xff, 0xff, 11, 12, 13, 14, 15],
    [0xff, 0xff, 0xff, 12, 13, 14, 15, 0xff],
    [8, 9, 10, 0xff, 0xff, 0xff, 14, 15],
    [9, 10, 11, 13, 14, 15, 13, 8],
    [11, 12, 13, 0xff, 0xff, 0xff, 8, 10],
    [12, 13, 14, 15, 0xff, 0xff, 9, 11],
    [13, 14, 15, 8, 9, 10, 0xff, 12],
    [14, 15, 0xff, 9, 10, 11, 0xff, 13]]

  function TermRow(t: nat): (row: seq<byte>)
    requires t < 9
    ensures |row| == 8 && forall i :: 0 <= i < 8 ==> row[i] < 16 || row[i] == 0xff
  {
    P256_TERMS[t]
  }

  // ---- words ----

  function W32(w: seq<u64>, c: nat): (x: int)
    requires |w| == 8 && c < 16
    ensures 0 <= x < B32
  {
    if c % 2 == 0 then w[c / 2] % B32 else (w[c / 2] / B32) % B32
  }

  ghost function Words(w: seq<u64>): (c: seq<int>)
    requires |w| == 8
    ensures |c| == 16
  {
    seq(16, k requires 0 <= k < 16 => W32(w, k))
  }

  /** The eight words of term t, picked out of the sixteen words c. */
  ghost function TermWords(c: seq<int>, t: nat): (e: seq<int>)
    requires |c| == 16 && t < 9
    ensures |e| == 8
  {
    seq(8, i requires 0 <= i < 8 => if TermRow(t)[i] == 0xff then 0 else c[TermRow(t)[i]])
  }

  ghost function Pack8(a0: int, a1: int, a2: int, a3: int, a4: int, a5: int, a6: int, a7: int): int
  {
    a0 + a1 * 0x100000000 + a2 * 0x10000000000000000 + a3 * 0x1000000000000000000000000 +
      a4 * 0x100000000000000000000000000000000 + a5 * 0x10000000000000000000000000000000000000000 +
      a6 * 0x1000000000000000000000000000000000000000000000000 +
      a7 * 0x100000000000000000000000000000000000000000000000000000000
  }

  lemma {:induction false} Val8(e: seq<int>)
    requires |e| == 8
    ensures Val(B32, e) == Pack8(e[0], e[1], e[2], e[3], e[4], e[5], e[6], e[7])
  {
    assert e[..8] == e && e[..0] == [];
    ValSnoc(B32, e, 0);
    ValSnoc(B32, e, 1);
    ValSnoc(B32, e, 2);
    ValSnoc(B32, e, 3);
    ValSnoc(B32, e, 4);
    ValSnoc(B32, e, 5);
    ValSnoc(B32, e, 6);
    ValSnoc(B32, e, 7);
    assert Pow(B32, 0) == 1 && Pow(B32, 1) == B32;
    PowAdd(B32, 1, 1);
    PowAdd(B32, 2, 1);
    PowAdd(B32, 2, 2);
    PowAdd(B32, 4, 1);
    PowAdd(B32, 4, 2);
    PowAdd(B32, 4, 3);
  }

  /** The 512-bit accumulator is the number its sixteen words denote. */
  lemma {:induction false} WordsValue(w: seq<u64>)
    requires |w| == 8
    ensures var c := Words(w);
      Val(B64, w) == Pack8(c[0], c[1], c[2], c[3], c[4], c[5], c[6], c[7])
                   + R256 * Pack8(c[8], c[9], c[10], c[11], c[12], c[13], c[14], c[15])
  {
    hide Val, Pow, W32, Words;
    ValSplit(B64, w, 4);
    PowerFacts();
    Val4(w[..4]);
    Val4(w[4..]);
    WordPair(w, 0); WordPair(w, 1); WordPair(w, 2); WordPair(w, 3);
    WordPair(w, 4); WordPair(w, 5); WordPair(w, 6); WordPair(w, 7);
  }

  lemma {:induction false} WordPair(w: seq<u64>, k: nat)
    requires |w| == 8 && k < 8
    ensures w[k] == Words(w)[2 * k] + B32 * Words(w)[2 * k + 1]
  {
    assert (2 * k) / 2 == k && (2 * k + 1) / 2 == k;
    assert Words(w)[2 * k] == W32(w, 2 * k) && Words(w)[2 * k + 1] == W32(w, 2 * k + 1);
  }

  // ---- the identity behind the term table ----

  ghost function Term(c: seq<int>, t: nat): int
    requires |c| == 16 && t < 9
  {
    Val(B32, TermWords(c, t))
  }

  ghost function SolinasSum(c: seq<int>): int
    requires |c| == 16
  {
    Term(c, 0) + 2 * Term(c, 1) + 2 * Term(c, 2) + Term(c, 3) + Term(c, 4)
    - Term(c, 5) - Term(c, 6) - Term(c, 7) - Term(c, 8)
  }

  lemma {:induction false} TermLow(c: seq<int>)
    requires |c| == 16
    ensures Term(c, 0) == Pack8(c[0], c[1], c[2], c[3], c[4], c[5], c[6], c[7])
    ensures Term(c, 1) == Pack8(0, 0, 0, c[11], c[12], c[13], c[14], c[15])
    ensures Term(c, 2) == Pack8(0, 0, 0, c[12], c[13], c[14], c[15], 0)
    ensures Term(c, 3) == Pack8(c[8], c[9], c[10], 0, 0, 0, c[14], c[15])
    ensures Term(c, 4) == Pack8(c[9], c[10], c[11], c[13], c[14], c[15], c[13], c[8])
  {
    Val8(TermWords(c, 0));
    Val8(TermWords(c, 1));
    Val8(TermWords(c, 2));
    Val8(TermWords(c, 3));
    Val8(TermWords(c, 4));
  }

  lemma {:induction false} TermHigh(c: seq<int>)
    requires |c| == 16
    ensures Term(c, 5) == Pack8(c[11], c[12], c[13], 0, 0, 0, c[8], c[10])
    ensures Term(c, 6) == Pack8(c[12], c[13], c[14], c[15], 0, 0, c[9], c[11])
    ensures Term(c, 7) == Pack8(c[13], c[14], c[15], c[8], c[9], c[10], 0, c[12])
    ensures Term(c, 8) == Pack8(c[14], c[15], 0, c[9], c[10], c[11], 0, c[13])
  {
    Val8(TermWords(c, 5));
    Val8(TermWords(c, 6));
    Val8(TermWords(c, 7));
    Val8(TermWords(c, 8));
  }


  lemma {:induction false} SolinasIdentity(c: seq<int>)
    requires |c| == 16
    ensures Pack8(c[0], c[1], c[2], c[3], c[4], c[5], c[6], c[7])
          + R256 * Pack8(c[8], c[9], c[10], c[11], c[12], c[13], c[14], c[15])
         == SolinasSum(c) +
            P256 * (0x1 * c[8] + 0x100000001 * c[9] + 0x10000000100000000 * c[10] +
                    0x100000000ffffffffffffffff * c[11] + 0x100000000fffffffffffffffeffffffff * c[12] +
                    0x100000000fffffffffffffffefffffffeffffffff * c[13] +
                    0x100000000fffffffffffffffefffffffefffffffeffffffff * c[14] +
                    0x100000000fffffffffffffffefffffffefffffffeffffffff00000000 * c[15])
  {
    TermLow(c);
    TermHigh(c);
  }

  /** The signed sum of the nine terms is congruent to the whole accumulator. */
  lemma {:induction false} SolinasCongruence(w: seq<u64>)
    requires |w| == 8
    ensures Cong(SolinasSum(Words(w)), Val(B64, w), P256)
  {
    var c := Words(w);
    WordsValue(w);
    SolinasIdentity(c);
    CongIntro(Val(B64, w), SolinasSum(c), 0x1 * c[8] + 0x100000001 * c[9] + 0x10000000100000000 * c[10] +
              0x100000000ffffffffffffffff * c[11] + 0x100000000fffffffffffffffeffffffff * c[12] +
              0x100000000fffffffffffffffefffffffeffffffff * c[13] +
              0x100000000fffffffffffffffefffffffefffffffeffffffff * c[14] +
              0x100000000fffffffffffffffefffffffefffffffeffffffff00000000 * c[15], P256);
    CongSwap(Val(B64, w), SolinasSum(c), P256);
  }

  // ---- the reduction ----

  /** Four limbs from eight 32-bit words: each limb ORs two disjoint halves. */
  method FromWords(t: array<u64>, e: array<u64>)
    requires t.Length == 4 && e.Length == 8 && t != e
    requires forall i :: 0 <= i < 8 ==> e[i] < B32
    modifies t
    ensures Int(t) == Val(B32, e[..])
  {
    hide Val, Pow;
    var i := 0;
    while i < 4
      invariant 0 <= i <= 4 && e[..] == old(e[..])
      invariant forall k {:trigger t[k]} :: 0 <= k < i ==> t[k] == e[2 * k] + e[2 * k + 1] * B32
    {
      t[i] := e[2 * i] + e[2 * i + 1] * B32;
      i := i + 1;
    }
    Val4(t[..4]);
    Val8(e[..]);
    assert t[0] == e[2 * 0] + e[2 * 0 + 1] * B32;
    assert t[1] == e[2 * 1] + e[2 * 1 + 1] * B32;
    assert t[2] == e[2 * 2] + e[2 * 2 + 1] * B32;
    assert t[3] == e[2 * 3] + e[2 * 3 + 1] * B32;
  }

  /** Any 256-bit number is below 2p, so one subtraction reduces it. */
  method ReduceOnceP(r: array<u64>, p: array<u64>)
    requires r.Length == 4 && p.Length == 4 && r != p && Int(p) == P256
    modifies r
    ensures Int(r) == old(Int(r)) % P256
  {
    ghost var x := Int(r);
    var ge := FeGe(r, p);
    if ge {
      DivModUnique(x, P256, 1, x - P256);
      FeSubRaw(r, r, p);
    } else {
      ModSmall(x, P256);
    }
  }

  /** Term t of the accumulator, reduced below p. */
  method BuildTerm(out: array<u64>, w: array<u64>, t: nat, p: array<u64>)
    requires out.Length == 4 && w.Length == 8 && p.Length == 4 && out != w && out != p && t < 9
    requires Int(p) == P256
    modifies out
    ensures Int(out) == Term(Words(w[..]), t) % P256
  {
    hide Val, Pow, TermRow, W32;
    var e := new u64[8];
    ghost var c := Words(w[..]);
    var i := 0;
    while i < 8
      invariant 0 <= i <= 8 && w[..] == old(w[..]) && p[..] == old(p[..])
      invariant forall k :: 0 <= k < i ==> e[k] < B32
      invariant e[..i] == TermWords(c, t)[..i]
    {
      e[i] := if TermRow(t)[i] == 0xff then 0 else W32(w[..], TermRow(t)[i]);
      i := i + 1;
    }
    assert e[..] == TermWords(c, t);
    FromWords(out, e);
    ReduceOnceP(out, p);
  }

  /** r += t modulo p, tracked as a congruence to an unreduced sum s. */
  method FpAddP(r: array<u64>, t: array<u64>, p: array<u64>, ghost s: int, ghost x: int)
    requires r.Length == 4 && t.Length == 4 && p.Length == 4 && r != p
    requires Int(p) == P256 && Int(r) == s % P256 && Int(t) == x % P256
    modifies r
    ensures Int(r) == (s + x) % P256
  {
    CongRemainder(s, P256);
    CongRemainder(x, P256);
    CongAdd(s % P256, s, x % P256, x, P256);
    CongMod(s % P256 + x % P256, s + x, P256);
    FpAdd(r, r, t, p);
  }

  method FpSubP(r: array<u64>, t: array<u64>, p: array<u64>, ghost s: int, ghost x: int)
    requires r.Length == 4 && t.Length == 4 && p.Length == 4 && r != p
    requires Int(p) == P256 && Int(r) == s % P256 && Int(t) == x % P256
    modifies r
    ensures Int(r) == (s - x) % P256
  {
    CongRemainder(s, P256);
    CongRemainder(x, P256);
    CongAdd(s % P256, s, x % P256, x, P256);
    CongMod(s % P256 - x % P256, s - x, P256);
    FpSub(r, r, t, p);
  }

  /** r = s1 + 2 s2 + 2 s3 + s4 + s5. */
  method ReduceAddHalf(r: array<u64>, w: array<u64>, p: array<u64>)
    requires r.Length == 4 && w.Length == 8 && p.Length == 4 && r != w && r != p && Int(p) == P256
    modifies r
    ensures var c := Words(w[..]);
      Int(r) == (Term(c, 0) + 2 * Term(c, 1) + 2 * Term(c, 2) + Term(c, 3) + Term(c, 4)) % P256
  {
    hide Term, Words;
    ghost var c := Words(w[..]);
    var t := new u64[4];
    BuildTerm(r, w, 0, p);
    BuildTerm(t, w, 1, p);
    FpAddP(r, t, p, Term(c, 0), Term(c, 1));
    FpAddP(r, t, p, Term(c, 0) + Term(c, 1), Term(c, 1));
    BuildTerm(t, w, 2, p);
    ghost var s := Term(c, 0) + Term(c, 1) + Term(c, 1);
    FpAddP(r, t, p, s, Term(c, 2));
    FpAddP(r, t, p, s + Term(c, 2), Term(c, 2));
    BuildTerm(t, w, 3, p);
    s := s + Term(c, 2) + Term(c, 2);
    FpAddP(r, t, p, s, Term(c, 3));
    BuildTerm(t, w, 4, p);
    FpAddP(r, t, p, s + Term(c, 3), Term(c, 4));
  }

  ghost function SubTerms(c: seq<int>, k: nat): int
    requires |c| == 16 && 5 <= k <= 9
  {
    if k == 5 then 0 else SubTerms(c, k - 1) + Term(c, k - 1)
  }

  /** r -= s6 + s7 + s8 + s9. */
  method ReduceSubHalf(r: array<u64>, w: array<u64>, p: array<u64>, ghost s: int)
    requires r.Length == 4 && w.Length == 8 && p.Length == 4 && r != w && r != p
    requires Int(p) == P256 && Int(r) == s % P256
    modifies r
    ensures Int(r) == (s - SubTerms(Words(w[..]), 9)) % P256
  {
    hide Term, Words;
    ghost var c := Words(w[..]);
    var t := new u64[4];
    var k := 5;
    while k < 9
      invariant 5 <= k <= 9 && w[..] == old(w[..]) && p[..] == old(p[..])
      invariant Int(r) == (s - SubTerms(c, k)) % P256
    {
      BuildTerm(t, w, k, p);
      FpSubP(r, t, p, s - SubTerms(c, k), Term(c, k));
      k := k + 1;
    }
  }

  /** r = w mod p for every 512-bit w. */
  method FpReduceP256(r: array<u64>, w: array<u64>, p: array<u64>)
    requires r.Length == 4 && w.Length == 8 && p.Length == 4 && r != w && r != p && Int(p) == P256
    modifies r
    ensures Int(r) == Val(B64, w[..]) % P256
  {
    hide Term, Words;
    ghost var c := Words(w[..]);
    ReduceAddHalf(r, w, p);
    ReduceSubHalf(r, w, p, Term(c, 0) + 2 * Term(c, 1) + 2 * Term(c, 2) + Term(c, 3) + Term(c, 4));
    assert SubTerms(c, 6) == Term(c, 5) by { assert SubTerms(c, 5) == 0; }
    assert SubTerms(c, 7) == SubTerms(c, 6) + Term(c, 6);
    assert SubTerms(c, 8) == SubTerms(c, 7) + Term(c, 7);
    SolinasCongruence(w[..]);
    CongMod(SolinasSum(c), Val(B64, w[..]), P256);
  }

  /** r = a * b mod p for all 256-bit a and b; r may be a or b. */
  method FpMulP(r: array<u64>, a: array<u64>, b: array<u64>, p: array<u64>)
    requires r.Length == 4 && a.Length == 4 && b.Length == 4 && p.Length == 4 && r != p && Int(p) == P256
    modifies r
    ensures Int(r) == old(Int(a) * Int(b)) % P256
  {
    var w := new u64[8];
    FeMulWide(w, a, b);
    FpReduceP256(r, w, p);
  }
}
