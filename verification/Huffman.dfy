/** The Huffman string decoder (src/app/qpack/qpack/huffman.c:44-116; section 5.2 of
    RFC 7541): one bit at a time against the canonical tables, proved to accept exactly
    the encodings and nothing else. */
module Huffman {
  import opened Arith
  import opened Options
  import opened HuffmanTables

  // ---- what an encoding is ----

  /** The low n bits of v, most significant first. */
  function ValueBits(v: nat, n: nat): (s: seq<bool>)
    ensures |s| == n
  {
    if n == 0 then [] else ValueBits(v / 2, n - 1) + [v % 2 == 1]
  }

  /** The code length at place i, searched from length len up. */
  function LenFrom(i: nat, len: nat): (r: nat)
    requires len <= 30 && Idx(len) <= i <= 256
    ensures len <= r <= 30 && Idx(r) <= i < Idx(r) + Cnt(r)
    decreases 30 - len
  {
    Canonical(len);
    if i < Idx(len) + Cnt(len) then len else LenFrom(i, len + 1)
  }

  function CodeLen(i: nat): (r: nat)
    requires i <= 256
    ensures r <= 30 && Idx(r) <= i < Idx(r) + Cnt(r)
  {
    Canonical(0);
    LenFrom(i, 0)
  }

  function Code(i: nat): nat
    requires i <= 256
  {
    First(CodeLen(i)) + i - Idx(CodeLen(i))
  }

  function OctetBits(o: byte): seq<bool>
  {
    SymbolsPermuted(o);
    ValueBits(Code(Pos(o)), CodeLen(Pos(o)))
  }

  /** The codes of all the octets, one after another. */
  function EncodedBits(s: seq<byte>): seq<bool>
  {
    if s == [] then [] else EncodedBits(s[..|s| - 1]) + OctetBits(s[|s| - 1])
  }

  function Ones(n: nat): (s: seq<bool>)
    ensures |s| == n
  {
    seq(n, i => true)
  }

  /** The bits of a byte string, most significant first in each byte. */
  function StringBits(s: seq<byte>): seq<bool>
  {
    if s == [] then [] else StringBits(s[..|s| - 1]) + ValueBits(s[|s| - 1], 8)
  }

  // ---- the decoder's steps ----

  const U32 := 0x1_0000_0000

  /** acc - First wraps around on 32 bits. */
  predicate CodeReady(acc: nat, len: nat)
    requires len <= 30
  {
    Cnt(len) != 0 && (acc - First(len)) % U32 < Cnt(len)
  }

  datatype State = State(acc: nat, nbits: nat, out: seq<byte>, ok: bool)

  const START := State(0, 0, [], true)

  /** The bits held so far are past every code that short. */
  ghost predicate Waiting(acc: nat, nbits: nat)
  {
    nbits <= 29 && acc < Pow(2, nbits) && acc >= First(nbits) + Cnt(nbits)
  }

  function Emitted(r: State, dcap: nat): State
    requires r.nbits <= 30 && First(r.nbits) <= r.acc && Idx(r.nbits) + r.acc - First(r.nbits) <= 256
  {
    var sym := Sym(Idx(r.nbits) + r.acc - First(r.nbits));
    if sym > 255 || |r.out| >= dcap then State(0, 0, r.out, false) else State(0, 0, r.out + [sym], true)
  }

  /** One bit more always lands on a code or keeps waiting: no run of bits outgrows the
      longest code, and the subtraction in CodeReady never wraps. */
  lemma {:induction false} OneMoreBit(acc: nat, nbits: nat, bit: bool)
    requires Waiting(acc, nbits)
    ensures var a, n := 2 * acc + (if bit then 1 else 0), nbits + 1;
            n <= 30 && a < Pow(2, n) && a < U32 && First(n) <= a
            && (CodeReady(a, n) <==> a < First(n) + Cnt(n))
            && (CodeReady(a, n) ==> Idx(n) + a - First(n) <= 256)
            && (!CodeReady(a, n) ==> Waiting(a, n))
  {
    hide First, Cnt, Idx;
    Canonical(nbits);
    Canonical(nbits + 1);
    PowMonotone(2, nbits + 1, 30);
    Two30();
    var a := 2 * acc + (if bit then 1 else 0);
    assert Pow(2, nbits + 1) == 2 * Pow(2, nbits);
    ModSmall(a - First(nbits + 1), U32);
    PlacesBounded(nbits + 1);
  }

  lemma {:induction false} Two30()
    ensures Pow(2, 30) == 0x4000_0000
  {
    PowAdd(2, 1, 1);
    PowAdd(2, 2, 2);
    PowAdd(2, 4, 4);
    PowAdd(2, 8, 8);
    PowAdd(2, 16, 8);
    PowAdd(2, 24, 4);
    PowAdd(2, 28, 2);
  }

  lemma {:induction false} PlacesBounded(len: nat)
    requires len <= 30
    ensures Idx(len) + Cnt(len) <= 257
    decreases 30 - len
  {
    Canonical(len);
    if len < 30 {
      PlacesBounded(len + 1);
    }
  }

  function Step(r: State, bit: bool, dcap: nat): (r': State)
    requires r.ok ==> Waiting(r.acc, r.nbits)
    ensures r'.ok ==> Waiting(r'.acc, r'.nbits)
  {
    if !r.ok then r
    else
      OneMoreBit(r.acc, r.nbits, bit);
      NothingHeld();
      var r1 := r.(acc := 2 * r.acc + (if bit then 1 else 0), nbits := r.nbits + 1);
      if CodeReady(r1.acc, r1.nbits) then Emitted(r1, dcap) else r1
  }

  lemma {:induction false} NothingHeld()
    ensures Waiting(0, 0)
  {
    Canonical(0);
    PowPos(2, 0);
  }

  function Feed(bits: seq<bool>, dcap: nat): (r: State)
    ensures r.ok ==> Waiting(r.acc, r.nbits)
  {
    NothingHeld();
    if bits == [] then START else Step(Feed(bits[..|bits| - 1], dcap), bits[|bits| - 1], dcap)
  }

  predicate PadValid(acc: nat, nbits: nat)
  {
    nbits < 8 && (nbits == 0 || acc == Pow(2, nbits) - 1)
  }

  function Decode(src: seq<byte>, dcap: nat): Option<seq<byte>>
  {
    var r := Feed(StringBits(src), dcap);
    if r.ok && PadValid(r.acc, r.nbits) then Some(r.out) else None
  }

  // ---- it accepts only encodings ----

  lemma {:induction false} LenUnique(i: nat, len: nat, n: nat)
    requires len <= n <= 30 && Idx(len) <= i && Idx(n) <= i < Idx(n) + Cnt(n) && i <= 256
    ensures LenFrom(i, len) == n
    decreases 30 - len
  {
    Canonical(len);
    if len < n {
      IdxMonotone(len + 1, n);
      LenUnique(i, len + 1, n);
    }
  }

  lemma {:induction false} IdxMonotone(m: nat, n: nat)
    requires m <= n <= 30
    ensures Idx(m) <= Idx(n)
    decreases n - m
  {
    if m < n {
      Canonical(m);
      IdxMonotone(m + 1, n);
    }
  }

  /** A code that is ready is the code of its place, and so of the symbol it emits. */
  lemma {:induction false} ReadyIsCode(acc: nat, len: nat, i: nat)
    requires len <= 30 && First(len) <= acc < First(len) + Cnt(len) && i == Idx(len) + acc - First(len) <= 256
    ensures CodeLen(i) == len && Code(i) == acc
  {
    hide First, Idx, Cnt;
    Canonical(0);
    LenUnique(i, 0, len);
  }

  lemma {:induction false} EmitsItsCode(i: nat, o: byte)
    requires i <= 256 && Sym(i) == o
    ensures OctetBits(o) == ValueBits(Code(i), CodeLen(i))
  {
    hide Sym, Pos;
    SymbolsPermuted(i);
  }

  lemma {:induction false} FedIsEncoded(bits: seq<bool>, dcap: nat)
    ensures var r := Feed(bits, dcap);
            r.ok ==> |r.out| <= dcap && bits == EncodedBits(r.out) + ValueBits(r.acc, r.nbits)
  {
    hide First, Idx, Cnt, Sym, Pos, OctetBits, CodeReady, Waiting;
    if bits != [] {
      var bs, bit := bits[..|bits| - 1], bits[|bits| - 1];
      FedIsEncoded(bs, dcap);
      var r := Feed(bs, dcap);
      if r.ok {
        StepIsEncoded(r, bit, dcap, bs);
      }
    }
  }

  lemma {:induction false} ValueBitsNext(acc: nat, n: nat, bit: bool)
    ensures ValueBits(2 * acc + (if bit then 1 else 0), n + 1) == ValueBits(acc, n) + [bit]
  {
  }

  lemma {:induction false} EncodedNext(s: seq<byte>, o: byte)
    ensures EncodedBits(s + [o]) == EncodedBits(s) + OctetBits(o)
    ensures EncodedBits(s + [o]) + ValueBits(0, 0) == EncodedBits(s) + OctetBits(o)
  {
    hide OctetBits;
    assert (s + [o])[..|s|] == s;
  }

  lemma {:induction false} StepIsEncoded(r: State, bit: bool, dcap: nat, bs: seq<bool>)
    requires r.ok && Waiting(r.acc, r.nbits) && |r.out| <= dcap
    requires bs == EncodedBits(r.out) + ValueBits(r.acc, r.nbits)
    ensures var r' := Step(r, bit, dcap);
            r'.ok ==> |r'.out| <= dcap && bs + [bit] == EncodedBits(r'.out) + ValueBits(r'.acc, r'.nbits)
  {
    hide First, Idx, Cnt, Sym, Pos, OctetBits, CodeReady, Waiting, ValueBits, EncodedBits;
    OneMoreBit(r.acc, r.nbits, bit);
    var a, n := 2 * r.acc + (if bit then 1 else 0), r.nbits + 1;
    ValueBitsNext(r.acc, r.nbits, bit);
    assert bs + [bit] == EncodedBits(r.out) + ValueBits(a, n);
    if CodeReady(a, n) {
      var i := Idx(n) + a - First(n);
      ReadyIsCode(a, n, i);
      if Sym(i) <= 255 {
        EmitsItsCode(i, Sym(i));
        EncodedNext(r.out, Sym(i));
      }
    }
  }

  // ---- it accepts every encoding ----

  function Shr(v: nat, j: nat): nat
  {
    PowPos(2, j);
    DivNonneg(v, Pow(2, j));
    v / Pow(2, j)
  }

  lemma {:induction false} ShrHalf(v: nat, j: nat)
    ensures Shr(v / 2, j) == Shr(v, j + 1)
    ensures Shr(v, j) / 2 == Shr(v, j + 1)
    ensures Shr(v, 0) == v
  {
    PowPos(2, j);
    DivDiv(v, 2, Pow(2, j));
    DivDiv(v, Pow(2, j), 2);
  }

  /** The first k bits of an n-bit value are the bits of the value shifted down. */
  lemma {:induction false} LeadingBits(v: nat, n: nat, k: nat)
    requires k <= n
    ensures ValueBits(v, n)[..k] == ValueBits(Shr(v, n - k), k)
  {
    if k < n {
      LeadingBits(v / 2, n - 1, k);
      ShrHalf(v, n - 1 - k);
      assert ValueBits(v, n)[..k] == ValueBits(v / 2, n - 1)[..k];
    } else {
      ShrHalf(v, 0);
    }
  }

  /** Cut short, a code is past every code that short: no code is another's beginning. */
  lemma {:induction false} PrefixFree(v: nat, n: nat, k: nat)
    requires k < n <= 30 && v >= First(n)
    ensures Shr(v, n - k) >= First(k) + Cnt(k)
    decreases n
  {
    hide First, Cnt;
    Canonical(n - 1);
    ShrHalf(v, n - 1 - k);
    if k < n - 1 {
      PrefixFree(v / 2, n - 1, k);
    } else {
      ShrHalf(v / 2, 0);
    }
  }

  lemma {:induction false} FedOneMore(bits: seq<bool>, bit: bool, dcap: nat)
    ensures Feed(bits + [bit], dcap) == Step(Feed(bits, dcap), bit, dcap)
  {
    assert (bits + [bit])[..|bits|] == bits;
  }

  lemma {:induction false} HalvesBack(v: nat, j: nat)
    ensures Shr(v, j) == 2 * Shr(v, j + 1) + (if Shr(v, j) % 2 == 1 then 1 else 0)
  {
    ShrHalf(v, j);
  }

  /** Feeding the first k bits of a code, short of all of it, only accumulates them. */
  lemma {:induction false} FeedPartOfCode(pre: seq<bool>, out: seq<byte>, i: nat, k: nat, dcap: nat)
    requires i <= 256 && k < CodeLen(i)
    requires Feed(pre, dcap) == State(0, 0, out, true)
    ensures Feed(pre + ValueBits(Code(i), CodeLen(i))[..k], dcap) == State(Shr(Code(i), CodeLen(i) - k), k, out, true)
  {
    hide First, Idx, Cnt, CodeLen, Feed, ValueBits, CodeReady, Shr;
    var n, code := CodeLen(i), Code(i);
    var w := ValueBits(code, n);
    CodeFits(i);
    if k == 0 {
      assert pre + w[..0] == pre;
      Canonical(0);
    } else {
      FeedPartOfCode(pre, out, i, k - 1, dcap);
      NextBit(code, n, k - 1);
      assert pre + w[..k] == (pre + w[..k - 1]) + [w[k - 1]];
      FedOneMore(pre + w[..k - 1], w[k - 1], dcap);
      PrefixFree(code, n, k);
      OneMoreBit(Shr(code, n - (k - 1)), k - 1, w[k - 1]);
    }
  }

  lemma {:induction false} NextBit(v: nat, n: nat, k: nat)
    requires k < n
    ensures Shr(v, n - k - 1) == 2 * Shr(v, n - k) + (if ValueBits(v, n)[k] then 1 else 0)
  {
    LeadingBits(v, n, k + 1);
    HalvesBack(v, n - k - 1);
    assert ValueBits(v, n)[k] == ValueBits(v, n)[..k + 1][k];
  }

  lemma {:induction false} CodeFits(i: nat)
    requires i <= 256
    ensures First(CodeLen(i)) <= Code(i) < First(CodeLen(i)) + Cnt(CodeLen(i)) && CodeLen(i) >= 1
    ensures Shr(Code(i), CodeLen(i)) == 0
  {
    hide First, Idx, Cnt, CodeLen;
    Canonical(0);
    var n := CodeLen(i);
    CodesBounded(n);
    DivLess(Code(i), Pow(2, n), 1);
    PowPos(2, n);
    DivNonneg(Code(i), Pow(2, n));
  }

  lemma {:induction false} CodesBounded(n: nat)
    requires n <= 30
    ensures First(n) + Cnt(n) <= Pow(2, n)
    decreases 30 - n
  {
    hide First, Cnt;
    Canonical(n);
    if n < 30 {
      CodesBounded(n + 1);
      assert Pow(2, n + 1) == 2 * Pow(2, n);
    } else {
      Two30();
    }
  }

  lemma {:induction false} FeedCode(pre: seq<bool>, out: seq<byte>, o: byte, dcap: nat)
    requires Feed(pre, dcap) == State(0, 0, out, true) && |out| < dcap
    ensures Feed(pre + OctetBits(o), dcap) == State(0, 0, out + [o], true)
  {
    hide First, Idx, Cnt, CodeLen, Feed, ValueBits, CodeReady, Shr, Sym, Pos;
    SymbolsPermuted(o);
    var i := Pos(o);
    var n, code := CodeLen(i), Code(i);
    var w := ValueBits(code, n);
    CodeFits(i);
    FeedPartOfCode(pre, out, i, n - 1, dcap);
    NextBit(code, n, n - 1);
    ShrHalf(code, 0);
    assert pre + w == (pre + w[..n - 1]) + [w[n - 1]];
    FedOneMore(pre + w[..n - 1], w[n - 1], dcap);
    OneMoreBit(Shr(code, 1), n - 1, w[n - 1]);
  }

  lemma {:induction false} FeedEncoded(s: seq<byte>, dcap: nat)
    requires |s| <= dcap
    ensures Feed(EncodedBits(s), dcap) == State(0, 0, s, true)
  {
    hide OctetBits, Step;
    if s != [] {
      FeedEncoded(s[..|s| - 1], dcap);
      FeedCode(EncodedBits(s[..|s| - 1]), s[..|s| - 1], s[|s| - 1], dcap);
      assert s == s[..|s| - 1] + [s[|s| - 1]];
    }
  }

  /** Up to seven ones are no code. */
  lemma {:induction false} FeedOnes(s: seq<byte>, t: nat, dcap: nat)
    requires |s| <= dcap && t < 8
    ensures Pow(2, t) >= 1 && Feed(EncodedBits(s) + Ones(t), dcap) == State(Pow(2, t) - 1, t, s, true)
  {
    hide First, Cnt, Feed, EncodedBits, CodeReady;
    PowPos(2, t);
    if t == 0 {
      assert EncodedBits(s) + Ones(0) == EncodedBits(s);
      FeedEncoded(s, dcap);
      assert Pow(2, 0) == 1;
    } else {
      FeedOnes(s, t - 1, dcap);
      assert EncodedBits(s) + Ones(t) == EncodedBits(s) + Ones(t - 1) + [true];
      FedOneMore(EncodedBits(s) + Ones(t - 1), true, dcap);
      OneMoreBit(Pow(2, t - 1) - 1, t - 1, true);
      OnesWait(t);
    }
  }

  lemma {:induction false} OnesWait(t: nat)
    requires t < 8
    ensures Pow(2, t) - 1 >= First(t) + Cnt(t)
  {
    PowAdd(2, 1, 1);
    PowAdd(2, 2, 1);
    PowAdd(2, 2, 2);
    PowAdd(2, 4, 1);
    PowAdd(2, 4, 2);
    PowAdd(2, 4, 3);
  }

  lemma {:induction false} AllOnes(n: nat)
    ensures Pow(2, n) >= 1 && ValueBits(Pow(2, n) - 1, n) == Ones(n)
  {
    PowPos(2, n);
    if n > 0 {
      AllOnes(n - 1);
      assert (Pow(2, n) - 1) / 2 == Pow(2, n - 1) - 1;
      assert Ones(n) == Ones(n - 1) + [true];
    }
  }

  /** Decoding answers s exactly when the input is the codes of s and then fewer than
      eight one bits, and s fits. */
  lemma {:induction false} DecodesExactly(src: seq<byte>, dcap: nat, s: seq<byte>)
    ensures Decode(src, dcap) == Some(s) <==>
              |s| <= dcap && exists t :: 0 <= t < 8 && StringBits(src) == EncodedBits(s) + Ones(t)
  {
    hide Feed, EncodedBits, StringBits, ValueBits, Waiting;
    var bits := StringBits(src);
    var r := Feed(bits, dcap);
    if r.ok && PadValid(r.acc, r.nbits) {
      FedIsEncoded(bits, dcap);
      AllOnes(r.nbits);
      assert ValueBits(r.acc, r.nbits) == Ones(r.nbits);
    }
    if t :| |s| <= dcap && 0 <= t < 8 && bits == EncodedBits(s) + Ones(t) {
      FeedOnes(s, t, dcap);
    }
  }

  /** No two strings share an encoding, whatever their padding. */
  lemma {:induction false} UniquelyDecodable(s: seq<byte>, s': seq<byte>, t: nat, t': nat)
    requires t < 8 && t' < 8 && EncodedBits(s) + Ones(t) == EncodedBits(s') + Ones(t')
    ensures s == s' && t == t'
  {
    var dcap := Max(|s|, |s'|);
    FeedOnes(s, t, dcap);
    FeedOnes(s', t', dcap);
  }

  function Max(a: nat, b: nat): nat
  {
    if a < b then b else a
  }

  // ---- the decoder as it runs ----

  lemma {:induction false} FeedStuck(bits: seq<bool>, more: seq<bool>, dcap: nat)
    requires !Feed(bits, dcap).ok
    ensures Feed(bits + more, dcap) == Feed(bits, dcap)
  {
    if more == [] {
      assert bits + more == bits;
    } else {
      FeedStuck(bits, more[..|more| - 1], dcap);
      assert bits + more == (bits + more[..|more| - 1]) + [more[|more| - 1]];
      FedOneMore(bits + more[..|more| - 1], more[|more| - 1], dcap);
    }
  }

  class Context {
    var acc: nat
    var nbits: nat
    const out: array<byte>
    const base: nat
    const dcap: nat
    var olen: nat
    var ok: bool
    /** Every bit taken in so far. */
    ghost var fed: seq<bool>

    ghost predicate InBounds()
      reads this, out
    {
      base + dcap <= out.Length && olen <= dcap
    }

    ghost function Model(): State
      requires InBounds()
      reads this, out
    {
      State(acc, nbits, out[base..base + olen], ok)
    }

    ghost predicate Valid()
      reads this, out
    {
      InBounds() && Model() == Feed(fed, dcap)
    }

    /** Nothing changes outside the destination window. */
    twostate predicate Framed()
      requires old(InBounds()) && InBounds()
      reads this, out
    {
      out[..base] == old(out[..base]) && out[base + dcap..] == old(out[base + dcap..])
    }

    constructor (out: array<byte>, base: nat, dcap: nat)
      requires base + dcap <= out.Length
      ensures Valid() && fed == [] && this.out == out && this.base == base && this.dcap == dcap
    {
      acc, nbits, olen, ok := 0, 0, 0, true;
      this.out, this.base, this.dcap := out, base, dcap;
      fed := [];
    }

    /** EOS and a full destination both fail. */
    method PutSym(sym: nat)
      requires InBounds() && ok && sym <= 256
      modifies this`olen, this`ok, out
      ensures InBounds() && Framed()
      ensures ok == (sym <= 255 && old(olen) < dcap)
      ensures out[base..base + olen] == if ok then old(out[base..base + olen]) + [sym] else old(out[base..base + olen])
    {
      if sym > 255 || olen >= dcap {
        ok := false;
        return;
      }
      out[base + olen] := sym;
      olen := olen + 1;
    }

    method EmitCode()
      requires InBounds() && ok && nbits <= 30 && First(nbits) <= acc && Idx(nbits) + acc - First(nbits) <= 256
      modifies this`acc, this`nbits, this`olen, this`ok, out
      ensures InBounds() && Framed() && Model() == Emitted(old(Model()), dcap)
    {
      hide Sym, Pos, First, Idx;
      SymbolsPermuted(Idx(nbits) + acc - First(nbits));
      PutSym(Sym(Idx(nbits) + acc - First(nbits)));
      acc := 0;
      nbits := 0;
    }

    /** The source also fails a run of more than 30 bits; there is none. */
    method StepBit(bit: bool)
      requires Valid() && ok
      modifies this, out
      ensures Valid() && Framed() && fed == old(fed) + [bit]
    {
      hide First, Idx, Cnt, Feed, Waiting, CodeReady, Emitted, Sym;
      FedOneMore(fed, bit, dcap);
      OneMoreBit(acc, nbits, bit);
      ghost var was := Model();
      var a := 2 * acc + if bit then 1 else 0;
      ModSmall(a, U32);
      acc := a % U32;
      nbits := nbits + 1;
      fed := fed + [bit];
      if nbits > 30 {
        assert false;
      }
      assert Model() == was.(acc := a, nbits := was.nbits + 1);
      if CodeReady(acc, nbits) {
        EmitCode();
      }
    }

    /** All eight bits count as fed even when the loop stops at an error: what is left
        would change nothing. */
    method StepOctet(b: byte)
      requires Valid()
      modifies this, out
      ensures Valid() && Framed() && fed == old(fed) + ValueBits(b, 8)
    {
      hide Feed, ValueBits, BitAt, Pow;
      var k := 8;
      ghost var bits := ValueBits(b, 8);
      while k != 0 && ok
        invariant 0 <= k <= 8
        invariant Valid() && Framed() && fed == old(fed) + bits[..8 - k]
      {
        BitOfOctet(b, k);
        StepBit(BitAt(b, k - 1));
        k := k - 1;
        assert bits[..8 - k] == bits[..7 - k] + [bits[7 - k]];
      }
      ghost var rest := bits[8 - k..];
      assert k == 0 ==> fed + rest == fed;
      if !ok {
        FeedStuck(fed, rest, dcap);
      }
      assert old(fed) + bits[..8 - k] + rest == old(fed) + bits;
      fed := fed + rest;
    }
  }

  function Power2(k: nat): int
    requires k < 8
  {
    [1, 2, 4, 8, 16, 32, 64, 128][k]
  }

  predicate BitAt(b: byte, k: nat)
    requires k < 8
  {
    b / Power2(k) % 2 == 1
  }

  lemma {:induction false} BitOfOctet(b: byte, k: nat)
    requires 1 <= k <= 8
    ensures BitAt(b, k - 1) == ValueBits(b, 8)[8 - k]
  {
    LeadingBits(b, 8, 8 - k + 1);
    assert ValueBits(b, 8)[8 - k] == ValueBits(b, 8)[..8 - k + 1][8 - k];
    PowerOfTwo(k - 1);
  }

  lemma {:induction false} PowerOfTwo(k: nat)
    requires k < 8
    ensures Power2(k) == Pow(2, k)
  {
    if k > 0 {
      PowerOfTwo(k - 1);
    }
  }

  /** The whole decoder: success, length and octets are those of the specification, and
      nothing outside the destination is touched. */
  method DecodeInto(src: seq<byte>, dst: array<byte>, base: nat, dcap: nat) returns (ok: bool, outLen: nat)
    requires base + dcap <= dst.Length
    modifies dst
    ensures ok == Decode(src, dcap).Some?
    ensures ok ==> outLen <= dcap && dst[base..base + outLen] == Decode(src, dcap).value
    ensures dst[..base] == old(dst[..base]) && dst[base + dcap..] == old(dst[base + dcap..])
  {
    hide Feed;
    var c := new Context(dst, base, dcap);
    for i := 0 to |src|
      invariant c.out == dst && c.base == base && c.dcap == dcap
      invariant c.Valid() && c.fed == StringBits(src[..i])
      invariant dst[..base] == old(dst[..base]) && dst[base + dcap..] == old(dst[base + dcap..])
    {
      assert src[..i + 1][..i] == src[..i];
      c.StepOctet(src[i]);
    }
    assert src[..|src|] == src;
    if !(c.ok && PadValid(c.acc, c.nbits)) {
      return false, 0;
    }
    return true, c.olen;
  }
}
