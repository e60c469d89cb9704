/** Streaming SHA-256 (src/crypto/symmetric/hash/hash/sha256.c): buffering, block
    absorption and padding against a one-shot fold over the padded message of
    section 5.1.1 of FIPS 180-4. The results hold for every compression function. */
module Sha256 {
  import opened Arith
  import opened Limbs

  const BLOCK: nat := 64

  /** The initial chaining value, the compression function and the byte form of the
      final chaining value; W is the eight-word chaining value. */
  datatype Core<!W> = Core(h0: W, compress: (W, seq<byte>) -> W, serialize: W -> seq<byte>)

  // ---- the one-shot hash ----

  /** Fold the compression function over the whole blocks of data. */
  function Blocks<W>(f: Core<W>, h: W, data: seq<byte>): W
    decreases |data|
  {
    if |data| < BLOCK then h else Blocks(f, f.compress(h, data[..BLOCK]), data[BLOCK..])
  }

  /** The bytes after the last whole block. */
  function Rest(data: seq<byte>): (r: seq<byte>)
    ensures |r| == |data| % BLOCK
  {
    data[|data| - |data| % BLOCK..]
  }

  function PadZeros(n: nat): (k: nat)
    ensures (n + 1 + k) % BLOCK == 56 && k < BLOCK
  {
    (55 + BLOCK - n % BLOCK) % BLOCK
  }

  /** The low 64 bits of the bit length, big-endian. */
  function LengthBytes(n: nat): (s: seq<byte>)
    ensures |s| == 8
  {
    var bits := (n * 8) % B64;
    [(bits / 0x100_0000_0000_0000) % 0x100, (bits / 0x1_0000_0000_0000) % 0x100,
     (bits / 0x100_0000_0000) % 0x100, (bits / 0x1_0000_0000) % 0x100,
     (bits / 0x100_0000) % 0x100, (bits / 0x1_0000) % 0x100, (bits / 0x100) % 0x100, bits % 0x100]
  }

  function Zeros(k: nat): (s: seq<byte>)
    ensures |s| == k
  {
    seq(k, _ => 0)
  }

  lemma {:induction false} PaddedLength(n: nat)
    ensures (n + 1 + PadZeros(n) + 8) % BLOCK == 0
  {}

  function Padded(m: seq<byte>): (p: seq<byte>)
    ensures |p| % BLOCK == 0
  {
    PaddedLength(|m|);
    m + [0x80] + Zeros(PadZeros(|m|)) + LengthBytes(|m|)
  }

  function Digest<W>(f: Core<W>, m: seq<byte>): seq<byte>
  {
    f.serialize(Blocks(f, f.h0, Padded(m)))
  }

  // ---- the streaming state ----

  /** What the context holds: chaining value, pending bytes and the byte count. */
  datatype State<W> = State(h: W, buf: seq<byte>, total: u64)

  /** The state after a message has gone in, however it was split. */
  function StateOf<W>(f: Core<W>, m: seq<byte>): State<W>
  {
    State(Blocks(f, f.h0, m), Rest(m), |m| % B64)
  }

  /** Bytes taken from the front of the data to complete a pending block. */
  function PendingTake(pending: nat, n: nat): (take: nat)
    requires pending < BLOCK
    ensures take <= n && take < BLOCK
  {
    if pending != 0 && n >= BLOCK - pending then BLOCK - pending else 0
  }

  /** One update: top up a pending block, absorb whole blocks, buffer the rest. */
  function Update<W>(f: Core<W>, s: State<W>, data: seq<byte>): State<W>
    requires |s.buf| < BLOCK
  {
    var take := PendingTake(|s.buf|, |data|);
    var h1 := if take != 0 then f.compress(s.h, s.buf + data[..take]) else s.h;
    var pend := if take != 0 then [] else s.buf;
    var rest := data[take..];
    State(Blocks(f, h1, rest), pend + Rest(rest), (s.total + |data|) % B64)
  }

  lemma {:induction false} BlocksAppend<W>(f: Core<W>, h: W, a: seq<byte>, b: seq<byte>)
    requires |a| % BLOCK == 0
    ensures Blocks(f, h, a + b) == Blocks(f, Blocks(f, h, a), b)
    decreases |a|
  {
    if |a| == 0 {
      assert a + b == b;
    } else {
      assert |a| >= BLOCK;
      assert (a + b)[..BLOCK] == a[..BLOCK] && (a + b)[BLOCK..] == a[BLOCK..] + b;
      assert (|a| - BLOCK) % BLOCK == 0;
      BlocksAppend(f, f.compress(h, a[..BLOCK]), a[BLOCK..], b);
    }
  }

  lemma {:induction false} BlocksIgnoreRest<W>(f: Core<W>, h: W, a: seq<byte>)
    ensures Blocks(f, h, a[..|a| - |a| % BLOCK]) == Blocks(f, h, a)
  {
    var n := |a| - |a| % BLOCK;
    assert n % BLOCK == 0;
    BlocksAppend(f, h, a[..n], a[n..]);
    assert a[..n] + a[n..] == a;
  }

  /** The data completes a pending block. */
  lemma {:induction false} UpdateFills<W>(f: Core<W>, whole: seq<byte>, pend: seq<byte>, d: seq<byte>)
    requires |whole| % BLOCK == 0 && 0 < |pend| < BLOCK && |d| >= BLOCK - |pend|
    ensures var take := BLOCK - |pend|; var h := Blocks(f, f.h0, whole);
      Blocks(f, f.compress(h, pend + d[..take]), d[take..]) == Blocks(f, f.h0, whole + pend + d)
      && Rest(d[take..]) == Rest(whole + pend + d)
  {
    var take := BLOCK - |pend|;
    var block, rest := pend + d[..take], d[take..];
    assert whole + pend + d == whole + (block + rest);
    BlocksAppend(f, f.h0, whole, block + rest);
    assert (block + rest)[..BLOCK] == block && (block + rest)[BLOCK..] == rest;
    RestShift(|whole| + BLOCK, whole + pend + d, rest);
  }

  lemma {:induction false} ShortData<W>(f: Core<W>, h: W, x: seq<byte>)
    requires |x| < BLOCK
    ensures Blocks(f, h, x) == h && Rest(x) == x
  {}

  /** Nothing is pending, or the data does not complete the pending block. */
  lemma {:induction false} UpdateExtends<W>(f: Core<W>, whole: seq<byte>, pend: seq<byte>, d: seq<byte>)
    requires |whole| % BLOCK == 0 && |pend| < BLOCK && (|pend| == 0 || |pend| + |d| < BLOCK)
    ensures Blocks(f, Blocks(f, f.h0, whole), d) == Blocks(f, f.h0, whole + pend + d)
    ensures pend + Rest(d) == Rest(whole + pend + d)
  {
    hide Blocks, Rest;
    assert whole + pend + d == whole + (pend + d);
    BlocksAppend(f, f.h0, whole, pend + d);
    RestShift(|whole|, whole + pend + d, pend + d);
    if |pend| == 0 {
      assert pend + d == d && pend + Rest(d) == Rest(d);
    } else {
      ShortData(f, Blocks(f, f.h0, whole), d);
      ShortData(f, Blocks(f, f.h0, whole), pend + d);
    }
  }

  lemma {:induction false} RestSplits(m: seq<byte>)
    ensures var n := |m| - |m| % BLOCK;
            n % BLOCK == 0 && |Rest(m)| < BLOCK && m[n..] == Rest(m) && m == m[..n] + Rest(m)
  {
  }

  /** Absorbing d after m leads to the state of m + d. */
  lemma {:induction false} UpdateAppends<W>(f: Core<W>, m: seq<byte>, d: seq<byte>)
    ensures Update(f, StateOf(f, m), d) == StateOf(f, m + d)
  {
    hide Blocks, Rest;
    RestSplits(m);
    var n := |m| - |m| % BLOCK;
    var whole, pend := m[..n], Rest(m);
    BlocksIgnoreRest(f, f.h0, m);
    TotalAdds(|m|, |d|);
    if PendingTake(|pend|, |d|) != 0 {
      UpdateFills(f, whole, pend, d);
    } else {
      assert d[0..] == d;
      UpdateExtends(f, whole, pend, d);
    }
  }

  lemma {:induction false} TotalAdds(a: nat, b: nat)
    ensures (a % B64 + b) % B64 == (a + b) % B64
  {}

  lemma {:induction false} RestShift(n: nat, all: seq<byte>, tail: seq<byte>)
    requires n % BLOCK == 0 && |all| == n + |tail| && all[n..] == tail
    ensures Rest(all) == Rest(tail)
  {
    assert |all| % BLOCK == |tail| % BLOCK;
  }

  function Flatten(chunks: seq<seq<byte>>): seq<byte>
  {
    if |chunks| == 0 then [] else Flatten(chunks[..|chunks| - 1]) + chunks[|chunks| - 1]
  }

  function UpdateAll<W>(f: Core<W>, chunks: seq<seq<byte>>): (s: State<W>)
    ensures s == StateOf(f, Flatten(chunks))
  {
    if |chunks| == 0 then StateOf(f, [])
    else
      var s := UpdateAll(f, chunks[..|chunks| - 1]);
      UpdateAppends(f, Flatten(chunks[..|chunks| - 1]), chunks[|chunks| - 1]);
      Update(f, s, chunks[|chunks| - 1])
  }

  /** Splitting a message into update calls makes no difference to the state. */
  lemma {:induction false} SplitIndependent<W>(f: Core<W>, a: seq<seq<byte>>, b: seq<seq<byte>>)
    requires Flatten(a) == Flatten(b)
    ensures UpdateAll(f, a) == UpdateAll(f, b)
  {}

  // ---- the context object ----

  class Context<W> {
    const f: Core<W>
    var h: W
    var total: u64
    const buf: array<byte>
    var bufLen: nat

    ghost predicate Valid()
      reads this
    {
      buf.Length == BLOCK && bufLen < BLOCK
    }

    ghost function Current(): State<W>
      requires Valid()
      reads this, buf
    {
      State(h, buf[..bufLen], total)
    }

    constructor Init(f: Core<W>)
      ensures Valid() && fresh(buf) && this.f == f && Current() == StateOf(f, [])
    {
      this.f := f;
      h := f.h0;
      buf := new byte[BLOCK];
      total, bufLen := 0, 0;
    }

    /** A struct copy: same state, no shared storage. */
    constructor Copy(s: Context<W>)
      requires s.Valid()
      ensures Valid() && fresh(buf) && f == s.f && Current() == s.Current()
    {
      var bs := s.buf[..];
      f := s.f;
      h := s.h;
      buf := new byte[BLOCK](i requires 0 <= i < BLOCK => bs[i]);
      total, bufLen := s.total, s.bufLen;
      new;
      assert buf[..] == s.buf[..];
    }

    /** Whole blocks straight from the data; the count of bytes used is returned. */
    method AbsorbBlocks(data: seq<byte>) returns (off: nat)
      modifies this`h
      ensures off == |data| - |data| % BLOCK && h == Blocks(f, old(h), data)
    {
      off := 0;
      ghost var goal := Blocks(f, h, data);
      while |data| - off >= BLOCK
        invariant 0 <= off <= |data| && off % BLOCK == 0
        invariant Blocks(f, h, data[off..]) == goal
      {
        assert data[off..][..BLOCK] == data[off..off + BLOCK] && data[off..][BLOCK..] == data[off + BLOCK..];
        h := f.compress(h, data[off..off + BLOCK]);
        off := off + BLOCK;
      }
    }

    /** Appends bytes to the pending buffer. */
    method Buffer(data: seq<byte>)
      requires buf.Length == BLOCK && bufLen + |data| <= BLOCK
      modifies this`bufLen, buf
      ensures bufLen == old(bufLen) + |data| && buf[..bufLen] == old(buf[..bufLen]) + data
    {
      var i := 0;
      while i < |data|
        invariant 0 <= i <= |data| && bufLen == old(bufLen)
        invariant buf[..bufLen + i] == old(buf[..bufLen]) + data[..i]
      {
        buf[bufLen + i] := data[i];
        assert buf[..bufLen + i + 1] == buf[..bufLen + i] + [data[i]];
        assert data[..i + 1] == data[..i] + [data[i]];
        i := i + 1;
      }
      bufLen := bufLen + |data|;
      assert data[..|data|] == data;
    }

    /** Tops up a pending block and flushes it; returns the bytes consumed. */
    method FillPending(data: seq<byte>) returns (take: nat)
      requires Valid()
      modifies this`bufLen, this`h, buf
      ensures Valid() && take == old(PendingTake(bufLen, |data|))
      ensures h == (if take != 0 then f.compress(old(h), old(buf[..bufLen]) + data[..take]) else old(h))
      ensures buf[..bufLen] == (if take != 0 then [] else old(buf[..bufLen]))
    {
      take := PendingTake(bufLen, |data|);
      Buffer(data[..take]);
      if take != 0 {
        assert buf[..bufLen] == buf[..];
        h := f.compress(h, buf[..]);
        bufLen := 0;
      }
    }

    /** The new state is the update function of the old one. */
    method Absorb(data: seq<byte>)
      requires Valid()
      modifies this, buf
      ensures Valid() && Current() == Update(f, old(Current()), data)
    {
      hide Blocks, Rest, PendingTake;
      var off := FillPending(data);
      var n := AbsorbBlocks(data[off..]);
      RestSplits(data[off..]);
      assert data[off..][n..] == data[off + n..];
      RestFits(old(bufLen), bufLen, data, off);
      Buffer(data[off + n..]);
      total := (total + |data|) % B64;
    }

    /** 0x80, then zero bytes until 56 bytes are pending. */
    method PadMessage(ghost m: seq<byte>)
      requires Valid() && Current() == StateOf(f, m)
      modifies this, buf
      ensures Valid() && Current() == StateOf(f, m + [0x80] + Zeros(PadZeros(|m|)))
    {
      hide Update, Blocks, PadZeros, Zeros, Rest;
      UpdateAppends(f, m, [0x80]);
      Absorb([0x80]);
      ghost var k := 0;
      assert m + [0x80] + Zeros(0) == m + [0x80];
      while bufLen != 56
        invariant Valid() && 0 <= k <= PadZeros(|m|) && Current() == StateOf(f, m + [0x80] + Zeros(k))
        decreases PadZeros(|m|) - k
      {
        ghost var soFar := m + [0x80] + Zeros(k);
        PadCount(|m|, k);
        UpdateAppends(f, soFar, [0]);
        ZerosPush(k);
        assert soFar + [0] == m + [0x80] + Zeros(k + 1);
        Absorb([0]);
        k := k + 1;
      }
      PadCount(|m|, k);
    }

    /** The digest of everything absorbed, through padding and the length. */
    method Final(ghost m: seq<byte>) returns (out: seq<byte>)
      requires Valid() && Current() == StateOf(f, m)
      modifies this, buf
      ensures out == Digest(f, m)
    {
      hide Update, Blocks, LengthBytes;
      LengthWraps(|m|);
      var lenbe := LengthBytes(total);
      PadMessage(m);
      UpdateAppends(f, m + [0x80] + Zeros(PadZeros(|m|)), lenbe);
      Absorb(lenbe);
      out := f.serialize(h);
    }
  }

  /** The length field read as a big-endian number. */
  lemma {:induction false} LengthValue(n: nat)
    ensures BeVal(LengthBytes(n)) == (8 * n) % B64
  {
    hide Val, Pow;
    var bits, s := (n * 8) % B64, LengthBytes(n);
    assert Reversed(s) == DigitsOf(0x100, bits, 8) by {
      forall i | 0 <= i < 8 ensures Reversed(s)[i] == DigitAt(0x100, bits, i) {
        BytePowers();
      }
    }
    DigitsOfValue(0x100, bits, 8);
    BytePowers();
    ModSmall(bits, B64);
  }

  lemma {:induction false} BytePowers()
    ensures Pow(0x100, 0) == 1 && Pow(0x100, 1) == 0x100 && Pow(0x100, 2) == 0x1_0000 && Pow(0x100, 3) == 0x100_0000
    ensures Pow(0x100, 4) == 0x1_0000_0000 && Pow(0x100, 5) == 0x100_0000_0000
    ensures Pow(0x100, 6) == 0x1_0000_0000_0000 && Pow(0x100, 7) == 0x100_0000_0000_0000 && Pow(0x100, 8) == B64
  {
    PowAdd(0x100, 1, 1);
    PowAdd(0x100, 2, 1);
    PowAdd(0x100, 2, 2);
    PowAdd(0x100, 4, 1);
    PowAdd(0x100, 4, 2);
    PowAdd(0x100, 4, 3);
    PowAdd(0x100, 4, 4);
  }

  /** The padded message: a one bit, the fewest zero bits that leave room for the length, and
      the bit length modulo 2^64, most significant byte first. */
  lemma {:induction false} PaddedShape(m: seq<byte>)
    ensures var p := Padded(m);
            |p| % 64 == 0 && |m| + 9 <= |p| < |m| + 9 + 64
            && p[..|m|] == m && p[|m|] == 0x80 && (forall i :: |m| < i < |p| - 8 ==> p[i] == 0)
            && BeVal(p[|p| - 8..]) == (8 * |m|) % B64
  {
    hide LengthBytes, PadZeros;
    var p := Padded(m);
    assert p[|p| - 8..] == LengthBytes(|m|);
    LengthValue(|m|);
  }

  /** The blocks of a message go through the compression function one by one, in order. */
  lemma {:induction false} BlocksOneByOne<W>(f: Core<W>, h: W, block: seq<byte>, rest: seq<byte>)
    requires |block| == 64
    ensures Blocks(f, h, block + rest) == Blocks(f, f.compress(h, block), rest)
    ensures |rest| < 64 ==> Blocks(f, h, rest) == h
  {
    assert (block + rest)[..64] == block && (block + rest)[64..] == rest;
  }

  lemma {:induction false} RestFits(before: nat, after: nat, data: seq<byte>, off: nat)
    requires before < BLOCK && off == PendingTake(before, |data|) && after == (if off != 0 then 0 else before)
    ensures after + |Rest(data[off..])| < BLOCK
  {}

  /** The bit count taken from the wrapped byte count is the bit count modulo 2^64. */
  lemma {:induction false} LengthWraps(n: nat)
    ensures LengthBytes(n % B64) == LengthBytes(n)
  {
    CongRemainder(n, B64);
    CongScale(n % B64, n, 8, B64);
    CongMod((n % B64) * 8, n * 8, B64);
  }

  /** 56 bytes are pending exactly when all the zeros are in, so the loop ends there. */
  lemma {:induction false} PadCount(n: nat, k: nat)
    requires k <= PadZeros(n)
    ensures (n + 1 + k) % BLOCK == 56 <==> k == PadZeros(n)
  {}

  lemma {:induction false} ZerosPush(k: nat)
    ensures Zeros(k) + [0] == Zeros(k + 1)
  {}
}

/** The TLS transcript (src/tls/handshake/core/tls/transcript.c): a running hash
    that can be read off at any time without disturbing it. */
module Transcript {
  import opened Arith
  import opened Sha256

  class Transcript<W> {
    const ctx: Context<W>
    ghost var messages: seq<byte>

    ghost predicate Valid()
      reads this, ctx, ctx.buf
    {
      ctx.Valid() && ctx.Current() == StateOf(ctx.f, messages)
    }

    constructor (f: Core<W>)
      ensures Valid() && messages == [] && ctx.f == f && fresh(ctx) && fresh(ctx.buf)
    {
      ctx := new Context<W>.Init(f);
      messages := [];
    }

    method Add(msg: seq<byte>)
      requires Valid()
      modifies this, ctx, ctx.buf
      ensures Valid() && messages == old(messages) + msg
    {
      hide Update, StateOf;
      UpdateAppends(ctx.f, messages, msg);
      ctx.Absorb(msg);
      messages := messages + msg;
    }

    /** The hash of all messages so far; nothing that existed before is changed. */
    method Hash() returns (out: seq<byte>)
      requires Valid()
      ensures out == Digest(ctx.f, messages) && Valid()
    {
      hide Digest, StateOf;
      var copy := new Context<W>.Copy(ctx);
      out := copy.Final(messages);
    }
  }
}
