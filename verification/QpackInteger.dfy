/** Prefixed integers (src/app/qpack/qpack/integer.c; section 5.1 of RFC 7541). */
module QpackInteger {
  import opened Arith
  import opened Options

  function PrefixMax(bits: nat): (m: int)
    requires 1 <= bits <= 8
    ensures 1 <= m <= 255
  {
    [1, 3, 7, 15, 31, 63, 127, 255][bits - 1]
  }

  // ---- the wire form ----

  /** Seven bits at a time, least significant first, all but the last flagged. */
  function Groups(v: nat): (s: seq<byte>)
    ensures |s| >= 1
  {
    if v >= 0x80 then [v % 0x80 + 0x80] + Groups(v / 0x80) else [v]
  }

  /** prefix fills the bits above the low `bits` ones. */
  ghost predicate FitsPrefix(bits: nat, prefix: int)
  {
    1 <= bits <= 8 && 0 <= prefix && prefix + PrefixMax(bits) <= 255 && prefix % (PrefixMax(bits) + 1) == 0
  }

  function IntBytes(bits: nat, prefix: int, value: nat): (s: seq<byte>)
    requires 1 <= bits <= 8 && 0 <= prefix && prefix + PrefixMax(bits) <= 255
    ensures |s| >= 1
  {
    var pmax := PrefixMax(bits);
    if value < pmax then [prefix + value] else [prefix + pmax] + Groups(value - pmax)
  }

  datatype Decoded = Decoded(value: nat, used: nat)

  function TakeGroups(s: seq<byte>, off: nat, value: nat, m: nat): Option<Decoded>
    decreases |s| - off
  {
    if off >= |s| || m > 56 then None
    else
      PowPos(2, m);
      var v := value + (s[off] % 0x80) * Pow(2, m);
      if s[off] >= 0x80 then TakeGroups(s, off + 1, v, m + 7) else Some(Decoded(v, off + 1))
  }

  function IntDecode(s: seq<byte>, bits: nat): Option<Decoded>
    requires 1 <= bits <= 8
  {
    var pmax := PrefixMax(bits);
    if |s| == 0 then None
    else
      var v := s[0] % (pmax + 1);
      if v < pmax then Some(Decoded(v, 1)) else TakeGroups(s, 1, v, 0)
  }

  // ---- round trip, exactly as far as nine groups reach ----

  lemma {:induction false} SevenBits(m: nat)
    ensures Pow(2, m + 7) == 0x80 * Pow(2, m)
  {
    PowAdd(2, m, 7);
    PowAdd(2, 1, 1);
    PowAdd(2, 2, 2);
    PowAdd(2, 4, 3);
    PowAdd(2, 2, 1);
  }

  lemma {:induction false} GroupSum(x: nat, d: int, q: int, p: int)
    requires x == d + 0x80 * q
    ensures d * p + q * (0x80 * p) == x * p
  {
    MulAssoc(q, 0x80, p);
  }

  lemma {:induction false} BeforeLast(m: nat, v: int)
    requires m <= 56 && 0x80 <= v < Pow(2, 63 - m)
    ensures m < 56
  {
    SevenBits(0);
  }

  /** Reading back the groups of v at shift m, while v << m stays below 2^63. */
  lemma {:induction false} GroupsReadBack(pre: seq<byte>, v: nat, rest: seq<byte>, value: nat, m: nat)
    requires m <= 56 && m % 7 == 0 && v < Pow(2, 63 - m)
    ensures v * Pow(2, m) >= 0
    ensures TakeGroups(pre + Groups(v) + rest, |pre|, value, m)
            == Some(Decoded(value + v * Pow(2, m), |pre| + |Groups(v)|))
    decreases v
  {
    hide Pow;
    var s := pre + Groups(v) + rest;
    PowPos(2, m);
    assert s[|pre|] == Groups(v)[0];
    if v >= 0x80 {
      var d, q := v % 0x80, v / 0x80;
      var pre' := pre + [d + 0x80];
      assert s == pre' + Groups(q) + rest;
      SevenBits(m);
      GroupSum(v, d, q, Pow(2, m));
      MulNonneg(d, Pow(2, m));
      BeforeLast(m, v);
      SevenBits(56 - m);
      GroupsReadBack(pre', q, rest, value + d * Pow(2, m), m + 7);
    }
  }

  /** From 2^63 on, the ninth group still asks for more and the reader gives up. */
  lemma {:induction false} GroupsRefused(pre: seq<byte>, v: nat, rest: seq<byte>, value: nat, m: nat)
    requires m <= 63 && m % 7 == 0 && v >= Pow(2, 63 - m)
    ensures TakeGroups(pre + Groups(v) + rest, |pre|, value, m) == None
    decreases v
  {
    hide Pow;
    var s := pre + Groups(v) + rest;
    assert s[|pre|] == Groups(v)[0];
    if m <= 56 {
      SevenBits(56 - m);
      PowPos(2, 56 - m);
      var d, q := v % 0x80, v / 0x80;
      var pre' := pre + [d + 0x80];
      assert s == pre' + Groups(q) + rest;
      PowPos(2, m);
      GroupsRefused(pre', q, rest, value + d * Pow(2, m), m + 7);
    }
  }

  lemma {:induction false} PrefixSplits(bits: nat, prefix: int, v: int)
    requires FitsPrefix(bits, prefix) && 0 <= v <= PrefixMax(bits)
    ensures (prefix + v) % (PrefixMax(bits) + 1) == v
  {
    var m := PrefixMax(bits) + 1;
    DivMod(prefix, m);
    DivModUnique(prefix + v, m, prefix / m, v);
  }

  lemma {:induction false} Two63()
    ensures Pow(2, 63) == 0x8000_0000_0000_0000
  {
    SevenBits(0);
    SevenBits(7);
    PowAdd(2, 14, 14);
    PowAdd(2, 28, 28);
    SevenBits(56);
  }

  /** An encoded integer reads back, using up exactly its own bytes, if and only if
      what it holds beyond the prefix is below 2^63. */
  lemma {:induction false} IntRoundTrip(bits: nat, prefix: int, value: nat, rest: seq<byte>)
    requires FitsPrefix(bits, prefix)
    ensures value < PrefixMax(bits) + 0x8000_0000_0000_0000 ==>
              IntDecode(IntBytes(bits, prefix, value) + rest, bits)
                == Some(Decoded(value, |IntBytes(bits, prefix, value)|))
    ensures value >= PrefixMax(bits) + 0x8000_0000_0000_0000 ==>
              IntDecode(IntBytes(bits, prefix, value) + rest, bits) == None
  {
    var pmax := PrefixMax(bits);
    var s := IntBytes(bits, prefix, value) + rest;
    if value < pmax {
      PrefixSplits(bits, prefix, value);
    } else {
      PrefixSplits(bits, prefix, pmax);
      assert s == [prefix + pmax] + Groups(value - pmax) + rest;
      Two63();
      if value - pmax < 0x8000_0000_0000_0000 {
        GroupsReadBack([prefix + pmax], value - pmax, rest, pmax, 0);
      } else {
        GroupsRefused([prefix + pmax], value - pmax, rest, pmax, 0);
      }
    }
  }

  /** What nine groups on top of `value` can reach at most. */
  lemma {:induction false} GroupsBounded(s: seq<byte>, off: nat, value: nat, m: nat)
    requires m <= 63 && m % 7 == 0
    ensures var r := TakeGroups(s, off, value, m);
            r.Some? ==> off < r.value.used <= |s| && r.value.used <= off + (63 - m) / 7
                        && r.value.value < value + Pow(2, 63) - Pow(2, m) + 1
    decreases |s| - off
  {
    hide Pow;
    if off < |s| && m <= 56 {
      PowPos(2, m);
      SevenBits(m);
      var d := s[off] % 0x80;
      MulMono(d, 0x7f, Pow(2, m));
      if s[off] >= 0x80 {
        GroupsBounded(s, off + 1, value + d * Pow(2, m), m + 7);
      } else {
        PowMonotone(2, m + 7, 63);
      }
    }
  }

  /** Decoding never leaves 64 bits, never reads past the input and never reads more
      than ten bytes. */
  lemma {:induction false} IntDecodeBounded(s: seq<byte>, bits: nat)
    requires 1 <= bits <= 8
    ensures var r := IntDecode(s, bits);
            r.Some? ==> r.value.value < 0x8000_0000_0000_0000 + PrefixMax(bits) && 1 <= r.value.used <= |s|
                        && r.value.used <= 10
  {
    if |s| > 0 && s[0] % (PrefixMax(bits) + 1) == PrefixMax(bits) {
      GroupsBounded(s, 1, PrefixMax(bits), 0);
      Two63();
    }
  }

  // ---- the encoder and the decoder as they run ----

  function Min(a: nat, b: nat): nat
  {
    if a < b then a else b
  }

  /** was with bytes written from base on, cut off after cap of them. */
  function Splice(was: seq<byte>, base: nat, cap: nat, bytes: seq<byte>): (now: seq<byte>)
    requires base + cap <= |was|
    ensures |now| == |was|
  {
    var k := Min(|bytes|, cap);
    was[..base] + bytes[..k] + was[base + k..]
  }

  lemma {:induction false} SpliceNext(was: seq<byte>, base: nat, cap: nat, bytes: seq<byte>, b: byte)
    requires base + cap <= |was|
    ensures |bytes| < cap ==> Splice(was, base, cap, bytes + [b]) == Splice(was, base, cap, bytes)[base + |bytes| := b]
    ensures |bytes| >= cap ==> Splice(was, base, cap, bytes + [b]) == Splice(was, base, cap, bytes)
  {
  }

  lemma {:induction false} SpliceHolds(was: seq<byte>, base: nat, cap: nat, bytes: seq<byte>)
    requires base + cap <= |was|
    ensures var now := Splice(was, base, cap, bytes);
            now[..base] == was[..base] && now[base + cap..] == was[base + cap..]
            && (|bytes| <= cap ==> now[base..base + |bytes|] == bytes)
  {
  }

  method PutByte(buf: array<byte>, base: nat, cap: nat, off: nat, b: byte) returns (ok: bool, next: nat)
    requires base + cap <= buf.Length && off <= cap
    modifies buf
    ensures ok == (off < cap)
    ensures next == if ok then off + 1 else off
    ensures buf[..] == if ok then old(buf[..])[base + off := b] else old(buf[..])
  {
    if off >= cap {
      return false, off;
    }
    buf[base + off] := b;
    return true, off + 1;
  }

  /** A failed byte is forgotten by the next one, but the room never comes back, so the
      last byte fails too. `was` and `done` name the buffer and the bytes before this call. */
  method PutGroups(buf: array<byte>, base: nat, cap: nat, off: nat, v0: u64, ghost was: seq<byte>,
                   ghost done: seq<byte>)
    returns (ok: bool, next: nat)
    requires |was| == buf.Length && base + cap <= |was|
    requires buf[..] == Splice(was, base, cap, done) && |done| == off <= cap
    modifies buf
    ensures ok == (off + |Groups(v0)| <= cap)
    ensures next == Min(off + |Groups(v0)|, cap)
    ensures buf[..] == Splice(was, base, cap, done + Groups(v0))
  {
    hide Splice, Groups;
    ok, next := true, off;
    var v := v0;
    ghost var all: seq<byte>, sofar: seq<byte> := done + Groups(v0), done;
    while v >= 0x80
      invariant all == sofar + Groups(v) && off <= |sofar|
      invariant next == Min(|sofar|, cap)
      invariant ok == (|sofar| <= cap)
      invariant buf[..] == Splice(was, base, cap, sofar)
    {
      GroupsStep(v, sofar);
      SpliceNext(was, base, cap, sofar, v % 0x80 + 0x80);
      ok, next := PutByte(buf, base, cap, next, v % 0x80 + 0x80);
      sofar := sofar + [v % 0x80 + 0x80];
      v := v / 0x80;
    }
    GroupsStep(v, sofar);
    SpliceNext(was, base, cap, sofar, v);
    var last;
    last, next := PutByte(buf, base, cap, next, v);
    ok := last && ok;
  }

  lemma {:induction false} GroupsStep(v: nat, pre: seq<byte>)
    ensures v >= 0x80 ==> pre + Groups(v) == pre + [v % 0x80 + 0x80] + Groups(v / 0x80)
    ensures v < 0x80 ==> Groups(v) == [v]
  {
  }

  /** Returns the bytes written, or 0 when they do not fit; either way the buffer holds as
      many of them as it has room for and is otherwise as before. */
  method EncodeInt(buf: array<byte>, base: nat, cap: nat, bits: nat, prefix: byte, value: u64) returns (written: nat)
    requires base + cap <= buf.Length && FitsPrefix(bits, prefix)
    modifies buf
    ensures written == if |IntBytes(bits, prefix, value)| <= cap then |IntBytes(bits, prefix, value)| else 0
    ensures buf[..] == Splice(old(buf[..]), base, cap, IntBytes(bits, prefix, value))
  {
    hide Splice, Groups;
    var pmax := PrefixMax(bits);
    ghost var was: seq<byte> := buf[..];
    var first := prefix + (if value < pmax then value else pmax);
    SpliceNothing(was, base, cap);
    SpliceNext(was, base, cap, [], first);
    assert [] + [first] == [first];
    var ok, off := PutByte(buf, base, cap, 0, first);
    if !ok {
      SpliceNoRoom(was, base, IntBytes(bits, prefix, value));
      return 0;
    }
    if value >= pmax {
      ok, off := PutGroups(buf, base, cap, off, value - pmax, was, [first]);
      if !ok {
        return 0;
      }
    }
    return off;
  }

  lemma {:induction false} SpliceNothing(was: seq<byte>, base: nat, cap: nat)
    requires base + cap <= |was|
    ensures Splice(was, base, cap, []) == was
  {
  }

  lemma {:induction false} SpliceNoRoom(was: seq<byte>, base: nat, bytes: seq<byte>)
    requires base <= |was|
    ensures Splice(was, base, 0, bytes) == was
  {
  }

  method TakeGroup(buf: seq<byte>, off: nat, value: u64, m: nat) returns (ok: bool, next: nat, sum: nat, go: bool)
    requires m <= 56 ==> value + 0x7f * Pow(2, m) < B64
    ensures ok == (off < |buf| && m <= 56)
    ensures ok ==> next == off + 1 && sum == value + (buf[off] % 0x80) * Pow(2, m) < B64 && go == (buf[off] >= 0x80)
    ensures !ok ==> next == off && sum == value
  {
    if off >= |buf| || m > 56 {
      return false, off, value, true;
    }
    var b := buf[off];
    PowPos(2, m);
    MulNonneg(b % 0x80, Pow(2, m));
    MulMono(b % 0x80, 0x7f, Pow(2, m));
    return true, off + 1, value + b % 0x80 * Pow(2, m), b >= 0x80;
  }

  /** The running sum stays clear of 64-bit wrap-around at every shift the loop allows. */
  lemma {:induction false} GroupFits(value: nat, m: nat)
    requires m <= 56 && m % 7 == 0 && value <= 255 + Pow(2, m)
    ensures value + 0x7f * Pow(2, m) <= 255 + Pow(2, m + 7) && value + 0x7f * Pow(2, m) < B64
  {
    SevenBits(m);
    PowMonotone(2, m + 7, 63);
    Two63();
  }

  method DecodeInt(buf: seq<byte>, bits: nat) returns (used: nat, value: u64)
    requires 1 <= bits <= 8
    ensures used == 0 <==> IntDecode(buf, bits).None?
    ensures used > 0 ==> IntDecode(buf, bits) == Some(Decoded(value, used))
  {
    var pmax := PrefixMax(bits);
    if |buf| == 0 {
      return 0, 0;
    }
    var v := buf[0] % (pmax + 1);
    if v < pmax {
      return 1, v;
    }
    var go, ok, m, off, sum: nat := true, true, 0, 1, v;
    while go && ok
      invariant m % 7 == 0 && off >= 1 && sum < B64
      invariant ok ==> m <= 63 && sum <= 255 + Pow(2, m)
      invariant ok && go ==> TakeGroups(buf, 1, v, 0) == TakeGroups(buf, off, sum, m)
      invariant ok && !go ==> TakeGroups(buf, 1, v, 0) == Some(Decoded(sum, off))
      invariant !ok ==> TakeGroups(buf, 1, v, 0) == None
      decreases ok, go, 63 - m
    {
      if m <= 56 {
        GroupFits(sum, m);
      }
      ok, off, sum, go := TakeGroup(buf, off, sum, m);
      if ok {
        PowPos(2, m);
        MulMono(buf[off - 1] % 0x80, 0x7f, Pow(2, m));
      }
      m := m + 7;
    }
    if !ok {
      return 0, sum;
    }
    return off, sum;
  }
}
