/** Field-line representations (sections 4.5.1, 4.5.2, 4.5.4 and 4.5.6 of RFC 9204):
    src/app/qpack/qpack/string.c, literal.c, fieldline.c and prefix.c, and the byte
    copies of src/common/bytes/util/bytes.h. A first byte's pattern and flags are
    disjoint from its prefix, so OR is written as a sum and a mask as a division. */
module QpackFieldLines {
  import opened Arith
  import opened Options
  import opened QpackInteger
  import Huffman

  // ---- wire forms ----

  function StringBytes(v: seq<byte>): (s: seq<byte>)
    ensures |s| >= 1
  {
    IntBytes(7, 0, |v|) + v
  }

  function IndexedPrefix(isStatic: bool): byte
  {
    if isStatic then 0xc0 else 0x80
  }

  function NamrefPrefix(isStatic: bool, never: bool): byte
  {
    0x40 + (if never then 0x20 else 0) + (if isStatic then 0x10 else 0)
  }

  function IndexedBytes(index: nat, isStatic: bool): seq<byte>
  {
    IntBytes(6, IndexedPrefix(isStatic), index)
  }

  function NamrefBytes(index: nat, isStatic: bool, never: bool, v: seq<byte>): seq<byte>
  {
    IntBytes(4, NamrefPrefix(isStatic, never), index) + StringBytes(v)
  }

  datatype Prefix = Prefix(ric: nat, sign: bool, deltaBase: nat)

  function SignPrefix(sign: bool): byte
  {
    if sign then 0x80 else 0
  }

  function PrefixBytes(p: Prefix): seq<byte>
  {
    IntBytes(8, 0, p.ric) + IntBytes(7, SignPrefix(p.sign), p.deltaBase)
  }

  // ---- decoding ----

  datatype Str = Str(bytes: seq<byte>, used: nat)

  /** The len octets at off, Huffman-coded or raw, if they are all there and fit. */
  function Octets(s: seq<byte>, off: nat, len: nat, huff: bool, dcap: nat): (r: Option<seq<byte>>)
    ensures r.Some? ==> off + len <= |s|
  {
    if off + len > |s| then None
    else if huff then Huffman.Decode(s[off..off + len], dcap)
    else if len > dcap then None
    else Some(s[off..off + len])
  }

  function StringDecode(s: seq<byte>, dcap: nat): Option<Str>
  {
    var d := IntDecode(s, 7);
    if d.None? then None
    else
      var o := Octets(s, d.value.used, d.value.value, s[0] >= 0x80, dcap);
      if o.None? then None else Some(Str(o.value, d.value.used + d.value.value))
  }

  datatype Indexed = Indexed(index: nat, isStatic: bool, used: nat)

  function IndexedDecode(s: seq<byte>): Option<Indexed>
  {
    if |s| == 0 || s[0] < 0x80 then None
    else
      var d := IntDecode(s, 6);
      if d.None? then None else Some(Indexed(d.value.value, s[0] / 0x40 % 2 == 1, d.value.used))
  }

  datatype Namref = Namref(index: nat, isStatic: bool, never: bool, value: seq<byte>, used: nat)

  function NamrefDecode(s: seq<byte>, vcap: nat): Option<Namref>
  {
    if |s| == 0 || s[0] / 0x40 != 1 then None
    else
      var d := IntDecode(s, 4);
      if d.None? then None
      else
        IntDecodeBounded(s, 4);
        var v := StringDecode(s[d.value.used..], vcap);
        if v.None? then None
        else Some(Namref(d.value.value, s[0] / 0x10 % 2 == 1, s[0] / 0x20 % 2 == 1, v.value.bytes,
                         d.value.used + v.value.used))
  }

  datatype Litname = Litname(never: bool, name: seq<byte>, value: seq<byte>, used: nat)

  function LitnameName(s: seq<byte>, ncap: nat): (r: Option<Str>)
    requires |s| > 0
    ensures r.Some? ==> r.value.used <= |s|
  {
    var d := IntDecode(s, 3);
    if d.None? then None
    else
      var n := Octets(s, d.value.used, d.value.value, s[0] / 8 % 2 == 1, ncap);
      if n.None? then None else Some(Str(n.value, d.value.used + d.value.value))
  }

  function LitnameDecode(s: seq<byte>, ncap: nat, vcap: nat): Option<Litname>
  {
    if |s| == 0 || s[0] / 0x20 != 1 then None
    else
      var n := LitnameName(s, ncap);
      if n.None? then None
      else
        var v := StringDecode(s[n.value.used..], vcap);
        if v.None? then None
        else Some(Litname(s[0] / 0x10 % 2 == 1, n.value.bytes, v.value.bytes, n.value.used + v.value.used))
  }

  /** The source reads the sign from the byte after the insert count before it knows
      there is one; with none there the second integer fails whatever was read. */
  function PrefixDecode(s: seq<byte>): Option<(Prefix, nat)>
  {
    var d := IntDecode(s, 8);
    if d.None? then None
    else
      IntDecodeBounded(s, 8);
      var off := d.value.used;
      var e := IntDecode(s[off..], 7);
      if e.None? then None else Some((Prefix(d.value.value, s[off] >= 0x80, e.value.value), off + e.value.used))
  }

  // ---- round trips ----

  /** The flag and pattern bits of the first byte survive the integer beside them. */
  lemma {:induction false} FirstByte(bits: nat, prefix: int, value: nat, rest: seq<byte>)
    requires FitsPrefix(bits, prefix)
    ensures var s := IntBytes(bits, prefix, value) + rest; prefix <= s[0] <= prefix + PrefixMax(bits)
  {
  }

  /** Beyond its prefix an integer reads back up to 2^63; the line exactly follows it. */
  const REACH: int := 0x8000_0000_0000_0000

  lemma {:induction false} StringRoundTrip(v: seq<byte>, rest: seq<byte>, dcap: nat)
    ensures StringDecode(StringBytes(v) + rest, dcap) ==
            if |v| < 127 + REACH && |v| <= dcap then Some(Str(v, |StringBytes(v)|)) else None
  {
    hide IntDecode, IntBytes;
    var head := IntBytes(7, 0, |v|);
    var s := StringBytes(v) + rest;
    assert s == head + (v + rest);
    IntRoundTrip(7, 0, |v|, v + rest);
    FirstByte(7, 0, |v|, v + rest);
    assert s[|head|..|head| + |v|] == v;
  }

  lemma {:induction false} IndexedRoundTrip(index: nat, isStatic: bool, rest: seq<byte>)
    ensures IndexedDecode(IndexedBytes(index, isStatic) + rest) ==
            if index < 63 + REACH then Some(Indexed(index, isStatic, |IndexedBytes(index, isStatic)|)) else None
  {
    hide IntDecode, IntBytes;
    IntRoundTrip(6, IndexedPrefix(isStatic), index, rest);
    FirstByte(6, IndexedPrefix(isStatic), index, rest);
  }

  lemma {:induction false} NamrefRoundTrip(index: nat, isStatic: bool, never: bool, v: seq<byte>, rest: seq<byte>,
                                           vcap: nat)
    ensures NamrefDecode(NamrefBytes(index, isStatic, never, v) + rest, vcap) ==
            if index < 15 + REACH && |v| < 127 + REACH && |v| <= vcap
            then Some(Namref(index, isStatic, never, v, |NamrefBytes(index, isStatic, never, v)|)) else None
  {
    hide IntDecode, IntBytes, StringBytes, StringDecode;
    var head := IntBytes(4, NamrefPrefix(isStatic, never), index);
    var s := NamrefBytes(index, isStatic, never, v) + rest;
    assert s == head + (StringBytes(v) + rest);
    IntRoundTrip(4, NamrefPrefix(isStatic, never), index, StringBytes(v) + rest);
    FirstByte(4, NamrefPrefix(isStatic, never), index, StringBytes(v) + rest);
    assert s[|head|..] == StringBytes(v) + rest;
    StringRoundTrip(v, rest, vcap);
  }

  lemma {:induction false} PrefixRoundTrip(p: Prefix, rest: seq<byte>)
    ensures PrefixDecode(PrefixBytes(p) + rest) ==
            if p.ric < 255 + REACH && p.deltaBase < 127 + REACH then Some((p, |PrefixBytes(p)|)) else None
  {
    hide IntDecode, IntBytes;
    var head := IntBytes(8, 0, p.ric);
    var tail := IntBytes(7, SignPrefix(p.sign), p.deltaBase);
    var s := PrefixBytes(p) + rest;
    assert s == head + (tail + rest);
    IntRoundTrip(8, 0, p.ric, tail + rest);
    IntRoundTrip(7, SignPrefix(p.sign), p.deltaBase, rest);
    FirstByte(7, SignPrefix(p.sign), p.deltaBase, rest);
    assert s[|head|..] == tail + rest;
  }

  // ---- the encoders as they run ----

  function Overwrite(was: seq<byte>, at: nat, bytes: seq<byte>): (now: seq<byte>)
    requires at + |bytes| <= |was|
    ensures |now| == |was|
  {
    was[..at] + bytes + was[at + |bytes|..]
  }

  ghost predicate OnlyWithin(was: seq<byte>, now: seq<byte>, base: nat, cap: nat)
    requires base + cap <= |was|
  {
    |now| == |was| && now[..base] == was[..base] && now[base + cap..] == was[base + cap..]
  }

  /** The outcome of encoding bytes into a window: all of them and their count, or, when
      they do not fit, a zero count and nothing touched outside the window. */
  ghost predicate Encoded(was: seq<byte>, now: seq<byte>, base: nat, cap: nat, bytes: seq<byte>, w: nat)
    requires base + cap <= |was|
  {
    if |bytes| <= cap then w == |bytes| && now == Overwrite(was, base, bytes)
    else w == 0 && OnlyWithin(was, now, base, cap)
  }

  /** Two encodings one after the other are the encoding of the two together. */
  lemma {:induction false} EncodedJoin(was: seq<byte>, mid: seq<byte>, now: seq<byte>, base: nat, cap: nat,
                                       b1: seq<byte>, w1: nat, b2: seq<byte>, w2: nat)
    requires base + cap <= |was| && |b1| > 0 && Encoded(was, mid, base, cap, b1, w1) && w1 > 0
    requires Encoded(mid, now, base + w1, cap - w1, b2, w2)
    ensures Encoded(was, now, base, cap, b1 + b2, if |b2| <= cap - w1 then w1 + w2 else 0)
  {
    if |b2| <= cap - w1 {
      assert now == Overwrite(was, base, b1 + b2);
    } else {
      assert now[..base] == now[..base + w1][..base] == mid[..base + w1][..base] == was[..base];
      assert mid[base + cap..] == was[base + cap..];
    }
  }

  /** A failed first half is a failed whole. */
  lemma {:induction false} EncodedNot(was: seq<byte>, now: seq<byte>, base: nat, cap: nat, b1: seq<byte>, b2: seq<byte>)
    requires base + cap <= |was| && |b1| > 0 && Encoded(was, now, base, cap, b1, 0)
    ensures Encoded(was, now, base, cap, b1 + b2, 0)
  {
  }

  lemma {:induction false} IntEncoded(was: seq<byte>, base: nat, cap: nat, bytes: seq<byte>)
    requires base + cap <= |was|
    ensures Encoded(was, Splice(was, base, cap, bytes), base, cap, bytes, if |bytes| <= cap then |bytes| else 0)
  {
    SpliceHolds(was, base, cap, bytes);
    if |bytes| <= cap {
      assert bytes[..|bytes|] == bytes;
    }
  }

  method PutInt(buf: array<byte>, base: nat, cap: nat, bits: nat, prefix: byte, value: u64) returns (w: nat)
    requires base + cap <= buf.Length && FitsPrefix(bits, prefix)
    modifies buf
    ensures Encoded(old(buf[..]), buf[..], base, cap, IntBytes(bits, prefix, value), w)
  {
    hide IntBytes, Encoded;
    IntEncoded(buf[..], base, cap, IntBytes(bits, prefix, value));
    w := EncodeInt(buf, base, cap, bits, prefix, value);
  }

  /** All or nothing, and counted from the window's start as its cursor is. */
  method PutBytes(buf: array<byte>, base: nat, cap: nat, off: nat, src: seq<byte>) returns (ok: bool, next: nat)
    requires base + cap <= buf.Length && off <= cap
    modifies buf
    ensures ok == (off + |src| <= cap)
    ensures next == if ok then off + |src| else off
    ensures buf[..] == if ok then Overwrite(old(buf[..]), base + off, src) else old(buf[..])
  {
    if off + |src| > cap {
      return false, off;
    }
    for i := 0 to |src|
      invariant buf[..] == Overwrite(old(buf[..]), base + off, src[..i])
    {
      buf[base + off + i] := src[i];
      assert src[..i + 1] == src[..i] + [src[i]];
    }
    assert src[..|src|] == src;
    return true, off + |src|;
  }

  method EncodeString(buf: array<byte>, base: nat, cap: nat, src: seq<byte>) returns (w: nat)
    requires base + cap <= buf.Length && |src| < B64
    modifies buf
    ensures Encoded(old(buf[..]), buf[..], base, cap, StringBytes(src), w)
  {
    hide IntBytes, Overwrite;
    ghost var was := buf[..];
    var off := PutInt(buf, base, cap, 7, 0, |src|);
    ghost var mid, head := buf[..], IntBytes(7, 0, |src|);
    if off == 0 {
      EncodedNot(was, mid, base, cap, head, src);
      return 0;
    }
    var ok, next := PutBytes(buf, base, cap, off, src);
    Untouched(mid, base + off, cap - off);
    EncodedJoin(was, mid, buf[..], base, cap, head, off, src, if ok then |src| else 0);
    return if ok then next else 0;
  }

  lemma {:induction false} Untouched(was: seq<byte>, base: nat, cap: nat)
    requires base + cap <= |was|
    ensures OnlyWithin(was, was, base, cap)
  {
  }

  method EncodeIndexed(buf: array<byte>, base: nat, cap: nat, index: u64, isStatic: bool) returns (w: nat)
    requires base + cap <= buf.Length
    modifies buf
    ensures Encoded(old(buf[..]), buf[..], base, cap, IndexedBytes(index, isStatic), w)
  {
    hide IntBytes, Encoded;
    w := PutInt(buf, base, cap, 6, IndexedPrefix(isStatic), index);
  }

  method EncodeNamref(buf: array<byte>, base: nat, cap: nat, index: u64, isStatic: bool, never: bool, value: seq<byte>)
    returns (w: nat)
    requires base + cap <= buf.Length && |value| < B64
    modifies buf
    ensures Encoded(old(buf[..]), buf[..], base, cap, NamrefBytes(index, isStatic, never, value), w)
  {
    hide IntBytes, StringBytes, Overwrite, OnlyWithin;
    ghost var was := buf[..];
    var off := PutInt(buf, base, cap, 4, NamrefPrefix(isStatic, never), index);
    ghost var mid, head := buf[..], IntBytes(4, NamrefPrefix(isStatic, never), index);
    if off == 0 {
      EncodedNot(was, mid, base, cap, head, StringBytes(value));
      return 0;
    }
    w := EncodeString(buf, base + off, cap - off, value);
    EncodedJoin(was, mid, buf[..], base, cap, head, off, StringBytes(value), w);
    return if w != 0 then off + w else 0;
  }

  method EncodePrefix(buf: array<byte>, base: nat, cap: nat, p: Prefix) returns (w: nat)
    requires base + cap <= buf.Length && p.ric < B64 && p.deltaBase < B64
    modifies buf
    ensures Encoded(old(buf[..]), buf[..], base, cap, PrefixBytes(p), w)
  {
    hide IntBytes, Overwrite, OnlyWithin;
    ghost var was := buf[..];
    var off := PutInt(buf, base, cap, 8, 0, p.ric);
    ghost var mid, head, tail := buf[..], IntBytes(8, 0, p.ric), IntBytes(7, SignPrefix(p.sign), p.deltaBase);
    if off == 0 {
      EncodedNot(was, mid, base, cap, head, tail);
      return 0;
    }
    w := PutInt(buf, base + off, cap - off, 7, SignPrefix(p.sign), p.deltaBase);
    EncodedJoin(was, mid, buf[..], base, cap, head, off, tail, w);
    return if w != 0 then off + w else 0;
  }

  // ---- the decoders as they run ----

  /** Copies the octets out, raw or Huffman-decoded, into dst's window. */
  method TakeOctets(s: seq<byte>, off: nat, len: nat, huff: bool, dst: array<byte>, base: nat, dcap: nat)
    returns (ok: bool, outLen: nat)
    requires base + dcap <= dst.Length
    modifies dst
    ensures ok == Octets(s, off, len, huff, dcap).Some?
    ensures ok ==> outLen <= dcap && dst[base..base + outLen] == Octets(s, off, len, huff, dcap).value
    ensures OnlyWithin(old(dst[..]), dst[..], base, dcap)
  {
    if off + len > |s| {
      return false, 0;
    }
    if huff {
      ok, outLen := Huffman.DecodeInto(s[off..off + len], dst, base, dcap);
      return;
    }
    if len > dcap {
      return false, 0;
    }
    var next;
    ok, next := PutBytes(dst, base, dcap, 0, s[off..off + len]);
    return true, len;
  }

  method DecodeString(s: seq<byte>, dst: array<byte>, base: nat, dcap: nat) returns (used: nat, outLen: nat)
    requires base + dcap <= dst.Length
    modifies dst
    ensures used == 0 <==> StringDecode(s, dcap).None?
    ensures used > 0 ==> outLen <= dcap && StringDecode(s, dcap) == Some(Str(dst[base..base + outLen], used))
    ensures OnlyWithin(old(dst[..]), dst[..], base, dcap)
  {
    hide IntDecode;
    if |s| == 0 {
      EmptyFails(7);
      return 0, 0;
    }
    var huff := s[0] >= 0x80;
    var off, len := DecodeInt(s, 7);
    if off == 0 {
      return 0, 0;
    }
    var ok;
    ok, outLen := TakeOctets(s, off, len, huff, dst, base, dcap);
    return if ok then off + len else 0, outLen;
  }

  method DecodeLitnameName(s: seq<byte>, dst: array<byte>, base: nat, ncap: nat) returns (used: nat, outLen: nat)
    requires base + ncap <= dst.Length && |s| > 0
    modifies dst
    ensures used == 0 <==> LitnameName(s, ncap).None?
    ensures used > 0 ==> outLen <= ncap && LitnameName(s, ncap) == Some(Str(dst[base..base + outLen], used))
    ensures OnlyWithin(old(dst[..]), dst[..], base, ncap)
  {
    hide IntDecode;
    var off, len := DecodeInt(s, 3);
    if off == 0 {
      return 0, 0;
    }
    var ok;
    ok, outLen := TakeOctets(s, off, len, s[0] / 8 % 2 == 1, dst, base, ncap);
    return if ok then off + len else 0, outLen;
  }

  lemma {:induction false} EmptyFails(bits: nat)
    requires 1 <= bits <= 8
    ensures IntDecode([], bits) == None
  {
  }
}
