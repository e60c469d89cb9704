/** Every field-line representation by its octets (sections 4.5.1, 4.5.2, 4.5.4 and 4.5.6 of
    RFC 9204, section 5.2 of RFC 7541): what the encoders write, and for any octets exactly
    what the decoders answer. */
module QpackLineForms {
  import opened Arith
  import opened Options
  import opened QpackInteger
  import opened QpackFieldLines
  import opened QpackWire
  import Huffman

  /** The octets s hold the number value in the low bits of the first one and what follows,
      under the given pattern of high bits. */
  ghost predicate Carries(s: seq<byte>, bits: nat, pattern: int, value: int)
    requires 1 <= bits <= 8
  {
    PowPos(2, bits);
    |s| >= 1 && s[0] / Pow(2, bits) == pattern
    && var low, full := s[0] % Pow(2, bits), Pow(2, bits) - 1;
       if low < full then |s| == 1 && value == low else Spells(s[1..], value - full)
  }

  /** The first `used` octets of s do, in no more than ten. */
  ghost predicate Reads(s: seq<byte>, bits: nat, pattern: int, value: int, used: nat)
    requires 1 <= bits <= 8
  {
    used <= |s| && used <= 10 && Carries(s[..used], bits, pattern, value)
  }

  function Flag(b: bool): int
  {
    if b then 1 else 0
  }

  // ---- integers ----

  lemma {:induction false} Pattern(prefix: int, value: int, p: int)
    requires p > 0 && prefix % p == 0 && 0 <= value < p
    ensures (prefix + value) / p == prefix / p && (prefix + value) % p == value
  {
    DivMod(prefix, p);
    DivModUnique(prefix + value, p, prefix / p, value);
  }

  lemma {:induction false} BytesCarry(bits: nat, prefix: int, value: nat)
    requires FitsPrefix(bits, prefix)
    ensures Pow(2, bits) > 0 && Carries(IntBytes(bits, prefix, value), bits, prefix / Pow(2, bits), value)
  {
    hide Pow, Spells, IntBytes;
    PowPos(2, bits);
    PrefixMaxIs(bits);
    IntOnTheWire(bits, prefix, value);
    var full := Pow(2, bits) - 1;
    Pattern(prefix, if value < full then value else full, Pow(2, bits));
  }

  lemma {:induction false} DecodeReads(s: seq<byte>, bits: nat, value: nat, used: nat)
    requires 1 <= bits <= 8
    ensures Pow(2, bits) > 0
    ensures IntDecode(s, bits) == Some(Decoded(value, used)) <==>
            |s| > 0 && Reads(s, bits, s[0] / Pow(2, bits), value, used)
  {
    hide Pow, Spells, IntDecode;
    PowPos(2, bits);
    IntDecodeExact(s, bits, Decoded(value, used));
    if 1 <= used <= |s| {
      assert s[..used][0] == s[0];
      assert s[..used][1..] == s[1..used] && s[1..1] == [];
    }
    NothingSpelled();
  }

  lemma {:induction false} NothingSpelled()
    ensures forall x :: !Spells([], x)
  {
  }

  /** The pattern is that of the first octet, and the number and its length are determined. */
  lemma {:induction false} ReadsPattern(s: seq<byte>, bits: nat, pattern: int, value: int, used: nat)
    requires 1 <= bits <= 8 && Reads(s, bits, pattern, value, used)
    ensures |s| > 0 && Pow(2, bits) > 0 && pattern == s[0] / Pow(2, bits) && value >= 0 && 1 <= used
    ensures IntDecode(s, bits) == Some(Decoded(value, used))
  {
    hide Pow, Spells, IntDecode;
    PowPos(2, bits);
    assert s[..used][0] == s[0];
    SpelledNonneg(s[..used][1..]);
    DecodeReads(s, bits, value, used);
  }

  lemma {:induction false} SpelledNonneg(g: seq<byte>)
    ensures forall x :: Spells(g, x) ==> x >= 0
  {
    Limbs.ValBound(0x80, Lows(g));
  }

  lemma {:induction false} Powers()
    ensures Pow(2, 3) == 8 && Pow(2, 4) == 0x10 && Pow(2, 6) == 0x40 && Pow(2, 7) == 0x80 && Pow(2, 8) == 0x100
  {
    PrefixMaxIs(3);
    PrefixMaxIs(4);
    PrefixMaxIs(6);
    PrefixMaxIs(7);
    PrefixMaxIs(8);
  }

  // ---- what the encoders write ----

  lemma {:induction false} StringForm(v: seq<byte>)
    ensures exists n :: 0 <= n <= |StringBytes(v)| && Carries(StringBytes(v)[..n], 7, 0, |v|)
                        && StringBytes(v)[n..] == v
  {
    hide Pow, Carries, IntBytes;
    BytesCarry(7, 0, |v|);
    Powers();
    var head := IntBytes(7, 0, |v|);
    assert StringBytes(v)[..|head|] == head && StringBytes(v)[|head|..] == v;
  }

  /** 1, T, index. */
  lemma {:induction false} IndexedForm(index: nat, isStatic: bool)
    ensures Carries(IndexedBytes(index, isStatic), 6, 2 + Flag(isStatic), index)
  {
    hide Pow, Carries, IntBytes;
    BytesCarry(6, IndexedPrefix(isStatic), index);
    Powers();
  }

  /** 0, 1, N, T, index; the value's string. */
  lemma {:induction false} NamrefForm(index: nat, isStatic: bool, never: bool, v: seq<byte>)
    ensures var s := NamrefBytes(index, isStatic, never, v);
            exists n :: 0 <= n <= |s| && Carries(s[..n], 4, 4 + 2 * Flag(never) + Flag(isStatic), index)
                        && s[n..] == StringBytes(v)
  {
    hide Pow, Carries, IntBytes, StringBytes;
    var prefix := NamrefPrefix(isStatic, never);
    BytesCarry(4, prefix, index);
    Powers();
    var head, s := IntBytes(4, prefix, index), NamrefBytes(index, isStatic, never, v);
    assert s[..|head|] == head && s[|head|..] == StringBytes(v);
  }

  /** The insert count; S, the delta base. */
  lemma {:induction false} PrefixForm(p: Prefix)
    ensures var s := PrefixBytes(p);
            exists n :: 0 <= n <= |s| && Carries(s[..n], 8, 0, p.ric) && Carries(s[n..], 7, Flag(p.sign), p.deltaBase)
  {
    hide Pow, Carries, IntBytes;
    BytesCarry(8, 0, p.ric);
    BytesCarry(7, SignPrefix(p.sign), p.deltaBase);
    Powers();
    var head, tail, s := IntBytes(8, 0, p.ric), IntBytes(7, SignPrefix(p.sign), p.deltaBase), PrefixBytes(p);
    assert s[..|head|] == head && s[|head|..] == tail;
  }

  // ---- what the decoders answer ----

  /** The len octets after the first n, raw or Huffman-coded, are v. */
  ghost predicate Holds(s: seq<byte>, n: nat, len: int, huff: int, dcap: nat, v: seq<byte>)
  {
    0 <= len && n + len <= |s|
    && if huff == 1 then Huffman.Decode(s[n..n + len], dcap) == Some(v) else len <= dcap && v == s[n..n + len]
  }

  /** H, length; the octets. */
  ghost predicate StringReads(s: seq<byte>, dcap: nat, v: seq<byte>, used: nat)
  {
    exists n: nat, len, huff ::
      Reads(s, 7, huff, len, n) && Holds(s, n, len, huff, dcap, v) && used == n + len
  }

  lemma {:induction false} StringDecodeExact(s: seq<byte>, dcap: nat, v: seq<byte>, used: nat)
    ensures StringDecode(s, dcap) == Some(Str(v, used)) <==> StringReads(s, dcap, v, used)
  {
    hide Pow, Reads, IntDecode, Huffman.Decode;
    Powers();
    var d := IntDecode(s, 7);
    if d.Some? {
      DecodeReads(s, 7, d.value.value, d.value.used);
      if StringDecode(s, dcap) == Some(Str(v, used)) {
        assert Reads(s, 7, s[0] / 0x80, d.value.value, d.value.used)
               && Holds(s, d.value.used, d.value.value, s[0] / 0x80, dcap, v);
      }
    }
    if n: nat, len, huff :| Reads(s, 7, huff, len, n) && Holds(s, n, len, huff, dcap, v) && used == n + len {
      ReadsPattern(s, 7, huff, len, n);
    }
  }

  lemma {:induction false} IndexedDecodeExact(s: seq<byte>, index: nat, isStatic: bool, used: nat)
    ensures IndexedDecode(s) == Some(Indexed(index, isStatic, used)) <==>
            Reads(s, 6, 2 + Flag(isStatic), index, used)
  {
    hide Pow, Reads, IntDecode;
    Powers();
    DecodeReads(s, 6, index, used);
    if Reads(s, 6, 2 + Flag(isStatic), index, used) {
      ReadsPattern(s, 6, 2 + Flag(isStatic), index, used);
    }
  }

  /** A name-reference line over any octets. */
  ghost predicate NamrefReads(s: seq<byte>, vcap: nat, r: Namref)
  {
    exists n: nat :: Reads(s, 4, 4 + 2 * Flag(r.never) + Flag(r.isStatic), r.index, n)
                     && n <= r.used && n <= |s| && StringReads(s[n..], vcap, r.value, r.used - n)
  }

  lemma {:induction false} NamrefDecodeExact(s: seq<byte>, vcap: nat, r: Namref)
    ensures NamrefDecode(s, vcap) == Some(r) <==> NamrefReads(s, vcap, r)
  {
    hide Pow, Reads, IntDecode, StringDecode, StringReads;
    Powers();
    var d := IntDecode(s, 4);
    if d.Some? && |s| > 0 && s[0] / 0x40 == 1 {
      IntDecodeBounded(s, 4);
      DecodeReads(s, 4, d.value.value, d.value.used);
      var n := d.value.used;
      if r.used >= n {
        StringDecodeExact(s[n..], vcap, r.value, r.used - n);
      }
      if NamrefDecode(s, vcap) == Some(r) {
        FirstFour(s[0]);
        assert Reads(s, 4, 4 + 2 * Flag(r.never) + Flag(r.isStatic), r.index, n);
      }
    }
    if n: nat :| Reads(s, 4, 4 + 2 * Flag(r.never) + Flag(r.isStatic), r.index, n)
                 && n <= r.used && n <= |s| && StringReads(s[n..], vcap, r.value, r.used - n) {
      ReadsPattern(s, 4, 4 + 2 * Flag(r.never) + Flag(r.isStatic), r.index, n);
      StringDecodeExact(s[n..], vcap, r.value, r.used - n);
    }
  }

  lemma {:induction false} FirstFour(b: byte)
    ensures b / 0x40 == 1 ==> b / 0x10 == 4 + 2 * (b / 0x20 % 2) + b / 0x10 % 2
    ensures b / 0x20 == 1 ==> b / 8 == 4 + 2 * (b / 0x10 % 2) + b / 8 % 2
  {
  }

  /** 0, 0, 1, N, H, name length; the name's octets; the value's string. */
  ghost predicate LitnameReads(s: seq<byte>, ncap: nat, vcap: nat, r: Litname)
  {
    exists n: nat, len, huff ::
      0 <= huff <= 1 && Reads(s, 3, 4 + 2 * Flag(r.never) + huff, len, n) && Holds(s, n, len, huff, ncap, r.name)
      && n + len <= r.used && StringReads(s[n + len..], vcap, r.value, r.used - (n + len))
  }

  lemma {:induction false} LitnameDecodeExact(s: seq<byte>, ncap: nat, vcap: nat, r: Litname)
    ensures LitnameDecode(s, ncap, vcap) == Some(r) <==> LitnameReads(s, ncap, vcap, r)
  {
    hide Pow, Reads, IntDecode, StringDecode, StringReads, Huffman.Decode;
    Powers();
    if |s| > 0 && s[0] / 0x20 == 1 {
      FirstFour(s[0]);
      var d := IntDecode(s, 3);
      if d.Some? {
        DecodeReads(s, 3, d.value.value, d.value.used);
        var at := d.value.used + d.value.value;
        if at <= |s| && at <= r.used {
          StringDecodeExact(s[at..], vcap, r.value, r.used - at);
        }
        if LitnameDecode(s, ncap, vcap) == Some(r) {
          assert Reads(s, 3, 4 + 2 * Flag(r.never) + s[0] / 8 % 2, d.value.value, d.value.used)
                 && Holds(s, d.value.used, d.value.value, s[0] / 8 % 2, ncap, r.name);
        }
      }
    }
    if n: nat, len, huff :|
        0 <= huff <= 1 && Reads(s, 3, 4 + 2 * Flag(r.never) + huff, len, n) && Holds(s, n, len, huff, ncap, r.name)
        && n + len <= r.used && StringReads(s[n + len..], vcap, r.value, r.used - (n + len)) {
      ReadsPattern(s, 3, 4 + 2 * Flag(r.never) + huff, len, n);
      StringDecodeExact(s[n + len..], vcap, r.value, r.used - (n + len));
    }
  }

  ghost predicate PrefixReads(s: seq<byte>, p: Prefix, used: nat)
  {
    exists n: nat :: Reads(s, 8, 0, p.ric, n) && n <= used && n <= |s|
                     && Reads(s[n..], 7, Flag(p.sign), p.deltaBase, used - n)
  }

  lemma {:induction false} PrefixDecodeExact(s: seq<byte>, p: Prefix, used: nat)
    ensures PrefixDecode(s) == Some((p, used)) <==> PrefixReads(s, p, used)
  {
    hide Pow, Reads, IntDecode;
    Powers();
    var d := IntDecode(s, 8);
    if d.Some? {
      IntDecodeBounded(s, 8);
      DecodeReads(s, 8, d.value.value, d.value.used);
      var n := d.value.used;
      var e := IntDecode(s[n..], 7);
      if e.Some? {
        DecodeReads(s[n..], 7, e.value.value, e.value.used);
        if PrefixDecode(s) == Some((p, used)) {
          assert Reads(s, 8, 0, p.ric, n) && Reads(s[n..], 7, Flag(p.sign), p.deltaBase, used - n);
        }
      }
    }
    if n: nat :| Reads(s, 8, 0, p.ric, n) && n <= used && n <= |s|
                 && Reads(s[n..], 7, Flag(p.sign), p.deltaBase, used - n) {
      ReadsPattern(s, 8, 0, p.ric, n);
      ReadsPattern(s[n..], 7, Flag(p.sign), p.deltaBase, used - n);
    }
  }
}
