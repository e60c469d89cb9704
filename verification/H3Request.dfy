/** A request's pseudo-headers encoded into a field section
    (src/app/http3/request/h3reqenc/pseudo_encode.c) and recovered from one
    (src/app/http3/request/h3reqdrive/request_drive.c, src/app/http3/core/h3/pseudoheader.c;
    section 4.3.1 of RFC 9114, section 4.5 of RFC 9204). */
module H3Request {
  import opened Arith
  import opened Options
  import opened QpackInteger
  import opened QpackFieldLines
  import opened QpackStaticTable

  // ---- encoding ----

  const VALBUF_CAP := 16

  datatype Field = Field(value: seq<byte>, name: string, nameIdx: nat)

  /** The static entry a short enough value is sent as; the search sees the value only up
      to its first NUL. */
  function StaticIndex(f: Field): (r: Option<nat>)
    ensures r.Some? ==> r.value < STATIC_COUNT && NameOf(r.value) == CStr(Mem(f.name))
                        && ValueOf(r.value) == CStr(f.value + [0])
  {
    if |f.value| >= VALBUF_CAP then None else FindFrom(0, CStr(Mem(f.name)), CStr(f.value + [0]))
  }

  function LineBytes(f: Field): (s: seq<byte>)
    ensures |s| >= 1
  {
    var i := StaticIndex(f);
    if i.Some? then IndexedBytes(i.value, true) else NamrefBytes(f.nameIdx, true, false, f.value)
  }

  function LinesBytes(fs: seq<Field>): seq<byte>
  {
    if fs == [] then [] else LineBytes(fs[0]) + LinesBytes(fs[1..])
  }

  const NO_DYNAMIC := Prefix(0, false, 0)

  function SectionBytes(fs: seq<Field>): seq<byte>
  {
    PrefixBytes(NO_DYNAMIC) + LinesBytes(fs)
  }

  function RequestFields(meth: seq<byte>, path: seq<byte>, scheme: seq<byte>, authority: seq<byte>): seq<Field>
  {
    [Field(meth, ":method", 15), Field(scheme, ":scheme", 22), Field(authority, ":authority", 0),
     Field(path, ":path", 1)]
  }

  const CONNECT: seq<byte> := [67, 79, 78, 78, 69, 67, 84]

  function ConnectFields(authority: seq<byte>): seq<Field>
  {
    [Field(CONNECT, ":method", 15), Field(authority, ":authority", 0)]
  }

  // ---- decoding ----

  /** A recovered line: name, value, bytes of input and octets of scratch it takes. */
  datatype Line = Line(name: seq<byte>, value: seq<byte>, consumed: nat, scratch: nat)

  /** An index counts as static whatever its T bit says. */
  function LineIndexed(s: seq<byte>): Option<Line>
  {
    var d := IndexedDecode(s);
    if d.None? || d.value.index >= STATIC_COUNT then None
    else Some(Line(NameOf(d.value.index), ValueOf(d.value.index), d.value.used, 0))
  }

  function LineNamref(s: seq<byte>, room: nat): Option<Line>
  {
    var d := NamrefDecode(s, room);
    if d.None? || d.value.index >= STATIC_COUNT then None
    else Some(Line(NameOf(d.value.index), d.value.value, d.value.used, |d.value.value|))
  }

  /** The name takes the first half of the scratch left, the value the second. */
  function LineLitname(s: seq<byte>, room: nat): Option<Line>
  {
    var half := room / 2;
    var d := LitnameDecode(s, half, room - half);
    if d.None? then None
    else Some(Line(d.value.name, d.value.value, d.value.used, half + |d.value.value|))
  }

  function DecodeLine(s: seq<byte>, room: nat): Option<Line>
  {
    var a := LineIndexed(s);
    if a.Some? then a
    else
      var b := LineNamref(s, room);
      if b.Some? then b else LineLitname(s, room)
  }

  /** Slots in the order of the pseudo-header kinds: method, scheme, authority, path. */
  function Slot(name: seq<byte>): (k: Option<nat>)
    ensures k.Some? ==> k.value < 4
  {
    if name == CStr(Mem(":method")) then Some(0)
    else if name == CStr(Mem(":scheme")) then Some(1)
    else if name == CStr(Mem(":authority")) then Some(2)
    else if name == CStr(Mem(":path")) then Some(3)
    else None
  }

  function Store(slots: seq<seq<byte>>, line: Line): (r: seq<seq<byte>>)
    requires |slots| == 4
    ensures |r| == 4
  {
    var k := Slot(line.name);
    if k.Some? then slots[k.value := line.value] else slots
  }

  lemma {:induction false} NamrefAdvances(s: seq<byte>, vcap: nat)
    ensures var r := NamrefDecode(s, vcap); r.Some? ==> 0 < r.value.used <= |s| && |r.value.value| <= vcap
  {
    hide IntDecode, StringDecode;
    IntDecodeBounded(s, 4);
    var d := IntDecode(s, 4);
    if d.Some? {
      StringAdvances(s[d.value.used..], vcap);
    }
  }

  lemma {:induction false} LitnameAdvances(s: seq<byte>, ncap: nat, vcap: nat)
    ensures var r := LitnameDecode(s, ncap, vcap);
            r.Some? ==> 0 < r.value.used <= |s| && |r.value.name| <= ncap && |r.value.value| <= vcap
  {
    hide IntDecode, StringDecode, Octets;
    if |s| > 0 {
      IntDecodeBounded(s, 3);
      var d := IntDecode(s, 3);
      if d.Some? {
        OctetsFit(s, d.value.used, d.value.value, s[0] / 8 % 2 == 1, ncap);
      }
      var n := LitnameName(s, ncap);
      if n.Some? {
        StringAdvances(s[n.value.used..], vcap);
      }
    }
  }

  lemma {:induction false} LineAdvances(s: seq<byte>, room: nat)
    ensures var r := DecodeLine(s, room); r.Some? ==> 0 < r.value.consumed <= |s| && r.value.scratch <= room
  {
    hide IntDecode, NameOf, ValueOf, NamrefDecode, LitnameDecode;
    IntDecodeBounded(s, 6);
    NamrefAdvances(s, room);
    LitnameAdvances(s, room / 2, room - room / 2);
  }

  lemma {:induction false} StringAdvances(s: seq<byte>, dcap: nat)
    ensures var r := StringDecode(s, dcap); r.Some? ==> 0 < r.value.used <= |s| && |r.value.bytes| <= dcap
  {
    hide IntDecode;
    IntDecodeBounded(s, 7);
    var d := IntDecode(s, 7);
    if d.Some? {
      OctetsFit(s, d.value.used, d.value.value, s[0] >= 0x80, dcap);
    }
  }

  lemma {:induction false} OctetsFit(s: seq<byte>, off: nat, len: nat, huff: bool, dcap: nat)
    ensures var r := Octets(s, off, len, huff, dcap); r.Some? ==> |r.value| <= dcap
  {
    if off + len <= |s| && huff {
      var r := Huffman.Decode(s[off..off + len], dcap);
      if r.Some? {
        Huffman.DecodesExactly(s[off..off + len], dcap, r.value);
      }
    }
  }

  /** Every line from off on, each with the scratch the earlier ones left. */
  function Scan(s: seq<byte>, off: nat, room: nat, slots: seq<seq<byte>>): (r: Option<seq<seq<byte>>>)
    requires |slots| == 4 && off <= |s|
    ensures r.Some? ==> |r.value| == 4
    decreases |s| - off
  {
    if off >= |s| then Some(slots)
    else
      var l := DecodeLine(s[off..], room);
      if l.None? then None
      else
        LineAdvances(s[off..], room);
        Scan(s, off + l.value.consumed, room - l.value.scratch, Store(slots, l.value))
  }

  const EMPTY_SLOTS: seq<seq<byte>> := [[], [], [], []]

  function DecodeSection(s: seq<byte>, room: nat): Option<seq<seq<byte>>>
  {
    var p := PrefixDecode(s);
    if p.None? then None
    else
      PrefixAdvances(s);
      Scan(s, p.value.1, room, EMPTY_SLOTS)
  }

  lemma {:induction false} PrefixAdvances(s: seq<byte>)
    ensures var p := PrefixDecode(s); p.Some? ==> p.value.1 <= |s|
  {
    hide IntDecode;
    IntDecodeBounded(s, 8);
    var d := IntDecode(s, 8);
    if d.Some? {
      IntDecodeBounded(s[d.value.used..], 7);
    }
  }

  // ---- the two undo each other ----

  /** The field's name is a request pseudo-header, and its name reference really is its name. */
  ghost predicate WellNamed(f: Field)
  {
    f.nameIdx < STATIC_COUNT && StaticName(f.nameIdx) == f.name && Slot(CStr(Mem(f.name))).Some?
    && |f.value| < 127 + REACH
  }

  /** What arrives in place of f's value. */
  function Recovered(f: Field): seq<byte>
  {
    if StaticIndex(f).Some? then CStr(f.value + [0]) else f.value
  }

  function LiteralLen(f: Field): nat
  {
    if StaticIndex(f).Some? then 0 else |f.value|
  }

  function LiteralOctets(fs: seq<Field>): nat
  {
    if fs == [] then 0 else LiteralLen(fs[0]) + LiteralOctets(fs[1..])
  }

  lemma {:induction false} LineRoundTrip(f: Field, rest: seq<byte>, room: nat)
    requires WellNamed(f)
    ensures DecodeLine(LineBytes(f) + rest, room) ==
            if LiteralLen(f) <= room then Some(Line(CStr(Mem(f.name)), Recovered(f), |LineBytes(f)|, LiteralLen(f)))
            else None
  {
    hide IntDecode, IntBytes, CStr, Mem, NamrefDecode, StringBytes, FindFrom, StaticName, StaticIndex, Slot;
    var i := StaticIndex(f);
    var s := LineBytes(f) + rest;
    if i.Some? {
      IndexedRoundTrip(i.value, true, rest);
    } else {
      assert s == IntBytes(4, NamrefPrefix(true, false), f.nameIdx) + (StringBytes(f.value) + rest);
      FirstByte(4, NamrefPrefix(true, false), f.nameIdx, StringBytes(f.value) + rest);
      NamrefRoundTrip(f.nameIdx, true, false, f.value, rest, room);
    }
  }

  function StoreAll(slots: seq<seq<byte>>, fs: seq<Field>): (r: seq<seq<byte>>)
    requires |slots| == 4
    ensures |r| == 4
    decreases |fs|
  {
    if fs == [] then slots
    else StoreAll(Store(slots, Line(CStr(Mem(fs[0].name)), Recovered(fs[0]), 0, 0)), fs[1..])
  }

  /** Any number of encoded lines scans back to their values, if the literal ones fit the
      scratch together, and fails if they do not. */
  lemma {:induction false} LinesRoundTrip(pre: seq<byte>, fs: seq<Field>, room: nat, slots: seq<seq<byte>>)
    requires |slots| == 4 && forall k :: 0 <= k < |fs| ==> WellNamed(fs[k])
    ensures Scan(pre + LinesBytes(fs), |pre|, room, slots) ==
            if LiteralOctets(fs) <= room then Some(StoreAll(slots, fs)) else None
    decreases |fs|
  {
    hide DecodeLine, LineBytes, CStr, Mem, Slot, LiteralLen, Recovered, WellNamed;
    var s := pre + LinesBytes(fs);
    if fs == [] {
      assert s == pre;
    } else {
      var head, rest := LineBytes(fs[0]), LinesBytes(fs[1..]);
      assert s[|pre|..] == head + rest;
      assert s == (pre + head) + rest;
      LineRoundTrip(fs[0], rest, room);
      if LiteralLen(fs[0]) <= room {
        var next := Store(slots, Line(CStr(Mem(fs[0].name)), Recovered(fs[0]), |head|, LiteralLen(fs[0])));
        LinesRoundTrip(pre + head, fs[1..], room - LiteralLen(fs[0]), next);
      }
    }
  }

  lemma {:induction false} SectionRoundTrip(fs: seq<Field>, room: nat)
    requires forall k :: 0 <= k < |fs| ==> WellNamed(fs[k])
    ensures DecodeSection(SectionBytes(fs), room) ==
            if LiteralOctets(fs) <= room then Some(StoreAll(EMPTY_SLOTS, fs)) else None
  {
    hide PrefixDecode, PrefixBytes, Scan, LinesBytes, StoreAll;
    PrefixRoundTrip(NO_DYNAMIC, LinesBytes(fs));
    LinesRoundTrip(PrefixBytes(NO_DYNAMIC), fs, room, EMPTY_SLOTS);
  }

  lemma {:induction false} PseudoNames()
    ensures StaticName(0) == ":authority" && StaticName(1) == ":path" && StaticName(15) == ":method"
            && StaticName(22) == ":scheme"
  {
  }

  lemma {:induction false} NameBytes(s: string)
    requires forall i :: 0 <= i < |s| ==> 0 < s[i] as int < 256
    ensures |CStr(Mem(s))| == |s| && forall i :: 0 <= i < |s| ==> CStr(Mem(s))[i] == s[i] as int
  {
    CStrIs(Mem(s), |s|);
  }

  /** The four names are told apart by their second and third letters. */
  lemma {:induction false} PseudoSlots()
    ensures Slot(CStr(Mem(":method"))) == Some(0) && Slot(CStr(Mem(":scheme"))) == Some(1)
    ensures Slot(CStr(Mem(":authority"))) == Some(2) && Slot(CStr(Mem(":path"))) == Some(3)
  {
    hide CStr, Mem;
    var m, s, a, p := CStr(Mem(":method")), CStr(Mem(":scheme")), CStr(Mem(":authority")), CStr(Mem(":path"));
    NameBytes(":method");
    NameBytes(":scheme");
    NameBytes(":authority");
    NameBytes(":path");
    assert m[1] != s[1] && m[1] != a[1] && m[1] != p[1] && s[1] != a[1] && s[1] != p[1] && a[1] != p[1];
  }

  /** A short value holding a NUL whose beginning is a static value of the same name. */
  predicate NulAlias(f: Field)
  {
    StaticIndex(f).Some? && 0 in f.value
  }

  lemma {:induction false} RecoveredIff(f: Field)
    ensures Recovered(f) == f.value <==> !NulAlias(f)
  {
    NulFree(f.value);
  }

  /** A request comes back as it was sent if and only if its literal values fit the
      scratch and no value is cut short at a NUL. */
  lemma {:induction false} RequestRoundTripIff(meth: seq<byte>, path: seq<byte>, scheme: seq<byte>,
                                               authority: seq<byte>, room: nat)
    requires |meth| < 127 + REACH && |path| < 127 + REACH && |scheme| < 127 + REACH && |authority| < 127 + REACH
    ensures var fs := RequestFields(meth, path, scheme, authority);
            DecodeSection(SectionBytes(fs), room) == Some([meth, scheme, authority, path]) <==>
              LiteralOctets(fs) <= room && !NulAlias(fs[0]) && !NulAlias(fs[1]) && !NulAlias(fs[2]) && !NulAlias(fs[3])
  {
    hide DecodeSection, SectionBytes, Recovered, NulAlias, StoreAll, StaticName, CStr, Mem, Slot, LiteralOctets;
    var fs := RequestFields(meth, path, scheme, authority);
    PseudoNames();
    PseudoSlots();
    assert forall k :: 0 <= k < 4 ==> WellNamed(fs[k]);
    SectionRoundTrip(fs, room);
    StoredInOrder(fs);
    RecoveredIff(fs[0]);
    RecoveredIff(fs[1]);
    RecoveredIff(fs[2]);
    RecoveredIff(fs[3]);
  }

  lemma {:induction false} StoredInOrder(fs: seq<Field>)
    requires |fs| == 4 && Slot(CStr(Mem(fs[0].name))) == Some(0) && Slot(CStr(Mem(fs[1].name))) == Some(1)
    requires Slot(CStr(Mem(fs[2].name))) == Some(2) && Slot(CStr(Mem(fs[3].name))) == Some(3)
    ensures StoreAll(EMPTY_SLOTS, fs) == [Recovered(fs[0]), Recovered(fs[1]), Recovered(fs[2]), Recovered(fs[3])]
  {
    hide CStr, Mem, Slot, Recovered;
    var s1 := Store(EMPTY_SLOTS, Line(CStr(Mem(fs[0].name)), Recovered(fs[0]), 0, 0));
    var s2 := Store(s1, Line(CStr(Mem(fs[1].name)), Recovered(fs[1]), 0, 0));
    var s3 := Store(s2, Line(CStr(Mem(fs[2].name)), Recovered(fs[2]), 0, 0));
    var s4 := Store(s3, Line(CStr(Mem(fs[3].name)), Recovered(fs[3]), 0, 0));
    assert fs[1..][0] == fs[1] && fs[1..][1..] == fs[2..] && fs[2..][0] == fs[2] && fs[2..][1..] == fs[3..];
    assert fs[3..][0] == fs[3] && fs[3..][1..] == [];
    assert StoreAll(s3, fs[3..]) == s4;
    assert StoreAll(s2, fs[2..]) == s4;
    assert StoreAll(s1, fs[1..]) == s4;
  }

  /** A CONNECT request likewise, with only its two pseudo-headers. */
  lemma {:induction false} ConnectRoundTripIff(authority: seq<byte>, room: nat)
    requires |authority| < 127 + REACH
    ensures var fs := ConnectFields(authority);
            DecodeSection(SectionBytes(fs), room) == Some([CONNECT, [], authority, []]) <==>
              LiteralOctets(fs) <= room && !NulAlias(fs[1])
  {
    hide DecodeSection, SectionBytes, Recovered, NulAlias, StoreAll, StaticName, CStr, Mem, Slot, LiteralOctets;
    var fs := ConnectFields(authority);
    PseudoNames();
    PseudoSlots();
    assert forall k :: 0 <= k < 2 ==> WellNamed(fs[k]);
    SectionRoundTrip(fs, room);
    StoredTwo(fs);
    ConnectKept(fs[0]);
    RecoveredIff(fs[0]);
    RecoveredIff(fs[1]);
  }

  lemma {:induction false} ConnectKept(f: Field)
    requires f.value == CONNECT
    ensures !NulAlias(f)
  {
    hide StaticIndex;
  }

  lemma {:induction false} StoredTwo(fs: seq<Field>)
    requires |fs| == 2 && Slot(CStr(Mem(fs[0].name))) == Some(0) && Slot(CStr(Mem(fs[1].name))) == Some(2)
    ensures StoreAll(EMPTY_SLOTS, fs) == [Recovered(fs[0]), [], Recovered(fs[1]), []]
  {
    hide CStr, Mem, Slot, Recovered;
    var s1 := Store(EMPTY_SLOTS, Line(CStr(Mem(fs[0].name)), Recovered(fs[0]), 0, 0));
    assert fs[1..][0] == fs[1] && fs[1..][1..] == [];
    assert StoreAll(s1, fs[1..]) == Store(s1, Line(CStr(Mem(fs[1].name)), Recovered(fs[1]), 0, 0));
  }

  /** A request that does not come back: a method cut at its NUL to one in the table. */
  lemma {:induction false} TruncatedMethod()
    ensures var f := Field([71, 69, 84, 0, 88], ":method", 15); NulAlias(f) && Recovered(f) == [71, 69, 84]
  {
    hide FindFrom, StaticName, StaticValue, CStr, Mem;
    var meth: seq<byte> := [71, 69, 84, 0, 88];
    CutAtNul(meth);
    MethodGet();
    var r := FindFrom(0, CStr(Mem(":method")), CStr(meth + [0]));
    assert NameOf(17) == CStr(Mem(":method")) && ValueOf(17) == CStr(meth + [0]);
    assert r.Some?;
    assert meth[3] == 0;
  }

  lemma {:induction false} CutAtNul(meth: seq<byte>)
    requires meth == [71, 69, 84, 0, 88]
    ensures CStr(meth + [0]) == CStr(Mem("GET")) == [71, 69, 84]
  {
    hide CStr, Mem;
    CStrIs(meth + [0], 3);
    NameBytes("GET");
    assert CStr(Mem("GET")) == [71, 69, 84];
  }

  lemma {:induction false} MethodGet()
    ensures StaticName(17) == ":method" && StaticValue(17) == "GET"
  {
  }

  predicate PseudoRow(i: nat)
  {
    i < 2 || 15 <= i < 29 || 63 <= i < 72
  }

  lemma {:induction false} PseudoValuesShort(i: nat)
    requires i < STATIC_COUNT && PseudoRow(i)
    ensures |StaticValue(i)| < VALBUF_CAP
  {
  }

  lemma {:induction false} OrdinaryNames(i: nat)
    requires i < STATIC_COUNT && !PseudoRow(i)
    ensures |StaticName(i)| > 0 && 97 <= StaticName(i)[0] as int <= 122
  {
    hide StaticName;
    if i < 56 {
      LowOrdinaryNames(i);
    } else {
      HighOrdinaryNames(i);
    }
  }

  lemma {:induction false} LowOrdinaryNames(i: nat)
    requires i < 56 && !PseudoRow(i)
    ensures |StaticName(i)| > 0 && 97 <= StaticName(i)[0] as int <= 122
  {
  }

  lemma {:induction false} HighOrdinaryNames(i: nat)
    requires 56 <= i < STATIC_COUNT && !PseudoRow(i)
    ensures |StaticName(i)| > 0 && 97 <= StaticName(i)[0] as int <= 122
  {
  }

  /** The 16-byte bound loses nothing: a NUL-free value is sent as an index exactly when
      its name and value are in the static table. */
  lemma {:induction false} IndexedIffInTable(f: Field)
    requires Slot(CStr(Mem(f.name))).Some? && 0 !in f.value
    ensures StaticIndex(f).Some? <==>
            exists i :: 0 <= i < STATIC_COUNT && NameOf(i) == CStr(Mem(f.name)) && ValueOf(i) == f.value
  {
    hide FindFrom, StaticName, StaticValue, Slot, CStr, Mem, NameOf, ValueOf;
    NulFree(f.value);
    var name := CStr(Mem(f.name));
    if i :| 0 <= i < STATIC_COUNT && NameOf(i) == name && ValueOf(i) == f.value {
      StartsWithColon(name);
      ShortWhenPseudo(i);
      var r := FindFrom(0, name, f.value);
      assert r.Some?;
    }
  }

  lemma {:induction false} StartsWithColon(name: seq<byte>)
    requires Slot(name).Some?
    ensures |name| > 0 && name[0] == 58
  {
    hide CStr, Mem;
    NameBytes(":method");
    NameBytes(":scheme");
    NameBytes(":authority");
    NameBytes(":path");
  }

  lemma {:induction false} ShortWhenPseudo(i: nat)
    requires i < STATIC_COUNT && |NameOf(i)| > 0 && NameOf(i)[0] == 58
    ensures |ValueOf(i)| < VALBUF_CAP
  {
    hide StaticName, StaticValue;
    if PseudoRow(i) {
      PseudoValuesShort(i);
    } else {
      OrdinaryNames(i);
    }
  }

  // ---- the encoder as it runs ----

  /** The value as a C string in the 16-byte buffer, if it and a terminator fit. */
  method ValCstr(val: seq<byte>, buf: array<byte>) returns (ok: bool)
    requires buf.Length == VALBUF_CAP
    modifies buf
    ensures ok == (|val| < VALBUF_CAP)
    ensures ok ==> buf[..|val| + 1] == val + [0]
  {
    if |val| >= VALBUF_CAP {
      return false;
    }
    for i := 0 to |val|
      invariant buf[..i] == val[..i]
    {
      buf[i] := val[i];
    }
    buf[|val|] := 0;
    assert val[..|val|] == val;
    return true;
  }

  lemma {:induction false} CStrOfBuffer(mem: seq<byte>, v: seq<byte>)
    requires |v| < |mem| && mem[..|v| + 1] == v + [0]
    ensures 0 in mem && CStr(mem) == CStr(v + [0])
  {
    assert mem[|v|] == mem[..|v| + 1][|v|] == 0;
    var k := NulAt(v + [0]);
    assert k <= |v| by { assert (v + [0])[|v|] == 0; }
    forall i | 0 <= i <= k ensures mem[i] == (v + [0])[i] {
      assert mem[i] == mem[..|v| + 1][i];
    }
    CStrIs(mem, k);
    assert mem[..k] == (v + [0])[..k];
  }

  method StaticIndexOf(f: Field, buf: array<byte>) returns (index: int)
    requires buf.Length == VALBUF_CAP
    modifies buf
    ensures index == if StaticIndex(f).Some? then StaticIndex(f).value else -1
  {
    hide CStr, Mem, FindFrom;
    var ok := ValCstr(f.value, buf);
    if !ok {
      return -1;
    }
    CStrOfBuffer(buf[..], f.value);
    index := StaticFind(Mem(f.name), buf[..]);
  }

  method PutPseudo(f: Field, out: array<byte>, base: nat, cap: nat) returns (w: nat)
    requires base + cap <= out.Length && |f.value| < B64 && f.nameIdx < STATIC_COUNT
    modifies out
    ensures Encoded(old(out[..]), out[..], base, cap, LineBytes(f), w)
  {
    hide StaticIndex, Encoded, IndexedBytes, NamrefBytes;
    var buf := new byte[VALBUF_CAP](i => 0);
    var idx := StaticIndexOf(f, buf);
    if idx >= 0 {
      w := EncodeIndexed(out, base, cap, idx, true);
    } else {
      w := EncodeNamref(out, base, cap, f.nameIdx, true, false, f.value);
    }
  }

  lemma {:induction false} LinesSplit(fs: seq<Field>, i: nat)
    requires i < |fs|
    ensures LinesBytes(fs[..i + 1]) == LinesBytes(fs[..i]) + LineBytes(fs[i])
    ensures LinesBytes(fs[..0]) == []
  {
    hide LineBytes;
    if i > 0 {
      LinesSplit(fs[1..], i - 1);
      assert fs[..i + 1][1..] == fs[1..][..i] && fs[..i][1..] == fs[1..][..i - 1];
      assert LinesBytes(fs[..i + 1]) == LineBytes(fs[0]) + LinesBytes(fs[1..][..i]);
    } else {
      assert fs[..1][1..] == [] && LinesBytes(fs[..1]) == LineBytes(fs[0]) + [];
    }
  }

  lemma {:induction false} LinesOverflow(fs: seq<Field>, i: nat)
    requires i <= |fs|
    ensures exists rest :: LinesBytes(fs) == LinesBytes(fs[..i]) + rest
    decreases |fs| - i
  {
    hide LineBytes;
    if i == |fs| {
      assert fs[..i] == fs;
      assert LinesBytes(fs) == LinesBytes(fs[..i]) + [];
    } else {
      LinesOverflow(fs, i + 1);
      var rest :| LinesBytes(fs) == LinesBytes(fs[..i + 1]) + rest;
      LinesSplit(fs, i);
      assert LinesBytes(fs) == LinesBytes(fs[..i]) + (LineBytes(fs[i]) + rest);
    }
  }

  /** Prefix and lines, or 0 when they do not all fit. */
  method PutSection(fs: seq<Field>, out: array<byte>, cap: nat) returns (w: nat)
    requires cap <= out.Length && forall k :: 0 <= k < |fs| ==> |fs[k].value| < B64 && fs[k].nameIdx < STATIC_COUNT
    modifies out
    ensures Encoded(old(out[..]), out[..], 0, cap, SectionBytes(fs), w)
  {
    hide LineBytes, LinesBytes, PrefixBytes, Encoded, SectionBytes;
    ghost var was := out[..];
    var off := EncodePrefix(out, 0, cap, NO_DYNAMIC);
    SectionStart(fs);
    EncodedCount(was, out[..], 0, cap, PrefixBytes(NO_DYNAMIC), off);
    if off == 0 {
      SectionFails(was, out[..], cap, fs, 0);
      return 0;
    }
    for i := 0 to |fs|
      invariant 0 < off <= cap && off == |SectionBytes(fs[..i])|
      invariant Encoded(was, out[..], 0, cap, SectionBytes(fs[..i]), off)
    {
      ghost var mid := out[..];
      w := PutPseudo(fs[i], out, off, cap - off);
      SectionNext(was, mid, out[..], cap, fs, i, off, w);
      if w == 0 {
        SectionFails(was, out[..], cap, fs, i + 1);
        return 0;
      }
      off := off + w;
    }
    assert fs[..|fs|] == fs;
    return off;
  }

  lemma {:induction false} EncodedCount(was: seq<byte>, now: seq<byte>, base: nat, cap: nat, bytes: seq<byte>, w: nat)
    requires base + cap <= |was| && Encoded(was, now, base, cap, bytes, w)
    ensures w > 0 ==> w == |bytes| <= cap
  {
  }

  lemma {:induction false} SectionStart(fs: seq<Field>)
    ensures SectionBytes(fs[..0]) == PrefixBytes(NO_DYNAMIC) && |PrefixBytes(NO_DYNAMIC)| > 0
  {
    assert fs[..0] == [];
    assert PrefixBytes(NO_DYNAMIC) + [] == PrefixBytes(NO_DYNAMIC);
  }

  lemma {:induction false} SectionNext(was: seq<byte>, mid: seq<byte>, now: seq<byte>, cap: nat, fs: seq<Field>, i: nat,
                                       off: nat, w: nat)
    requires cap <= |was| && i < |fs| && 0 < off <= cap && off == |SectionBytes(fs[..i])|
    requires Encoded(was, mid, 0, cap, SectionBytes(fs[..i]), off)
    requires Encoded(mid, now, off, cap - off, LineBytes(fs[i]), w)
    ensures Encoded(was, now, 0, cap, SectionBytes(fs[..i + 1]), if w > 0 then off + w else 0)
    ensures w > 0 ==> off + w <= cap && off + w == |SectionBytes(fs[..i + 1])|
  {
    hide LineBytes, LinesBytes, PrefixBytes, Overwrite, OnlyWithin;
    LinesSplit(fs, i);
    assert SectionBytes(fs[..i + 1]) == SectionBytes(fs[..i]) + LineBytes(fs[i]);
    EncodedJoin(was, mid, now, 0, cap, SectionBytes(fs[..i]), off, LineBytes(fs[i]), w);
  }

  lemma {:induction false} SectionFails(was: seq<byte>, now: seq<byte>, cap: nat, fs: seq<Field>, i: nat)
    requires cap <= |was| && i <= |fs| && Encoded(was, now, 0, cap, SectionBytes(fs[..i]), 0)
    ensures Encoded(was, now, 0, cap, SectionBytes(fs), 0)
  {
    hide LineBytes, LinesBytes, IntBytes, Overwrite, OnlyWithin;
    LinesOverflow(fs, i);
    var rest :| LinesBytes(fs) == LinesBytes(fs[..i]) + rest;
    SectionStart(fs);
    assert SectionBytes(fs) == SectionBytes(fs[..i]) + rest;
    EncodedNot(was, now, 0, cap, SectionBytes(fs[..i]), rest);
  }

  /** The request encoder: the section if it fits, and then out holds exactly it. */
  method EncodeRequest(meth: seq<byte>, path: seq<byte>, scheme: seq<byte>, authority: seq<byte>, out: array<byte>,
                       cap: nat)
    returns (ok: bool, outLen: nat)
    requires cap <= out.Length && |meth| < B64 && |path| < B64 && |scheme| < B64 && |authority| < B64
    modifies out
    ensures ok == (|SectionBytes(RequestFields(meth, path, scheme, authority))| <= cap)
    ensures ok ==> outLen <= cap && out[..outLen] == SectionBytes(RequestFields(meth, path, scheme, authority))
  {
    hide SectionBytes;
    ghost var was := out[..];
    var fs := RequestFields(meth, path, scheme, authority);
    var total := PutSection(fs, out, cap);
    SectionNonempty(fs);
    ok, outLen := total != 0, total;
    if ok {
      assert out[..total] == out[..][..total] == SectionBytes(fs);
    }
  }

  lemma {:induction false} SectionNonempty(fs: seq<Field>)
    ensures |SectionBytes(fs)| > 0
  {
    SectionStart(fs);
  }

  // ---- the decoder as it runs ----

  /** A pointer and length: nothing, a static-table string, or a stretch of scratch. */
  datatype View = Unset | Borrowed(bytes: seq<byte>) | Scratch(at: nat, len: nat)

  ghost predicate Inside(v: View, lo: nat, hi: nat)
  {
    v.Scratch? ==> lo <= v.at && v.at + v.len <= hi
  }

  ghost function Read(v: View, scratch: seq<byte>): seq<byte>
    requires Inside(v, 0, |scratch|)
  {
    match v
    case Unset => []
    case Borrowed(bytes) => bytes
    case Scratch(at, len) => scratch[at..at + len]
  }

  /** What one view shows does not change when only other scratch is written. */
  lemma {:induction false} ReadStable(v: View, was: seq<byte>, now: seq<byte>, lo: nat, base: nat, cap: nat)
    requires base + cap <= |was| && OnlyWithin(was, now, base, cap) && Inside(v, 0, lo) && lo <= base
    ensures Inside(v, 0, |now|) && Inside(v, 0, |was|) && Read(v, now) == Read(v, was)
  {
    if v.Scratch? {
      assert now[v.at..v.at + v.len] == now[..base][v.at..v.at + v.len];
      assert was[v.at..v.at + v.len] == was[..base][v.at..v.at + v.len];
    }
  }

  datatype RLine = RLine(name: View, value: View, scratchUsed: nat)

  /** A decoded line's views show what the specification says they should. */
  ghost predicate Shows(l: RLine, line: Line, scratch: seq<byte>, base: nat)
  {
    base + line.scratch <= |scratch| && l.scratchUsed == line.scratch
    && Inside(l.name, base, |scratch|) && Inside(l.value, base, base + line.scratch)
    && Read(l.name, scratch) == line.name && Read(l.value, scratch) == line.value
  }

  method LineIndexedAt(s: seq<byte>) returns (c: nat, l: RLine)
    ensures c == 0 <==> LineIndexed(s).None?
    ensures c > 0 ==> c == LineIndexed(s).value.consumed
    ensures c > 0 ==> l == RLine(Borrowed(LineIndexed(s).value.name), Borrowed(LineIndexed(s).value.value), 0)
  {
    hide IntDecode, NameOf, ValueOf;
    l := RLine(Unset, Unset, 0);
    if |s| == 0 || s[0] < 0x80 {
      return 0, l;
    }
    var used, index := DecodeInt(s, 6);
    if used == 0 || index >= STATIC_COUNT {
      return 0, l;
    }
    return used, RLine(Borrowed(NameOf(index)), Borrowed(ValueOf(index)), 0);
  }

  method LineNamrefAt(s: seq<byte>, scratch: array<byte>, base: nat, room: nat) returns (c: nat, l: RLine)
    requires base + room <= scratch.Length
    modifies scratch
    ensures OnlyWithin(old(scratch[..]), scratch[..], base, room)
    ensures c == 0 <==> LineNamref(s, room).None?
    ensures c > 0 ==> c == LineNamref(s, room).value.consumed && Shows(l, LineNamref(s, room).value, scratch[..], base)
  {
    hide IntDecode, StringDecode, NameOf;
    l := RLine(Unset, Unset, 0);
    if |s| == 0 || s[0] / 0x40 != 1 {
      return 0, l;
    }
    IntDecodeBounded(s, 4);
    var off, index := DecodeInt(s, 4);
    if off == 0 {
      return 0, l;
    }
    var w, vlen := DecodeString(s[off..], scratch, base, room);
    if w == 0 || index >= STATIC_COUNT {
      return 0, l;
    }
    return off + w, RLine(Borrowed(NameOf(index)), Scratch(base, vlen), vlen);
  }

  method LineLitnameAt(s: seq<byte>, scratch: array<byte>, base: nat, room: nat) returns (c: nat, l: RLine)
    requires base + room <= scratch.Length
    modifies scratch
    ensures OnlyWithin(old(scratch[..]), scratch[..], base, room)
    ensures c == 0 <==> LineLitname(s, room).None?
    ensures c > 0 ==> c == LineLitname(s, room).value.consumed
                      && Shows(l, LineLitname(s, room).value, scratch[..], base)
  {
    hide LitnameName, StringDecode, OnlyWithin, Shows, LineLitname;
    l := RLine(Unset, Unset, 0);
    LitnameParts(s, room);
    var half := room / 2;
    ghost var was := scratch[..];
    Untouched(was, base, room);
    if |s| == 0 || s[0] / 0x20 != 1 {
      return 0, l;
    }
    var off, nlen := DecodeLitnameName(s, scratch, base, half);
    ghost var mid := scratch[..];
    HalvesWithin(was, mid, mid, base, half, room);
    if off == 0 {
      return 0, l;
    }
    var w, vlen := DecodeString(s[off..], scratch, base + half, room - half);
    HalvesWithin(was, mid, scratch[..], base, half, room);
    if w == 0 {
      return 0, l;
    }
    ReadStable(Scratch(base, nlen), mid, scratch[..], base + half, base + half, room - half);
    LitnameShows(s, scratch[..], base, room, off, nlen, w, vlen);
    return off + w, RLine(Scratch(base, nlen), Scratch(base + half, vlen), half + vlen);
  }

  lemma {:induction false} LitnameParts(s: seq<byte>, room: nat)
    ensures LineLitname(s, room).Some? <==>
              |s| > 0 && s[0] / 0x20 == 1 && LitnameName(s, room / 2).Some?
              && StringDecode(s[LitnameName(s, room / 2).value.used..], room - room / 2).Some?
  {
    hide LitnameName, StringDecode;
  }

  lemma {:induction false} LitnameShows(s: seq<byte>, now: seq<byte>, base: nat, room: nat, off: nat, nlen: nat, w: nat,
                                        vlen: nat)
    requires |s| > 0 && s[0] / 0x20 == 1 && base + room <= |now| && nlen <= room / 2 && vlen <= room - room / 2
             && off <= |s|
    requires LitnameName(s, room / 2) == Some(Str(now[base..base + nlen], off))
    requires StringDecode(s[off..], room - room / 2) == Some(Str(now[base + room / 2..base + room / 2 + vlen], w))
    ensures LineLitname(s, room).Some? && LineLitname(s, room).value.consumed == off + w
    ensures Shows(RLine(Scratch(base, nlen), Scratch(base + room / 2, vlen), room / 2 + vlen),
                  LineLitname(s, room).value, now, base)
  {
    hide LitnameName, StringDecode;
  }

  lemma {:induction false} HalvesWithin(was: seq<byte>, mid: seq<byte>, now: seq<byte>, base: nat, half: nat, room: nat)
    requires base + room <= |was| && half <= room
    requires OnlyWithin(was, mid, base, half) && (now == mid || OnlyWithin(mid, now, base + half, room - half))
    ensures OnlyWithin(was, now, base, room)
  {
    assert mid[base + room..] == mid[base + half..][room - half..];
    assert was[base + room..] == was[base + half..][room - half..];
    if OnlyWithin(mid, now, base + half, room - half) {
      assert now[..base] == now[..base + half][..base] && mid[..base] == mid[..base + half][..base];
    }
  }

  lemma {:induction false} WithinTwice(was: seq<byte>, mid: seq<byte>, now: seq<byte>, base: nat, cap: nat)
    requires base + cap <= |was| && OnlyWithin(was, mid, base, cap) && OnlyWithin(mid, now, base, cap)
    ensures OnlyWithin(was, now, base, cap)
  {
  }

  /** The three forms in turn. */
  method DecodeLineAt(s: seq<byte>, scratch: array<byte>, base: nat, room: nat) returns (c: nat, l: RLine)
    requires base + room <= scratch.Length
    modifies scratch
    ensures OnlyWithin(old(scratch[..]), scratch[..], base, room)
    ensures c == 0 <==> DecodeLine(s, room).None?
    ensures c > 0 ==> c == DecodeLine(s, room).value.consumed && Shows(l, DecodeLine(s, room).value, scratch[..], base)
  {
    hide LineIndexed, LineNamref, LineLitname, OnlyWithin;
    ghost var was := scratch[..];
    Untouched(was, base, room);
    c, l := LineIndexedAt(s);
    if c != 0 {
      IndexedTakesNone(s);
      return;
    }
    c, l := LineNamrefAt(s, scratch, base, room);
    if c != 0 {
      return;
    }
    ghost var mid := scratch[..];
    c, l := LineLitnameAt(s, scratch, base, room);
    WithinTwice(was, mid, scratch[..], base, room);
  }

  lemma {:induction false} IndexedTakesNone(s: seq<byte>)
    ensures LineIndexed(s).Some? ==> LineIndexed(s).value.scratch == 0
  {
  }

  /** Reads the literal only as far as its terminator. */
  method NameEq(name: seq<byte>, lit: seq<byte>) returns (same: bool)
    requires 0 in lit
    ensures same == (name == CStr(lit))
  {
    var z := NulAt(lit);
    Longer(lit, 0);
    var i := 0;
    while i < |name|
      invariant i <= |name| && i <= z && name[..i] == lit[..i]
    {
      if lit[i] == 0 || name[i] != lit[i] {
        NameDiffers(name, lit, i);
        return false;
      }
      i := i + 1;
    }
    assert name[..|name|] == name;
    return lit[i] == 0;
  }

  lemma {:induction false} NameDiffers(name: seq<byte>, lit: seq<byte>, i: nat)
    requires i < |name| && i <= NulAt(lit) < |lit| && (lit[i] == 0 || name[i] != lit[i])
    ensures name != CStr(lit)
  {
    if i < NulAt(lit) {
      assert CStr(lit)[i] == lit[i];
    }
  }

  /** Kinds in the source's order: 0 regular, 1 to 5 the known names, 6 unknown. */
  function Known(i: nat): string
    requires i < 5
  {
    [":method", ":scheme", ":authority", ":path", ":status"][i]
  }

  function LookupFrom(i: nat, name: seq<byte>): nat
    requires i <= 5
    decreases 5 - i
  {
    if i == 5 then 6 else if name == CStr(Mem(Known(i))) then i + 1 else LookupFrom(i + 1, name)
  }

  method Classify(name: seq<byte>) returns (kind: nat)
    ensures kind == if |name| == 0 || name[0] != 58 then 0 else LookupFrom(0, name)
  {
    hide CStr, Mem, Known;
    if |name| == 0 || name[0] != 58 {
      return 0;
    }
    for i := 0 to 5
      invariant LookupFrom(0, name) == LookupFrom(i, name)
    {
      var same := NameEq(name, Mem(Known(i)));
      if same {
        return i + 1;
      }
    }
    return 6;
  }

  /** Kinds 1 to 4 are the request's slots. */
  lemma {:induction false} KindIsSlot(name: seq<byte>)
    ensures var kind := if |name| == 0 || name[0] != 58 then 0 else LookupFrom(0, name);
            Slot(name) == if 1 <= kind <= 4 then Some(kind - 1) else None
  {
    hide CStr, Mem;
    if Slot(name).Some? {
      StartsWithColon(name);
    }
    assert LookupFrom(4, name) >= 5;
    assert LookupFrom(2, name) == if name == CStr(Mem(":authority")) then 3 else LookupFrom(3, name);
  }

  /** Each slot's view lies in the scratch used so far and shows the slot's value. */
  ghost predicate SlotsShow(slots: seq<View>, vals: seq<seq<byte>>, scratch: seq<byte>, hi: nat)
  {
    |slots| == 4 && |vals| == 4 && hi <= |scratch|
    && forall k :: 0 <= k < 4 ==> Inside(slots[k], 0, hi) && Read(slots[k], scratch) == vals[k]
  }

  /** Writing beyond what is used, then storing one more view, keeps every slot right. */
  lemma {:induction false} SlotsStep(slots: seq<View>, vals: seq<seq<byte>>, was: seq<byte>, now: seq<byte>, used: nat,
                                     room: nat, l: RLine, line: Line)
    requires used + room <= |was| && SlotsShow(slots, vals, was, used) && OnlyWithin(was, now, used, room)
    requires Shows(l, line, now, used)
    ensures var k := Slot(line.name);
            SlotsShow(if k.Some? then slots[k.value := l.value] else slots, Store(vals, line), now, used + line.scratch)
  {
    hide Slot, OnlyWithin;
    forall k | 0 <= k < 4 ensures Inside(slots[k], 0, used) && Read(slots[k], now) == vals[k] {
      ReadStable(slots[k], was, now, used, used, room);
    }
  }

  /** Stores a line's value in the slot of its name, if it has one. */
  method ClassifyLine(l: RLine, name: seq<byte>, slots: seq<View>) returns (r: seq<View>)
    requires |slots| == 4
    ensures r == if Slot(name).Some? then slots[Slot(name).value := l.value] else slots
  {
    hide Slot, LookupFrom;
    KindIsSlot(name);
    var kind := Classify(name);
    return if 1 <= kind <= 4 then slots[kind - 1 := l.value] else slots;
  }

  method ReadView(v: View, scratch: array<byte>) returns (bytes: seq<byte>)
    requires Inside(v, 0, scratch.Length)
    ensures bytes == Read(v, scratch[..])
  {
    match v {
      case Unset => bytes := [];
      case Borrowed(b) => bytes := b;
      case Scratch(at, len) =>
        bytes := scratch[at..at + len];
    }
  }

  /** Walks the lines, and the views it leaves show exactly the specified values: no line
      overwrites what an earlier one stored. */
  method ScanLines(fs: seq<byte>, start: nat, scratch: array<byte>, scap: nat) returns (ok: bool, slots: seq<View>)
    requires start <= |fs| && scap <= scratch.Length
    modifies scratch
    ensures ok == Scan(fs, start, scap, EMPTY_SLOTS).Some?
    ensures ok ==> SlotsShow(slots, Scan(fs, start, scap, EMPTY_SLOTS).value, scratch[..], scap)
    ensures OnlyWithin(old(scratch[..]), scratch[..], 0, scap)
  {
    hide DecodeLine, Slot, Shows, SlotsShow, Store, OnlyWithin;
    slots := [Unset, Unset, Unset, Unset];
    var off, used := start, 0;
    ghost var vals := EMPTY_SLOTS;
    SlotsStart(scratch[..]);
    Untouched(scratch[..], 0, scap);
    while off < |fs|
      invariant off <= |fs| && 0 <= used <= scap && |vals| == 4 && |slots| == 4
      invariant Scan(fs, start, scap, EMPTY_SLOTS) == Scan(fs, off, scap - used, vals)
      invariant SlotsShow(slots, vals, scratch[..], used)
      invariant OnlyWithin(old(scratch[..]), scratch[..], 0, scap)
      decreases |fs| - off
    {
      ghost var was, room := scratch[..], scap - used;
      LineAdvances(fs[off..], room);
      var c, l := DecodeLineAt(fs[off..], scratch, used, scap - used);
      WithinMore(old(scratch[..]), was, scratch[..], used, scap);
      if c == 0 {
        return false, slots;
      }
      ghost var line := DecodeLine(fs[off..], room).value;
      NameInside(l, line, scratch[..], used);
      var name := ReadView(l.name, scratch);
      SlotsStep(slots, vals, was, scratch[..], used, room, l, line);
      slots := ClassifyLine(l, name, slots);
      vals := Store(vals, line);
      off := off + c;
      used := used + l.scratchUsed;
    }
    SlotsWiden(slots, vals, scratch[..], used, scap);
    return true, slots;
  }

  lemma {:induction false} SlotsStart(scratch: seq<byte>)
    ensures SlotsShow([Unset, Unset, Unset, Unset], EMPTY_SLOTS, scratch, 0)
  {
  }

  lemma {:induction false} SlotsWiden(slots: seq<View>, vals: seq<seq<byte>>, scratch: seq<byte>, hi: nat, hi': nat)
    requires SlotsShow(slots, vals, scratch, hi) && hi <= hi' <= |scratch|
    ensures SlotsShow(slots, vals, scratch, hi')
  {
  }

  lemma {:induction false} NameInside(l: RLine, line: Line, scratch: seq<byte>, base: nat)
    requires Shows(l, line, scratch, base)
    ensures Inside(l.name, 0, |scratch|) && Read(l.name, scratch) == line.name && l.scratchUsed == line.scratch
  {
  }

  lemma {:induction false} WithinMore(was: seq<byte>, mid: seq<byte>, now: seq<byte>, used: nat, scap: nat)
    requires used <= scap <= |was| && OnlyWithin(was, mid, 0, scap) && OnlyWithin(mid, now, used, scap - used)
    ensures OnlyWithin(was, now, 0, scap)
  {
  }

  /** The request decoder on one field section. */
  method DecodeRequest(fs: seq<byte>, scratch: array<byte>, scap: nat) returns (ok: bool, slots: seq<View>)
    requires scap <= scratch.Length
    modifies scratch
    ensures ok == DecodeSection(fs, scap).Some?
    ensures ok ==> SlotsShow(slots, DecodeSection(fs, scap).value, scratch[..], scap)
  {
    hide IntDecode, Scan, SlotsShow, OnlyWithin;
    slots := [Unset, Unset, Unset, Unset];
    PrefixAdvances(fs);
    IntDecodeBounded(fs, 8);
    var off, ric := DecodeInt(fs, 8);
    if off == 0 {
      return false, slots;
    }
    var w, deltaBase := DecodeInt(fs[off..], 7);
    if w == 0 {
      return false, slots;
    }
    ok, slots := ScanLines(fs, off + w, scratch, scap);
  }
}
