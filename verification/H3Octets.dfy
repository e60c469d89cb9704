/** The octets of request header sections (section 4.3.1 of RFC 9114, section 4.5 and
    Appendix A of RFC 9204). */
module H3Octets {
  import opened Arith
  import opened Options
  import opened QpackInteger
  import opened QpackFieldLines
  import opened QpackLineForms
  import opened QpackStaticTable
  import opened H3Request

  const GET: seq<byte> := [71, 69, 84]
  const HTTPS: seq<byte> := [104, 116, 116, 112, 115]
  const SLASH: seq<byte> := [47]

  /** The rows of a pseudo-header name. */
  lemma {:induction false} PseudoRowNames(i: nat)
    requires i < STATIC_COUNT && PseudoRow(i)
    ensures StaticName(i) == (if i == 0 then ":authority" else if i == 1 then ":path" else if i < 22 then ":method"
                              else if i < 24 then ":scheme" else ":status")
  {
  }

  predicate Begins(n: seq<byte>, x: int, y: int)
  {
    |n| > 2 && n[0] == 58 && n[1] == x && n[2] == y
  }

  /** The first letters of the pseudo-header names, ASCII. */
  lemma {:induction false} FirstLetters()
    ensures Begins(CStr(Mem(":authority")), 97, 117) && Begins(CStr(Mem(":path")), 112, 97)
    ensures Begins(CStr(Mem(":method")), 109, 101) && Begins(CStr(Mem(":scheme")), 115, 99)
    ensures Begins(CStr(Mem(":status")), 115, 116)
  {
    hide CStr, Mem;
    NameBytes(":authority");
    NameBytes(":path");
    NameBytes(":method");
    NameBytes(":scheme");
    NameBytes(":status");
  }

  /** A request pseudo-header's name is found in its own rows only. */
  lemma {:induction false} RowsOf(i: nat)
    requires i < STATIC_COUNT
    ensures NameOf(i) == CStr(Mem(":authority")) ==> i == 0
    ensures NameOf(i) == CStr(Mem(":path")) ==> i == 1
    ensures NameOf(i) == CStr(Mem(":method")) ==> 15 <= i < 22
    ensures NameOf(i) == CStr(Mem(":scheme")) ==> 22 <= i < 24
  {
    hide StaticName, CStr, Mem;
    FirstLetters();
    if PseudoRow(i) {
      PseudoRowNames(i);
    } else {
      OrdinaryNames(i);
      OrdinaryFirst(i);
    }
  }

  lemma {:induction false} OrdinaryFirst(i: nat)
    requires i < STATIC_COUNT && |StaticName(i)| > 0 && 97 <= StaticName(i)[0] as int <= 122
    ensures |NameOf(i)| > 0 && NameOf(i)[0] == StaticName(i)[0] as int
  {
    hide StaticName;
  }

  /** The first row with the name and value is the one found. */
  lemma {:induction false} FoundAt(name: seq<byte>, value: seq<byte>, i: nat)
    requires i < STATIC_COUNT && NameOf(i) == name && ValueOf(i) == value
    requires forall j :: 0 <= j < i ==> NameOf(j) != name || ValueOf(j) != value
    ensures FindFrom(0, name, value) == Some(i)
  {
    hide FindFrom, NameOf, ValueOf;
    var r := FindFrom(0, name, value);
    assert r.Some?;
  }

  lemma {:induction false} RowValues()
    ensures StaticValue(0) == "" && StaticValue(1) == "/" && StaticValue(15) == "CONNECT" && StaticValue(16) == "DELETE"
    ensures StaticValue(17) == "GET" && StaticValue(22) == "http" && StaticValue(23) == "https"
  {
  }

  lemma {:induction false} ValueBytes()
    ensures ValueOf(0) == [] && ValueOf(1) == SLASH && ValueOf(17) == GET && ValueOf(23) == HTTPS
    ensures |ValueOf(15)| == 7 && |ValueOf(16)| == 6 && |ValueOf(22)| == 4
  {
    hide StaticValue, CStr, Mem;
    RowValues();
    NameBytes("");
    NameBytes("/");
    NameBytes("CONNECT");
    NameBytes("DELETE");
    NameBytes("GET");
    NameBytes("http");
    NameBytes("https");
  }

  /** The index of each line of an ordinary request; an authority is in no row. */
  lemma {:induction false} OrdinaryIndices(v: seq<byte>)
    requires v != [] && 0 !in v
    ensures StaticIndex(Field(GET, ":method", 15)) == Some(17) && StaticIndex(Field(HTTPS, ":scheme", 22)) == Some(23)
    ensures StaticIndex(Field(SLASH, ":path", 1)) == Some(1) && StaticIndex(Field(v, ":authority", 0)) == None
  {
    hide StaticName, StaticValue, CStr, Mem, FindFrom;
    ValueBytes();
    PseudoNames();
    MethodGet();
    SecondScheme();
    NulFree(GET);
    NulFree(HTTPS);
    NulFree(SLASH);
    NulFree(v);
    forall j | 0 <= j < STATIC_COUNT
      ensures NameOf(j) == CStr(Mem(":method")) && j < 17 ==> ValueOf(j) != GET
      ensures NameOf(j) == CStr(Mem(":scheme")) && j < 23 ==> ValueOf(j) != HTTPS
      ensures NameOf(j) == CStr(Mem(":path")) ==> j == 1
      ensures NameOf(j) == CStr(Mem(":authority")) ==> ValueOf(j) != v
    {
      RowsOf(j);
    }
    FoundAt(CStr(Mem(":method")), GET, 17);
    FoundAt(CStr(Mem(":scheme")), HTTPS, 23);
    FoundAt(CStr(Mem(":path")), SLASH, 1);
    var r := FindFrom(0, CStr(Mem(":authority")), v);
    assert r.None?;
  }

  lemma {:induction false} SecondScheme()
    ensures StaticName(23) == ":scheme"
  {
  }

  lemma {:induction false} LinesFour(a: Field, b: Field, c: Field, d: Field)
    ensures LinesBytes([a, b, c, d]) == LineBytes(a) + LineBytes(b) + LineBytes(c) + LineBytes(d)
  {
    hide LineBytes;
    assert [a, b, c, d][1..] == [b, c, d] && [b, c, d][1..] == [c, d] && [c, d][1..] == [d] && [d][1..] == [];
    assert LinesBytes([d]) == LineBytes(d);
    assert LinesBytes([c, d]) == LineBytes(c) + LineBytes(d);
  }

  lemma {:induction false} IndexedLine(f: Field, i: nat)
    requires StaticIndex(f) == Some(i) && i < 63
    ensures LineBytes(f) == [0xc0 + i]
  {
    hide StaticIndex;
  }

  lemma {:induction false} LiteralLine(f: Field)
    requires StaticIndex(f) == None && f.nameIdx < 15 && |f.value| < 127
    ensures LineBytes(f) == [0x50 + f.nameIdx, |f.value|] + f.value
  {
    hide StaticIndex;
    assert StringBytes(f.value) == [|f.value|] + f.value;
  }

  lemma {:induction false} NoDynamic()
    ensures PrefixBytes(NO_DYNAMIC) == [0, 0]
  {
  }

  lemma {:induction false} Assembled(v: seq<byte>)
    requires |v| < 127
    ensures [0, 0] + ([0xd1] + [0xd7] + ([0x50, |v|] + v) + [0xc1]) == [0, 0, 0xd1, 0xd7, 0x50, |v|] + v + [0xc1]
  {
  }

  /** GET of the root of any https authority: no dynamic table, three indexed lines, and the
      authority as a literal under name 0. */
  lemma {:induction false} OrdinaryRequest(v: seq<byte>)
    requires v != [] && 0 !in v && |v| < 127
    ensures SectionBytes(RequestFields(GET, SLASH, HTTPS, v)) == [0, 0, 0xd1, 0xd7, 0x50, |v|] + v + [0xc1]
  {
    hide StaticIndex, LinesBytes, LineBytes, PrefixBytes, FindFrom, StaticName, StaticValue, CStr, Mem;
    OrdinaryIndices(v);
    var fs := RequestFields(GET, SLASH, HTTPS, v);
    IndexedLine(fs[0], 17);
    IndexedLine(fs[1], 23);
    LiteralLine(fs[2]);
    IndexedLine(fs[3], 1);
    LinesFour(fs[0], fs[1], fs[2], fs[3]);
    NoDynamic();
    assert fs == [fs[0], fs[1], fs[2], fs[3]];
    Assembled(v);
  }

  /** CONNECT to any authority: its method and the authority alone. */
  lemma {:induction false} ConnectRequest(v: seq<byte>)
    requires v != [] && 0 !in v && |v| < 127
    ensures SectionBytes(ConnectFields(v)) == [0, 0, 0xcf, 0x50, |v|] + v
  {
    hide StaticIndex, LinesBytes, LineBytes, PrefixBytes, FindFrom, StaticName, StaticValue, CStr, Mem;
    OrdinaryIndices(v);
    ConnectIndex();
    var fs := ConnectFields(v);
    IndexedLine(fs[0], 15);
    LiteralLine(fs[1]);
    LinesTwo(fs[0], fs[1]);
    NoDynamic();
    assert fs == [fs[0], fs[1]];
    assert [0, 0] + ([0xcf] + ([0x50, |v|] + v)) == [0, 0, 0xcf, 0x50, |v|] + v;
  }

  lemma {:induction false} LinesTwo(a: Field, b: Field)
    ensures LinesBytes([a, b]) == LineBytes(a) + LineBytes(b)
  {
    hide LineBytes;
    assert [a, b][1..] == [b] && [b][1..] == [];
    assert LinesBytes([b]) == LineBytes(b);
  }

  lemma {:induction false} ConnectIndex()
    ensures StaticIndex(Field(CONNECT, ":method", 15)) == Some(15)
  {
    hide StaticName, StaticValue, CStr, Mem, FindFrom;
    RowValues();
    NameBytes("CONNECT");
    assert ValueOf(15) == CONNECT;
    PseudoNames();
    NulFree(CONNECT);
    forall j | 0 <= j < 15 ensures NameOf(j) != CStr(Mem(":method")) {
      RowsOf(j);
    }
    FoundAt(CStr(Mem(":method")), CONNECT, 15);
  }

  // ---- names ----

  /** The pseudo-header names of section 4.3 of RFC 9114, in the order of their kinds. */
  const PSEUDO_NAMES: seq<seq<byte>> := [
    [58, 109, 101, 116, 104, 111, 100],
    [58, 115, 99, 104, 101, 109, 101],
    [58, 97, 117, 116, 104, 111, 114, 105, 116, 121],
    [58, 112, 97, 116, 104],
    [58, 115, 116, 97, 116, 117, 115]
  ]

  lemma {:induction false} KnownNames(i: nat)
    requires i < 5
    ensures CStr(Mem(Known(i))) == PSEUDO_NAMES[i]
  {
    hide CStr, Mem;
    NameBytes(":method");
    NameBytes(":scheme");
    NameBytes(":authority");
    NameBytes(":path");
    NameBytes(":status");
    assert i == 0 || i == 1 || i == 2 || i == 3 || i == 4;
  }

  /** A name's kind: 1 to 5 for those names, 6 for any other that starts with a colon, else 0. */
  lemma {:induction false} KindsByName(name: seq<byte>)
    ensures var kind := if |name| == 0 || name[0] != 58 then 0 else LookupFrom(0, name);
            0 <= kind <= 6 && (1 <= kind <= 5 ==> name == PSEUDO_NAMES[kind - 1])
            && (kind == 6 ==> name !in PSEUDO_NAMES) && (kind == 0 <==> !([58] <= name))
  {
    hide CStr, Mem, Known;
    KnownNames(0);
    KnownNames(1);
    KnownNames(2);
    KnownNames(3);
    KnownNames(4);
    if |name| > 0 && name[0] == 58 {
      assert LookupFrom(5, name) == 6;
      assert LookupFrom(4, name) == if name == PSEUDO_NAMES[4] then 5 else 6;
      assert LookupFrom(3, name) == if name == PSEUDO_NAMES[3] then 4 else LookupFrom(4, name);
      assert LookupFrom(2, name) == if name == PSEUDO_NAMES[2] then 3 else LookupFrom(3, name);
      assert LookupFrom(1, name) == if name == PSEUDO_NAMES[1] then 2 else LookupFrom(2, name);
    }
  }

  // ---- when a value goes out as another one ----

  /** Exactly the values under 16 octets that hold a NUL and, cut there, are in the table. */
  lemma {:induction false} NulAliasIff(f: Field)
    ensures NulAlias(f) <==>
            |f.value| < 16 && 0 in f.value
            && exists i :: 0 <= i < STATIC_COUNT && NameOf(i) == CStr(Mem(f.name)) && ValueOf(i) == CStr(f.value + [0])
  {
    hide FindFrom, NameOf, ValueOf, CStr, Mem;
    var r := FindFrom(0, CStr(Mem(f.name)), CStr(f.value + [0]));
    if i :| 0 <= i < STATIC_COUNT && NameOf(i) == CStr(Mem(f.name)) && ValueOf(i) == CStr(f.value + [0]) {
      assert r.Some?;
    }
  }

  // ---- any octets ----

  /** An indexed line, read as static whatever its T bit. */
  ghost predicate IndexedAs(s: seq<byte>, l: Line)
  {
    exists index: nat, t :: Reads(s, 6, 2 + Flag(t), index, l.consumed) && index < 99
                            && l.name == NameOf(index) && l.value == ValueOf(index) && l.scratch == 0
  }

  /** A name-reference line, likewise; its value takes scratch. */
  ghost predicate NamrefAs(s: seq<byte>, room: nat, l: Line)
  {
    exists index: nat, t, never :: NamrefReads(s, room, Namref(index, t, never, l.value, l.consumed)) && index < 99
                                   && l.name == NameOf(index) && l.scratch == |l.value|
  }

  /** A literal-name line: the name within half the scratch, the value within the rest. */
  ghost predicate LitnameAs(s: seq<byte>, room: nat, l: Line)
  {
    exists never :: LitnameReads(s, room / 2, room - room / 2, Litname(never, l.name, l.value, l.consumed))
                    && l.scratch == room / 2 + |l.value|
  }

  /** Over all octets: what a line decodes to is one of its three forms, told apart by the
      first bits. */
  lemma {:induction false} DecodeLineExact(s: seq<byte>, room: nat, l: Line)
    ensures DecodeLine(s, room) == Some(l) <==> IndexedAs(s, l) || NamrefAs(s, room, l) || LitnameAs(s, room, l)
  {
    hide IndexedAs, NamrefAs, LitnameAs, LineIndexed, LineNamref, LineLitname;
    LineIndexedExact(s, l);
    LineNamrefExact(s, room, l);
    LineLitnameExact(s, room, l);
    FormsApart(s, room);
  }

  lemma {:induction false} FormsApart(s: seq<byte>, room: nat)
    ensures LineIndexed(s).Some? ==> LineNamref(s, room).None? && LineLitname(s, room).None?
    ensures LineNamref(s, room).Some? ==> LineLitname(s, room).None?
  {
    hide IntDecode, StringDecode, Octets, NameOf, ValueOf;
  }

  lemma {:induction false} LineIndexedExact(s: seq<byte>, l: Line)
    ensures LineIndexed(s) == Some(l) <==> IndexedAs(s, l)
  {
    hide IndexedDecode, Reads, NameOf, ValueOf;
    var d := IndexedDecode(s);
    if d.Some? {
      IndexedDecodeExact(s, d.value.index, d.value.isStatic, d.value.used);
      if LineIndexed(s) == Some(l) {
        assert Reads(s, 6, 2 + Flag(d.value.isStatic), d.value.index, l.consumed);
      }
    }
    if index: nat, t :| Reads(s, 6, 2 + Flag(t), index, l.consumed) && index < 99
                        && l.name == NameOf(index) && l.value == ValueOf(index) && l.scratch == 0 {
      IndexedDecodeExact(s, index, t, l.consumed);
    }
  }

  lemma {:induction false} LineNamrefExact(s: seq<byte>, room: nat, l: Line)
    ensures LineNamref(s, room) == Some(l) <==> NamrefAs(s, room, l)
  {
    hide NamrefDecode, NamrefReads, NameOf;
    var d := NamrefDecode(s, room);
    if d.Some? {
      NamrefDecodeExact(s, room, d.value);
      if LineNamref(s, room) == Some(l) {
        assert d.value == Namref(d.value.index, d.value.isStatic, d.value.never, l.value, l.consumed);
      }
    }
    if index: nat, t, never :| NamrefReads(s, room, Namref(index, t, never, l.value, l.consumed)) && index < 99
                               && l.name == NameOf(index) && l.scratch == |l.value| {
      NamrefDecodeExact(s, room, Namref(index, t, never, l.value, l.consumed));
    }
  }

  lemma {:induction false} LineLitnameExact(s: seq<byte>, room: nat, l: Line)
    ensures LineLitname(s, room) == Some(l) <==> LitnameAs(s, room, l)
  {
    hide LitnameDecode, LitnameReads;
    var half := room / 2;
    var d := LitnameDecode(s, half, room - half);
    if d.Some? {
      LitnameDecodeExact(s, half, room - half, d.value);
      if LineLitname(s, room) == Some(l) {
        assert d.value == Litname(d.value.never, l.name, l.value, l.consumed);
      }
    }
    if never :| LitnameReads(s, half, room - half, Litname(never, l.name, l.value, l.consumed))
                && l.scratch == half + |l.value| {
      LitnameDecodeExact(s, half, room - half, Litname(never, l.name, l.value, l.consumed));
    }
  }
}
