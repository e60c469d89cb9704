/** Indexed field lines resolved through the static or the dynamic table
    (src/app/qpack/qpackdyn/field_decode.c, src/app/qpack/qpack/relindex.c; sections 3.2.5,
    3.2.6 and 4.5.2 of RFC 9204). */
module QpackFieldDecode {
  import opened Arith
  import opened Options
  import opened QpackInteger
  import opened QpackHistory
  import opened QpackDynTable
  import opened QpackFieldLines
  import opened QpackLineForms
  import opened QpackStaticTable

  /** Both conversions wrap around on 64 bits. */
  function RelToAbs(base: u64, rel: u64): u64
  {
    ((base as int) - rel - 1) % B64
  }

  function PostbaseToAbs(base: u64, postbase: u64): u64
  {
    ((base as int) + postbase) % B64
  }

  datatype Resolved = Resolved(entry: Entry, consumed: nat)

  function DecodeField(t: DynTable, base: u64, fs: seq<byte>, pos: nat): Option<Resolved>
    requires t.Valid() && pos <= |fs|
    reads t, t.ring
  {
    var d := IndexedDecode(fs[pos..]);
    if d.None? then None
    else if d.value.isStatic then
      if d.value.index >= STATIC_COUNT then None
      else Some(Resolved(Entry(NameOf(d.value.index), ValueOf(d.value.index)), d.value.used))
    else
      IntDecodeBounded(fs[pos..], 6);
      var e := t.Get(RelToAbs(base, d.value.index));
      if e.None? then None else Some(Resolved(e.value, d.value.used))
  }

  /** The two conversions are inverse on the side of base each is meant for. */
  lemma {:induction false} IndexConversions(base: u64, abs: u64)
    ensures abs < base ==> RelToAbs(base, base - 1 - abs) == abs
    ensures abs >= base ==> PostbaseToAbs(base, abs - base) == abs
  {
    ModSmall(abs, B64);
  }

  /** A line that refers to absolute index abs resolves to the abs-th entry ever accepted
      for exactly as long as that entry is live, and not at all when the index is too far
      below base to be read back. */
  lemma {:induction false} ReferenceResolves(t: DynTable, base: u64, abs: u64, pre: seq<byte>, rest: seq<byte>)
    requires t.Valid() && abs < base
    ensures var line := IndexedBytes(base - 1 - abs, false);
            DecodeField(t, base, pre + line + rest, |pre|) ==
              if base - 1 - abs < 63 + REACH && Dropped(t.accepted, t.capacity) <= abs < |t.accepted|
              then Some(Resolved(t.accepted[abs], |line|)) else None
  {
    hide IndexedDecode, IndexedBytes;
    var line := IndexedBytes(base - 1 - abs, false);
    var fs := pre + line + rest;
    assert fs[|pre|..] == line + rest;
    IndexedRoundTrip(base - 1 - abs, false, rest);
    IndexConversions(base, abs);
  }

  /** Whatever the input, a dynamic line resolves only to a live entry: the one its index
      counts down to from base, or, for an index past base, the one 2^64 above, which only a
      table with 2^63 - 63 inserts behind it reaches. */
  lemma {:induction false} DynamicIsLive(t: DynTable, base: u64, fs: seq<byte>, pos: nat)
    requires t.Valid() && pos <= |fs|
    ensures var d, r := IndexedDecode(fs[pos..]), DecodeField(t, base, fs, pos);
            d.Some? && !d.value.isStatic && r.Some? ==>
              var k := base - 1 - d.value.index + if d.value.index < base then 0 else B64;
              Dropped(t.accepted, t.capacity) <= k < |t.accepted| && r.value.entry == t.accepted[k]
              && (d.value.index < base || |t.accepted| > REACH - 63)
  {
    hide IntDecode, Dropped;
    IntDecodeBounded(fs[pos..], 6);
    var d := IndexedDecode(fs[pos..]);
    if d.Some? && !d.value.isStatic {
      Wraps(base, d.value.index);
    }
  }

  /** The entry an index names: a row of the static table, or the entry that many below base,
      counted on 64 bits, while it is live. */
  ghost predicate Names(t: DynTable, base: u64, index: nat, isStatic: bool, e: Entry)
    requires t.Valid()
    reads t, t.ring
  {
    if isStatic then index < 99 && e == Entry(NameOf(index), ValueOf(index))
    else
      var k := base - 1 - index + if index < base then 0 else B64;
      Dropped(t.accepted, t.capacity) <= k < |t.accepted| && e == t.accepted[k]
  }

  /** Over all octets: a line resolves to an entry exactly when it is an indexed line whose
      index names it. */
  lemma {:induction false} DecodeFieldExact(t: DynTable, base: u64, fs: seq<byte>, pos: nat, r: Resolved)
    requires t.Valid() && pos <= |fs|
    ensures DecodeField(t, base, fs, pos) == Some(r) <==>
            exists index: nat, isStatic :: Reads(fs[pos..], 6, 2 + Flag(isStatic), index, r.consumed)
                                           && Names(t, base, index, isStatic, r.entry)
  {
    hide IndexedDecode, Reads, Dropped, NameOf, ValueOf;
    var s := fs[pos..];
    var d := IndexedDecode(s);
    if d.Some? {
      IndexedDecodeExact(s, d.value.index, d.value.isStatic, d.value.used);
      IndexBounded(s);
      Wraps(base, d.value.index);
      if DecodeField(t, base, fs, pos) == Some(r) {
        assert Reads(s, 6, 2 + Flag(d.value.isStatic), d.value.index, r.consumed)
               && Names(t, base, d.value.index, d.value.isStatic, r.entry);
      }
    }
    if index: nat, isStatic :| Reads(s, 6, 2 + Flag(isStatic), index, r.consumed)
                               && Names(t, base, index, isStatic, r.entry) {
      IndexedDecodeExact(s, index, isStatic, r.consumed);
    }
  }

  lemma {:induction false} IndexBounded(s: seq<byte>)
    ensures var d := IndexedDecode(s); d.Some? ==> d.value.index < B64
  {
    IntDecodeBounded(s, 6);
  }

  lemma {:induction false} Wraps(base: u64, rel: u64)
    ensures RelToAbs(base, rel) == base - 1 - rel + if rel < base then 0 else B64
  {
    if rel < base {
      ModSmall(base - rel - 1, B64);
    } else {
      ModShift((base as int) - rel - 1, 1, B64);
      ModSmall((base as int) - rel - 1 + B64, B64);
    }
  }
}
