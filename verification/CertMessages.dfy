/** The Certificate message as section 4.4.2 of RFC 8446 lays it out, and that the chain
    parser (src/tls/handshake/core/tls/cert.c:13-93) finds exactly the certificates in it. */
module CertMessages {
  import opened Arith
  import opened Options
  import opened HandshakeCrypto
  import opened FullHandshake

  datatype CertEntry = CertEntry(cert: Bytes, ext: Bytes)

  /** n in k bytes, most significant first. */
  function Length(n: nat, k: nat): (b: Bytes)
    ensures |b| == k
  {
    if k == 0 then [] else Length(n / 256, k - 1) + [n % 256]
  }

  function Vec(k: nat, b: Bytes): Bytes
  {
    Length(|b|, k) + b
  }

  function EntryBytes(e: CertEntry): Bytes
  {
    Vec(3, e.cert) + Vec(2, e.ext)
  }

  function ListBytes(es: seq<CertEntry>): Bytes
  {
    if es == [] then [] else EntryBytes(es[0]) + ListBytes(es[1..])
  }

  /** Header, request context, certificate_list; what follows is never looked at. */
  function CertMessage(header: Bytes, ctx: Bytes, es: seq<CertEntry>, tail: Bytes): Bytes
  {
    header + Vec(1, ctx) + Vec(3, ListBytes(es)) + tail
  }

  ghost predicate FitsLengths(es: seq<CertEntry>)
  {
    forall i :: 0 <= i < |es| ==> |es[i].cert| < 0x100_0000 && |es[i].ext| < 0x1_0000
  }

  lemma {:induction false} LengthReads(n: nat, k: nat)
    requires n < Pow(256, k)
    ensures BigEndian(Length(n, k)) == n
  {
    if k > 0 {
      assert Pow(256, k) == 256 * Pow(256, k - 1);
      LengthReads(n / 256, k - 1);
      assert Length(n, k)[..k - 1] == Length(n / 256, k - 1);
    }
  }

  lemma {:induction false} VecReads(pre: Bytes, k: nat, b: Bytes, rest: Bytes)
    requires |b| < Pow(256, k)
    ensures var s := pre + Vec(k, b) + rest;
            TakeVec(s, |pre|, k) == Some(Slice(|pre| + k, |b|)) && Cut(s, Slice(|pre| + k, |b|)) == b
  {
    hide BigEndian, Length, Pow;
    var s := pre + Vec(k, b) + rest;
    LengthReads(|b|, k);
    assert s[|pre|..|pre| + k] == Length(|b|, k);
    assert s[|pre| + k..|pre| + k + |b|] == b;
  }

  lemma {:induction false} LengthRanges()
    ensures Pow(256, 1) == 0x100 && Pow(256, 2) == 0x1_0000 && Pow(256, 3) == 0x100_0000
  {
    PowAdd(256, 1, 1);
    PowAdd(256, 2, 1);
  }

  /** Where the certificates of a list lie that starts at off. */
  function EntrySlices(off: nat, es: seq<CertEntry>): (r: seq<Slice>)
    ensures |r| == |es|
    decreases |es|
  {
    if es == [] then []
    else [Slice(off + 3, |es[0].cert|)] + EntrySlices(off + |EntryBytes(es[0])|, es[1..])
  }

  /** Up to the limit every entry is found at its place; past it the list is refused. */
  lemma {:induction false} EntriesRead(pre: Bytes, es: seq<CertEntry>, count: nat)
    requires FitsLengths(es) && count <= CHAIN_MAX
    ensures Entries(pre + ListBytes(es), |pre|, count) ==
            if count + |es| <= CHAIN_MAX then Some(EntrySlices(|pre|, es)) else None
    decreases |es|
  {
    hide TakeVec, Cut, Vec, Pow;
    var list := pre + ListBytes(es);
    if es == [] {
      assert list == pre;
    } else {
      var e, rest := es[0], ListBytes(es[1..]);
      var a, b := Vec(3, e.cert), Vec(2, e.ext);
      LengthRanges();
      assert list == pre + a + (b + rest) && list == (pre + a) + b + rest;
      VecReads(pre, 3, e.cert, b + rest);
      VecReads(pre + a, 2, e.ext, rest);
      VecLength(3, e.cert);
      VecLength(2, e.ext);
      if count < CHAIN_MAX {
        assert list == (pre + EntryBytes(e)) + rest;
        EntriesRead(pre + EntryBytes(e), es[1..], count + 1);
      }
    }
  }

  lemma {:induction false} VecLength(k: nat, b: Bytes)
    ensures |Vec(k, b)| == k + |b|
  {
  }

  lemma {:induction false} EntriesPlaced(pre: Bytes, es: seq<CertEntry>)
    requires FitsLengths(es)
    ensures forall i :: 0 <= i < |es| ==> Cut(pre + ListBytes(es), EntrySlices(|pre|, es)[i]) == es[i].cert
    decreases |es|
  {
    hide Cut, Vec, Pow, TakeVec;
    if es != [] {
      var e, rest := es[0], ListBytes(es[1..]);
      LengthRanges();
      assert pre + ListBytes(es) == pre + Vec(3, e.cert) + (Vec(2, e.ext) + rest);
      VecReads(pre, 3, e.cert, Vec(2, e.ext) + rest);
      assert pre + ListBytes(es) == (pre + EntryBytes(e)) + rest;
      EntriesPlaced(pre + EntryBytes(e), es[1..]);
    }
  }

  /** A slice of a part is the shifted slice of the whole. */
  lemma {:induction false} CutInside(pre: Bytes, part: Bytes, post: Bytes, s: Slice)
    requires Within(s, |part|)
    ensures Cut(pre + part + post, Slice(s.off + |pre|, s.len)) == Cut(part, s)
  {
    var whole := pre + part + post;
    assert whole[s.off + |pre|..s.off + |pre| + s.len] == part[s.off..s.off + s.len];
  }

  lemma {:induction false} SlicesWithin(off: nat, es: seq<CertEntry>)
    ensures forall i :: 0 <= i < |es| ==> Within(EntrySlices(off, es)[i], off + |ListBytes(es)|)
    decreases |es|
  {
    if es != [] {
      SlicesWithin(off + |EntryBytes(es[0])|, es[1..]);
    }
  }

  /** The parser's answer on a well-formed message: up to four entries it finds each
      certificate, byte for byte and in order, and a longer list it refuses. */
  lemma {:induction false} ChainReadsBack(header: Bytes, ctx: Bytes, es: seq<CertEntry>, tail: Bytes)
    requires |header| == HEADER && |ctx| < 0x100 && FitsLengths(es) && |ListBytes(es)| < 0x100_0000
    ensures var msg := CertMessage(header, ctx, es, tail);
            if |es| <= CHAIN_MAX
            then CertChain(msg).Some? && |CertChain(msg).value| == |es|
                 && forall i :: 0 <= i < |es| ==> Cut(msg, CertChain(msg).value[i]) == es[i].cert
            else CertChain(msg).None?
  {
    hide TakeVec, Cut, Vec, Pow, Entries, EntrySlices, ListBytes;
    var msg, list := CertMessage(header, ctx, es, tail), ListBytes(es);
    var body := Body(msg);
    LengthRanges();
    VecLength(1, ctx);
    VecLength(3, list);
    assert body == [] + Vec(1, ctx) + (Vec(3, list) + tail);
    VecReads([], 1, ctx, Vec(3, list) + tail);
    assert body == Vec(1, ctx) + Vec(3, list) + tail;
    VecReads(Vec(1, ctx), 3, list, tail);
    EntriesRead([], es, 0);
    assert [] + list == list;
    if |es| <= CHAIN_MAX {
      ChainPlaced(header, ctx, es, tail, CertChain(msg).value);
    }
  }

  lemma {:induction false} ChainPlaced(header: Bytes, ctx: Bytes, es: seq<CertEntry>, tail: Bytes, chain: seq<Slice>)
    requires |header| == HEADER && FitsLengths(es) && chain == Shift(EntrySlices(0, es), HEADER + 1 + |ctx| + 3)
    ensures forall i :: 0 <= i < |es| ==> Cut(CertMessage(header, ctx, es, tail), chain[i]) == es[i].cert
  {
    hide Cut, EntrySlices, ListBytes;
    var msg, list := CertMessage(header, ctx, es, tail), ListBytes(es);
    var pre := header + Vec(1, ctx) + Length(|list|, 3);
    assert msg == pre + list + tail;
    assert [] + list == list;
    SlicesWithin(0, es);
    EntriesPlaced([], es);
    forall i | 0 <= i < |es| ensures Cut(msg, chain[i]) == es[i].cert {
      CutInside(pre, list, tail, EntrySlices(0, es)[i]);
    }
  }

  // ---- and nothing else parses ----

  lemma {:induction false} BigEndianFits(b: Bytes)
    ensures BigEndian(b) < Pow(256, |b|) && Length(BigEndian(b), |b|) == b
  {
    if b != [] {
      var n := |b| - 1;
      BigEndianFits(b[..n]);
      var high := BigEndian(b[..n]);
      assert BigEndian(b) == 256 * high + b[n];
      assert Length(BigEndian(b), |b|) == Length(high, n) + [b[n]];
    }
  }

  /** What is taken as a vector is one. */
  lemma {:induction false} VecTaken(s: Bytes, off: nat, k: nat) returns (b: Bytes, rest: Bytes)
    requires TakeVec(s, off, k).Some?
    ensures off <= |s| && s[off..] == Vec(k, b) + rest && |b| < Pow(256, k)
    ensures TakeVec(s, off, k) == Some(Slice(off + k, |b|)) && s[off + k + |b|..] == rest
  {
    hide BigEndian, Length, Pow;
    var len := BigEndian(s[off..off + k]);
    BigEndianFits(s[off..off + k]);
    b, rest := s[off + k..off + k + len], s[off + k + len..];
    assert s[off..] == s[off..off + k] + b + rest;
  }

  lemma {:induction false} EntriesTaken(list: Bytes, off: nat, count: nat) returns (es: seq<CertEntry>)
    requires off <= |list| && count <= CHAIN_MAX && Entries(list, off, count).Some?
    ensures list[off..] == ListBytes(es) && FitsLengths(es) && count + |es| <= CHAIN_MAX
    decreases |list| - off
  {
    hide TakeVec, Vec, Pow;
    if off == |list| {
      es := [];
    } else {
      var cert, afterCert := VecTaken(list, off, 3);
      var at := off + 3 + |cert|;
      var ext, afterExt := VecTaken(list, at, 2);
      LengthRanges();
      var rest := EntriesTaken(list, at + 2 + |ext|, count + 1);
      es := [CertEntry(cert, ext)] + rest;
      assert es[1..] == rest;
    }
  }

  /** The message spelled out, within the four entries the driver keeps. */
  ghost predicate Spelled(msg: Bytes, ctx: Bytes, es: seq<CertEntry>, tail: Bytes)
  {
    |msg| >= HEADER && |ctx| < 0x100 && FitsLengths(es) && |ListBytes(es)| < 0x100_0000 && |es| <= 4
    && msg == CertMessage(msg[..HEADER], ctx, es, tail)
  }

  /** Over all byte strings: the parser accepts exactly the well-formed Certificate messages
      of up to four entries. */
  lemma {:induction false} ParsesExactly(msg: Bytes)
    ensures CertChain(msg).Some? <==> exists ctx, es, tail :: Spelled(msg, ctx, es, tail)
  {
    hide TakeVec, Cut, Vec, Pow, Entries, ListBytes, CertMessage;
    if CertChain(msg).Some? {
      var ctx, es, tail := MessageTaken(msg);
      assert Spelled(msg, ctx, es, tail);
    }
    if ctx, es, tail :| Spelled(msg, ctx, es, tail) {
      ChainReadsBack(msg[..HEADER], ctx, es, tail);
    }
  }

  lemma {:induction false} MessageTaken(msg: Bytes) returns (ctx: Bytes, es: seq<CertEntry>, tail: Bytes)
    requires CertChain(msg).Some?
    ensures Spelled(msg, ctx, es, tail)
  {
    hide TakeVec, Vec, Pow, Entries, ListBytes;
    var body := Body(msg);
    EmptyTakesNothing();
    LengthRanges();
    var afterCtx;
    ctx, afterCtx := VecTaken(body, 0, 1);
    var list;
    list, tail := VecTaken(body, 1 + |ctx|, 3);
    assert Cut(body, Slice(1 + |ctx| + 3, |list|)) == list by { CutOfVec(body, 1 + |ctx|, 3, list, tail); }
    es := EntriesTaken(list, 0, 0);
    assert list[0..] == list && body[0..] == body;
    assert msg == msg[..HEADER] + Vec(1, ctx) + Vec(3, ListBytes(es)) + tail;
  }

  lemma {:induction false} EmptyTakesNothing()
    ensures TakeVec([], 0, 1) == None
  {
  }

  lemma {:induction false} CutOfVec(s: Bytes, off: nat, k: nat, b: Bytes, rest: Bytes)
    requires off <= |s| && s[off..] == Vec(k, b) + rest
    ensures Cut(s, Slice(off + k, |b|)) == b
  {
    VecLength(k, b);
    assert s[off + k..off + k + |b|] == s[off..][k..k + |b|];
  }
}
