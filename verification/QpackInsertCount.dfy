/** The Required Insert Count sent modulo twice the table's entries
    (src/app/qpack/qpack/insertcount.c; section 4.5.1.1 of RFC 9204). */
module QpackInsertCount {
  import opened Arith
  import opened Options

  /** Twice the table's entries on 64 bits; the encoder divides by it. */
  function FullRange(maxEntries: u64): u64
  {
    (2 * (maxEntries as int)) % B64
  }

  function RicEncode(ric: u64, maxEntries: u64): (e: nat)
    requires ric == 0 || FullRange(maxEntries) != 0
    ensures e == 0 <==> ric == 0
    ensures e <= FullRange(maxEntries)
  {
    if ric == 0 then 0 else (ric as int) % FullRange(maxEntries) + 1
  }

  /** A count is sent as its place, from 1 on, in the range it falls in. */
  lemma {:induction false} RicPlace(ric: u64, maxEntries: u64)
    requires ric > 0 && 0 < maxEntries < 0x8000_0000_0000_0000
    ensures FullRange(maxEntries) == 2 * maxEntries && 1 <= RicEncode(ric, maxEntries) <= 2 * maxEntries
    ensures Cong(RicEncode(ric, maxEntries) - 1, ric, 2 * maxEntries)
  {
    ModSmall(2 * (maxEntries as int), B64);
    CongRemainder(ric, 2 * maxEntries);
  }

  /** The candidate, one full range down if it overshoots; every sum on 64 bits. */
  function RicResolve(encoded: u64, fullRange: u64, maxValue: u64): Option<u64>
    requires encoded > 0
  {
    if encoded > fullRange then None
    else
      DivNonneg(maxValue, fullRange);
      var ric: u64 := ((maxValue as int) / (fullRange as int) * (fullRange as int) + encoded - 1) % B64;
      if ric <= maxValue then (if ric != 0 then Some(ric) else None)
      else if ric <= fullRange then None
      else Some(ric - fullRange)
  }

  /** The largest count the receiver takes as meant, on 64 bits. */
  function MaxValue(maxEntries: u64, totalInserts: u64): u64
  {
    ((totalInserts as int) + maxEntries) % B64
  }

  function RicDecode(encoded: u64, maxEntries: u64, totalInserts: u64): Option<u64>
  {
    if encoded == 0 then Some(0)
    else RicResolve(encoded, FullRange(maxEntries), MaxValue(maxEntries, totalInserts))
  }

  /** v can be meant by a sender whose table holds maxEntries, of a receiver that has seen
      totalInserts: within one table's worth of it on either side. */
  ghost predicate InWindow(v: int, maxEntries: nat, totalInserts: nat)
  {
    0 < v && totalInserts - maxEntries < v <= totalInserts + maxEntries
  }

  /** The one value with a given remainder in the full range that ends at top. */
  lemma {:induction false} OnlyOneInRange(v: int, w: int, range: int, top: int)
    requires range > 0 && top - range < v <= top && top - range < w <= top && v % range == w % range
    ensures v == w
  {
    DivMod(v, range);
    DivMod(w, range);
    var d := v / range - w / range;
    assert v - w == d * range by { MulDistributes(v / range, w / range, range); }
    if d >= 1 {
      MulMono(1, d, range);
    } else if d <= -1 {
      MulMono(d, -1, range);
    }
  }

  lemma {:induction false} MulDistributes(a: int, b: int, c: int)
    ensures (a - b) * c == a * c - b * c
  {
  }

  lemma {:induction false} CandidateRemainder(maxValue: int, range: int, e: int)
    requires range > 0 && maxValue >= 0 && 1 <= e <= range
    ensures var c := maxValue / range * range + e - 1;
            c % range == e - 1 && (c - range) % range == e - 1 && maxValue - range < c < maxValue + range
  {
    DivMod(maxValue, range);
    var q := maxValue / range;
    DivModUnique(q * range + e - 1, range, q, e - 1);
    MulDistributes(q, 1, range);
    DivModUnique(q * range + e - 1 - range, range, q - 1, e - 1);
  }

  /** The candidate before it is cut to 64 bits. */
  function Candidate(encoded: int, range: int, top: int): int
    requires range > 0
  {
    top / range * range + encoded - 1
  }

  /** Every answer of the decoder. A candidate within 64 bits gives the one value with that
      encoding in the full range that ends at top; one beyond gives what is left after the
      wrap if that lies in (0, top], and otherwise nothing. */
  lemma {:induction false} RicResolveExact(encoded: u64, range: u64, top: u64, v: u64)
    requires 0 < encoded <= range
    ensures Candidate(encoded, range, top) < B64 ==>
              (RicResolve(encoded, range, top) == Some(v) <==>
                 0 < v && top - range < v <= top && (v as int) % (range as int) + 1 == encoded)
    ensures Candidate(encoded, range, top) >= B64 ==>
              (RicResolve(encoded, range, top) == Some(v) <==>
               0 < v <= top && v == Candidate(encoded, range, top) - B64)
  {
    var r: int, t: int, e: int := range, top, encoded;
    CandidateRemainder(t, r, e);
    var c := Candidate(e, r, t);
    DivNonneg(t, r);
    MulNonneg(t / r, r);
    if c < B64 {
      ModSmall(c, B64);
      var w := if c <= t then c else c - r;
      if 0 < v && t - r < v <= t && (v as int) % r + 1 == e {
        OnlyOneInRange(v, w, r, t);
      }
    } else {
      DivModUnique(c, B64, 1, c - B64);
    }
  }

  /** The same of the whole decoder, over all 64-bit inputs. */
  lemma {:induction false} RicDecodeExact(encoded: u64, maxEntries: u64, totalInserts: u64, v: u64)
    ensures var range: int, top: int := FullRange(maxEntries), MaxValue(maxEntries, totalInserts);
            RicDecode(encoded, maxEntries, totalInserts) == Some(v) <==>
              if encoded == 0 then v == 0
              else
                encoded <= range && 0 < v <= top
                && if Candidate(encoded, range, top) < B64 then top - range < v && RicEncode(v, maxEntries) == encoded
                   else v == Candidate(encoded, range, top) - B64
  {
    if 0 < encoded <= FullRange(maxEntries) {
      RicResolveExact(encoded, FullRange(maxEntries), MaxValue(maxEntries, totalInserts), v);
    }
  }

  /** Over all 64-bit inputs with a range to divide by: a nonzero count comes back if and
      only if it lies in the full range that ends at top, and either in top's own multiple of
      the range or far enough below 2^64 for the candidate one range up. */
  lemma {:induction false} RicRoundTrip(ric: u64, maxEntries: u64, totalInserts: u64)
    requires ric > 0 && FullRange(maxEntries) > 0
    ensures var range: int, top: int := FullRange(maxEntries), MaxValue(maxEntries, totalInserts);
            RicDecode(RicEncode(ric, maxEntries), maxEntries, totalInserts) == Some(ric) <==>
              top - range < ric <= top && (ric >= top / range * range || (ric as int) + range < B64)
  {
    var range: int, top: int, v: int := FullRange(maxEntries), MaxValue(maxEntries, totalInserts), ric;
    var e := RicEncode(ric, maxEntries);
    DivMod(v, range);
    RicResolveExact(e, range, top, ric);
    CandidateOf(v, range, top);
  }

  /** Where the candidate for v lies: at v itself or one range up for a v in the window, and
      never a whole 2^64 above v. */
  lemma {:induction false} CandidateOf(v: int, range: int, top: int)
    requires 0 <= v < B64 && 0 < range < B64 && 0 <= top < B64
    ensures var c := Candidate(v % range + 1, range, top);
            (top - range < v <= top ==> c == if v >= top / range * range then v else v + range)
            && (c >= B64 ==> v != c - B64)
  {
    var q, r, c := top / range, v % range, Candidate(v % range + 1, range, top);
    DivMod(v, range);
    DivMod(top, range);
    MulDistributes(q, 1, range);
    DivModUnique(c, range, q, r);
    if top - range < v <= top {
      if v >= q * range {
        DivModUnique(v, range, q, v - q * range);
      } else {
        DivModUnique(v, range, q - 1, v - (q * range - range));
      }
    }
    if c >= B64 && v == c - B64 {
      WholeRanges(c, v, range, q);
      assert false;
    }
  }

  /** 2^64 would be a multiple of the range, and the candidate below it after all. */
  lemma {:induction false} WholeRanges(c: int, v: int, range: int, q: int)
    requires range > 0 && c == v + B64 && c % range == v % range && q * range < B64 && c / range == q
    ensures c < B64
  {
    DivMod(c, range);
    DivMod(v, range);
    var k := c / range - v / range;
    MulDistributes(c / range, v / range, range);
    assert k * range == B64;
    if k <= q {
      MulMono(k, q, range);
    } else {
      MulMono(q + 1, k, range);
      MulDistributes(q + 1, 1, range);
    }
  }

  /** What a sender may mean and the receiver gets back: for tables below 2^63 entries, a
      count of the window survives if and only if the window's end fits in 64 bits and the
      candidate does. */
  lemma {:induction false} RicWindowIff(ric: u64, maxEntries: u64, totalInserts: u64)
    requires 0 < maxEntries < 0x8000_0000_0000_0000 && 0 < ric
    requires (totalInserts as int) - maxEntries < ric <= (totalInserts as int) + maxEntries
    ensures var range: int, top: int := 2 * (maxEntries as int), (totalInserts as int) + maxEntries;
            FullRange(maxEntries) > 0
            && (RicDecode(RicEncode(ric, maxEntries), maxEntries, totalInserts) == Some(ric) <==>
                  top < B64 && (ric >= top / range * range || (ric as int) + range < B64))
  {
    var range: int, top: int := 2 * (maxEntries as int), (totalInserts as int) + maxEntries;
    ModSmall(range, B64);
    RicRoundTrip(ric, maxEntries, totalInserts);
    if top < B64 {
      ModSmall(top, B64);
    } else {
      DivModUnique(top, B64, 1, top - B64);
    }
  }

  /** A count of the window that comes back as one outside it. */
  lemma {:induction false} RicLost()
    ensures var m: u64, t: u64, v: u64 := 0x6000_0000_0000_0000, 0x8000_0000_0000_0000, 0x6000_0000_0000_0000;
            InWindow(v, m, t) && FullRange(m) > 0 && RicEncode(v, m) == 0x6000_0000_0000_0001
            && RicDecode(RicEncode(v, m), m, t) == Some(0x2000_0000_0000_0000) && !InWindow(0x2000_0000_0000_0000, m, t)
  {
    var m: u64, t: u64, v: u64 := 0x6000_0000_0000_0000, 0x8000_0000_0000_0000, 0x6000_0000_0000_0000;
    assert FullRange(m) == 0xc000_0000_0000_0000 && MaxValue(m, t) == 0xe000_0000_0000_0000;
    assert RicEncode(v, m) == 0x6000_0000_0000_0001;
    LostCandidate();
  }

  lemma {:induction false} LostCandidate()
    ensures RicResolve(0x6000_0000_0000_0001, 0xc000_0000_0000_0000, 0xe000_0000_0000_0000)
            == Some(0x2000_0000_0000_0000)
  {
    DivModUnique(0xe000_0000_0000_0000, 0xc000_0000_0000_0000, 1, 0x2000_0000_0000_0000);
    DivModUnique(0x1_2000_0000_0000_0000, B64, 1, 0x2000_0000_0000_0000);
  }
}
