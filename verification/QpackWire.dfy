/** The octets of section 5.1 of RFC 7541 and section 4.5 of RFC 9204, told without the
    encoder or the decoder: which byte strings spell which integer, and how each field line
    and an ordinary request look on the wire. */
module QpackWire {
  import opened Arith
  import opened Limbs
  import opened Options
  import opened QpackInteger

  /** The seven value bits of every octet. */
  ghost function Lows(g: seq<byte>): (d: seq<int>)
    ensures |d| == |g|
  {
    seq(|g|, i requires 0 <= i < |g| => g[i] % 0x80)
  }

  /** g is x in base 128, least significant digit first, every octet but the last flagged. */
  ghost predicate Spells(g: seq<byte>, x: int)
  {
    |g| >= 1 && (forall i :: 0 <= i < |g| - 1 ==> g[i] >= 0x80) && g[|g| - 1] < 0x80 && x == Val(0x80, Lows(g))
  }

  lemma {:induction false} SpellsOne(b: byte)
    requires b < 0x80
    ensures Spells([b], b)
  {
    assert Lows([b]) == [b] + [];
    ValCons(0x80, b, []);
  }

  lemma {:induction false} SpellsMore(b: byte, g: seq<byte>, x: int)
    requires b >= 0x80 && |g| >= 1
    ensures Spells([b] + g, x) <==> exists y :: Spells(g, y) && x == b % 0x80 + 0x80 * y
  {
    hide Val;
    var s := [b] + g;
    assert Lows(s) == [b % 0x80] + Lows(g);
    ValCons(0x80, b % 0x80, Lows(g));
    assert forall i :: 0 <= i < |g| ==> s[i + 1] == g[i];
    if Spells(s, x) {
      forall i | 0 <= i < |g| - 1 ensures g[i] >= 0x80 { assert s[i + 1] >= 0x80; }
      assert Spells(g, Val(0x80, Lows(g)));
    }
  }

  /** The encoder's groups spell their number. */
  lemma {:induction false} GroupsSpell(v: nat)
    ensures Spells(Groups(v), v) && (|Groups(v)| > 1 ==> Groups(v)[|Groups(v)| - 1] != 0)
  {
    hide Spells;
    if v >= 0x80 {
      var g := Groups(v / 0x80);
      GroupsSpell(v / 0x80);
      SpellsMore(v % 0x80 + 0x80, g, v);
      assert Spells(g, v / 0x80) && v == (v % 0x80 + 0x80) % 0x80 + 0x80 * (v / 0x80);
    } else {
      SpellsOne(v);
    }
  }

  lemma {:induction false} PrefixMaxIs(bits: nat)
    requires 1 <= bits <= 8
    ensures PrefixMax(bits) == Pow(2, bits) - 1
  {
    PowAdd(2, 1, 1);
    PowAdd(2, 2, 1);
    PowAdd(2, 2, 2);
    PowAdd(2, 4, 1);
    PowAdd(2, 4, 2);
    PowAdd(2, 4, 3);
    PowAdd(2, 4, 4);
  }

  /** An encoded integer: in the prefix if it is below 2^bits - 1, else the full prefix and
      the rest spelled out with no digit to spare. */
  lemma {:induction false} IntOnTheWire(bits: nat, prefix: int, value: nat)
    requires FitsPrefix(bits, prefix)
    ensures var s := IntBytes(bits, prefix, value);
            if value < Pow(2, bits) - 1 then s == [prefix + value]
            else |s| >= 2 && s[0] == prefix + Pow(2, bits) - 1 && Spells(s[1..], value - (Pow(2, bits) - 1))
                 && (|s| > 2 ==> s[|s| - 1] != 0)
  {
    hide Pow, Spells;
    PrefixMaxIs(bits);
    var pmax := PrefixMax(bits);
    if value >= pmax {
      GroupsSpell(value - pmax);
      assert IntBytes(bits, prefix, value)[1..] == Groups(value - pmax);
    }
  }

  /** The octets from off up to `used` spell a number that, at weight p, brings value to total. */
  ghost predicate Brings(s: seq<byte>, off: nat, used: nat, value: int, p: int, total: int)
  {
    off < used <= |s| && exists x :: Spells(s[off..used], x) && total == value + x * p
  }

  lemma {:induction false} LastGroup(s: seq<byte>, off: nat, used: nat, value: nat, p: int, total: int)
    requires off < |s| && s[off] < 0x80
    ensures Brings(s, off, used, value, p, total) <==> used == off + 1 && total == value + s[off] * p
  {
    hide Spells;
    var b := s[off];
    SpellsOne(b);
    if off < used <= |s| {
      var g := s[off..used];
      assert g[0] == b;
      LastEnds(g, b);
      OnlyOne(g);
      assert used == off + 1 ==> g == [b];
    }
  }

  lemma {:induction false} MoreGroups(s: seq<byte>, off: nat, used: nat, value: nat, p: int, total: int)
    requires off < |s| && s[off] >= 0x80
    ensures Brings(s, off, used, value, p, total) <==>
            Brings(s, off + 1, used, value + (s[off] % 0x80) * p, 0x80 * p, total)
  {
    hide Spells;
    var b := s[off];
    FlaggedNotAlone(b);
    if off + 1 < used <= |s| {
      assert s[off..used] == [b] + s[off + 1..used];
      Carried(s[off + 1..used], b, value, p, total);
    } else if used == off + 1 {
      assert s[off..used][0] == b;
      assert s[off..used] == [b];
    }
  }

  /** What the decoder makes of any octets: those that spell a number, up to nine of them. */
  lemma {:induction false} TakesSpelled(s: seq<byte>, off: nat, value: nat, m: nat, d: Decoded)
    requires m <= 63 && m % 7 == 0
    ensures TakeGroups(s, off, value, m) == Some(d) <==>
            Brings(s, off, d.used, value, Pow(2, m), d.value) && d.used - off <= (63 - m) / 7
    decreases |s| - off
  {
    hide Pow, Brings;
    PowPos(2, m);
    WithinInput(s, off, d.used, value, Pow(2, m), d.value);
    if off < |s| && m <= 56 {
      if s[off] >= 0x80 {
        SevenBits(m);
        TakesSpelled(s, off + 1, value + (s[off] % 0x80) * Pow(2, m), m + 7, d);
        MoreGroups(s, off, d.used, value, Pow(2, m), d.value);
      } else {
        LastGroup(s, off, d.used, value, Pow(2, m), d.value);
      }
    }
  }

  lemma {:induction false} WithinInput(s: seq<byte>, off: nat, used: nat, value: int, p: int, total: int)
    ensures Brings(s, off, used, value, p, total) ==> off < used <= |s|
  {
  }

  /** A number in front of others carries seven places up. */
  lemma {:induction false} Carried(g: seq<byte>, b: byte, value: nat, p: int, total: int)
    requires b >= 0x80 && |g| >= 1
    ensures (exists x :: Spells([b] + g, x) && total == value + x * p) <==>
            (exists y :: Spells(g, y) && total == value + (b % 0x80) * p + y * (0x80 * p))
  {
    hide Spells;
    if x :| Spells([b] + g, x) && total == value + x * p {
      SpellsMore(b, g, x);
      var y :| Spells(g, y) && x == b % 0x80 + 0x80 * y;
      GroupParts(b % 0x80, y, p);
    }
    if y :| Spells(g, y) && total == value + (b % 0x80) * p + y * (0x80 * p) {
      SpellsMore(b, g, b % 0x80 + 0x80 * y);
      GroupParts(b % 0x80, y, p);
      assert Spells([b] + g, b % 0x80 + 0x80 * y);
    }
  }

  lemma {:induction false} GroupParts(d: int, y: int, p: int)
    ensures (d + 0x80 * y) * p == d * p + y * (0x80 * p)
  {
    MulAssoc(y, 0x80, p);
  }

  lemma {:induction false} FlaggedNotAlone(b: byte)
    requires b >= 0x80
    ensures forall x :: !Spells([b], x)
  {
  }

  /** An unflagged octet is the last. */
  lemma {:induction false} LastEnds(g: seq<byte>, b: byte)
    requires |g| >= 1 && g[0] == b < 0x80
    ensures |g| > 1 ==> forall x :: !Spells(g, x)
  {
  }

  lemma {:induction false} OnlyOne(g: seq<byte>)
    requires |g| >= 1
    ensures |g| == 1 ==> forall x :: Spells(g, x) ==> x == g[0]
  {
    if |g| == 1 && g[0] < 0x80 {
      assert Lows(g) == [g[0]] + [];
      ValCons(0x80, g[0], []);
    }
  }

  /** Every answer of the decoder over all inputs, over-long spellings included. */
  lemma {:induction false} IntDecodeExact(s: seq<byte>, bits: nat, d: Decoded)
    requires 1 <= bits <= 8
    ensures Pow(2, bits) > 0
    ensures IntDecode(s, bits) == Some(d) <==>
            |s| > 0
            && var low, full := s[0] % Pow(2, bits), Pow(2, bits) - 1;
               if low < full then d == Decoded(low, 1)
               else 2 <= d.used <= |s| && d.used <= 10 && Spells(s[1..d.used], d.value - full)
  {
    hide Pow, Spells;
    PowPos(2, bits);
    PrefixMaxIs(bits);
    if |s| > 0 {
      var full := PrefixMax(bits);
      TakesSpelled(s, 1, full, 0, d);
      PowZero();
      if 1 < d.used <= |s| {
        assert forall x :: x * Pow(2, 0) == x;
      }
    }
  }

  lemma {:induction false} PowZero()
    ensures Pow(2, 0) == 1
  {
  }
}
