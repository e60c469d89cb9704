/** The code of Appendix B of RFC 7541 by its lengths alone: one length for each symbol, and
    codes given out in order of length and then of symbol. */
module HuffmanCode {
  import opened Arith
  import opened HuffmanTables
  import opened Huffman

  /** The code lengths of the symbols 0 to 255 and of EOS. */
  const CODE_LENGTHS: seq<nat> := [
    13, 23, 28, 28, 28, 28, 28, 28, 28, 24, 30, 28, 28, 30, 28, 28,
    28, 28, 28, 28, 28, 28, 30, 28, 28, 28, 28, 28, 28, 28, 28, 28
  ] + [
    6, 10, 10, 12, 13, 6, 8, 11, 10, 10, 8, 11, 8, 6, 6, 6,
    5, 5, 5, 6, 6, 6, 6, 6, 6, 6, 7, 8, 15, 6, 12, 10
  ] + [
    13, 6, 7, 7, 7, 7, 7, 7, 7, 7, 7, 7, 7, 7, 7, 7,
    7, 7, 7, 7, 7, 7, 7, 7, 8, 7, 8, 13, 19, 13, 14, 6
  ] + [
    15, 5, 6, 5, 6, 5, 6, 6, 6, 5, 7, 7, 6, 6, 6, 5,
    6, 7, 6, 5, 5, 6, 7, 7, 7, 7, 7, 15, 11, 14, 13, 28
  ] + [
    20, 22, 20, 20, 22, 22, 22, 23, 22, 23, 23, 23, 23, 23, 24, 23,
    24, 24, 22, 23, 24, 23, 23, 23, 23, 21, 22, 23, 22, 23, 23, 24
  ] + [
    22, 21, 20, 22, 22, 23, 23, 21, 23, 22, 22, 24, 21, 22, 23, 23,
    21, 21, 22, 21, 23, 22, 23, 23, 20, 22, 22, 22, 23, 22, 22, 23
  ] + [
    26, 26, 20, 19, 22, 23, 22, 25, 26, 26, 26, 27, 27, 26, 24, 25,
    19, 21, 26, 27, 27, 26, 27, 24, 21, 21, 26, 26, 28, 27, 27, 27
  ] + [
    20, 24, 20, 21, 22, 21, 21, 23, 22, 22, 25, 25, 24, 24, 26, 23,
    26, 27, 26, 26, 27, 27, 27, 27, 27, 28, 27, 27, 27, 27, 27, 26
  ] + [
    30
  ]

  /** The place of a symbol lies among those of its length. */
  ghost predicate PlacedRight(sym: nat)
    requires sym <= 256
  {
    |CODE_LENGTHS| == 257
    && var n := CODE_LENGTHS[sym]; n <= 30 && Pos(sym) <= 256 && Idx(n) <= Pos(sym) < Idx(n) + Cnt(n)
  }

  lemma {:induction false} Placed0(sym: nat)
    requires 0 <= sym < 16
    ensures PlacedRight(sym)
  {
    assert sym == 0 || sym == 1 || sym == 2 || sym == 3 || sym == 4 || sym == 5 || sym == 6 || sym == 7
           || sym == 8 || sym == 9 || sym == 10 || sym == 11 || sym == 12 || sym == 13 || sym == 14 || sym == 15;
  }

  lemma {:induction false} Placed16(sym: nat)
    requires 16 <= sym < 32
    ensures PlacedRight(sym)
  {
    assert sym == 16 || sym == 17 || sym == 18 || sym == 19 || sym == 20 || sym == 21 || sym == 22 || sym == 23
           || sym == 24 || sym == 25 || sym == 26 || sym == 27 || sym == 28 || sym == 29 || sym == 30 || sym == 31;
  }

  lemma {:induction false} Placed32(sym: nat)
    requires 32 <= sym < 40
    ensures PlacedRight(sym)
  {
    assert sym == 32 || sym == 33 || sym == 34 || sym == 35 || sym == 36 || sym == 37 || sym == 38 || sym == 39;
  }

  lemma {:induction false} Placed40(sym: nat)
    requires 40 <= sym < 48
    ensures PlacedRight(sym)
  {
    assert sym == 40 || sym == 41 || sym == 42 || sym == 43 || sym == 44 || sym == 45 || sym == 46 || sym == 47;
  }

  lemma {:induction false} Placed48(sym: nat)
    requires 48 <= sym < 56
    ensures PlacedRight(sym)
  {
    assert sym == 48 || sym == 49 || sym == 50 || sym == 51 || sym == 52 || sym == 53 || sym == 54 || sym == 55;
  }

  lemma {:induction false} Placed56(sym: nat)
    requires 56 <= sym < 64
    ensures PlacedRight(sym)
  {
    assert sym == 56 || sym == 57 || sym == 58 || sym == 59 || sym == 60 || sym == 61 || sym == 62 || sym == 63;
  }

  lemma {:induction false} Placed64(sym: nat)
    requires 64 <= sym < 72
    ensures PlacedRight(sym)
  {
    assert sym == 64 || sym == 65 || sym == 66 || sym == 67 || sym == 68 || sym == 69 || sym == 70 || sym == 71;
  }

  lemma {:induction false} Placed72(sym: nat)
    requires 72 <= sym < 80
    ensures PlacedRight(sym)
  {
    assert sym == 72 || sym == 73 || sym == 74 || sym == 75 || sym == 76 || sym == 77 || sym == 78 || sym == 79;
  }

  lemma {:induction false} Placed80(sym: nat)
    requires 80 <= sym < 88
    ensures PlacedRight(sym)
  {
    assert sym == 80 || sym == 81 || sym == 82 || sym == 83 || sym == 84 || sym == 85 || sym == 86 || sym == 87;
  }

  lemma {:induction false} Placed88(sym: nat)
    requires 88 <= sym < 96
    ensures PlacedRight(sym)
  {
    assert sym == 88 || sym == 89 || sym == 90 || sym == 91 || sym == 92 || sym == 93 || sym == 94 || sym == 95;
  }

  lemma {:induction false} Placed96(sym: nat)
    requires 96 <= sym < 104
    ensures PlacedRight(sym)
  {
    assert sym == 96 || sym == 97 || sym == 98 || sym == 99 || sym == 100 || sym == 101 || sym == 102 || sym == 103;
  }

  lemma {:induction false} Placed104(sym: nat)
    requires 104 <= sym < 112
    ensures PlacedRight(sym)
  {
    assert sym == 104 || sym == 105 || sym == 106 || sym == 107 || sym == 108 || sym == 109 || sym == 110 || sym == 111;
  }

  lemma {:induction false} Placed112(sym: nat)
    requires 112 <= sym < 120
    ensures PlacedRight(sym)
  {
    assert sym == 112 || sym == 113 || sym == 114 || sym == 115 || sym == 116 || sym == 117 || sym == 118 || sym == 119;
  }

  lemma {:induction false} Placed120(sym: nat)
    requires 120 <= sym < 128
    ensures PlacedRight(sym)
  {
    assert sym == 120 || sym == 121 || sym == 122 || sym == 123 || sym == 124 || sym == 125 || sym == 126 || sym == 127;
  }

  lemma {:induction false} Placed128(sym: nat)
    requires 128 <= sym < 136
    ensures PlacedRight(sym)
  {
    assert sym == 128 || sym == 129 || sym == 130 || sym == 131 || sym == 132 || sym == 133 || sym == 134 || sym == 135;
  }

  lemma {:induction false} Placed136(sym: nat)
    requires 136 <= sym < 144
    ensures PlacedRight(sym)
  {
    assert sym == 136 || sym == 137 || sym == 138 || sym == 139 || sym == 140 || sym == 141 || sym == 142 || sym == 143;
  }

  lemma {:induction false} Placed144(sym: nat)
    requires 144 <= sym < 152
    ensures PlacedRight(sym)
  {
    assert sym == 144 || sym == 145 || sym == 146 || sym == 147 || sym == 148 || sym == 149 || sym == 150 || sym == 151;
  }

  lemma {:induction false} Placed152(sym: nat)
    requires 152 <= sym < 160
    ensures PlacedRight(sym)
  {
    assert sym == 152 || sym == 153 || sym == 154 || sym == 155 || sym == 156 || sym == 157 || sym == 158 || sym == 159;
  }

  lemma {:induction false} Placed160(sym: nat)
    requires 160 <= sym < 168
    ensures PlacedRight(sym)
  {
    assert sym == 160 || sym == 161 || sym == 162 || sym == 163 || sym == 164 || sym == 165 || sym == 166 || sym == 167;
  }

  lemma {:induction false} Placed168(sym: nat)
    requires 168 <= sym < 176
    ensures PlacedRight(sym)
  {
    assert sym == 168 || sym == 169 || sym == 170 || sym == 171 || sym == 172 || sym == 173 || sym == 174 || sym == 175;
  }

  lemma {:induction false} Placed176(sym: nat)
    requires 176 <= sym < 184
    ensures PlacedRight(sym)
  {
    assert sym == 176 || sym == 177 || sym == 178 || sym == 179 || sym == 180 || sym == 181 || sym == 182 || sym == 183;
  }

  lemma {:induction false} Placed184(sym: nat)
    requires 184 <= sym < 192
    ensures PlacedRight(sym)
  {
    assert sym == 184 || sym == 185 || sym == 186 || sym == 187 || sym == 188 || sym == 189 || sym == 190 || sym == 191;
  }

  lemma {:induction false} Placed192(sym: nat)
    requires 192 <= sym < 200
    ensures PlacedRight(sym)
  {
    assert sym == 192 || sym == 193 || sym == 194 || sym == 195 || sym == 196 || sym == 197 || sym == 198 || sym == 199;
  }

  lemma {:induction false} Placed200(sym: nat)
    requires 200 <= sym < 208
    ensures PlacedRight(sym)
  {
    assert sym == 200 || sym == 201 || sym == 202 || sym == 203 || sym == 204 || sym == 205 || sym == 206 || sym == 207;
  }

  lemma {:induction false} Placed208(sym: nat)
    requires 208 <= sym < 224
    ensures PlacedRight(sym)
  {
    assert sym == 208 || sym == 209 || sym == 210 || sym == 211 || sym == 212 || sym == 213 || sym == 214 || sym == 215
           || sym == 216 || sym == 217 || sym == 218 || sym == 219 || sym == 220 || sym == 221 || sym == 222
           || sym == 223;
  }

  lemma {:induction false} Placed224(sym: nat)
    requires 224 <= sym < 232
    ensures PlacedRight(sym)
  {
    assert sym == 224 || sym == 225 || sym == 226 || sym == 227 || sym == 228 || sym == 229 || sym == 230 || sym == 231;
  }

  lemma {:induction false} Placed232(sym: nat)
    requires 232 <= sym < 240
    ensures PlacedRight(sym)
  {
    assert sym == 232 || sym == 233 || sym == 234 || sym == 235 || sym == 236 || sym == 237 || sym == 238 || sym == 239;
  }

  lemma {:induction false} Placed240(sym: nat)
    requires 240 <= sym < 256
    ensures PlacedRight(sym)
  {
    assert sym == 240 || sym == 241 || sym == 242 || sym == 243 || sym == 244 || sym == 245 || sym == 246 || sym == 247
           || sym == 248 || sym == 249 || sym == 250 || sym == 251 || sym == 252 || sym == 253 || sym == 254
           || sym == 255;
  }

  lemma {:induction false} Placed256(sym: nat)
    requires 256 <= sym < 257
    ensures PlacedRight(sym)
  {
    assert sym == 256;
  }

  lemma {:induction false} Placed(sym: nat)
    requires sym <= 256
    ensures PlacedRight(sym)
  {
    hide PlacedRight;
    if sym < 16 {
      Placed0(sym);
    } else if sym < 32 {
      Placed16(sym);
    } else if sym < 40 {
      Placed32(sym);
    } else if sym < 48 {
      Placed40(sym);
    } else if sym < 56 {
      Placed48(sym);
    } else if sym < 64 {
      Placed56(sym);
    } else if sym < 72 {
      Placed64(sym);
    } else if sym < 80 {
      Placed72(sym);
    } else if sym < 88 {
      Placed80(sym);
    } else if sym < 96 {
      Placed88(sym);
    } else if sym < 104 {
      Placed96(sym);
    } else if sym < 112 {
      Placed104(sym);
    } else if sym < 120 {
      Placed112(sym);
    } else if sym < 128 {
      Placed120(sym);
    } else if sym < 136 {
      Placed128(sym);
    } else if sym < 144 {
      Placed136(sym);
    } else if sym < 152 {
      Placed144(sym);
    } else if sym < 160 {
      Placed152(sym);
    } else if sym < 168 {
      Placed160(sym);
    } else if sym < 176 {
      Placed168(sym);
    } else if sym < 184 {
      Placed176(sym);
    } else if sym < 192 {
      Placed184(sym);
    } else if sym < 200 {
      Placed192(sym);
    } else if sym < 208 {
      Placed200(sym);
    } else if sym < 224 {
      Placed208(sym);
    } else if sym < 232 {
      Placed224(sym);
    } else if sym < 240 {
      Placed232(sym);
    } else if sym < 256 {
      Placed240(sym);
    } else {
      Placed256(sym);
    }
  }

  /** Every symbol has the code length of Appendix B. */
  lemma {:induction false} LengthsOfAppendixB(sym: nat)
    requires sym <= 256
    ensures |CODE_LENGTHS| == 257 && Pos(sym) <= 256 && CodeLen(Pos(sym)) == CODE_LENGTHS[sym]
  {
    hide Idx, Cnt, Pos;
    Placed(sym);
    Canonical(0);
    LenUnique(Pos(sym), 0, CODE_LENGTHS[sym]);
  }

  /** Places where a longer code length begins. */
  predicate LengthBegins(i: nat)
  {
    i == Idx(6) || i == Idx(7) || i == Idx(8) || i == Idx(10) || i == Idx(11) || i == Idx(12)
    || i == Idx(13) || i == Idx(14) || i == Idx(15) || i == Idx(19) || i == Idx(20) || i == Idx(21)
    || i == Idx(22) || i == Idx(23) || i == Idx(24) || i == Idx(25) || i == Idx(26) || i == Idx(27)
    || i == Idx(28) || i == Idx(30)
  }

  lemma {:induction false} Ascends0(i: nat)
    requires 0 <= i < 64
    ensures Sym(i) < Sym(i + 1) || LengthBegins(i + 1)
  {
  }

  lemma {:induction false} Ascends64(i: nat)
    requires 64 <= i < 128
    ensures Sym(i) < Sym(i + 1) || LengthBegins(i + 1)
  {
  }

  lemma {:induction false} Ascends128(i: nat)
    requires 128 <= i < 192
    ensures Sym(i) < Sym(i + 1) || LengthBegins(i + 1)
  {
  }

  lemma {:induction false} Ascends192(i: nat)
    requires 192 <= i < 256
    ensures Sym(i) < Sym(i + 1) || LengthBegins(i + 1)
  {
  }

  /** Within a length the codes go to the symbols in increasing order. */
  lemma {:induction false} SymbolsAscend(i: nat)
    requires i < 256 && CodeLen(i) == CodeLen(i + 1)
    ensures Sym(i) < Sym(i + 1)
  {
    hide Idx, Cnt, Sym, CodeLen;
    if i < 64 {
      Ascends0(i);
    } else if i < 128 {
      Ascends64(i);
    } else if i < 192 {
      Ascends128(i);
    } else {
      Ascends192(i);
    }
    if LengthBegins(i + 1) {
      var n :| 0 <= n <= 30 && Idx(n) == i + 1;
      NewLength(i, n);
    }
  }

  /** Where a length begins, the place before has a shorter one. */
  lemma {:induction false} NewLength(i: nat, n: nat)
    requires i < 256 && n <= 30 && Idx(n) == i + 1
    ensures CodeLen(i) < n <= CodeLen(i + 1)
  {
    hide Idx, Cnt, CodeLen;
    if CodeLen(i) >= n {
      IdxMonotone(n, CodeLen(i));
    }
    if CodeLen(i + 1) < n {
      Canonical(CodeLen(i + 1));
      IdxMonotone(CodeLen(i + 1) + 1, n);
    }
  }

  // ---- bits ----

  /** Bit j of n counted from the most significant. */
  lemma {:induction false} ValueBitsAt(v: nat, n: nat, j: nat)
    requires j < n
    ensures Pow(2, n - 1 - j) > 0 && (ValueBits(v, n)[j] <==> (v / Pow(2, n - 1 - j)) % 2 == 1)
  {
    PowPos(2, n - 1 - j);
    if j < n - 1 {
      ValueBitsAt(v / 2, n - 1, j);
      PowPos(2, n - 2 - j);
      DivDiv(v, 2, Pow(2, n - 2 - j));
    }
  }

  /** Octets go most significant bit first. */
  lemma {:induction false} StringBitsAt(s: seq<byte>, i: nat, j: nat)
    requires i < |s| && j < 8
    ensures |StringBits(s)| == 8 * |s| && Pow(2, 7 - j) > 0
    ensures StringBits(s)[8 * i + j] <==> (s[i] / Pow(2, 7 - j)) % 2 == 1
  {
    hide ValueBits;
    StringBitsLength(s);
    var last := |s| - 1;
    StringBitsLength(s[..last]);
    if i < last {
      StringBitsAt(s[..last], i, j);
    } else {
      ValueBitsAt(s[last], 8, j);
    }
  }

  lemma {:induction false} StringBitsLength(s: seq<byte>)
    ensures |StringBits(s)| == 8 * |s|
  {
    if s != [] {
      StringBitsLength(s[..|s| - 1]);
    }
  }
}
