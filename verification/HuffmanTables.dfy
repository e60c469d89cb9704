/** The canonical Huffman code of Appendix B of RFC 7541 as tables
    (src/app/qpack/qpack/huffman.c:9-42), each read by halving its index range. */
module HuffmanTables {
  /** The symbols in order of code length and code; 256 is EOS. */
  function Sym(i: nat): nat
    requires i <= 256
  {
    if i < 256 then (
      if i < 128 then (
        if i < 64 then (
          if i < 32 then (
            if i < 16 then (
              if i < 8 then (
                if i < 4 then (if i < 2 then (if i < 1 then 48 else 49) else if i < 3 then 50 else 97)
                else if i < 6 then (if i < 5 then 99 else 101) else if i < 7 then 105 else 111
              )
              else if i < 12 then (if i < 10 then (if i < 9 then 115 else 116) else if i < 11 then 32 else 37)
              else if i < 14 then (if i < 13 then 45 else 46) else if i < 15 then 47 else 51
            )
            else if i < 24 then (
              if i < 20 then (if i < 18 then (if i < 17 then 52 else 53) else if i < 19 then 54 else 55)
              else if i < 22 then (if i < 21 then 56 else 57) else if i < 23 then 61 else 65
            )
            else if i < 28 then (if i < 26 then (if i < 25 then 95 else 98) else if i < 27 then 100 else 102)
            else if i < 30 then (if i < 29 then 103 else 104) else if i < 31 then 108 else 109
          )
          else if i < 48 then (
            if i < 40 then (
              if i < 36 then (if i < 34 then (if i < 33 then 110 else 112) else if i < 35 then 114 else 117)
              else if i < 38 then (if i < 37 then 58 else 66) else if i < 39 then 67 else 68
            )
            else if i < 44 then (if i < 42 then (if i < 41 then 69 else 70) else if i < 43 then 71 else 72)
            else if i < 46 then (if i < 45 then 73 else 74) else if i < 47 then 75 else 76
          )
          else if i < 56 then (
            if i < 52 then (if i < 50 then (if i < 49 then 77 else 78) else if i < 51 then 79 else 80)
            else if i < 54 then (if i < 53 then 81 else 82) else if i < 55 then 83 else 84
          )
          else if i < 60 then (if i < 58 then (if i < 57 then 85 else 86) else if i < 59 then 87 else 89)
          else if i < 62 then (if i < 61 then 106 else 107) else if i < 63 then 113 else 118
        )
        else if i < 96 then (
          if i < 80 then (
            if i < 72 then (
              if i < 68 then (if i < 66 then (if i < 65 then 119 else 120) else if i < 67 then 121 else 122)
              else if i < 70 then (if i < 69 then 38 else 42) else if i < 71 then 44 else 59
            )
            else if i < 76 then (if i < 74 then (if i < 73 then 88 else 90) else if i < 75 then 33 else 34)
            else if i < 78 then (if i < 77 then 40 else 41) else if i < 79 then 63 else 39
          )
          else if i < 88 then (
            if i < 84 then (if i < 82 then (if i < 81 then 43 else 124) else if i < 83 then 35 else 62)
            else if i < 86 then (if i < 85 then 0 else 36) else if i < 87 then 64 else 91
          )
          else if i < 92 then (if i < 90 then (if i < 89 then 93 else 126) else if i < 91 then 94 else 125)
          else if i < 94 then (if i < 93 then 60 else 96) else if i < 95 then 123 else 92
        )
        else if i < 112 then (
          if i < 104 then (
            if i < 100 then (if i < 98 then (if i < 97 then 195 else 208) else if i < 99 then 128 else 130)
            else if i < 102 then (if i < 101 then 131 else 162) else if i < 103 then 184 else 194
          )
          else if i < 108 then (if i < 106 then (if i < 105 then 224 else 226) else if i < 107 then 153 else 161)
          else if i < 110 then (if i < 109 then 167 else 172) else if i < 111 then 176 else 177
        )
        else if i < 120 then (
          if i < 116 then (if i < 114 then (if i < 113 then 179 else 209) else if i < 115 then 216 else 217)
          else if i < 118 then (if i < 117 then 227 else 229) else if i < 119 then 230 else 129
        )
        else if i < 124 then (if i < 122 then (if i < 121 then 132 else 133) else if i < 123 then 134 else 136)
        else if i < 126 then (if i < 125 then 146 else 154) else if i < 127 then 156 else 160
      )
      else if i < 192 then (
        if i < 160 then (
          if i < 144 then (
            if i < 136 then (
              if i < 132 then (if i < 130 then (if i < 129 then 163 else 164) else if i < 131 then 169 else 170)
              else if i < 134 then (if i < 133 then 173 else 178) else if i < 135 then 181 else 185
            )
            else if i < 140 then (if i < 138 then (if i < 137 then 186 else 187) else if i < 139 then 189 else 190)
            else if i < 142 then (if i < 141 then 196 else 198) else if i < 143 then 228 else 232
          )
          else if i < 152 then (
            if i < 148 then (if i < 146 then (if i < 145 then 233 else 1) else if i < 147 then 135 else 137)
            else if i < 150 then (if i < 149 then 138 else 139) else if i < 151 then 140 else 141
          )
          else if i < 156 then (if i < 154 then (if i < 153 then 143 else 147) else if i < 155 then 149 else 150)
          else if i < 158 then (if i < 157 then 151 else 152) else if i < 159 then 155 else 157
        )
        else if i < 176 then (
          if i < 168 then (
            if i < 164 then (if i < 162 then (if i < 161 then 158 else 165) else if i < 163 then 166 else 168)
            else if i < 166 then (if i < 165 then 174 else 175) else if i < 167 then 180 else 182
          )
          else if i < 172 then (if i < 170 then (if i < 169 then 183 else 188) else if i < 171 then 191 else 197)
          else if i < 174 then (if i < 173 then 231 else 239) else if i < 175 then 9 else 142
        )
        else if i < 184 then (
          if i < 180 then (if i < 178 then (if i < 177 then 144 else 145) else if i < 179 then 148 else 159)
          else if i < 182 then (if i < 181 then 171 else 206) else if i < 183 then 215 else 225
        )
        else if i < 188 then (if i < 186 then (if i < 185 then 236 else 237) else if i < 187 then 199 else 207)
        else if i < 190 then (if i < 189 then 234 else 235) else if i < 191 then 192 else 193
      )
      else if i < 224 then (
        if i < 208 then (
          if i < 200 then (
            if i < 196 then (if i < 194 then (if i < 193 then 200 else 201) else if i < 195 then 202 else 205)
            else if i < 198 then (if i < 197 then 210 else 213) else if i < 199 then 218 else 219
          )
          else if i < 204 then (if i < 202 then (if i < 201 then 238 else 240) else if i < 203 then 242 else 243)
          else if i < 206 then (if i < 205 then 255 else 203) else if i < 207 then 204 else 211
        )
        else if i < 216 then (
          if i < 212 then (if i < 210 then (if i < 209 then 212 else 214) else if i < 211 then 221 else 222)
          else if i < 214 then (if i < 213 then 223 else 241) else if i < 215 then 244 else 245
        )
        else if i < 220 then (if i < 218 then (if i < 217 then 246 else 247) else if i < 219 then 248 else 250)
        else if i < 222 then (if i < 221 then 251 else 252) else if i < 223 then 253 else 254
      )
      else if i < 240 then (
        if i < 232 then (
          if i < 228 then (if i < 226 then (if i < 225 then 2 else 3) else if i < 227 then 4 else 5)
          else if i < 230 then (if i < 229 then 6 else 7) else if i < 231 then 8 else 11
        )
        else if i < 236 then (if i < 234 then (if i < 233 then 12 else 14) else if i < 235 then 15 else 16)
        else if i < 238 then (if i < 237 then 17 else 18) else if i < 239 then 19 else 20
      )
      else if i < 248 then (
        if i < 244 then (if i < 242 then (if i < 241 then 21 else 23) else if i < 243 then 24 else 25)
        else if i < 246 then (if i < 245 then 26 else 27) else if i < 247 then 28 else 29
      )
      else if i < 252 then (if i < 250 then (if i < 249 then 30 else 31) else if i < 251 then 127 else 220)
      else if i < 254 then (if i < 253 then 249 else 10) else if i < 255 then 13 else 22
    )
    else 256
  }

  /** Where each symbol stands in that order. */
  function Pos(sym: nat): nat
    requires sym <= 256
  {
    if sym < 256 then (
      if sym < 128 then (
        if sym < 64 then (
          if sym < 32 then (
            if sym < 16 then (
              if sym < 8 then (
                if sym < 4 then (if sym < 2 then (if sym < 1 then 84 else 145) else if sym < 3 then 224 else 225)
                else if sym < 6 then (if sym < 5 then 226 else 227) else if sym < 7 then 228 else 229
              )
              else if sym < 12 then (if sym < 10 then (if sym < 9 then 230 else 174) else if sym < 11 then 253 else 231)
              else if sym < 14 then (if sym < 13 then 232 else 254) else if sym < 15 then 233 else 234
            )
            else if sym < 24 then (
              if sym < 20 then (if sym < 18 then (if sym < 17 then 235 else 236) else if sym < 19 then 237 else 238)
              else if sym < 22 then (if sym < 21 then 239 else 240) else if sym < 23 then 255 else 241
            )
            else if sym < 28 then (if sym < 26 then (if sym < 25 then 242 else 243) else if sym < 27 then 244 else 245)
            else if sym < 30 then (if sym < 29 then 246 else 247) else if sym < 31 then 248 else 249
          )
          else if sym < 48 then (
            if sym < 40 then (
              if sym < 36 then (if sym < 34 then (if sym < 33 then 10 else 74) else if sym < 35 then 75 else 82)
              else if sym < 38 then (if sym < 37 then 85 else 11) else if sym < 39 then 68 else 79
            )
            else if sym < 44 then (if sym < 42 then (if sym < 41 then 76 else 77) else if sym < 43 then 69 else 80)
            else if sym < 46 then (if sym < 45 then 70 else 12) else if sym < 47 then 13 else 14
          )
          else if sym < 56 then (
            if sym < 52 then (if sym < 50 then (if sym < 49 then 0 else 1) else if sym < 51 then 2 else 15)
            else if sym < 54 then (if sym < 53 then 16 else 17) else if sym < 55 then 18 else 19
          )
          else if sym < 60 then (if sym < 58 then (if sym < 57 then 20 else 21) else if sym < 59 then 36 else 71)
          else if sym < 62 then (if sym < 61 then 92 else 22) else if sym < 63 then 83 else 78
        )
        else if sym < 96 then (
          if sym < 80 then (
            if sym < 72 then (
              if sym < 68 then (if sym < 66 then (if sym < 65 then 86 else 23) else if sym < 67 then 37 else 38)
              else if sym < 70 then (if sym < 69 then 39 else 40) else if sym < 71 then 41 else 42
            )
            else if sym < 76 then (if sym < 74 then (if sym < 73 then 43 else 44) else if sym < 75 then 45 else 46)
            else if sym < 78 then (if sym < 77 then 47 else 48) else if sym < 79 then 49 else 50
          )
          else if sym < 88 then (
            if sym < 84 then (if sym < 82 then (if sym < 81 then 51 else 52) else if sym < 83 then 53 else 54)
            else if sym < 86 then (if sym < 85 then 55 else 56) else if sym < 87 then 57 else 58
          )
          else if sym < 92 then (if sym < 90 then (if sym < 89 then 72 else 59) else if sym < 91 then 73 else 87)
          else if sym < 94 then (if sym < 93 then 95 else 88) else if sym < 95 then 90 else 24
        )
        else if sym < 112 then (
          if sym < 104 then (
            if sym < 100 then (if sym < 98 then (if sym < 97 then 93 else 3) else if sym < 99 then 25 else 4)
            else if sym < 102 then (if sym < 101 then 26 else 5) else if sym < 103 then 27 else 28
          )
          else if sym < 108 then (if sym < 106 then (if sym < 105 then 29 else 6) else if sym < 107 then 60 else 61)
          else if sym < 110 then (if sym < 109 then 30 else 31) else if sym < 111 then 32 else 7
        )
        else if sym < 120 then (
          if sym < 116 then (if sym < 114 then (if sym < 113 then 33 else 62) else if sym < 115 then 34 else 8)
          else if sym < 118 then (if sym < 117 then 9 else 35) else if sym < 119 then 63 else 64
        )
        else if sym < 124 then (if sym < 122 then (if sym < 121 then 65 else 66) else if sym < 123 then 67 else 94)
        else if sym < 126 then (if sym < 125 then 81 else 91) else if sym < 127 then 89 else 250
      )
      else if sym < 192 then (
        if sym < 160 then (
          if sym < 144 then (
            if sym < 136 then (
              if sym < 132 then (if sym < 130 then (if sym < 129 then 98 else 119) else if sym < 131 then 99 else 100)
              else if sym < 134 then (if sym < 133 then 120 else 121) else if sym < 135 then 122 else 146
            )
            else if sym < 140 then (if sym < 138 then (if sym < 137 then 123 else 147) else if sym < 139 then 148
                                    else 149)
            else if sym < 142 then (if sym < 141 then 150 else 151) else if sym < 143 then 175 else 152
          )
          else if sym < 152 then (
            if sym < 148 then (if sym < 146 then (if sym < 145 then 176 else 177) else if sym < 147 then 124 else 153)
            else if sym < 150 then (if sym < 149 then 178 else 154) else if sym < 151 then 155 else 156
          )
          else if sym < 156 then (if sym < 154 then (if sym < 153 then 157 else 106) else if sym < 155 then 125
                                  else 158)
          else if sym < 158 then (if sym < 157 then 126 else 159) else if sym < 159 then 160 else 179
        )
        else if sym < 176 then (
          if sym < 168 then (
            if sym < 164 then (if sym < 162 then (if sym < 161 then 127 else 107) else if sym < 163 then 101 else 128)
            else if sym < 166 then (if sym < 165 then 129 else 161) else if sym < 167 then 162 else 108
          )
          else if sym < 172 then (if sym < 170 then (if sym < 169 then 163 else 130) else if sym < 171 then 131
                                  else 180)
          else if sym < 174 then (if sym < 173 then 109 else 132) else if sym < 175 then 164 else 165
        )
        else if sym < 184 then (
          if sym < 180 then (if sym < 178 then (if sym < 177 then 110 else 111) else if sym < 179 then 133 else 112)
          else if sym < 182 then (if sym < 181 then 166 else 134) else if sym < 183 then 167 else 168
        )
        else if sym < 188 then (if sym < 186 then (if sym < 185 then 102 else 135) else if sym < 187 then 136 else 137)
        else if sym < 190 then (if sym < 189 then 169 else 138) else if sym < 191 then 139 else 170
      )
      else if sym < 224 then (
        if sym < 208 then (
          if sym < 200 then (
            if sym < 196 then (if sym < 194 then (if sym < 193 then 190 else 191) else if sym < 195 then 103 else 96)
            else if sym < 198 then (if sym < 197 then 140 else 171) else if sym < 199 then 141 else 186
          )
          else if sym < 204 then (if sym < 202 then (if sym < 201 then 192 else 193) else if sym < 203 then 194
                                  else 205)
          else if sym < 206 then (if sym < 205 then 206 else 195) else if sym < 207 then 181 else 187
        )
        else if sym < 216 then (
          if sym < 212 then (if sym < 210 then (if sym < 209 then 97 else 113) else if sym < 211 then 196 else 207)
          else if sym < 214 then (if sym < 213 then 208 else 197) else if sym < 215 then 209 else 182
        )
        else if sym < 220 then (if sym < 218 then (if sym < 217 then 114 else 115) else if sym < 219 then 198 else 199)
        else if sym < 222 then (if sym < 221 then 251 else 210) else if sym < 223 then 211 else 212
      )
      else if sym < 240 then (
        if sym < 232 then (
          if sym < 228 then (if sym < 226 then (if sym < 225 then 104 else 183) else if sym < 227 then 105 else 116)
          else if sym < 230 then (if sym < 229 then 142 else 117) else if sym < 231 then 118 else 172
        )
        else if sym < 236 then (if sym < 234 then (if sym < 233 then 143 else 144) else if sym < 235 then 188 else 189)
        else if sym < 238 then (if sym < 237 then 184 else 185) else if sym < 239 then 200 else 173
      )
      else if sym < 248 then (
        if sym < 244 then (if sym < 242 then (if sym < 241 then 201 else 213) else if sym < 243 then 202 else 203)
        else if sym < 246 then (if sym < 245 then 214 else 215) else if sym < 247 then 216 else 217
      )
      else if sym < 252 then (if sym < 250 then (if sym < 249 then 218 else 252) else if sym < 251 then 219 else 220)
      else if sym < 254 then (if sym < 253 then 221 else 222) else if sym < 255 then 223 else 204
    )
    else 256
  }

  /** The first code of each length. */
  function First(len: nat): nat
    requires len <= 30
  {
    if len < 16 then (
      if len < 8 then (
        if len < 4 then (if len < 2 then (if len < 1 then 0 else 0) else if len < 3 then 0 else 0)
        else if len < 6 then (if len < 5 then 0 else 0) else if len < 7 then 20 else 92
      )
      else if len < 12 then (if len < 10 then (if len < 9 then 248 else 508) else if len < 11 then 1016 else 2042)
      else if len < 14 then (if len < 13 then 4090 else 8184) else if len < 15 then 16380 else 32764
    )
    else if len < 24 then (
      if len < 20 then (if len < 18 then (if len < 17 then 65534 else 131068) else if len < 19 then 262136 else 524272)
      else if len < 22 then (if len < 21 then 1048550 else 2097116) else if len < 23 then 4194258 else 8388568
    )
    else if len < 28 then (if len < 26 then (if len < 25 then 16777194 else 33554412) else if len < 27 then 67108832
                           else 134217694)
    else if len < 30 then (if len < 29 then 268435426 else 536870910) else 1073741820
  }

  /** The position of the first symbol with a code of each length. */
  function Idx(len: nat): nat
    requires len <= 30
  {
    if len < 16 then (
      if len < 8 then (
        if len < 4 then (if len < 2 then (if len < 1 then 0 else 0) else if len < 3 then 0 else 0)
        else if len < 6 then (if len < 5 then 0 else 0) else if len < 7 then 10 else 36
      )
      else if len < 12 then (if len < 10 then (if len < 9 then 68 else 74) else if len < 11 then 74 else 79)
      else if len < 14 then (if len < 13 then 82 else 84) else if len < 15 then 90 else 92
    )
    else if len < 24 then (
      if len < 20 then (if len < 18 then (if len < 17 then 95 else 95) else if len < 19 then 95 else 95)
      else if len < 22 then (if len < 21 then 98 else 106) else if len < 23 then 119 else 145
    )
    else if len < 28 then (if len < 26 then (if len < 25 then 174 else 186) else if len < 27 then 190 else 205)
    else if len < 30 then (if len < 29 then 224 else 253) else 253
  }

  /** How many codes there are of each length. */
  function Cnt(len: nat): nat
    requires len <= 30
  {
    if len < 16 then (
      if len < 8 then (
        if len < 4 then (if len < 2 then (if len < 1 then 0 else 0) else if len < 3 then 0 else 0)
        else if len < 6 then (if len < 5 then 0 else 10) else if len < 7 then 26 else 32
      )
      else if len < 12 then (if len < 10 then (if len < 9 then 6 else 0) else if len < 11 then 5 else 3)
      else if len < 14 then (if len < 13 then 2 else 6) else if len < 15 then 2 else 3
    )
    else if len < 24 then (
      if len < 20 then (if len < 18 then (if len < 17 then 0 else 0) else if len < 19 then 0 else 3)
      else if len < 22 then (if len < 21 then 8 else 13) else if len < 23 then 26 else 29
    )
    else if len < 28 then (if len < 26 then (if len < 25 then 12 else 4) else if len < 27 then 15 else 19)
    else if len < 30 then (if len < 29 then 29 else 0) else 4
  }

  /** Every symbol has exactly one place, and every place its symbol. */
  lemma {:induction false} SymbolsPermuted(k: nat)
    requires k <= 256
    ensures Pos(k) <= 256 && Sym(Pos(k)) == k
    ensures Sym(k) <= 256 && Pos(Sym(k)) == k
  {
    hide Pos, Sym;
    if k < 128 {
      LowSymbols(k);
      LowPlaces(k);
    } else {
      HighSymbols(k);
      HighPlaces(k);
    }
  }

  lemma {:induction false} LowSymbols(sym: nat)
    requires sym < 128
    ensures Pos(sym) <= 256 && Sym(Pos(sym)) == sym
  {
  }

  lemma {:induction false} HighSymbols(sym: nat)
    requires 128 <= sym <= 256
    ensures Pos(sym) <= 256 && Sym(Pos(sym)) == sym
  {
  }

  lemma {:induction false} LowPlaces(i: nat)
    requires i < 128
    ensures Sym(i) <= 256 && Pos(Sym(i)) == i
  {
  }

  lemma {:induction false} HighPlaces(i: nat)
    requires 128 <= i <= 256
    ensures Sym(i) <= 256 && Pos(Sym(i)) == i
  {
  }

  /** Codes of each length start where those one bit shorter end, positions follow on,
      and the longest codes use up what is left: the code is complete. */
  lemma {:induction false} Canonical(len: nat)
    requires len <= 30
    ensures len < 30 ==> First(len + 1) == 2 * (First(len) + Cnt(len)) && Idx(len + 1) == Idx(len) + Cnt(len)
    ensures First(0) == 0 && Cnt(0) == 0 && Idx(0) == 0
    ensures First(30) + Cnt(30) == 0x4000_0000 && Idx(30) + Cnt(30) == 257
  {
  }
}
