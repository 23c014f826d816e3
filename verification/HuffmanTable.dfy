/**
 The Huffman code of RFC 7541 appendix B, as the source's encode table lists it, and the proof that it is a good and
 complete prefix code. The proof is the one for canonical codes: the code words of one length are consecutive numbers,
 and those of the next length start at twice the number after them.
 */
module HuffmanTable {
  import opened Bits
  import opened HuffmanCode
  import opened CanonicalCode

  /** Symbols 8r to 8r+7, each as its bit count and its value. */
  function EncodeRow(r: int): seq<(int, int)> {
    match r
    case 0 => [(13, 0x1ff8), (23, 0x7fffd8), (28, 0xfffffe2), (28, 0xfffffe3),
               (28, 0xfffffe4), (28, 0xfffffe5), (28, 0xfffffe6), (28, 0xfffffe7)]
    case 1 => [(28, 0xfffffe8), (24, 0xffffea), (30, 0x3ffffffc), (28, 0xfffffe9),
               (28, 0xfffffea), (30, 0x3ffffffd), (28, 0xfffffeb), (28, 0xfffffec)]
    case 2 => [(28, 0xfffffed), (28, 0xfffffee), (28, 0xfffffef), (28, 0xffffff0),
               (28, 0xffffff1), (28, 0xffffff2), (30, 0x3ffffffe), (28, 0xffffff3)]
    case 3 => [(28, 0xffffff4), (28, 0xffffff5), (28, 0xffffff6), (28, 0xffffff7),
               (28, 0xffffff8), (28, 0xffffff9), (28, 0xffffffa), (28, 0xffffffb)]
    case 4 => [(6, 0x14), (10, 0x3f8), (10, 0x3f9), (12, 0xffa), (13, 0x1ff9), (6, 0x15), (8, 0xf8), (11, 0x7fa)]
    case 5 => [(10, 0x3fa), (10, 0x3fb), (8, 0xf9), (11, 0x7fb), (8, 0xfa), (6, 0x16), (6, 0x17), (6, 0x18)]
    case 6 => [(5, 0x0), (5, 0x1), (5, 0x2), (6, 0x19), (6, 0x1a), (6, 0x1b), (6, 0x1c), (6, 0x1d)]
    case 7 => [(6, 0x1e), (6, 0x1f), (7, 0x5c), (8, 0xfb), (15, 0x7ffc), (6, 0x20), (12, 0xffb), (10, 0x3fc)]
    case 8 => [(13, 0x1ffa), (6, 0x21), (7, 0x5d), (7, 0x5e), (7, 0x5f), (7, 0x60), (7, 0x61), (7, 0x62)]
    case 9 => [(7, 0x63), (7, 0x64), (7, 0x65), (7, 0x66), (7, 0x67), (7, 0x68), (7, 0x69), (7, 0x6a)]
    case 10 => [(7, 0x6b), (7, 0x6c), (7, 0x6d), (7, 0x6e), (7, 0x6f), (7, 0x70), (7, 0x71), (7, 0x72)]
    case 11 => [(8, 0xfc), (7, 0x73), (8, 0xfd), (13, 0x1ffb), (19, 0x7fff0), (13, 0x1ffc), (14, 0x3ffc), (6, 0x22)]
    case 12 => [(15, 0x7ffd), (5, 0x3), (6, 0x23), (5, 0x4), (6, 0x24), (5, 0x5), (6, 0x25), (6, 0x26)]
    case 13 => [(6, 0x27), (5, 0x6), (7, 0x74), (7, 0x75), (6, 0x28), (6, 0x29), (6, 0x2a), (5, 0x7)]
    case 14 => [(6, 0x2b), (7, 0x76), (6, 0x2c), (5, 0x8), (5, 0x9), (6, 0x2d), (7, 0x77), (7, 0x78)]
    case 15 => [(7, 0x79), (7, 0x7a), (7, 0x7b), (15, 0x7ffe), (11, 0x7fc), (14, 0x3ffd), (13, 0x1ffd), (28, 0xffffffc)]
    case 16 => [(20, 0xfffe6), (22, 0x3fffd2), (20, 0xfffe7), (20, 0xfffe8),
                (22, 0x3fffd3), (22, 0x3fffd4), (22, 0x3fffd5), (23, 0x7fffd9)]
    case 17 => [(22, 0x3fffd6), (23, 0x7fffda), (23, 0x7fffdb), (23, 0x7fffdc),
                (23, 0x7fffdd), (23, 0x7fffde), (24, 0xffffeb), (23, 0x7fffdf)]
    case 18 => [(24, 0xffffec), (24, 0xffffed), (22, 0x3fffd7), (23, 0x7fffe0),
                (24, 0xffffee), (23, 0x7fffe1), (23, 0x7fffe2), (23, 0x7fffe3)]
    case 19 => [(23, 0x7fffe4), (21, 0x1fffdc), (22, 0x3fffd8), (23, 0x7fffe5),
                (22, 0x3fffd9), (23, 0x7fffe6), (23, 0x7fffe7), (24, 0xffffef)]
    case 20 => [(22, 0x3fffda), (21, 0x1fffdd), (20, 0xfffe9), (22, 0x3fffdb),
                (22, 0x3fffdc), (23, 0x7fffe8), (23, 0x7fffe9), (21, 0x1fffde)]
    case 21 => [(23, 0x7fffea), (22, 0x3fffdd), (22, 0x3fffde), (24, 0xfffff0),
                (21, 0x1fffdf), (22, 0x3fffdf), (23, 0x7fffeb), (23, 0x7fffec)]
    case 22 => [(21, 0x1fffe0), (21, 0x1fffe1), (22, 0x3fffe0), (21, 0x1fffe2),
                (23, 0x7fffed), (22, 0x3fffe1), (23, 0x7fffee), (23, 0x7fffef)]
    case 23 => [(20, 0xfffea), (22, 0x3fffe2), (22, 0x3fffe3), (22, 0x3fffe4),
                (23, 0x7ffff0), (22, 0x3fffe5), (22, 0x3fffe6), (23, 0x7ffff1)]
    case 24 => [(26, 0x3ffffe0), (26, 0x3ffffe1), (20, 0xfffeb), (19, 0x7fff1),
                (22, 0x3fffe7), (23, 0x7ffff2), (22, 0x3fffe8), (25, 0x1ffffec)]
    case 25 => [(26, 0x3ffffe2), (26, 0x3ffffe3), (26, 0x3ffffe4), (27, 0x7ffffde),
                (27, 0x7ffffdf), (26, 0x3ffffe5), (24, 0xfffff1), (25, 0x1ffffed)]
    case 26 => [(19, 0x7fff2), (21, 0x1fffe3), (26, 0x3ffffe6), (27, 0x7ffffe0),
                (27, 0x7ffffe1), (26, 0x3ffffe7), (27, 0x7ffffe2), (24, 0xfffff2)]
    case 27 => [(21, 0x1fffe4), (21, 0x1fffe5), (26, 0x3ffffe8), (26, 0x3ffffe9),
                (28, 0xffffffd), (27, 0x7ffffe3), (27, 0x7ffffe4), (27, 0x7ffffe5)]
    case 28 => [(20, 0xfffec), (24, 0xfffff3), (20, 0xfffed), (21, 0x1fffe6),
                (22, 0x3fffe9), (21, 0x1fffe7), (21, 0x1fffe8), (23, 0x7ffff3)]
    case 29 => [(22, 0x3fffea), (22, 0x3fffeb), (25, 0x1ffffee), (25, 0x1ffffef),
                (24, 0xfffff4), (24, 0xfffff5), (26, 0x3ffffea), (23, 0x7ffff4)]
    case 30 => [(26, 0x3ffffeb), (27, 0x7ffffe6), (26, 0x3ffffec), (26, 0x3ffffed),
                (27, 0x7ffffe7), (27, 0x7ffffe8), (27, 0x7ffffe9), (27, 0x7ffffea)]
    case _ => [(27, 0x7ffffeb), (28, 0xffffffe), (27, 0x7ffffec), (27, 0x7ffffed),
               (27, 0x7ffffee), (27, 0x7ffffef), (27, 0x7fffff0), (26, 0x3ffffee)]
  }

  /** The symbol whose code word has l bits and value v, or -1. */
  function SymbolOf(l: int, v: int): int {
    if l < 22 then
      if l < 8 then Symbol5To7(l, v) else if l < 16 then Symbol8To15(l, v) else Symbol19To21(l, v)
    else if l < 27 then
      if l == 22 then Symbol22(v) else if l == 23 then Symbol23(v) else Symbol24To26(l, v)
    else if l == 27 then Symbol27(v)
    else Symbol28To30(l, v)
  }

  function Symbol5To7(l: int, v: int): int {
    match l
    case 5 =>
      if v < 0x6 then (match v
        case 0x0 => 48 case 0x1 => 49 case 0x2 => 50 case 0x3 => 97
        case 0x4 => 99 case 0x5 => 101 case _ => -1)
      else (match v case 0x6 => 105 case 0x7 => 111 case 0x8 => 115 case 0x9 => 116 case _ => -1)
    case 6 =>
      if v < 0x1a then (match v
        case 0x14 => 32 case 0x15 => 37 case 0x16 => 45 case 0x17 => 46
        case 0x18 => 47 case 0x19 => 51 case _ => -1)
      else if v < 0x20 then (match v
        case 0x1a => 52 case 0x1b => 53 case 0x1c => 54 case 0x1d => 55
        case 0x1e => 56 case 0x1f => 57 case _ => -1)
      else if v < 0x26 then (match v
        case 0x20 => 61 case 0x21 => 65 case 0x22 => 95 case 0x23 => 98
        case 0x24 => 100 case 0x25 => 102 case _ => -1)
      else if v < 0x2c then (match v
        case 0x26 => 103 case 0x27 => 104 case 0x28 => 108 case 0x29 => 109
        case 0x2a => 110 case 0x2b => 112 case _ => -1)
      else (match v case 0x2c => 114 case 0x2d => 117 case _ => -1)
    case 7 =>
      if v < 0x62 then (match v
        case 0x5c => 58 case 0x5d => 66 case 0x5e => 67 case 0x5f => 68
        case 0x60 => 69 case 0x61 => 70 case _ => -1)
      else if v < 0x68 then (match v
        case 0x62 => 71 case 0x63 => 72 case 0x64 => 73 case 0x65 => 74
        case 0x66 => 75 case 0x67 => 76 case _ => -1)
      else if v < 0x6e then (match v
        case 0x68 => 77 case 0x69 => 78 case 0x6a => 79 case 0x6b => 80
        case 0x6c => 81 case 0x6d => 82 case _ => -1)
      else if v < 0x74 then (match v
        case 0x6e => 83 case 0x6f => 84 case 0x70 => 85 case 0x71 => 86
        case 0x72 => 87 case 0x73 => 89 case _ => -1)
      else if v < 0x7a then (match v
        case 0x74 => 106 case 0x75 => 107 case 0x76 => 113 case 0x77 => 118
        case 0x78 => 119 case 0x79 => 120 case _ => -1)
      else (match v case 0x7a => 121 case 0x7b => 122 case _ => -1)
    case _ => -1
  }

  function Symbol8To15(l: int, v: int): int {
    match l
    case 8 =>
      (match v
        case 0xf8 => 38 case 0xf9 => 42 case 0xfa => 44 case 0xfb => 59
        case 0xfc => 88 case 0xfd => 90 case _ => -1)
    case 10 =>
      (match v case 0x3f8 => 33 case 0x3f9 => 34 case 0x3fa => 40 case 0x3fb => 41 case 0x3fc => 63 case _ => -1)
    case 11 =>
      (match v case 0x7fa => 39 case 0x7fb => 43 case 0x7fc => 124 case _ => -1)
    case 12 =>
      (match v case 0xffa => 35 case 0xffb => 62 case _ => -1)
    case 13 =>
      (match v
        case 0x1ff8 => 0 case 0x1ff9 => 36 case 0x1ffa => 64 case 0x1ffb => 91
        case 0x1ffc => 93 case 0x1ffd => 126 case _ => -1)
    case 14 =>
      (match v case 0x3ffc => 94 case 0x3ffd => 125 case _ => -1)
    case 15 =>
      (match v case 0x7ffc => 60 case 0x7ffd => 96 case 0x7ffe => 123 case _ => -1)
    case _ => -1
  }

  function Symbol19To21(l: int, v: int): int {
    match l
    case 19 =>
      (match v case 0x7fff0 => 92 case 0x7fff1 => 195 case 0x7fff2 => 208 case _ => -1)
    case 20 =>
      if v < 0xfffec then (match v
        case 0xfffe6 => 128 case 0xfffe7 => 130 case 0xfffe8 => 131 case 0xfffe9 => 162
        case 0xfffea => 184 case 0xfffeb => 194 case _ => -1)
      else (match v case 0xfffec => 224 case 0xfffed => 226 case _ => -1)
    case 21 =>
      if v < 0x1fffe2 then (match v
        case 0x1fffdc => 153 case 0x1fffdd => 161 case 0x1fffde => 167 case 0x1fffdf => 172
        case 0x1fffe0 => 176 case 0x1fffe1 => 177 case _ => -1)
      else if v < 0x1fffe8 then (match v
        case 0x1fffe2 => 179 case 0x1fffe3 => 209 case 0x1fffe4 => 216 case 0x1fffe5 => 217
        case 0x1fffe6 => 227 case 0x1fffe7 => 229 case _ => -1)
      else (match v case 0x1fffe8 => 230 case _ => -1)
    case _ => -1
  }

  function Symbol22(v: int): int {
    if v < 0x3fffd8 then (match v
      case 0x3fffd2 => 129 case 0x3fffd3 => 132 case 0x3fffd4 => 133 case 0x3fffd5 => 134
      case 0x3fffd6 => 136 case 0x3fffd7 => 146 case _ => -1)
    else if v < 0x3fffde then (match v
      case 0x3fffd8 => 154 case 0x3fffd9 => 156 case 0x3fffda => 160 case 0x3fffdb => 163
      case 0x3fffdc => 164 case 0x3fffdd => 169 case _ => -1)
    else if v < 0x3fffe4 then (match v
      case 0x3fffde => 170 case 0x3fffdf => 173 case 0x3fffe0 => 178 case 0x3fffe1 => 181
      case 0x3fffe2 => 185 case 0x3fffe3 => 186 case _ => -1)
    else if v < 0x3fffea then (match v
      case 0x3fffe4 => 187 case 0x3fffe5 => 189 case 0x3fffe6 => 190 case 0x3fffe7 => 196
      case 0x3fffe8 => 198 case 0x3fffe9 => 228 case _ => -1)
    else (match v case 0x3fffea => 232 case 0x3fffeb => 233 case _ => -1)
  }

  function Symbol23(v: int): int {
    if v < 0x7fffde then (match v
      case 0x7fffd8 => 1 case 0x7fffd9 => 135 case 0x7fffda => 137 case 0x7fffdb => 138
      case 0x7fffdc => 139 case 0x7fffdd => 140 case _ => -1)
    else if v < 0x7fffe4 then (match v
      case 0x7fffde => 141 case 0x7fffdf => 143 case 0x7fffe0 => 147 case 0x7fffe1 => 149
      case 0x7fffe2 => 150 case 0x7fffe3 => 151 case _ => -1)
    else if v < 0x7fffea then (match v
      case 0x7fffe4 => 152 case 0x7fffe5 => 155 case 0x7fffe6 => 157 case 0x7fffe7 => 158
      case 0x7fffe8 => 165 case 0x7fffe9 => 166 case _ => -1)
    else if v < 0x7ffff0 then (match v
      case 0x7fffea => 168 case 0x7fffeb => 174 case 0x7fffec => 175 case 0x7fffed => 180
      case 0x7fffee => 182 case 0x7fffef => 183 case _ => -1)
    else (match v
      case 0x7ffff0 => 188 case 0x7ffff1 => 191 case 0x7ffff2 => 197 case 0x7ffff3 => 231
      case 0x7ffff4 => 239 case _ => -1)
  }

  function Symbol24To26(l: int, v: int): int {
    match l
    case 24 =>
      if v < 0xfffff0 then (match v
        case 0xffffea => 9 case 0xffffeb => 142 case 0xffffec => 144 case 0xffffed => 145
        case 0xffffee => 148 case 0xffffef => 159 case _ => -1)
      else (match v
        case 0xfffff0 => 171 case 0xfffff1 => 206 case 0xfffff2 => 215 case 0xfffff3 => 225
        case 0xfffff4 => 236 case 0xfffff5 => 237 case _ => -1)
    case 25 =>
      (match v case 0x1ffffec => 199 case 0x1ffffed => 207 case 0x1ffffee => 234 case 0x1ffffef => 235 case _ => -1)
    case 26 =>
      if v < 0x3ffffe6 then (match v
        case 0x3ffffe0 => 192 case 0x3ffffe1 => 193 case 0x3ffffe2 => 200 case 0x3ffffe3 => 201
        case 0x3ffffe4 => 202 case 0x3ffffe5 => 205 case _ => -1)
      else if v < 0x3ffffec then (match v
        case 0x3ffffe6 => 210 case 0x3ffffe7 => 213 case 0x3ffffe8 => 218 case 0x3ffffe9 => 219
        case 0x3ffffea => 238 case 0x3ffffeb => 240 case _ => -1)
      else (match v case 0x3ffffec => 242 case 0x3ffffed => 243 case 0x3ffffee => 255 case _ => -1)
    case _ => -1
  }

  function Symbol27(v: int): int {
    if v < 0x7ffffe4 then (match v
      case 0x7ffffde => 203 case 0x7ffffdf => 204 case 0x7ffffe0 => 211 case 0x7ffffe1 => 212
      case 0x7ffffe2 => 214 case 0x7ffffe3 => 221 case _ => -1)
    else if v < 0x7ffffea then (match v
      case 0x7ffffe4 => 222 case 0x7ffffe5 => 223 case 0x7ffffe6 => 241 case 0x7ffffe7 => 244
      case 0x7ffffe8 => 245 case 0x7ffffe9 => 246 case _ => -1)
    else if v < 0x7fffff0 then (match v
      case 0x7ffffea => 247 case 0x7ffffeb => 248 case 0x7ffffec => 250 case 0x7ffffed => 251
      case 0x7ffffee => 252 case 0x7ffffef => 253 case _ => -1)
    else (match v case 0x7fffff0 => 254 case _ => -1)
  }

  function Symbol28To30(l: int, v: int): int {
    match l
    case 28 =>
      if v < 0xfffffe8 then (match v
        case 0xfffffe2 => 2 case 0xfffffe3 => 3 case 0xfffffe4 => 4 case 0xfffffe5 => 5
        case 0xfffffe6 => 6 case 0xfffffe7 => 7 case _ => -1)
      else if v < 0xfffffee then (match v
        case 0xfffffe8 => 8 case 0xfffffe9 => 11 case 0xfffffea => 12 case 0xfffffeb => 14
        case 0xfffffec => 15 case 0xfffffed => 16 case _ => -1)
      else if v < 0xffffff4 then (match v
        case 0xfffffee => 17 case 0xfffffef => 18 case 0xffffff0 => 19 case 0xffffff1 => 20
        case 0xffffff2 => 21 case 0xffffff3 => 23 case _ => -1)
      else if v < 0xffffffa then (match v
        case 0xffffff4 => 24 case 0xffffff5 => 25 case 0xffffff6 => 26 case 0xffffff7 => 27
        case 0xffffff8 => 28 case 0xffffff9 => 29 case _ => -1)
      else (match v
        case 0xffffffa => 30 case 0xffffffb => 31 case 0xffffffc => 127 case 0xffffffd => 220
        case 0xffffffe => 249 case _ => -1)
    case 30 =>
      (match v case 0x3ffffffc => 10 case 0x3ffffffd => 13 case 0x3ffffffe => 22 case _ => -1)
    case _ => -1
  }
  /** The least value of the code words with l bits. */
  function First(l: int): int {
    match l
    case 5 => 0x0 case 6 => 0x14 case 7 => 0x5c case 8 => 0xf8 case 9 => 0x1fc
    case 10 => 0x3f8 case 11 => 0x7fa case 12 => 0xffa case 13 => 0x1ff8 case 14 => 0x3ffc
    case 15 => 0x7ffc case 16 => 0xfffe case 17 => 0x1fffc case 18 => 0x3fff8 case 19 => 0x7fff0
    case 20 => 0xfffe6 case 21 => 0x1fffdc case 22 => 0x3fffd2 case 23 => 0x7fffd8 case 24 => 0xffffea
    case 25 => 0x1ffffec case 26 => 0x3ffffe0 case 27 => 0x7ffffde case 28 => 0xfffffe2 case 29 => 0x1ffffffe
    case 30 => 0x3ffffffc case _ => 0
  }

  /** The number after the greatest value of the code words with l bits. */
  function Limit(l: int): int {
    match l
    case 5 => 0xa case 6 => 0x2e case 7 => 0x7c case 8 => 0xfe case 9 => 0x1fc
    case 10 => 0x3fd case 11 => 0x7fd case 12 => 0xffc case 13 => 0x1ffe case 14 => 0x3ffe
    case 15 => 0x7fff case 16 => 0xfffe case 17 => 0x1fffc case 18 => 0x3fff8 case 19 => 0x7fff3
    case 20 => 0xfffee case 21 => 0x1fffe9 case 22 => 0x3fffec case 23 => 0x7ffff5 case 24 => 0xfffff6
    case 25 => 0x1fffff0 case 26 => 0x3ffffef case 27 => 0x7fffff1 case 28 => 0xfffffff case 29 => 0x1ffffffe
    case 30 => 0x3fffffff case _ => 0
  }

  /** How many code words have fewer than l bits. */
  function Shorter(l: int): int {
    match l
    case 5 => 0 case 6 => 10 case 7 => 36 case 8 => 68 case 9 => 74 case 10 => 74 case 11 => 79 case 12 => 82
    case 13 => 84 case 14 => 90 case 15 => 92 case 16 => 95 case 17 => 95 case 18 => 95 case 19 => 95 case 20 => 98
    case 21 => 106 case 22 => 119 case 23 => 145 case 24 => 174 case 25 => 186 case 26 => 190 case 27 => 205
    case 28 => 224
    case 29 => 253 case 30 => 253 case _ => 256
  }

  predicate Right(e: (int, int), c: int) {
    5 <= e.0 <= 30 && First(e.0) <= e.1 < Limit(e.0) && SymbolOf(e.0, e.1) == c
  }

  predicate RightRow(r: int) {
    var s := EncodeRow(r);
    && |s| == 8
    && Right(s[0], 8 * r) && Right(s[1], 8 * r + 1) && Right(s[2], 8 * r + 2) && Right(s[3], 8 * r + 3)
    && Right(s[4], 8 * r + 4) && Right(s[5], 8 * r + 5) && Right(s[6], 8 * r + 6) && Right(s[7], 8 * r + 7)
  }

  lemma Row0() ensures RightRow(0) {}
  lemma Row1() ensures RightRow(1) {}
  lemma Row2() ensures RightRow(2) {}
  lemma Row3() ensures RightRow(3) {}
  lemma Row4() ensures RightRow(4) {}
  lemma Row5() ensures RightRow(5) {}
  lemma Row6() ensures RightRow(6) {}
  lemma Row7() ensures RightRow(7) {}
  lemma Row8() ensures RightRow(8) {}
  lemma Row9() ensures RightRow(9) {}
  lemma Row10() ensures RightRow(10) {}
  lemma Row11() ensures RightRow(11) {}
  lemma Row12() ensures RightRow(12) {}
  lemma Row13() ensures RightRow(13) {}
  lemma Row14() ensures RightRow(14) {}
  lemma Row15() ensures RightRow(15) {}
  lemma Row16() ensures RightRow(16) {}
  lemma Row17() ensures RightRow(17) {}
  lemma Row18() ensures RightRow(18) {}
  lemma Row19() ensures RightRow(19) {}
  lemma Row20() ensures RightRow(20) {}
  lemma Row21() ensures RightRow(21) {}
  lemma Row22() ensures RightRow(22) {}
  lemma Row23() ensures RightRow(23) {}
  lemma Row24() ensures RightRow(24) {}
  lemma Row25() ensures RightRow(25) {}
  lemma Row26() ensures RightRow(26) {}
  lemma Row27() ensures RightRow(27) {}
  lemma Row28() ensures RightRow(28) {}
  lemma Row29() ensures RightRow(29) {}
  lemma Row30() ensures RightRow(30) {}
  lemma Row31() ensures RightRow(31) {}

  lemma RowRight(r: int)
    requires 0 <= r < 32
    ensures RightRow(r)
  {
    match r
    case 0 => Row0();
    case 1 => Row1();
    case 2 => Row2();
    case 3 => Row3();
    case 4 => Row4();
    case 5 => Row5();
    case 6 => Row6();
    case 7 => Row7();
    case 8 => Row8();
    case 9 => Row9();
    case 10 => Row10();
    case 11 => Row11();
    case 12 => Row12();
    case 13 => Row13();
    case 14 => Row14();
    case 15 => Row15();
    case 16 => Row16();
    case 17 => Row17();
    case 18 => Row18();
    case 19 => Row19();
    case 20 => Row20();
    case 21 => Row21();
    case 22 => Row22();
    case 23 => Row23();
    case 24 => Row24();
    case 25 => Row25();
    case 26 => Row26();
    case 27 => Row27();
    case 28 => Row28();
    case 29 => Row29();
    case 30 => Row30();
    case 31 => Row31();
  }

  /** A property of eight entries spelled out holds at each index. */
  lemma Eight(s: seq<(int, int)>, p: ((int, int), int) -> bool, k: int, i: int)
    requires |s| == 8 && 0 <= i < 8
    requires p(s[0], k) && p(s[1], k + 1) && p(s[2], k + 2) && p(s[3], k + 3)
    requires p(s[4], k + 4) && p(s[5], k + 5) && p(s[6], k + 6) && p(s[7], k + 7)
    ensures p(s[i], k + i)
  {
  }

  /** The entry of symbol c, taken from its row. */
  lemma EntryRight(c: byte)
    ensures |EncodeRow(c / 8)| == 8 && Right(EncodeRow(c / 8)[c % 8], c)
  {
    RowRight(c / 8);
    Eight(EncodeRow(c / 8), (e, k) => Right(e, k), 8 * (c / 8), c % 8);
  }

  function EncodeData(c: byte): CodeWord {
    EntryRight(c);
    FirstNat(EncodeRow(c / 8)[c % 8].0);
    var (bitCount, value) := EncodeRow(c / 8)[c % 8];
    CodeWord(bitCount, value)
  }

  /** The encode table of the source. */
  function EncodeTable(): CodeTable {
    seq(256, c requires 0 <= c < 256 => EncodeData(c))
  }

  lemma TableRight(c: byte)
    ensures Right((EncodeTable()[c].bitCount, EncodeTable()[c].value), c)
  {
    hide Right, EncodeRow;
    EntryRight(c);
    var e := EncodeRow(c / 8)[c % 8];
    assert EncodeTable()[c] == EncodeData(c) == CodeWord(e.0, e.1) && e == (e.0, e.1);
  }

  lemma FirstNat(l: int)
    ensures 0 <= First(l) <= Limit(l)
    ensures 5 < l <= 30 ==> First(l) == 2 * Limit(l - 1) && Shorter(l) == Shorter(l - 1) + Limit(l - 1) - First(l - 1)
  {
  }

  const GROUPS := Groups(EOS_LENGTH, l => First(l), l => Limit(l), l => Shorter(l))

  lemma TableCanonical()
    ensures Canonical(EncodeTable(), GROUPS)
  {
    forall l | 5 <= l <= EOS_LENGTH
      ensures Group(GROUPS, l) && (l > 5 ==> Follows(GROUPS, l))
    {
      FirstNat(l);
    }
    Pow2Value30();
    forall c: byte
      ensures Right((EncodeTable()[c].bitCount, EncodeTable()[c].value), c)
    {
      TableRight(c);
    }
  }

  /** No code word of the table is a prefix of another or of EOS; together with EOS they cover all bit strings. */
  lemma TableGood()
    ensures GoodCode(EncodeTable()) && Complete(EncodeTable())
  {
    TableCanonical();
    CanonicalIsGood(EncodeTable(), GROUPS);
    CanonicalIsComplete(EncodeTable(), GROUPS);
  }
}
