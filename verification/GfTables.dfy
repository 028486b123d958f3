// The two lookup tables of GF(2^8), written out row by row as in GF256.cpp,
// and the two facts about them that the field laws rest on: entry i + 1 of
// the exponent table is entry i times x, and the logarithm table inverts it.

module GfTables {
  import opened Bytes

  // Multiplication by x modulo x^8 + x^4 + x^3 + x^2 + 1, the shift-and-reduce
  // step (c << 1) ^ (c & 0x80 ? 0x1d : 0).
  function Xtime(a: Byte): Byte {
    if a & 0x80 != 0 then (a << 1) ^ 0x1d else a << 1
  }

  function GfBaseRow0(i: int): Byte {
    if i == 0 then 0x01 else if i == 1 then 0x02 else if i == 2 then 0x04 else if i == 3 then 0x08 else
    if i == 4 then 0x10 else if i == 5 then 0x20 else if i == 6 then 0x40 else if i == 7 then 0x80 else
    if i == 8 then 0x1d else if i == 9 then 0x3a else if i == 10 then 0x74 else if i == 11 then 0xe8 else
    if i == 12 then 0xcd else if i == 13 then 0x87 else if i == 14 then 0x13 else 0x26
  }

  function GfBaseRow1(i: int): Byte {
    if i == 16 then 0x4c else if i == 17 then 0x98 else if i == 18 then 0x2d else if i == 19 then 0x5a else
    if i == 20 then 0xb4 else if i == 21 then 0x75 else if i == 22 then 0xea else if i == 23 then 0xc9 else
    if i == 24 then 0x8f else if i == 25 then 0x03 else if i == 26 then 0x06 else if i == 27 then 0x0c else
    if i == 28 then 0x18 else if i == 29 then 0x30 else if i == 30 then 0x60 else 0xc0
  }

  function GfBaseRow2(i: int): Byte {
    if i == 32 then 0x9d else if i == 33 then 0x27 else if i == 34 then 0x4e else if i == 35 then 0x9c else
    if i == 36 then 0x25 else if i == 37 then 0x4a else if i == 38 then 0x94 else if i == 39 then 0x35 else
    if i == 40 then 0x6a else if i == 41 then 0xd4 else if i == 42 then 0xb5 else if i == 43 then 0x77 else
    if i == 44 then 0xee else if i == 45 then 0xc1 else if i == 46 then 0x9f else 0x23
  }

  function GfBaseRow3(i: int): Byte {
    if i == 48 then 0x46 else if i == 49 then 0x8c else if i == 50 then 0x05 else if i == 51 then 0x0a else
    if i == 52 then 0x14 else if i == 53 then 0x28 else if i == 54 then 0x50 else if i == 55 then 0xa0 else
    if i == 56 then 0x5d else if i == 57 then 0xba else if i == 58 then 0x69 else if i == 59 then 0xd2 else
    if i == 60 then 0xb9 else if i == 61 then 0x6f else if i == 62 then 0xde else 0xa1
  }

  function GfBaseRow4(i: int): Byte {
    if i == 64 then 0x5f else if i == 65 then 0xbe else if i == 66 then 0x61 else if i == 67 then 0xc2 else
    if i == 68 then 0x99 else if i == 69 then 0x2f else if i == 70 then 0x5e else if i == 71 then 0xbc else
    if i == 72 then 0x65 else if i == 73 then 0xca else if i == 74 then 0x89 else if i == 75 then 0x0f else
    if i == 76 then 0x1e else if i == 77 then 0x3c else if i == 78 then 0x78 else 0xf0
  }

  function GfBaseRow5(i: int): Byte {
    if i == 80 then 0xfd else if i == 81 then 0xe7 else if i == 82 then 0xd3 else if i == 83 then 0xbb else
    if i == 84 then 0x6b else if i == 85 then 0xd6 else if i == 86 then 0xb1 else if i == 87 then 0x7f else
    if i == 88 then 0xfe else if i == 89 then 0xe1 else if i == 90 then 0xdf else if i == 91 then 0xa3 else
    if i == 92 then 0x5b else if i == 93 then 0xb6 else if i == 94 then 0x71 else 0xe2
  }

  function GfBaseRow6(i: int): Byte {
    if i == 96 then 0xd9 else if i == 97 then 0xaf else if i == 98 then 0x43 else if i == 99 then 0x86 else
    if i == 100 then 0x11 else if i == 101 then 0x22 else if i == 102 then 0x44 else if i == 103 then 0x88 else
    if i == 104 then 0x0d else if i == 105 then 0x1a else if i == 106 then 0x34 else if i == 107 then 0x68 else
    if i == 108 then 0xd0 else if i == 109 then 0xbd else if i == 110 then 0x67 else 0xce
  }

  function GfBaseRow7(i: int): Byte {
    if i == 112 then 0x81 else if i == 113 then 0x1f else if i == 114 then 0x3e else if i == 115 then 0x7c else
    if i == 116 then 0xf8 else if i == 117 then 0xed else if i == 118 then 0xc7 else if i == 119 then 0x93 else
    if i == 120 then 0x3b else if i == 121 then 0x76 else if i == 122 then 0xec else if i == 123 then 0xc5 else
    if i == 124 then 0x97 else if i == 125 then 0x33 else if i == 126 then 0x66 else 0xcc
  }

  function GfBaseRow8(i: int): Byte {
    if i == 128 then 0x85 else if i == 129 then 0x17 else if i == 130 then 0x2e else if i == 131 then 0x5c else
    if i == 132 then 0xb8 else if i == 133 then 0x6d else if i == 134 then 0xda else if i == 135 then 0xa9 else
    if i == 136 then 0x4f else if i == 137 then 0x9e else if i == 138 then 0x21 else if i == 139 then 0x42 else
    if i == 140 then 0x84 else if i == 141 then 0x15 else if i == 142 then 0x2a else 0x54
  }

  function GfBaseRow9(i: int): Byte {
    if i == 144 then 0xa8 else if i == 145 then 0x4d else if i == 146 then 0x9a else if i == 147 then 0x29 else
    if i == 148 then 0x52 else if i == 149 then 0xa4 else if i == 150 then 0x55 else if i == 151 then 0xaa else
    if i == 152 then 0x49 else if i == 153 then 0x92 else if i == 154 then 0x39 else if i == 155 then 0x72 else
    if i == 156 then 0xe4 else if i == 157 then 0xd5 else if i == 158 then 0xb7 else 0x73
  }

  function GfBaseRow10(i: int): Byte {
    if i == 160 then 0xe6 else if i == 161 then 0xd1 else if i == 162 then 0xbf else if i == 163 then 0x63 else
    if i == 164 then 0xc6 else if i == 165 then 0x91 else if i == 166 then 0x3f else if i == 167 then 0x7e else
    if i == 168 then 0xfc else if i == 169 then 0xe5 else if i == 170 then 0xd7 else if i == 171 then 0xb3 else
    if i == 172 then 0x7b else if i == 173 then 0xf6 else if i == 174 then 0xf1 else 0xff
  }

  function GfBaseRow11(i: int): Byte {
    if i == 176 then 0xe3 else if i == 177 then 0xdb else if i == 178 then 0xab else if i == 179 then 0x4b else
    if i == 180 then 0x96 else if i == 181 then 0x31 else if i == 182 then 0x62 else if i == 183 then 0xc4 else
    if i == 184 then 0x95 else if i == 185 then 0x37 else if i == 186 then 0x6e else if i == 187 then 0xdc else
    if i == 188 then 0xa5 else if i == 189 then 0x57 else if i == 190 then 0xae else 0x41
  }

  function GfBaseRow12(i: int): Byte {
    if i == 192 then 0x82 else if i == 193 then 0x19 else if i == 194 then 0x32 else if i == 195 then 0x64 else
    if i == 196 then 0xc8 else if i == 197 then 0x8d else if i == 198 then 0x07 else if i == 199 then 0x0e else
    if i == 200 then 0x1c else if i == 201 then 0x38 else if i == 202 then 0x70 else if i == 203 then 0xe0 else
    if i == 204 then 0xdd else if i == 205 then 0xa7 else if i == 206 then 0x53 else 0xa6
  }

  function GfBaseRow13(i: int): Byte {
    if i == 208 then 0x51 else if i == 209 then 0xa2 else if i == 210 then 0x59 else if i == 211 then 0xb2 else
    if i == 212 then 0x79 else if i == 213 then 0xf2 else if i == 214 then 0xf9 else if i == 215 then 0xef else
    if i == 216 then 0xc3 else if i == 217 then 0x9b else if i == 218 then 0x2b else if i == 219 then 0x56 else
    if i == 220 then 0xac else if i == 221 then 0x45 else if i == 222 then 0x8a else 0x09
  }

  function GfBaseRow14(i: int): Byte {
    if i == 224 then 0x12 else if i == 225 then 0x24 else if i == 226 then 0x48 else if i == 227 then 0x90 else
    if i == 228 then 0x3d else if i == 229 then 0x7a else if i == 230 then 0xf4 else if i == 231 then 0xf5 else
    if i == 232 then 0xf7 else if i == 233 then 0xf3 else if i == 234 then 0xfb else if i == 235 then 0xeb else
    if i == 236 then 0xcb else if i == 237 then 0x8b else if i == 238 then 0x0b else 0x16
  }

  function GfBaseRow15(i: int): Byte {
    if i == 240 then 0x2c else if i == 241 then 0x58 else if i == 242 then 0xb0 else if i == 243 then 0x7d else
    if i == 244 then 0xfa else if i == 245 then 0xe9 else if i == 246 then 0xcf else if i == 247 then 0x83 else
    if i == 248 then 0x1b else if i == 249 then 0x36 else if i == 250 then 0x6c else if i == 251 then 0xd8 else
    if i == 252 then 0xad else if i == 253 then 0x47 else if i == 254 then 0x8e else 0x01
  }

  function GfLogBaseRow0(i: Byte): int {
    if i == 0x00 then 0x00 else if i == 0x01 then 0xff else if i == 0x02 then 0x01 else if i == 0x03 then 0x19 else
    if i == 0x04 then 0x02 else if i == 0x05 then 0x32 else if i == 0x06 then 0x1a else if i == 0x07 then 0xc6 else
    if i == 0x08 then 0x03 else if i == 0x09 then 0xdf else if i == 0x0a then 0x33 else if i == 0x0b then 0xee else
    if i == 0x0c then 0x1b else if i == 0x0d then 0x68 else if i == 0x0e then 0xc7 else 0x4b
  }

  function GfLogBaseRow1(i: Byte): int {
    if i == 0x10 then 0x04 else if i == 0x11 then 0x64 else if i == 0x12 then 0xe0 else if i == 0x13 then 0x0e else
    if i == 0x14 then 0x34 else if i == 0x15 then 0x8d else if i == 0x16 then 0xef else if i == 0x17 then 0x81 else
    if i == 0x18 then 0x1c else if i == 0x19 then 0xc1 else if i == 0x1a then 0x69 else if i == 0x1b then 0xf8 else
    if i == 0x1c then 0xc8 else if i == 0x1d then 0x08 else if i == 0x1e then 0x4c else 0x71
  }

  function GfLogBaseRow2(i: Byte): int {
    if i == 0x20 then 0x05 else if i == 0x21 then 0x8a else if i == 0x22 then 0x65 else if i == 0x23 then 0x2f else
    if i == 0x24 then 0xe1 else if i == 0x25 then 0x24 else if i == 0x26 then 0x0f else if i == 0x27 then 0x21 else
    if i == 0x28 then 0x35 else if i == 0x29 then 0x93 else if i == 0x2a then 0x8e else if i == 0x2b then 0xda else
    if i == 0x2c then 0xf0 else if i == 0x2d then 0x12 else if i == 0x2e then 0x82 else 0x45
  }

  function GfLogBaseRow3(i: Byte): int {
    if i == 0x30 then 0x1d else if i == 0x31 then 0xb5 else if i == 0x32 then 0xc2 else if i == 0x33 then 0x7d else
    if i == 0x34 then 0x6a else if i == 0x35 then 0x27 else if i == 0x36 then 0xf9 else if i == 0x37 then 0xb9 else
    if i == 0x38 then 0xc9 else if i == 0x39 then 0x9a else if i == 0x3a then 0x09 else if i == 0x3b then 0x78 else
    if i == 0x3c then 0x4d else if i == 0x3d then 0xe4 else if i == 0x3e then 0x72 else 0xa6
  }

  function GfLogBaseRow4(i: Byte): int {
    if i == 0x40 then 0x06 else if i == 0x41 then 0xbf else if i == 0x42 then 0x8b else if i == 0x43 then 0x62 else
    if i == 0x44 then 0x66 else if i == 0x45 then 0xdd else if i == 0x46 then 0x30 else if i == 0x47 then 0xfd else
    if i == 0x48 then 0xe2 else if i == 0x49 then 0x98 else if i == 0x4a then 0x25 else if i == 0x4b then 0xb3 else
    if i == 0x4c then 0x10 else if i == 0x4d then 0x91 else if i == 0x4e then 0x22 else 0x88
  }

  function GfLogBaseRow5(i: Byte): int {
    if i == 0x50 then 0x36 else if i == 0x51 then 0xd0 else if i == 0x52 then 0x94 else if i == 0x53 then 0xce else
    if i == 0x54 then 0x8f else if i == 0x55 then 0x96 else if i == 0x56 then 0xdb else if i == 0x57 then 0xbd else
    if i == 0x58 then 0xf1 else if i == 0x59 then 0xd2 else if i == 0x5a then 0x13 else if i == 0x5b then 0x5c else
    if i == 0x5c then 0x83 else if i == 0x5d then 0x38 else if i == 0x5e then 0x46 else 0x40
  }

  function GfLogBaseRow6(i: Byte): int {
    if i == 0x60 then 0x1e else if i == 0x61 then 0x42 else if i == 0x62 then 0xb6 else if i == 0x63 then 0xa3 else
    if i == 0x64 then 0xc3 else if i == 0x65 then 0x48 else if i == 0x66 then 0x7e else if i == 0x67 then 0x6e else
    if i == 0x68 then 0x6b else if i == 0x69 then 0x3a else if i == 0x6a then 0x28 else if i == 0x6b then 0x54 else
    if i == 0x6c then 0xfa else if i == 0x6d then 0x85 else if i == 0x6e then 0xba else 0x3d
  }

  function GfLogBaseRow7(i: Byte): int {
    if i == 0x70 then 0xca else if i == 0x71 then 0x5e else if i == 0x72 then 0x9b else if i == 0x73 then 0x9f else
    if i == 0x74 then 0x0a else if i == 0x75 then 0x15 else if i == 0x76 then 0x79 else if i == 0x77 then 0x2b else
    if i == 0x78 then 0x4e else if i == 0x79 then 0xd4 else if i == 0x7a then 0xe5 else if i == 0x7b then 0xac else
    if i == 0x7c then 0x73 else if i == 0x7d then 0xf3 else if i == 0x7e then 0xa7 else 0x57
  }

  function GfLogBaseRow8(i: Byte): int {
    if i == 0x80 then 0x07 else if i == 0x81 then 0x70 else if i == 0x82 then 0xc0 else if i == 0x83 then 0xf7 else
    if i == 0x84 then 0x8c else if i == 0x85 then 0x80 else if i == 0x86 then 0x63 else if i == 0x87 then 0x0d else
    if i == 0x88 then 0x67 else if i == 0x89 then 0x4a else if i == 0x8a then 0xde else if i == 0x8b then 0xed else
    if i == 0x8c then 0x31 else if i == 0x8d then 0xc5 else if i == 0x8e then 0xfe else 0x18
  }

  function GfLogBaseRow9(i: Byte): int {
    if i == 0x90 then 0xe3 else if i == 0x91 then 0xa5 else if i == 0x92 then 0x99 else if i == 0x93 then 0x77 else
    if i == 0x94 then 0x26 else if i == 0x95 then 0xb8 else if i == 0x96 then 0xb4 else if i == 0x97 then 0x7c else
    if i == 0x98 then 0x11 else if i == 0x99 then 0x44 else if i == 0x9a then 0x92 else if i == 0x9b then 0xd9 else
    if i == 0x9c then 0x23 else if i == 0x9d then 0x20 else if i == 0x9e then 0x89 else 0x2e
  }

  function GfLogBaseRow10(i: Byte): int {
    if i == 0xa0 then 0x37 else if i == 0xa1 then 0x3f else if i == 0xa2 then 0xd1 else if i == 0xa3 then 0x5b else
    if i == 0xa4 then 0x95 else if i == 0xa5 then 0xbc else if i == 0xa6 then 0xcf else if i == 0xa7 then 0xcd else
    if i == 0xa8 then 0x90 else if i == 0xa9 then 0x87 else if i == 0xaa then 0x97 else if i == 0xab then 0xb2 else
    if i == 0xac then 0xdc else if i == 0xad then 0xfc else if i == 0xae then 0xbe else 0x61
  }

  function GfLogBaseRow11(i: Byte): int {
    if i == 0xb0 then 0xf2 else if i == 0xb1 then 0x56 else if i == 0xb2 then 0xd3 else if i == 0xb3 then 0xab else
    if i == 0xb4 then 0x14 else if i == 0xb5 then 0x2a else if i == 0xb6 then 0x5d else if i == 0xb7 then 0x9e else
    if i == 0xb8 then 0x84 else if i == 0xb9 then 0x3c else if i == 0xba then 0x39 else if i == 0xbb then 0x53 else
    if i == 0xbc then 0x47 else if i == 0xbd then 0x6d else if i == 0xbe then 0x41 else 0xa2
  }

  function GfLogBaseRow12(i: Byte): int {
    if i == 0xc0 then 0x1f else if i == 0xc1 then 0x2d else if i == 0xc2 then 0x43 else if i == 0xc3 then 0xd8 else
    if i == 0xc4 then 0xb7 else if i == 0xc5 then 0x7b else if i == 0xc6 then 0xa4 else if i == 0xc7 then 0x76 else
    if i == 0xc8 then 0xc4 else if i == 0xc9 then 0x17 else if i == 0xca then 0x49 else if i == 0xcb then 0xec else
    if i == 0xcc then 0x7f else if i == 0xcd then 0x0c else if i == 0xce then 0x6f else 0xf6
  }

  function GfLogBaseRow13(i: Byte): int {
    if i == 0xd0 then 0x6c else if i == 0xd1 then 0xa1 else if i == 0xd2 then 0x3b else if i == 0xd3 then 0x52 else
    if i == 0xd4 then 0x29 else if i == 0xd5 then 0x9d else if i == 0xd6 then 0x55 else if i == 0xd7 then 0xaa else
    if i == 0xd8 then 0xfb else if i == 0xd9 then 0x60 else if i == 0xda then 0x86 else if i == 0xdb then 0xb1 else
    if i == 0xdc then 0xbb else if i == 0xdd then 0xcc else if i == 0xde then 0x3e else 0x5a
  }

  function GfLogBaseRow14(i: Byte): int {
    if i == 0xe0 then 0xcb else if i == 0xe1 then 0x59 else if i == 0xe2 then 0x5f else if i == 0xe3 then 0xb0 else
    if i == 0xe4 then 0x9c else if i == 0xe5 then 0xa9 else if i == 0xe6 then 0xa0 else if i == 0xe7 then 0x51 else
    if i == 0xe8 then 0x0b else if i == 0xe9 then 0xf5 else if i == 0xea then 0x16 else if i == 0xeb then 0xeb else
    if i == 0xec then 0x7a else if i == 0xed then 0x75 else if i == 0xee then 0x2c else 0xd7
  }

  function GfLogBaseRow15(i: Byte): int {
    if i == 0xf0 then 0x4f else if i == 0xf1 then 0xae else if i == 0xf2 then 0xd5 else if i == 0xf3 then 0xe9 else
    if i == 0xf4 then 0xe6 else if i == 0xf5 then 0xe7 else if i == 0xf6 then 0xad else if i == 0xf7 then 0xe8 else
    if i == 0xf8 then 0x74 else if i == 0xf9 then 0xd6 else if i == 0xfa then 0xf4 else if i == 0xfb then 0xea else
    if i == 0xfc then 0xa8 else if i == 0xfd then 0x50 else if i == 0xfe then 0x58 else 0xaf
  }

  // GF_BASE[i].
  function GfBase(i: int): Byte
    requires 0 <= i < 256
  {
    if i < 16 then GfBaseRow0(i)
    else if i < 32 then GfBaseRow1(i)
    else if i < 48 then GfBaseRow2(i)
    else if i < 64 then GfBaseRow3(i)
    else if i < 80 then GfBaseRow4(i)
    else if i < 96 then GfBaseRow5(i)
    else if i < 112 then GfBaseRow6(i)
    else if i < 128 then GfBaseRow7(i)
    else if i < 144 then GfBaseRow8(i)
    else if i < 160 then GfBaseRow9(i)
    else if i < 176 then GfBaseRow10(i)
    else if i < 192 then GfBaseRow11(i)
    else if i < 208 then GfBaseRow12(i)
    else if i < 224 then GfBaseRow13(i)
    else if i < 240 then GfBaseRow14(i)
    else GfBaseRow15(i)
  }

  // GF_LOG_BASE[a & 0xff] & 0xff.
  function GfLogBase(i: Byte): int {
    if i < 0x10 then GfLogBaseRow0(i)
    else if i < 0x20 then GfLogBaseRow1(i)
    else if i < 0x30 then GfLogBaseRow2(i)
    else if i < 0x40 then GfLogBaseRow3(i)
    else if i < 0x50 then GfLogBaseRow4(i)
    else if i < 0x60 then GfLogBaseRow5(i)
    else if i < 0x70 then GfLogBaseRow6(i)
    else if i < 0x80 then GfLogBaseRow7(i)
    else if i < 0x90 then GfLogBaseRow8(i)
    else if i < 0xa0 then GfLogBaseRow9(i)
    else if i < 0xb0 then GfLogBaseRow10(i)
    else if i < 0xc0 then GfLogBaseRow11(i)
    else if i < 0xd0 then GfLogBaseRow12(i)
    else if i < 0xe0 then GfLogBaseRow13(i)
    else if i < 0xf0 then GfLogBaseRow14(i)
    else GfLogBaseRow15(i)
  }

  lemma StepRow0(i: int)
    requires 0 <= i < 16
    ensures GfBase(i + 1) == Xtime(GfBase(i))
  {}

  lemma StepRow1(i: int)
    requires 16 <= i < 32
    ensures GfBase(i + 1) == Xtime(GfBase(i))
  {}

  lemma StepRow2(i: int)
    requires 32 <= i < 48
    ensures GfBase(i + 1) == Xtime(GfBase(i))
  {}

  lemma StepRow3(i: int)
    requires 48 <= i < 64
    ensures GfBase(i + 1) == Xtime(GfBase(i))
  {}

  lemma StepRow4(i: int)
    requires 64 <= i < 80
    ensures GfBase(i + 1) == Xtime(GfBase(i))
  {}

  lemma StepRow5(i: int)
    requires 80 <= i < 96
    ensures GfBase(i + 1) == Xtime(GfBase(i))
  {}

  lemma StepRow6(i: int)
    requires 96 <= i < 112
    ensures GfBase(i + 1) == Xtime(GfBase(i))
  {}

  lemma StepRow7(i: int)
    requires 112 <= i < 128
    ensures GfBase(i + 1) == Xtime(GfBase(i))
  {}

  lemma StepRow8(i: int)
    requires 128 <= i < 144
    ensures GfBase(i + 1) == Xtime(GfBase(i))
  {}

  lemma StepRow9(i: int)
    requires 144 <= i < 160
    ensures GfBase(i + 1) == Xtime(GfBase(i))
  {}

  lemma StepRow10(i: int)
    requires 160 <= i < 176
    ensures GfBase(i + 1) == Xtime(GfBase(i))
  {}

  lemma StepRow11(i: int)
    requires 176 <= i < 192
    ensures GfBase(i + 1) == Xtime(GfBase(i))
  {}

  lemma StepRow12(i: int)
    requires 192 <= i < 208
    ensures GfBase(i + 1) == Xtime(GfBase(i))
  {}

  lemma StepRow13(i: int)
    requires 208 <= i < 224
    ensures GfBase(i + 1) == Xtime(GfBase(i))
  {}

  lemma StepRow14(i: int)
    requires 224 <= i < 240
    ensures GfBase(i + 1) == Xtime(GfBase(i))
  {}

  lemma StepRow15(i: int)
    requires 240 <= i < 255
    ensures GfBase(i + 1) == Xtime(GfBase(i))
  {}

  lemma BaseStep(i: int)
    requires 0 <= i < 255
    ensures GfBase(i + 1) == Xtime(GfBase(i))
  {
    hide *;
    if i < 16 { StepRow0(i); }
    else if i < 32 { StepRow1(i); }
    else if i < 48 { StepRow2(i); }
    else if i < 64 { StepRow3(i); }
    else if i < 80 { StepRow4(i); }
    else if i < 96 { StepRow5(i); }
    else if i < 112 { StepRow6(i); }
    else if i < 128 { StepRow7(i); }
    else if i < 144 { StepRow8(i); }
    else if i < 160 { StepRow9(i); }
    else if i < 176 { StepRow10(i); }
    else if i < 192 { StepRow11(i); }
    else if i < 208 { StepRow12(i); }
    else if i < 224 { StepRow13(i); }
    else if i < 240 { StepRow14(i); }
    else { StepRow15(i); }
  }

  lemma LogRow0(a: Byte)
    requires 0x00 < a < 0x10
    ensures 1 <= GfLogBase(a) <= 255 && GfBase(GfLogBase(a)) == a
  {}

  lemma LogRow1(a: Byte)
    requires 0x10 <= a < 0x20
    ensures 1 <= GfLogBase(a) <= 255 && GfBase(GfLogBase(a)) == a
  {}

  lemma LogRow2(a: Byte)
    requires 0x20 <= a < 0x30
    ensures 1 <= GfLogBase(a) <= 255 && GfBase(GfLogBase(a)) == a
  {}

  lemma LogRow3(a: Byte)
    requires 0x30 <= a < 0x40
    ensures 1 <= GfLogBase(a) <= 255 && GfBase(GfLogBase(a)) == a
  {}

  lemma LogRow4(a: Byte)
    requires 0x40 <= a < 0x50
    ensures 1 <= GfLogBase(a) <= 255 && GfBase(GfLogBase(a)) == a
  {}

  lemma LogRow5(a: Byte)
    requires 0x50 <= a < 0x60
    ensures 1 <= GfLogBase(a) <= 255 && GfBase(GfLogBase(a)) == a
  {}

  lemma LogRow6(a: Byte)
    requires 0x60 <= a < 0x70
    ensures 1 <= GfLogBase(a) <= 255 && GfBase(GfLogBase(a)) == a
  {}

  lemma LogRow7(a: Byte)
    requires 0x70 <= a < 0x80
    ensures 1 <= GfLogBase(a) <= 255 && GfBase(GfLogBase(a)) == a
  {}

  lemma LogRow8(a: Byte)
    requires 0x80 <= a < 0x90
    ensures 1 <= GfLogBase(a) <= 255 && GfBase(GfLogBase(a)) == a
  {}

  lemma LogRow9(a: Byte)
    requires 0x90 <= a < 0xa0
    ensures 1 <= GfLogBase(a) <= 255 && GfBase(GfLogBase(a)) == a
  {}

  lemma LogRow10(a: Byte)
    requires 0xa0 <= a < 0xb0
    ensures 1 <= GfLogBase(a) <= 255 && GfBase(GfLogBase(a)) == a
  {}

  lemma LogRow11(a: Byte)
    requires 0xb0 <= a < 0xc0
    ensures 1 <= GfLogBase(a) <= 255 && GfBase(GfLogBase(a)) == a
  {}

  lemma LogRow12(a: Byte)
    requires 0xc0 <= a < 0xd0
    ensures 1 <= GfLogBase(a) <= 255 && GfBase(GfLogBase(a)) == a
  {}

  lemma LogRow13(a: Byte)
    requires 0xd0 <= a < 0xe0
    ensures 1 <= GfLogBase(a) <= 255 && GfBase(GfLogBase(a)) == a
  {}

  lemma LogRow14(a: Byte)
    requires 0xe0 <= a < 0xf0
    ensures 1 <= GfLogBase(a) <= 255 && GfBase(GfLogBase(a)) == a
  {}

  lemma LogRow15(a: Byte)
    requires 0xf0 <= a
    ensures 1 <= GfLogBase(a) <= 255 && GfBase(GfLogBase(a)) == a
  {}

  lemma LogInverts(a: Byte)
    requires a != 0
    ensures 1 <= GfLogBase(a) <= 255 && GfBase(GfLogBase(a)) == a
  {
    hide *;
    if a < 0x10 { LogRow0(a); }
    else if a < 0x20 { LogRow1(a); }
    else if a < 0x30 { LogRow2(a); }
    else if a < 0x40 { LogRow3(a); }
    else if a < 0x50 { LogRow4(a); }
    else if a < 0x60 { LogRow5(a); }
    else if a < 0x70 { LogRow6(a); }
    else if a < 0x80 { LogRow7(a); }
    else if a < 0x90 { LogRow8(a); }
    else if a < 0xa0 { LogRow9(a); }
    else if a < 0xb0 { LogRow10(a); }
    else if a < 0xc0 { LogRow11(a); }
    else if a < 0xd0 { LogRow12(a); }
    else if a < 0xe0 { LogRow13(a); }
    else if a < 0xf0 { LogRow14(a); }
    else { LogRow15(a); }
  }
}
