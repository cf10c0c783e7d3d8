/** The table-driven CRC-32 of kernel/utils/common.c, which checks GPT headers. */
module Crc32 {

  const POLYNOMIAL: bv32 := 0xEDB8_8320

  /** crc32_lookup, in rows of sixteen */
  const ROW_0: seq<bv32> := [
    0x00000000, 0x77073096, 0xEE0E612C, 0x990951BA, 0x076DC419, 0x706AF48F, 0xE963A535, 0x9E6495A3,
    0x0EDB8832, 0x79DCB8A4, 0xE0D5E91E, 0x97D2D988, 0x09B64C2B, 0x7EB17CBD, 0xE7B82D07, 0x90BF1D91 ]
  const ROW_1: seq<bv32> := [
    0x1DB71064, 0x6AB020F2, 0xF3B97148, 0x84BE41DE, 0x1ADAD47D, 0x6DDDE4EB, 0xF4D4B551, 0x83D385C7,
    0x136C9856, 0x646BA8C0, 0xFD62F97A, 0x8A65C9EC, 0x14015C4F, 0x63066CD9, 0xFA0F3D63, 0x8D080DF5 ]
  const ROW_2: seq<bv32> := [
    0x3B6E20C8, 0x4C69105E, 0xD56041E4, 0xA2677172, 0x3C03E4D1, 0x4B04D447, 0xD20D85FD, 0xA50AB56B,
    0x35B5A8FA, 0x42B2986C, 0xDBBBC9D6, 0xACBCF940, 0x32D86CE3, 0x45DF5C75, 0xDCD60DCF, 0xABD13D59 ]
  const ROW_3: seq<bv32> := [
    0x26D930AC, 0x51DE003A, 0xC8D75180, 0xBFD06116, 0x21B4F4B5, 0x56B3C423, 0xCFBA9599, 0xB8BDA50F,
    0x2802B89E, 0x5F058808, 0xC60CD9B2, 0xB10BE924, 0x2F6F7C87, 0x58684C11, 0xC1611DAB, 0xB6662D3D ]
  const ROW_4: seq<bv32> := [
    0x76DC4190, 0x01DB7106, 0x98D220BC, 0xEFD5102A, 0x71B18589, 0x06B6B51F, 0x9FBFE4A5, 0xE8B8D433,
    0x7807C9A2, 0x0F00F934, 0x9609A88E, 0xE10E9818, 0x7F6A0DBB, 0x086D3D2D, 0x91646C97, 0xE6635C01 ]
  const ROW_5: seq<bv32> := [
    0x6B6B51F4, 0x1C6C6162, 0x856530D8, 0xF262004E, 0x6C0695ED, 0x1B01A57B, 0x8208F4C1, 0xF50FC457,
    0x65B0D9C6, 0x12B7E950, 0x8BBEB8EA, 0xFCB9887C, 0x62DD1DDF, 0x15DA2D49, 0x8CD37CF3, 0xFBD44C65 ]
  const ROW_6: seq<bv32> := [
    0x4DB26158, 0x3AB551CE, 0xA3BC0074, 0xD4BB30E2, 0x4ADFA541, 0x3DD895D7, 0xA4D1C46D, 0xD3D6F4FB,
    0x4369E96A, 0x346ED9FC, 0xAD678846, 0xDA60B8D0, 0x44042D73, 0x33031DE5, 0xAA0A4C5F, 0xDD0D7CC9 ]
  const ROW_7: seq<bv32> := [
    0x5005713C, 0x270241AA, 0xBE0B1010, 0xC90C2086, 0x5768B525, 0x206F85B3, 0xB966D409, 0xCE61E49F,
    0x5EDEF90E, 0x29D9C998, 0xB0D09822, 0xC7D7A8B4, 0x59B33D17, 0x2EB40D81, 0xB7BD5C3B, 0xC0BA6CAD ]
  const ROW_8: seq<bv32> := [
    0xEDB88320, 0x9ABFB3B6, 0x03B6E20C, 0x74B1D29A, 0xEAD54739, 0x9DD277AF, 0x04DB2615, 0x73DC1683,
    0xE3630B12, 0x94643B84, 0x0D6D6A3E, 0x7A6A5AA8, 0xE40ECF0B, 0x9309FF9D, 0x0A00AE27, 0x7D079EB1 ]
  const ROW_9: seq<bv32> := [
    0xF00F9344, 0x8708A3D2, 0x1E01F268, 0x6906C2FE, 0xF762575D, 0x806567CB, 0x196C3671, 0x6E6B06E7,
    0xFED41B76, 0x89D32BE0, 0x10DA7A5A, 0x67DD4ACC, 0xF9B9DF6F, 0x8EBEEFF9, 0x17B7BE43, 0x60B08ED5 ]
  const ROW_A: seq<bv32> := [
    0xD6D6A3E8, 0xA1D1937E, 0x38D8C2C4, 0x4FDFF252, 0xD1BB67F1, 0xA6BC5767, 0x3FB506DD, 0x48B2364B,
    0xD80D2BDA, 0xAF0A1B4C, 0x36034AF6, 0x41047A60, 0xDF60EFC3, 0xA867DF55, 0x316E8EEF, 0x4669BE79 ]
  const ROW_B: seq<bv32> := [
    0xCB61B38C, 0xBC66831A, 0x256FD2A0, 0x5268E236, 0xCC0C7795, 0xBB0B4703, 0x220216B9, 0x5505262F,
    0xC5BA3BBE, 0xB2BD0B28, 0x2BB45A92, 0x5CB36A04, 0xC2D7FFA7, 0xB5D0CF31, 0x2CD99E8B, 0x5BDEAE1D ]
  const ROW_C: seq<bv32> := [
    0x9B64C2B0, 0xEC63F226, 0x756AA39C, 0x026D930A, 0x9C0906A9, 0xEB0E363F, 0x72076785, 0x05005713,
    0x95BF4A82, 0xE2B87A14, 0x7BB12BAE, 0x0CB61B38, 0x92D28E9B, 0xE5D5BE0D, 0x7CDCEFB7, 0x0BDBDF21 ]
  const ROW_D: seq<bv32> := [
    0x86D3D2D4, 0xF1D4E242, 0x68DDB3F8, 0x1FDA836E, 0x81BE16CD, 0xF6B9265B, 0x6FB077E1, 0x18B74777,
    0x88085AE6, 0xFF0F6A70, 0x66063BCA, 0x11010B5C, 0x8F659EFF, 0xF862AE69, 0x616BFFD3, 0x166CCF45 ]
  const ROW_E: seq<bv32> := [
    0xA00AE278, 0xD70DD2EE, 0x4E048354, 0x3903B3C2, 0xA7672661, 0xD06016F7, 0x4969474D, 0x3E6E77DB,
    0xAED16A4A, 0xD9D65ADC, 0x40DF0B66, 0x37D83BF0, 0xA9BCAE53, 0xDEBB9EC5, 0x47B2CF7F, 0x30B5FFE9 ]
  const ROW_F: seq<bv32> := [
    0xBDBDF21C, 0xCABAC28A, 0x53B39330, 0x24B4A3A6, 0xBAD03605, 0xCDD70693, 0x54DE5729, 0x23D967BF,
    0xB3667A2E, 0xC4614AB8, 0x5D681B02, 0x2A6F2B94, 0xB40BBE37, 0xC30C8EA1, 0x5A05DF1B, 0x2D02EF8D ]

  function Table(): (t: seq<bv32>)
    ensures |t| == 256
  {
    (((ROW_0 + ROW_1) + (ROW_2 + ROW_3)) + ((ROW_4 + ROW_5) + (ROW_6 + ROW_7))) +
    (((ROW_8 + ROW_9) + (ROW_A + ROW_B)) + ((ROW_C + ROW_D) + (ROW_E + ROW_F)))
  }

  // ----- the reference: one message bit at a time -----

  /** One step of the reflected shift register. */
  function Step(c: bv32): bv32 { if c & 1 == 1 then (c >> 1) ^ POLYNOMIAL else c >> 1 }

  /** One message bit enters at the low end. */
  function Feed(c: bv32, bit: bv32): bv32 { Step(c ^ bit) }

  /** The lowest `n` bits of `b` enter, from the least significant on. */
  function FeedBits(c: bv32, b: bv32, n: nat): bv32
    decreases n
  {
    if n == 0 then c else FeedBits(Feed(c, b & 1), b >> 1, n - 1)
  }

  function FeedAll(c: bv32, buffer: seq<bv8>): bv32 {
    if buffer == [] then c
    else FeedBits(FeedAll(c, buffer[..|buffer| - 1]), buffer[|buffer| - 1] as bv32, 8)
  }

  /** CRC-32 as section 8 of RFC 1952 defines it. */
  function Reference(buffer: seq<bv8>): bv32 { FeedAll(0xFFFF_FFFF, buffer) ^ 0xFFFF_FFFF }

  // ----- linearity -----

  // Exclusive or and the shifts have names so that the proofs below can treat them as plain functions.

  predicate Odd(a: bv32) { a & 1 == 1 }

  function Xor(a: bv32, b: bv32): bv32 { a ^ b }

  function Down1(a: bv32): bv32 { a >> 1 }

  function Down2(a: bv32): bv32 { a >> 2 }

  function Down4(a: bv32): bv32 { a >> 4 }

  function Down8(a: bv32): bv32 { a >> 8 }

  predicate Clear(a: bv32, mask: bv32) { a & mask == 0 }

  function Two(c: bv32): bv32 { Step(Step(c)) }

  function Four(c: bv32): bv32 { Two(Two(c)) }

  function Eight(c: bv32): bv32 { Four(Four(c)) }

  lemma OddXor(a: bv32, high: bv32)
    requires Clear(high, 1)
    ensures Odd(Xor(a, high)) == Odd(a)
  {
  }

  lemma XorDown(a: bv32, b: bv32)
    ensures Down1(Xor(a, b)) == Xor(Down1(a), Down1(b))
  {
  }

  lemma XorTwice(a: bv32, b: bv32, c: bv32)
    ensures Xor(Xor(a, b), c) == a ^ b ^ c
  {
  }

  lemma XorSwap(a: bv32, b: bv32, c: bv32)
    ensures Xor(Xor(a, b), c) == Xor(Xor(a, c), b)
  {
    hide Xor;
    XorTwice(a, b, c);
    XorTwice(a, c, b);
  }

  lemma StepIs(c: bv32)
    ensures Step(c) == if Odd(c) then Xor(Down1(c), POLYNOMIAL) else Down1(c)
  {
  }

  /** Bits above the lowest only move down. */
  lemma StepSplit(a: bv32, high: bv32)
    requires Clear(high, 1)
    ensures Step(Xor(a, high)) == Xor(Step(a), Down1(high))
  {
    hide Step, Odd, Xor, Down1, Clear;
    StepIs(a);
    StepIs(Xor(a, high));
    OddXor(a, high);
    XorDown(a, high);
    XorSwap(Down1(a), Down1(high), POLYNOMIAL);
  }

  lemma Shifted(high: bv32)
    ensures Clear(high, 3) ==> Clear(high, 1) && Clear(Down1(high), 1)
    ensures Clear(high, 0xF) ==> Clear(high, 3) && Clear(Down2(high), 3)
    ensures Clear(high, 0xFF) ==> Clear(high, 0xF) && Clear(Down4(high), 0xF)
    ensures Down1(Down1(high)) == Down2(high) && Down2(Down2(high)) == Down4(high) && Down4(Down4(high)) == Down8(high)
  {
  }

  lemma TwoSplit(a: bv32, high: bv32)
    requires Clear(high, 3)
    ensures Two(Xor(a, high)) == Xor(Two(a), Down2(high))
  {
    hide Step, Xor, Down1, Down2, Down4, Down8, Clear;
    Shifted(high);
    StepSplit(a, high);
    StepSplit(Step(a), Down1(high));
  }

  lemma FourSplit(a: bv32, high: bv32)
    requires Clear(high, 0xF)
    ensures Four(Xor(a, high)) == Xor(Four(a), Down4(high))
  {
    hide Two, Xor, Down1, Down2, Down4, Down8, Clear;
    Shifted(high);
    TwoSplit(a, high);
    TwoSplit(Two(a), Down2(high));
  }

  /** Bits above the lowest eight move down by eight places. */
  lemma EightSplit(a: bv32, high: bv32)
    requires Clear(high, 0xFF)
    ensures Eight(Xor(a, high)) == Xor(Eight(a), Down8(high))
  {
    hide Four, Xor, Down1, Down2, Down4, Down8, Clear;
    Shifted(high);
    FourSplit(a, high);
    FourSplit(Four(a), Down4(high));
  }

  // ----- a whole byte at once -----

  function Steps(c: bv32, n: nat): bv32
    decreases n
  {
    if n == 0 then c else Steps(Step(c), n - 1)
  }

  function DownBy(b: bv32, n: nat): bv32
    decreases n
  {
    if n == 0 then b else DownBy(Down1(b), n - 1)
  }

  lemma LowBit(c: bv32, b: bv32)
    ensures Xor(c, b) == Xor(Xor(c, b & 1), b & 0xFFFF_FFFE)
    ensures Clear(b & 0xFFFF_FFFE, 1) && Down1(b & 0xFFFF_FFFE) == Down1(b)
  {
  }

  /** Bits that enter later commute with the steps before, so all of them may enter first. */
  lemma {:induction false} EnterFirst(c: bv32, b: bv32, n: nat)
    ensures Steps(Xor(c, b), n) == Xor(FeedBits(c, b, n), DownBy(b, n))
    decreases n
  {
    if n > 0 {
      LowBit(c, b);
      StepSplit(Xor(c, b & 1), b & 0xFFFF_FFFE);
      assert Step(Xor(c, b & 1)) == Feed(c, b & 1);
      hide Step, Feed, Xor;
      EnterFirst(Feed(c, b & 1), Down1(b), n - 1);
    }
  }

  lemma EightSteps(c: bv32)
    ensures Steps(c, 8) == Eight(c)
  {
    hide Step;
    var c2 := Two(c);
    var c4 := Two(c2);
    var c6 := Two(c4);
    assert Steps(c, 8) == Steps(c2, 6);
    assert Steps(c2, 6) == Steps(c4, 4);
    assert Steps(c4, 4) == Steps(c6, 2);
    assert Steps(c6, 2) == Two(c6);
  }

  lemma ByteGone(b: bv32)
    requires b <= 0xFF
    ensures DownBy(b, 8) == 0
  {
    assert Down8(b) == 0;
    Shifted(b);
    var b2 := Down2(b);
    Shifted(b2);
    var b4 := Down4(b);
    Shifted(b4);
    var b6 := Down2(b4);
    Shifted(b6);
    hide Down1, Down2, Down4, Down8;
    assert DownBy(b, 8) == DownBy(b2, 6);
    assert DownBy(b2, 6) == DownBy(b4, 4);
    assert DownBy(b4, 4) == DownBy(b6, 2);
    assert DownBy(b6, 2) == Down2(b6);
  }

  /** The reference takes a byte by mixing it into the low end and stepping eight times. */
  lemma ByteAtOnce(c: bv32, b: bv32)
    requires b <= 0xFF
    ensures FeedBits(c, b, 8) == Eight(Xor(c, b))
  {
    ByteGone(b);
    EightSteps(Xor(c, b));
    EnterFirst(c, b, 8);
    hide FeedBits, DownBy, Steps, Eight;
  }

  // ----- the table -----

  lemma Row0(b: bv8)
    requires 0 <= b <= 15
    ensures Table()[b as int] == Eight(b as bv32)
  {
    if b == 0 {} else if b == 1 {} else if b == 2 {} else if b == 3 {} else if b == 4 {} else
    if b == 5 {} else if b == 6 {} else if b == 7 {} else if b == 8 {} else if b == 9 {} else
    if b == 10 {} else if b == 11 {} else if b == 12 {} else if b == 13 {} else if b == 14 {} else {}
  }

  lemma Row1(b: bv8)
    requires 16 <= b <= 31
    ensures Table()[b as int] == Eight(b as bv32)
  {
    if b == 16 {} else if b == 17 {} else if b == 18 {} else if b == 19 {} else if b == 20 {} else
    if b == 21 {} else if b == 22 {} else if b == 23 {} else if b == 24 {} else if b == 25 {} else
    if b == 26 {} else if b == 27 {} else if b == 28 {} else if b == 29 {} else if b == 30 {} else {}
  }

  lemma Row2(b: bv8)
    requires 32 <= b <= 47
    ensures Table()[b as int] == Eight(b as bv32)
  {
    if b == 32 {} else if b == 33 {} else if b == 34 {} else if b == 35 {} else if b == 36 {} else
    if b == 37 {} else if b == 38 {} else if b == 39 {} else if b == 40 {} else if b == 41 {} else
    if b == 42 {} else if b == 43 {} else if b == 44 {} else if b == 45 {} else if b == 46 {} else {}
  }

  lemma Row3(b: bv8)
    requires 48 <= b <= 63
    ensures Table()[b as int] == Eight(b as bv32)
  {
    if b == 48 {} else if b == 49 {} else if b == 50 {} else if b == 51 {} else if b == 52 {} else
    if b == 53 {} else if b == 54 {} else if b == 55 {} else if b == 56 {} else if b == 57 {} else
    if b == 58 {} else if b == 59 {} else if b == 60 {} else if b == 61 {} else if b == 62 {} else {}
  }

  lemma Row4(b: bv8)
    requires 64 <= b <= 79
    ensures Table()[b as int] == Eight(b as bv32)
  {
    if b == 64 {} else if b == 65 {} else if b == 66 {} else if b == 67 {} else if b == 68 {} else
    if b == 69 {} else if b == 70 {} else if b == 71 {} else if b == 72 {} else if b == 73 {} else
    if b == 74 {} else if b == 75 {} else if b == 76 {} else if b == 77 {} else if b == 78 {} else {}
  }

  lemma Row5(b: bv8)
    requires 80 <= b <= 95
    ensures Table()[b as int] == Eight(b as bv32)
  {
    if b == 80 {} else if b == 81 {} else if b == 82 {} else if b == 83 {} else if b == 84 {} else
    if b == 85 {} else if b == 86 {} else if b == 87 {} else if b == 88 {} else if b == 89 {} else
    if b == 90 {} else if b == 91 {} else if b == 92 {} else if b == 93 {} else if b == 94 {} else {}
  }

  lemma Row6(b: bv8)
    requires 96 <= b <= 111
    ensures Table()[b as int] == Eight(b as bv32)
  {
    if b == 96 {} else if b == 97 {} else if b == 98 {} else if b == 99 {} else if b == 100 {} else
    if b == 101 {} else if b == 102 {} else if b == 103 {} else if b == 104 {} else if b == 105 {} else
    if b == 106 {} else if b == 107 {} else if b == 108 {} else if b == 109 {} else if b == 110 {} else {}
  }

  lemma Row7(b: bv8)
    requires 112 <= b <= 127
    ensures Table()[b as int] == Eight(b as bv32)
  {
    if b == 112 {} else if b == 113 {} else if b == 114 {} else if b == 115 {} else if b == 116 {} else
    if b == 117 {} else if b == 118 {} else if b == 119 {} else if b == 120 {} else if b == 121 {} else
    if b == 122 {} else if b == 123 {} else if b == 124 {} else if b == 125 {} else if b == 126 {} else {}
  }

  lemma Row8(b: bv8)
    requires 128 <= b <= 143
    ensures Table()[b as int] == Eight(b as bv32)
  {
    if b == 128 {} else if b == 129 {} else if b == 130 {} else if b == 131 {} else if b == 132 {} else
    if b == 133 {} else if b == 134 {} else if b == 135 {} else if b == 136 {} else if b == 137 {} else
    if b == 138 {} else if b == 139 {} else if b == 140 {} else if b == 141 {} else if b == 142 {} else {}
  }

  lemma Row9(b: bv8)
    requires 144 <= b <= 159
    ensures Table()[b as int] == Eight(b as bv32)
  {
    if b == 144 {} else if b == 145 {} else if b == 146 {} else if b == 147 {} else if b == 148 {} else
    if b == 149 {} else if b == 150 {} else if b == 151 {} else if b == 152 {} else if b == 153 {} else
    if b == 154 {} else if b == 155 {} else if b == 156 {} else if b == 157 {} else if b == 158 {} else {}
  }

  lemma RowA(b: bv8)
    requires 160 <= b <= 175
    ensures Table()[b as int] == Eight(b as bv32)
  {
    if b == 160 {} else if b == 161 {} else if b == 162 {} else if b == 163 {} else if b == 164 {} else
    if b == 165 {} else if b == 166 {} else if b == 167 {} else if b == 168 {} else if b == 169 {} else
    if b == 170 {} else if b == 171 {} else if b == 172 {} else if b == 173 {} else if b == 174 {} else {}
  }

  lemma RowB(b: bv8)
    requires 176 <= b <= 191
    ensures Table()[b as int] == Eight(b as bv32)
  {
    if b == 176 {} else if b == 177 {} else if b == 178 {} else if b == 179 {} else if b == 180 {} else
    if b == 181 {} else if b == 182 {} else if b == 183 {} else if b == 184 {} else if b == 185 {} else
    if b == 186 {} else if b == 187 {} else if b == 188 {} else if b == 189 {} else if b == 190 {} else {}
  }

  lemma RowC(b: bv8)
    requires 192 <= b <= 207
    ensures Table()[b as int] == Eight(b as bv32)
  {
    if b == 192 {} else if b == 193 {} else if b == 194 {} else if b == 195 {} else if b == 196 {} else
    if b == 197 {} else if b == 198 {} else if b == 199 {} else if b == 200 {} else if b == 201 {} else
    if b == 202 {} else if b == 203 {} else if b == 204 {} else if b == 205 {} else if b == 206 {} else {}
  }

  lemma RowD(b: bv8)
    requires 208 <= b <= 223
    ensures Table()[b as int] == Eight(b as bv32)
  {
    if b == 208 {} else if b == 209 {} else if b == 210 {} else if b == 211 {} else if b == 212 {} else
    if b == 213 {} else if b == 214 {} else if b == 215 {} else if b == 216 {} else if b == 217 {} else
    if b == 218 {} else if b == 219 {} else if b == 220 {} else if b == 221 {} else if b == 222 {} else {}
  }

  lemma RowE(b: bv8)
    requires 224 <= b <= 239
    ensures Table()[b as int] == Eight(b as bv32)
  {
    if b == 224 {} else if b == 225 {} else if b == 226 {} else if b == 227 {} else if b == 228 {} else
    if b == 229 {} else if b == 230 {} else if b == 231 {} else if b == 232 {} else if b == 233 {} else
    if b == 234 {} else if b == 235 {} else if b == 236 {} else if b == 237 {} else if b == 238 {} else {}
  }

  lemma RowF(b: bv8)
    requires 240 <= b <= 255
    ensures Table()[b as int] == Eight(b as bv32)
  {
    if b == 240 {} else if b == 241 {} else if b == 242 {} else if b == 243 {} else if b == 244 {} else
    if b == 245 {} else if b == 246 {} else if b == 247 {} else if b == 248 {} else if b == 249 {} else
    if b == 250 {} else if b == 251 {} else if b == 252 {} else if b == 253 {} else if b == 254 {} else {}
  }

  /** Every entry is its index after eight steps. */
  lemma TableEntry(b: bv8)
    ensures Table()[b as int] == Eight(b as bv32)
  {
    hide Eight, Table;
    if b < 128 {
      if b < 16 { Row0(b); } else if b < 32 { Row1(b); } else if b < 48 { Row2(b); } else if b < 64 { Row3(b); }
      else if b < 80 { Row4(b); } else if b < 96 { Row5(b); } else if b < 112 { Row6(b); } else { Row7(b); }
    } else {
      if b < 144 { Row8(b); } else if b < 160 { Row9(b); } else if b < 176 { RowA(b); } else if b < 192 { RowB(b); }
      else if b < 208 { RowC(b); } else if b < 224 { RowD(b); } else if b < 240 { RowE(b); } else { RowF(b); }
    }
  }

  /** The low byte of the register, with the message byte mixed in. */
  function Index(crc: bv32, byte: bv8): bv8 { ((crc & 0xFF) as bv8) ^ byte }

  /** One turn of the loop in crc32_calculate_buffer. */
  function TableStep(crc: bv32, byte: bv8): bv32 { Xor(Table()[Index(crc, byte) as int], Down8(crc)) }

  lemma IndexBits(crc: bv32, byte: bv8)
    ensures var high := crc & 0xFFFF_FF00;
      Xor(crc, byte as bv32) == Xor(Index(crc, byte) as bv32, high) && Clear(high, 0xFF) && Down8(high) == Down8(crc)
  {
  }

  /** Looking a byte up is the same as feeding its eight bits. */
  lemma TableStepFeeds(crc: bv32, byte: bv8)
    ensures TableStep(crc, byte) == FeedBits(crc, byte as bv32, 8)
  {
    hide Table, Eight, Clear, FeedBits, Index, Xor, Down8;
    var i := Index(crc, byte);
    TableEntry(i);
    IndexBits(crc, byte);
    EightSplit(i as bv32, crc & 0xFFFF_FF00);
    ByteAtOnce(crc, byte as bv32);
  }

  /** crc32_calculate_buffer */
  method CalculateBuffer(buffer: seq<bv8>) returns (crc: bv32)
    ensures crc == Reference(buffer)
  {
    hide FeedBits, TableStep;
    crc := 0xFFFF_FFFF;
    for i := 0 to |buffer|
      invariant crc == FeedAll(0xFFFF_FFFF, buffer[..i])
    {
      assert buffer[..i + 1][..i] == buffer[..i];
      TableStepFeeds(crc, buffer[i]);
      crc := TableStep(crc, buffer[i]);
    }
    assert buffer[..|buffer|] == buffer;
    crc := crc ^ 0xFFFF_FFFF;
  }

  // ----- what a receiver checks -----

  function LowByte(w: bv32): bv8 { (w & 0xFF) as bv8 }

  function Wide(b: bv8): bv32 { b as bv32 }

  /** The bytes of a checksum as they are stored behind the data, the lowest first. */
  function StoredBytes(w: bv32): seq<bv8> {
    [LowByte(w), LowByte(Down8(w)), LowByte(Down8(Down8(w))), LowByte(Down8(Down8(Down8(w))))]
  }

  /** The byte that makes the low end of `h` all ones. */
  function Filler(h: bv32): bv32 { (h ^ 0xFFFF_FFFF) & 0xFF }

  function Upper(h: bv32): bv32 { h & 0xFFFF_FF00 }

  lemma FilledLow(h: bv32)
    ensures Xor(h, Filler(h)) == Xor(0xFF, Upper(h)) && Filler(h) <= 0xFF
    ensures Clear(Upper(h), 0xFF) && Down8(Upper(h)) == Down8(h)
  {
  }

  lemma XorGroup(a: bv32, b: bv32, c: bv32)
    ensures Xor(Xor(a, b), c) == Xor(a, Xor(b, c))
  {
  }

  /** One stored byte: what was the data moves down by a byte, and the rest does not depend on it. */
  lemma FillerStep(k: bv32, h: bv32)
    ensures FeedBits(Xor(k, h), Filler(h), 8) == Xor(Eight(Xor(k, 0xFF)), Down8(h))
  {
    hide FeedBits, Eight, Xor, Filler, Upper, Down8, Clear;
    FilledLow(h);
    ByteAtOnce(Xor(k, h), Filler(h));
    XorGroup(k, h, Filler(h));
    XorGroup(k, 0xFF, Upper(h));
    EightSplit(Xor(k, 0xFF), Upper(h));
  }

  lemma LowFiller(h: bv32, ones: bv32)
    requires ones & 0xFF == 0xFF
    ensures Wide(LowByte(Xor(h, ones))) == Filler(h)
  {
  }

  lemma DownXor(a: bv32, b: bv32)
    ensures Down8(Xor(a, b)) == Xor(Down8(a), Down8(b))
  {
  }

  lemma DownFour(c: bv32)
    ensures Down8(Down8(Down8(Down8(c)))) == 0
  {
  }

  lemma DownOnes()
    ensures Down8(0xFFFF_FFFF) == 0x00FF_FFFF && Down8(0x00FF_FFFF) == 0xFFFF && Down8(0xFFFF) == 0xFF
  {
  }

  /** The stored bytes fill up the low ends one after the other. */
  lemma Fillers(c: bv32)
    ensures var s, h1 := StoredBytes(Xor(c, 0xFFFF_FFFF)), Down8(c);
            var h2 := Down8(h1);
            && |s| == 4 && Wide(s[0]) == Filler(c) && Wide(s[1]) == Filler(h1)
            && Wide(s[2]) == Filler(h2) && Wide(s[3]) == Filler(Down8(h2))
  {
    hide Xor, Down8, Filler, LowByte, Wide;
    DownOnes();
    var h1 := Down8(c);
    var h2 := Down8(h1);
    DownXor(c, 0xFFFF_FFFF);
    DownXor(h1, 0x00FF_FFFF);
    DownXor(h2, 0xFFFF);
    LowFiller(c, 0xFFFF_FFFF);
    LowFiller(h1, 0x00FF_FFFF);
    LowFiller(h2, 0xFFFF);
    LowFiller(Down8(h2), 0xFF);
  }

  lemma FillerConstants()
    ensures Eight(Xor(0, 0xFF)) == 0x2D02_EF8D && Eight(Xor(0x2D02_EF8D, 0xFF)) == 0xBE26_12FF
    ensures Eight(Xor(0xBE26_12FF, 0xFF)) == 0x00BE_2612 && Eight(Xor(0x00BE_2612, 0xFF)) == 0xDEBB_20E3
  {
  }

  lemma FeedNext(c: bv32, s: seq<bv8>, n: nat)
    requires n < |s|
    ensures FeedAll(c, s[..n + 1]) == FeedBits(FeedAll(c, s[..n]), Wide(s[n]), 8)
  {
    hide FeedBits;
    assert s[..n + 1][..n] == s[..n];
  }

  lemma FeedNone(c: bv32, s: seq<bv8>)
    ensures FeedAll(c, s[..0]) == c && s[..|s|] == s
  {
  }

  lemma FeedFour(c: bv32, s: seq<bv8>)
    requires |s| == 4
    ensures var c1 := FeedBits(c, Wide(s[0]), 8);
            var c2 := FeedBits(c1, Wide(s[1]), 8);
            FeedAll(c, s) == FeedBits(FeedBits(c2, Wide(s[2]), 8), Wide(s[3]), 8)
  {
    hide FeedBits, FeedAll, Wide;
    FeedNone(c, s);
    FeedNext(c, s, 0);
    FeedNext(c, s, 1);
    FeedNext(c, s, 2);
    FeedNext(c, s, 3);
  }

  lemma {:induction false} FeedJoin(c: bv32, a: seq<bv8>, b: seq<bv8>)
    ensures FeedAll(c, a + b) == FeedAll(FeedAll(c, a), b)
    decreases |b|
  {
    hide FeedBits;
    if b == [] {
      assert a + b == a;
    } else {
      var front := b[..|b| - 1];
      FeedJoin(c, a, front);
      assert (a + b)[..|a + b| - 1] == a + front;
    }
  }

  /** The register after any data and its own checksum. */
  lemma FillUp(c: bv32)
    ensures FeedAll(c, StoredBytes(Xor(c, 0xFFFF_FFFF))) == 0xDEBB_20E3
  {
    hide FeedBits, FeedAll, Eight, Xor, Filler, Down8, StoredBytes, Wide;
    Fillers(c);
    FillerConstants();
    FeedFour(c, StoredBytes(Xor(c, 0xFFFF_FFFF)));
    XorZero(c);
    FillerStep(0, c);
    FillerStep(0x2D02_EF8D, Down8(c));
    FillerStep(0xBE26_12FF, Down8(Down8(c)));
    FillerStep(0x00BE_2612, Down8(Down8(Down8(c))));
    DownFour(c);
    XorZero(0xDEBB_20E3);
  }

  lemma XorZero(a: bv32)
    ensures Xor(a, 0) == a && Xor(0, a) == a
  {
  }

  lemma ReferenceIs(buffer: seq<bv8>)
    ensures Reference(buffer) == Xor(FeedAll(0xFFFF_FFFF, buffer), 0xFFFF_FFFF)
  {
    hide FeedAll;
  }

  lemma ResidueConstant()
    ensures Xor(0xDEBB_20E3, 0xFFFF_FFFF) == 0x2144_DF1C
  {
  }

  /** The residue law: data followed by its own checksum has one and the same checksum, whatever the data. */
  lemma Residue(buffer: seq<bv8>)
    ensures Reference(buffer + StoredBytes(Reference(buffer))) == 0x2144_DF1C
  {
    hide Reference, FeedAll, StoredBytes, Xor;
    var c, s := FeedAll(0xFFFF_FFFF, buffer), StoredBytes(Reference(buffer));
    ReferenceIs(buffer);
    ReferenceIs(buffer + s);
    FeedJoin(0xFFFF_FFFF, buffer, s);
    FillUp(c);
    ResidueConstant();
  }

  const DIGITS: seq<bv8> := [0x31, 0x32, 0x33, 0x34, 0x35, 0x36, 0x37, 0x38, 0x39]

  lemma FeedByte(c: bv32, s: seq<bv8>, n: nat)
    requires n < |s|
    ensures FeedAll(c, s[..n + 1]) == Eight(Xor(FeedAll(c, s[..n]), Wide(s[n])))
  {
    hide FeedBits, Eight, FeedAll, Xor, Wide;
    FeedNext(c, s, n);
    WideByte(s[n]);
    ByteAtOnce(FeedAll(c, s[..n]), Wide(s[n]));
  }

  lemma WideByte(b: bv8)
    ensures Wide(b) <= 0xFF
  {
  }

  lemma DigitSteps()
    ensures Eight(0xFFFF_FFCE) == 0x7C23_1048 && Eight(0x7C23_107A) == 0xB0AC_BB32 && Eight(0xB0AC_BB01) == 0x77B7_9C2D
    ensures Eight(0x77B7_9C19) == 0x641C_1F5C && Eight(0x641C_1F69) == 0x340A_C5E3 && Eight(0x340A_C5D5) == 0xF68D_2C9E
    ensures Eight(0xF68D_2CA9) == 0xAFFC_9660 && Eight(0xAFFC_9658) == 0x651F_2550 && Eight(0x651F_2569) == 0x340B_C6D9
  {
  }

  lemma DigitMixes()
    ensures Xor(0xFFFF_FFFF, 0x31) == 0xFFFF_FFCE && Xor(0x7C23_1048, 0x32) == 0x7C23_107A
    ensures Xor(0xB0AC_BB32, 0x33) == 0xB0AC_BB01 && Xor(0x77B7_9C2D, 0x34) == 0x77B7_9C19
    ensures Xor(0x641C_1F5C, 0x35) == 0x641C_1F69 && Xor(0x340A_C5E3, 0x36) == 0x340A_C5D5
    ensures Xor(0xF68D_2C9E, 0x37) == 0xF68D_2CA9 && Xor(0xAFFC_9660, 0x38) == 0xAFFC_9658
    ensures Xor(0x651F_2550, 0x39) == 0x651F_2569
  {
  }

  lemma FirstDigits(s: seq<bv8>)
    requires |s| >= 4 && Wide(s[0]) == 0x31 && Wide(s[1]) == 0x32 && Wide(s[2]) == 0x33 && Wide(s[3]) == 0x34
    ensures FeedAll(0xFFFF_FFFF, s[..4]) == 0x641C_1F5C
  {
    hide Eight, FeedBits, FeedAll, Xor, Wide;
    DigitSteps();
    DigitMixes();
    FeedNone(0xFFFF_FFFF, s);
    FeedByte(0xFFFF_FFFF, s, 0);
    FeedByte(0xFFFF_FFFF, s, 1);
    FeedByte(0xFFFF_FFFF, s, 2);
    FeedByte(0xFFFF_FFFF, s, 3);
  }

  lemma LastDigits(s: seq<bv8>)
    requires |s| == 9 && FeedAll(0xFFFF_FFFF, s[..4]) == 0x641C_1F5C
    requires Wide(s[4]) == 0x35 && Wide(s[5]) == 0x36 && Wide(s[6]) == 0x37 && Wide(s[7]) == 0x38 && Wide(s[8]) == 0x39
    ensures FeedAll(0xFFFF_FFFF, s) == 0x340B_C6D9
  {
    hide Eight, FeedBits, FeedAll, Xor, Wide;
    DigitSteps();
    DigitMixes();
    FeedNone(0xFFFF_FFFF, s);
    FeedByte(0xFFFF_FFFF, s, 4);
    FeedByte(0xFFFF_FFFF, s, 5);
    FeedByte(0xFFFF_FFFF, s, 6);
    FeedByte(0xFFFF_FFFF, s, 7);
    FeedByte(0xFFFF_FFFF, s, 8);
  }

  /** The check value of CRC-32: the nine digits "123456789". */
  lemma CheckValue()
    ensures Reference(DIGITS) == 0xCBF4_3926
  {
    hide FeedAll;
    FirstDigits(DIGITS);
    LastDigits(DIGITS);
  }
}
