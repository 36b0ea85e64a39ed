/**
 * The lane arithmetic of the vector kernels (rcnb_encode_32n_asm and
 * rcnb_decode_32n_asm for SSSE3, AVX2 and NEON).
 *
 * A kernel works on 16-bit lanes, one plaintext unit or one symbol per
 * lane.  Every build computes the same value in each lane, whatever the
 * unpack, permute and interleave steps that move lanes between registers;
 * this module states that value for one lane and proves it equal to what
 * the scalar codec computes.  Lane operations wrap modulo 2^16 as the
 * 16-bit vector instructions do.
 */
module Lanes {
  import opened Alphabet
  import opened UnitCodec
  import opened Stream

  /** A 16-bit vector lane. */
  type Lane = x: int | 0 <= x < 0x1_0000

  /** Low half of the product of two lanes (_mm_mullo_epi16, vmulq_n_u16). */
  function MulLo(a: int, k: int): Lane
  {
    a * k % 0x1_0000
  }

  /**
   * High half of the 32-bit product of two lanes (_mm_mulhi_epu16; on NEON
   * a widening vmull_n_u16 whose high halves vuzp2q_u16 keeps).
   */
  function MulHi(a: int, k: int): int
  {
    a * k / 0x1_0000
  }

  /** Lane addition, wrapping modulo 2^16 (_mm_add_epi16; the accumulate of vmlaq_n_u16). */
  function Add16(a: int, b: int): Lane
  {
    (a + b) % 0x1_0000
  }

  /** Lane subtraction, wrapping modulo 2^16 (_mm_sub_epi16, vsubq_u16). */
  function Sub16(a: int, b: int): Lane
  {
    (a - b) % 0x1_0000
  }

  /**
   * The encoders' division of a 15-bit lane into its digits by reciprocal
   * multiplication: i / 2250 is (i * 59653) >> 27, a remainder below 2250
   * divided by 150 is (m * 55925) >> 23, and one below 150 divided by 10 is
   * (m * 52429) >> 19; each remainder is the lane minus the weighted digits
   * found so far.  The x86 sources write the multipliers as the signed
   * 16-bit constants -5883, -9611 and -13107.
   *
   * The digits are exactly those of ordinary division, so every table
   * index is in range.
   */
  function LaneR(x: Lane): int
  {
    MulHi(x, 59653) / 0x800
  }

  /**
   * The lane's R and C digits weighted, as the lane keeps them: 2250 r + 150 c
   * (the c_mul_150 vector, an _mm_add_epi16 of two _mm_mullo_epi16 products).
   */
  function LaneRC(x: Lane): Lane
  {
    Add16(MulLo(LaneR(x), 2250), MulLo(LaneC(x), 150))
  }

  function LaneC(x: Lane): int
  {
    MulHi(Sub16(x, MulLo(LaneR(x), 2250)), 55925) / 0x80
  }

  function LaneN(x: Lane): int
  {
    MulHi(Sub16(x, LaneRC(x)), 52429) / 0x8
  }

  function LaneB(x: Lane): int
  {
    Sub16(x, Add16(LaneRC(x), MulLo(LaneN(x), 10)))
  }

  /**
   * The reciprocal division of a 15-bit lane gives exactly the digits of
   * ordinary division, so every table index is in range.
   */
  lemma SplitLaneDigits(x: Lane)
    requires x <= 0x7FFF
    ensures LaneR(x) == x / 2250 && LaneC(x) == x % 2250 / 150
    ensures LaneN(x) == x % 150 / 10 && LaneB(x) == x % 10
  {
    var r := MulHi(x, 59653) / 0x800;
    Reciprocal2250(x);
    var rm := MulLo(r, 2250);
    var m := Sub16(x, rm);
    RemainderLane(x, r, 2250, rm, m);
    var c := MulHi(m, 55925) / 0x80;
    Reciprocal150(m);
    var cm := Add16(rm, MulLo(c, 150));
    var m2 := Sub16(x, cm);
    NextRemainder(x, rm, c, 150, cm, m, m2);
    var n := MulHi(m2, 52429) / 0x8;
    Reciprocal10(m2);
    var nm := Add16(cm, MulLo(n, 10));
    var b := Sub16(x, nm);
    NextRemainder(x, cm, n, 10, nm, m2, b);
    assert LaneR(x) == r && LaneC(x) == c && LaneRC(x) == cm && LaneN(x) == n && LaneB(x) == b;
    ValueDigits(r, c, n, b, x);
  }

  /** The lane minus its first weighted digit is the first remainder, with no wrap-around. */
  lemma RemainderLane(x: int, q: int, w: int, p: int, m: int)
    requires 0 <= x <= 0x7FFF && w == 2250 && q == x / w && q < SR
    requires p == MulLo(q, w) && m == Sub16(x, p)
    ensures p == q * w && m == x % w
  {
  }

  /** Subtracting one more weighted digit gives the next remainder, with no wrap-around. */
  lemma NextRemainder(x: int, p: int, q: int, w: int, p2: int, m: int, m2: int)
    requires w == 150 || w == 10
    requires 0 <= p <= x <= 0x7FFF && m == x - p && 0 <= m < 15 * w
    requires q == m / w && p2 == Add16(p, MulLo(q, w)) && m2 == Sub16(x, p2)
    ensures p2 == p + q * w && m2 == m % w
  {
  }

  /** (i * 59653) >> 27 is i / 2250 for every 15-bit i: the error term stays below 2^27. */
  lemma Reciprocal2250(x: int)
    requires 0 <= x <= 0x7FFF
    ensures MulHi(x, 59653) / 0x800 == x / 2250
    ensures x / 2250 < SR && x % 2250 == x - x / 2250 * 2250
  {
    var q, m := x / 2250, x % 2250;
    var e := q * 1522 + m * 59653;
    assert x * 59653 == q * 0x800_0000 + e;
    HighThenShift(x * 59653, q, e, 0x800);
  }

  /** (m * 55925) >> 23 is m / 150 for every m below 2250. */
  lemma Reciprocal150(x: int)
    requires 0 <= x < 2250
    ensures MulHi(x, 55925) / 0x80 == x / 150
    ensures x / 150 < SC && x % 150 == x - x / 150 * 150
  {
    var q, m := x / 150, x % 150;
    var e := q * 142 + m * 55925;
    assert x * 55925 == q * 0x80_0000 + e;
    HighThenShift(x * 55925, q, e, 0x80);
  }

  /** (m * 52429) >> 19 is m / 10 for every m below 150. */
  lemma Reciprocal10(x: int)
    requires 0 <= x < 150
    ensures MulHi(x, 52429) / 0x8 == x / 10
    ensures x / 10 < SN && x % 10 == x - x / 10 * 10
  {
    var q, m := x / 10, x % 10;
    var e := q * 2 + m * 52429;
    assert x * 52429 == q * 0x8_0000 + e;
    HighThenShift(x * 52429, q, e, 0x8);
  }

  /** Taking the high half and then shifting right is one shift of the whole product. */
  lemma HighThenShift(p: int, q: int, e: int, d: int)
    requires d == 0x800 || d == 0x80 || d == 0x8
    requires q >= 0 && 0 <= e < 0x1_0000 * d && p == q * (0x1_0000 * d) + e
    ensures p / 0x1_0000 / d == q
  {
    var h := q * d + e / 0x1_0000;
    assert p == h * 0x1_0000 + e % 0x1_0000;
    assert p / 0x1_0000 == h;
    assert e / 0x1_0000 < d;
  }

  /**
   * The encoders' lo/hi byte tables (rc_lo, rc_hi, nb_lo, nb_hi on x86;
   * r_lo ... b_hi on NEON), entry by entry: a symbol is lo + 256 * hi.
   * Entries past a class's size are zero.
   */
  /** A high byte of an encode table: every symbol is below 0x300. */
  type HighByte = x: int | 0 <= x <= 2

  function RLo(k: int): Byte
  {
    match k
    case 0 => 114 case 1 => 82 case 2 => 84 case 3 => 85 case 4 => 86 case 5 => 87
    case 6 => 88 case 7 => 89 case 8 => 166 case 9 => 16 case 10 => 17 case 11 => 18
    case 12 => 19 case 13 => 76 case 14 => 77 case _ => 0
  }

  function CLo(k: int): Byte
  {
    match k
    case 0 => 99 case 1 => 67 case 2 => 6 case 3 => 7 case 4 => 8 case 5 => 9
    case 6 => 10 case 7 => 11 case 8 => 12 case 9 => 13 case 10 => 135
    case 11 => 136 case 12 => 199 case 13 => 59 case 14 => 60 case _ => 0
  }

  function NLo(k: int): Byte
  {
    match k
    case 0 => 110 case 1 => 78 case 2 => 67 case 3 => 68 case 4 => 69 case 5 => 70
    case 6 => 71 case 7 => 72 case 8 => 157 case 9 => 158 case 10 => 209
    case 11 => 248 case 12 => 249 case 13 => 32 case 14 => 53 case _ => 0
  }

  function BLo(k: int): Byte
  {
    match k
    case 0 => 98 case 1 => 66 case 2 => 128 case 3 => 129 case 4 => 131
    case 5 => 132 case 6 => 133 case 7 => 223 case 8 => 222 case 9 => 254
    case _ => 0
  }

  function RHi(k: int): HighByte
  {
    match k
    case 2 => 1 case 3 => 1 case 4 => 1 case 5 => 1 case 6 => 1 case 7 => 1
    case 8 => 1 case 9 => 2 case 10 => 2 case 11 => 2 case 12 => 2 case 13 => 2
    case 14 => 2 case _ => 0
  }

  function CHi(k: int): HighByte
  {
    match k
    case 2 => 1 case 3 => 1 case 4 => 1 case 5 => 1 case 6 => 1 case 7 => 1
    case 8 => 1 case 9 => 1 case 10 => 1 case 11 => 1 case 13 => 2 case 14 => 2
    case _ => 0
  }

  function NHi(k: int): HighByte
  {
    match k
    case 2 => 1 case 3 => 1 case 4 => 1 case 5 => 1 case 6 => 1 case 7 => 1
    case 8 => 1 case 9 => 1 case 11 => 1 case 12 => 1 case 13 => 2 case 14 => 2
    case _ => 0
  }

  function BHi(k: int): HighByte
  {
    match k
    case 2 => 1 case 3 => 1 case 4 => 1 case 5 => 1 case 6 => 1 case _ => 0
  }

  /** The symbol of a lane holding lo in its low byte and hi in its high byte. */
  function TableSymbol(lo: Byte, hi: HighByte): (x: char)
    ensures x as int < 0x300
  {
    (lo + 0x100 * hi) as char
  }

  /** rc_lo.first and rc_hi.first rebuild class R, entry by entry. */
  lemma RTablesRebuild()
    ensures forall k | 0 <= k < SR :: TableSymbol(RLo(k), RHi(k)) == CR[k]
  {
  }

  /** rc_lo.second and rc_hi.second rebuild class C, entry by entry. */
  lemma CTablesRebuild()
    ensures forall k | 0 <= k < SC :: TableSymbol(CLo(k), CHi(k)) == CC[k]
  {
  }

  /** nb_lo.first and nb_hi.first rebuild class N, entry by entry. */
  lemma NTablesRebuild()
    ensures forall k | 0 <= k < SN :: TableSymbol(NLo(k), NHi(k)) == CN[k]
  {
  }

  /** nb_lo.second and nb_hi.second rebuild class B, entry by entry. */
  lemma BTablesRebuild()
    ensures forall k | 0 <= k < SB :: TableSymbol(BLo(k), BHi(k)) == CB[k]
  {
  }

  /**
   * One lane of the encode kernel.  The swizzle (vrev16q on NEON) makes the
   * first plaintext byte the high byte of the lane; the arithmetic shift
   * right by 15 is all ones exactly when bit 15 is set, and the lane is
   * masked with 0x7fff before it is divided into digits.  The digits index
   * the lo/hi tables, and the blend on the sign puts the N B pair first in
   * a negative lane and the R C pair first in any other.
   */
  function EncodeLane(first: Byte, second: Byte): (g: seq<char>)
    ensures |g| == 4
  {
    var u := Unit(first, second);
    var negative := u >= 0x8000;
    var v := u % 0x8000;
    SplitLaneDigits(v);
    RTablesRebuild();
    CTablesRebuild();
    NTablesRebuild();
    BTablesRebuild();
    var r := TableSymbol(RLo(LaneR(v)), RHi(LaneR(v)));
    var c := TableSymbol(CLo(LaneC(v)), CHi(LaneC(v)));
    var n := TableSymbol(NLo(LaneN(v)), NHi(LaneN(v)));
    var b := TableSymbol(BLo(LaneB(v)), BHi(LaneB(v)));
    if negative then [n, b, r, c] else [r, c, n, b]
  }

  /** Every encode lane writes exactly the scalar encoder's group for its unit. */
  lemma EncodeLaneAgrees(first: Byte, second: Byte)
    ensures EncodeLane(first, second) == EncodeUnit(Unit(first, second))
  {
    var u := Unit(first, second);
    var v := u % 0x8000;
    SplitLaneDigits(v);
    RTablesRebuild();
    CTablesRebuild();
    NTablesRebuild();
    BTablesRebuild();
    DigitsOfValue(v);
    assert TableSymbol(RLo(v / 2250), RHi(v / 2250)) == CR[v / 2250];
    assert TableSymbol(CLo(v % 2250 / 150), CHi(v % 2250 / 150)) == CC[v % 2250 / 150];
    assert TableSymbol(NLo(v % 150 / 10), NHi(v % 150 / 10)) == CN[v % 150 / 10];
    assert TableSymbol(BLo(v % 10), BHi(v % 10)) == CB[v % 10];
  }

  /** A slot of a sixteen-entry shuffle table. */
  type Slot = x: int | 0 <= x < 16

  /**
   * The decoders' perfect-hash tables (s_tbl, rc_tbl, nb_tbl on x86;
   * s_tbl, r_tbl ... b_tbl on NEON), slot by slot.  s_tbl tells the
   * orientation from the first symbol of a group; the others give a
   * symbol's index in its class, and 255 marks a slot no symbol of the
   * class hashes to.
   */
  function STbl(s: Slot): int
  {
    match s
    case 2 => 255 case 3 => 255 case 4 => 255 case 6 => 255
    case _ => 0
  }

  function RTbl(s: Slot): int
  {
    match s
    case 0 => 14 case 1 => 8 case 2 => 0 case 3 => 255 case 4 => 2 case 5 => 3
    case 6 => 4 case 7 => 5 case 8 => 6 case 9 => 7 case 10 => 9 case 11 => 10
    case 12 => 11 case 13 => 1 case 14 => 12 case _ => 13
  }

  function CTbl(s: Slot): int
  {
    match s
    case 0 => 13 case 1 => 3 case 2 => 9 case 3 => 14 case 4 => 4 case 5 => 0
    case 6 => 5 case 7 => 255 case 8 => 10 case 9 => 6 case 10 => 11 case 11 => 1
    case 12 => 7 case 13 => 12 case 14 => 2 case _ => 8
  }

  function NTbl(s: Slot): int
  {
    match s
    case 0 => 10 case 1 => 3 case 2 => 255 case 3 => 4 case 4 => 8 case 5 => 0
    case 6 => 5 case 7 => 9 case 8 => 6 case 9 => 1 case 10 => 7 case 11 => 13
    case 12 => 11 case 13 => 14 case 14 => 2 case _ => 12
  }

  function BTbl(s: Slot): int
  {
    match s
    case 0 => 2 case 1 => 3 case 2 => 255 case 3 => 255 case 4 => 4 case 5 => 255
    case 6 => 5 case 7 => 6 case 8 => 8 case 9 => 7 case 10 => 255 case 11 => 1
    case 12 => 9 case 13 => 255 case 14 => 255 case _ => 0
  }

  /** The 16-bit code unit of a symbol, as the kernels load it. */
  function CodeUnit(x: char): Lane
  {
    x as int % 0x1_0000
  }

  /** Slot of the orientation table: ((c * 2117) mod 2^16) >> 13. */
  function SignSlot(x: Lane): (k: Slot)
    ensures k < 8
  {
    MulLo(x, 2117) / 0x2000
  }

  /** Slot of a class table: ((c * k) mod 2^16) >> 12, with k 4675, 11482 or 9726 for R, C, N. */
  function HashSlot(x: Lane, k: Lane): Slot
  {
    MulLo(x, k) / 0x1000
  }

  /** Slot of the B table: (c + (c >> 1) + (c >> 3)) & 15. */
  function BSlot(x: Lane): Slot
  {
    Add16(x, Add16(x / 2, x / 8)) % 16
  }

  /** The code unit of the k-th symbol of each class, as the decoders load it. */
  function RUnit(k: int): Lane
  {
    match k
    case 0 => 0x72 case 1 => 0x52 case 2 => 0x154 case 3 => 0x155 case 4 => 0x156
    case 5 => 0x157 case 6 => 0x158 case 7 => 0x159 case 8 => 0x1A6 case 9 => 0x210
    case 10 => 0x211 case 11 => 0x212 case 12 => 0x213 case 13 => 0x24C case _ => 0x24D
  }

  function CUnit(k: int): Lane
  {
    match k
    case 0 => 0x63 case 1 => 0x43 case 2 => 0x106 case 3 => 0x107 case 4 => 0x108
    case 5 => 0x109 case 6 => 0x10A case 7 => 0x10B case 8 => 0x10C case 9 => 0x10D
    case 10 => 0x187 case 11 => 0x188 case 12 => 0xC7 case 13 => 0x23B case _ => 0x23C
  }

  function NUnit(k: int): Lane
  {
    match k
    case 0 => 0x6E case 1 => 0x4E case 2 => 0x143 case 3 => 0x144 case 4 => 0x145
    case 5 => 0x146 case 6 => 0x147 case 7 => 0x148 case 8 => 0x19D case 9 => 0x19E
    case 10 => 0xD1 case 11 => 0x1F8 case 12 => 0x1F9 case 13 => 0x220 case _ => 0x235
  }

  function BUnit(k: int): Lane
  {
    match k
    case 0 => 0x62 case 1 => 0x42 case 2 => 0x180 case 3 => 0x181 case 4 => 0x183
    case 5 => 0x184 case 6 => 0x185 case 7 => 0xDF case 8 => 0xDE case _ => 0xFE
  }

  /** The code-unit tables above list the alphabet's symbols. */
  lemma Units()
    ensures forall k | 0 <= k < SR :: CodeUnit(CR[k]) == RUnit(k)
    ensures forall k | 0 <= k < SC :: CodeUnit(CC[k]) == CUnit(k)
    ensures forall k | 0 <= k < SN :: CodeUnit(CN[k]) == NUnit(k)
    ensures forall k | 0 <= k < SB :: CodeUnit(CB[k]) == BUnit(k)
  {
    UnitsR();
    UnitsC();
    UnitsN();
    UnitsB();
  }

  lemma UnitsR() ensures forall k | 0 <= k < SR :: CodeUnit(CR[k]) == RUnit(k) {}
  lemma UnitsC() ensures forall k | 0 <= k < SC :: CodeUnit(CC[k]) == CUnit(k) {}
  lemma UnitsN() ensures forall k | 0 <= k < SN :: CodeUnit(CN[k]) == NUnit(k) {}
  lemma UnitsB() ensures forall k | 0 <= k < SB :: CodeUnit(CB[k]) == BUnit(k) {}

  lemma SignsR() ensures forall k | 0 <= k < SR :: STbl(SignSlot(RUnit(k))) == 0 {}
  lemma SignsN() ensures forall k | 0 <= k < SN :: STbl(SignSlot(NUnit(k))) == 255 {}
  lemma HashesR() ensures forall k | 0 <= k < SR :: RTbl(HashSlot(RUnit(k), 4675)) == k {}
  lemma HashesC() ensures forall k | 0 <= k < SC :: CTbl(HashSlot(CUnit(k), 11482)) == k {}
  lemma HashesN() ensures forall k | 0 <= k < SN :: NTbl(HashSlot(NUnit(k), 9726)) == k {}
  lemma HashesBLow() ensures forall k | 0 <= k < 5 :: BTbl(MaskedSum(BUnit(k))) == k {}
  lemma HashesBHigh() ensures forall k | 5 <= k < SB :: BTbl(MaskedSum(BUnit(k))) == k {}

  /** (c + (c >> 1) + (c >> 3)) & 15 without the lane's wrap-around. */
  function MaskedSum(x: Lane): Slot
  {
    (x + x / 2 + x / 8) % 16
  }

  /** The 16-bit wrap-around of the lane additions does not reach the four bits kept. */
  lemma BSlotIgnoresWrap(x: Lane)
    ensures BSlot(x) == MaskedSum(x)
  {
    var t := x / 2 + x / 8;
    assert Add16(x / 2, x / 8) == t;
    var u := x + t;
    var q := u / 0x1_0000;
    assert u == 16 * (0x1000 * q) + u % 0x1_0000;
  }

  /** Every R symbol hashes to a 0 of the orientation table: its group is in class order. */
  lemma OrientationOfR()
    ensures forall k | 0 <= k < SR :: STbl(SignSlot(CodeUnit(CR[k]))) == 0
  {
    UnitsR();
    SignsR();
  }

  /** Every N symbol hashes to a 255 of the orientation table: its group is reversed. */
  lemma OrientationOfN()
    ensures forall k | 0 <= k < SN :: STbl(SignSlot(CodeUnit(CN[k]))) == 255
  {
    UnitsN();
    SignsN();
  }

  /** The R table gives back every R symbol's index. */
  lemma RTableInverts()
    ensures forall k | 0 <= k < SR :: RTbl(HashSlot(CodeUnit(CR[k]), 4675)) == k
  {
    UnitsR();
    HashesR();
  }

  /** The C table gives back every C symbol's index. */
  lemma CTableInverts()
    ensures forall k | 0 <= k < SC :: CTbl(HashSlot(CodeUnit(CC[k]), 11482)) == k
  {
    UnitsC();
    HashesC();
  }

  /** The N table gives back every N symbol's index. */
  lemma NTableInverts()
    ensures forall k | 0 <= k < SN :: NTbl(HashSlot(CodeUnit(CN[k]), 9726)) == k
  {
    UnitsN();
    HashesN();
  }

  /** The B table gives back every B symbol's index. */
  lemma BTableInverts()
    ensures forall k | 0 <= k < SB :: BTbl(BSlot(CodeUnit(CB[k]))) == k
  {
    UnitsB();
    HashesBLow();
    HashesBHigh();
    forall k | 0 <= k < SB
      ensures BTbl(BSlot(CodeUnit(CB[k]))) == k
    {
      BSlotIgnoresWrap(CodeUnit(CB[k]));
    }
  }

  /** The tables read at the symbols of one group in class order. */
  lemma SlotsOf(r: int, c: int, n: int, b: int)
    requires 0 <= r < SR && 0 <= c < SC && 0 <= n < SN && 0 <= b < SB
    ensures STbl(SignSlot(CodeUnit(CR[r]))) == 0 && STbl(SignSlot(CodeUnit(CN[n]))) == 255
    ensures RTbl(HashSlot(CodeUnit(CR[r]), 4675)) == r && CTbl(HashSlot(CodeUnit(CC[c]), 11482)) == c
    ensures NTbl(HashSlot(CodeUnit(CN[n]), 9726)) == n && BTbl(BSlot(CodeUnit(CB[b]))) == b
  {
    OrientationOfR();
    OrientationOfN();
    RTableInverts();
    CTableInverts();
    NTableInverts();
    BTableInverts();
  }

  /** The lane's value ORed with the sign moved to bit 15. */
  function WithSign(v: Lane, negative: bool): (w: Lane)
    ensures negative ==> w >= 0x8000
    ensures !negative ==> w == v
  {
    if negative && v < 0x8000 then v + 0x8000 else v
  }

  /**
   * What one lane of a decode kernel yields: whether a class table gave
   * the 255 sentinel for one of its symbols, and the unit computed from the
   * indices, which is meaningful only when the lane is good.
   */
  datatype LaneResult = LaneResult(bad: bool, unit: Lane)

  /**
   * One lane of the decode kernel: the orientation table read at the first
   * symbol selects which symbols are R, C, N and B (the blend on the sign
   * mask), the class tables give the digits, and the lane is
   * 10 * (225 r + n) + (150 c + b) with the sign ORed into bit 15.  The
   * x86 kernels form 225 r + n and 150 c + b with maddubs and 10 x as
   * (x << 3) + (x << 1); NEON forms them with vmlal_u8 and vmlaq_n_u16.
   * No lane is checked against 0x7FFF.
   */
  function DecodeLane(g: seq<char>): (l: LaneResult)
    requires |g| == 4
  {
    var s0, s1, s2, s3 := CodeUnit(g[0]), CodeUnit(g[1]), CodeUnit(g[2]), CodeUnit(g[3]);
    var negative := STbl(SignSlot(s0)) == 255;
    var r := RTbl(HashSlot(if negative then s2 else s0, 4675));
    var c := CTbl(HashSlot(if negative then s3 else s1, 11482));
    var n := NTbl(HashSlot(if negative then s0 else s2, 9726));
    var b := BTbl(BSlot(if negative then s1 else s3));
    var bad := r == 255 || c == 255 || n == 255 || b == 255;
    LaneResult(bad, WithSign((10 * (225 * r + n) + (150 * c + b)) % 0x1_0000, negative))
  }

  /** Every group the scalar encoder writes is accepted by a decode lane and gives its unit back. */
  lemma DecodeLaneInverts(u: Unit16)
    ensures DecodeLane(EncodeUnit(u)) == LaneResult(false, u)
  {
    var v := u % 0x8000;
    DigitsOfValue(v);
    var r, c, n, b := v / 2250, v % 2250 / 150, v % 150 / 10, v % 10;
    ClearTopBit(u, 0x8000);
    if u > 0x7FFF {
      DecodeLaneReversed(r, c, n, b);
    } else {
      DecodeLaneForward(r, c, n, b);
    }
  }

  /**
   * A group in class order decodes in a lane to the weighted sum of its
   * digits, whether or not that sum exceeds 0x7FFF: the lane has no range
   * check.
   */
  lemma DecodeLaneForward(r: int, c: int, n: int, b: int)
    requires 0 <= r < SR && 0 <= c < SC && 0 <= n < SN && 0 <= b < SB
    ensures DecodeLane([CR[r], CC[c], CN[n], CB[b]]) == LaneResult(false, r * 2250 + c * 150 + n * 10 + b)
  {
    SlotsOf(r, c, n, b);
    var g := [CR[r], CC[c], CN[n], CB[b]];
    var s0, s1, s2, s3 := CodeUnit(g[0]), CodeUnit(g[1]), CodeUnit(g[2]), CodeUnit(g[3]);
    assert s0 == CodeUnit(CR[r]) && s1 == CodeUnit(CC[c]) && s2 == CodeUnit(CN[n]) && s3 == CodeUnit(CB[b]);
    assert STbl(SignSlot(s0)) == 0;
    assert (10 * (225 * r + n) + (150 * c + b)) % 0x1_0000 == r * 2250 + c * 150 + n * 10 + b;
  }

  /** A group written N B R C decodes in a lane to the value of its digits with bit 15 set. */
  lemma DecodeLaneReversed(r: int, c: int, n: int, b: int)
    requires 0 <= r < SR && 0 <= c < SC && 0 <= n < SN && 0 <= b < SB
    requires r * 2250 + c * 150 + n * 10 + b <= 0x7FFF
    ensures DecodeLane([CN[n], CB[b], CR[r], CC[c]]) == LaneResult(false, r * 2250 + c * 150 + n * 10 + b + 0x8000)
  {
    SlotsOf(r, c, n, b);
    var g := [CN[n], CB[b], CR[r], CC[c]];
    var s0, s1, s2, s3 := CodeUnit(g[0]), CodeUnit(g[1]), CodeUnit(g[2]), CodeUnit(g[3]);
    assert s0 == CodeUnit(CN[n]) && s1 == CodeUnit(CB[b]) && s2 == CodeUnit(CR[r]) && s3 == CodeUnit(CC[c]);
    assert STbl(SignSlot(s0)) == 255;
    assert (10 * (225 * r + n) + (150 * c + b)) % 0x1_0000 == r * 2250 + c * 150 + n * 10 + b;
  }

  /**
   * On every group the scalar decoder accepts, a decode lane agrees with
   * it: no sentinel, and the same unit.
   */
  lemma DecodeLaneAgrees(g: seq<char>)
    requires |g| == 4 && DecodeUnit(g).Ok?
    ensures DecodeLane(g) == LaneResult(false, DecodeUnit(g).value)
  {
    UnitCanonical(g);
    DecodeLaneInverts(DecodeUnit(g).value);
  }

  /**
   * A decode lane does not reject digits worth more than 0x7FFF as the
   * scalar decoder does: the group of the largest digits is accepted, and
   * its value 33749 lands in bit 15, which a group in class order never
   * sets.
   */
  lemma LaneSkipsRangeCheck()
    ensures DecodeUnit([CR[14], CC[14], CN[14], CB[9]]).Err?
    ensures DecodeLane([CR[14], CC[14], CN[14], CB[9]]) == LaneResult(false, 33749)
  {
    UnitOutOfRange();
    DecodeLaneForward(14, 14, 14, 9);
  }
}
