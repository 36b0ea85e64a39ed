/**
 * The two scalar coding units of RCNB.
 *
 * A 16-bit unit (two plaintext bytes, the first one high) becomes a group
 * of four symbols; a lone trailing byte becomes a group of two.  The top
 * bit of the value is not a digit: it selects the orientation of the
 * group (R C N B, or N B R C when the bit is set) and, for a tail byte,
 * the pair of classes used (R C, or N B when the bit is set).
 */
module UnitCodec {
  import opened Alphabet

  /** A plaintext byte, read as unsigned. */
  type Byte = x: int | 0 <= x < 0x100
  /** A 16-bit unit: high byte * 256 + low byte. */
  type Unit16 = x: int | 0 <= x < 0x1_0000

  datatype CodecError =
    | InvalidSymbol   // a symbol is missing from the class its position calls for
    | OutOfRange      // the digits are valid but their value does not fit 15 (resp. 7) bits
    | MalformedTail   // the symbol stream does not split into groups of 4 and 2

  datatype Result<T> = Ok(value: T) | Err(error: CodecError)

  /** The four symbols of a 15-bit value, in class order R, C, N, B. */
  function Digits(v: int): seq<char>
    requires 0 <= v < 0x8000
  {
    [CR[v / 2250], CC[v % 2250 / 150], CN[v % 150 / 10], CB[v % 10]]
  }

  /**
   * rcnb_encode_short with the unit read as unsigned: a value with the top
   * bit set is encoded from its low 15 bits and its N B pair is placed
   * before its R C pair.
   */
  function EncodeUnit(u: Unit16): (g: seq<char>)
    ensures |g| == 4
  {
    var d := Digits(u % 0x8000);
    if u > 0x7FFF then [d[2], d[3], d[0], d[1]] else d
  }

  /**
   * rcnb_encode_byte with the byte read as unsigned and both symbols of
   * the N B branch written: a byte with the top bit set is encoded from its
   * low 7 bits with classes N and B, any other byte with classes R and C.
   */
  function EncodeTail(b: Byte): (g: seq<char>)
    ensures |g| == 2
  {
    if b > 0x7F then
      var v := b % 0x80;
      [CN[v / 10], CB[v % 10]]
    else
      [CR[b / 15], CC[b % 15]]
  }

  /**
   * rcnb_decode_short: a group whose first symbol is not an R symbol is read
   * as reversed (N B R C).  Every symbol must be found in the class of its
   * position and the digits must be worth at most 0x7FFF; a reversed group
   * then gets the top bit back.
   */
  function DecodeUnit(g: seq<char>): (r: Result<Unit16>)
    requires |g| == 4
    ensures r.Err? ==> r.error != MalformedTail
  {
    var reverse := IndexOf(CR, g[0]) < 0;
    var ir := IndexOf(CR, if reverse then g[2] else g[0]);
    var ic := IndexOf(CC, if reverse then g[3] else g[1]);
    var iN := IndexOf(CN, if reverse then g[0] else g[2]);
    var ib := IndexOf(CB, if reverse then g[1] else g[3]);
    if ir < 0 || ic < 0 || iN < 0 || ib < 0 then Err(InvalidSymbol)
    else
      var v := ir * 2250 + ic * 150 + iN * 10 + ib;
      if v > 0x7FFF then Err(OutOfRange)
      else if reverse then Ok(v + 0x8000)
      else Ok(v)
  }

  /**
   * rcnb_decode_byte: the pair is read as R C first and, when either symbol
   * is not found there, as N B.  The value must fit in 7 bits; the N B
   * reading sets the top bit.
   */
  function DecodeTail(g: seq<char>): (r: Result<Byte>)
    requires |g| == 2
    ensures r.Err? ==> r.error != MalformedTail
  {
    var ir := IndexOf(CR, g[0]);
    var ic := IndexOf(CC, g[1]);
    if ir >= 0 && ic >= 0 then
      var v := ir * 15 + ic;
      if v > 0x7F then Err(OutOfRange) else Ok(v)
    else
      var iN := IndexOf(CN, g[0]);
      var ib := IndexOf(CB, g[1]);
      if iN < 0 || ib < 0 then Err(InvalidSymbol)
      else
        var v := iN * 10 + ib;
        if v > 0x7F then Err(OutOfRange) else Ok(v + 0x80)
  }

  /** The digits of a 15-bit value are in range and give the value back. */
  lemma DigitsOfValue(v: int)
    requires 0 <= v < 0x8000
    ensures 0 <= v / 2250 < SR && 0 <= v % 2250 / 150 < SC
    ensures 0 <= v % 150 / 10 < SN && 0 <= v % 10 < SB
    ensures (v / 2250) * 2250 + (v % 2250 / 150) * 150 + (v % 150 / 10) * 10 + v % 10 == v
  {
    var r, m := v / 2250, v % 2250;
    var c, m2 := m / 150, m % 150;
    var n, b := m2 / 10, m2 % 10;
    Split150(v, r * 15 + c, m2);
    Split10(v, (r * 15 + c) * 15 + n, b);
  }

  /** Digits in range are recovered from their value: the radix is unambiguous. */
  lemma ValueDigits(r: int, c: int, n: int, b: int, v: int)
    requires 0 <= r < SR && 0 <= c < SC && 0 <= n < SN && 0 <= b < SB
    requires v == r * 2250 + c * 150 + n * 10 + b
    ensures v / 2250 == r && v % 2250 / 150 == c && v % 150 / 10 == n && v % 10 == b
  {
    Split2250(v, r, c * 150 + n * 10 + b);
    Split150(c * 150 + n * 10 + b, c, n * 10 + b);
    Split150(v, r * 15 + c, n * 10 + b);
    Split10(n * 10 + b, n, b);
    Split10(v, (r * 15 + c) * 15 + n, b);
  }

  /** Euclidean division by 2250 of q * 2250 + m with m a digit pair below 2250. */
  lemma Split2250(v: int, q: int, m: int)
    requires v == q * 2250 + m && 0 <= m < 2250
    ensures v / 2250 == q && v % 2250 == m
  {
  }

  /** Euclidean division by 150 of q * 150 + m with 0 <= m < 150. */
  lemma Split150(v: int, q: int, m: int)
    requires v == q * 150 + m && 0 <= m < 150
    ensures v / 150 == q && v % 150 == m
  {
  }

  /** Euclidean division by 15 of q * 15 + m with 0 <= m < 15. */
  lemma Split15(v: int, q: int, m: int)
    requires v == q * 15 + m && 0 <= m < 15
    ensures v / 15 == q && v % 15 == m
  {
  }

  /** Euclidean division by 10 of q * 10 + m with 0 <= m < 10. */
  lemma Split10(v: int, q: int, m: int)
    requires v == q * 10 + m && 0 <= m < 10
    ensures v / 10 == q && v % 10 == m
  {
  }

  /** A group written in class order decodes to the value of its digits. */
  lemma DecodeForward(r: int, c: int, n: int, b: int)
    requires 0 <= r < SR && 0 <= c < SC && 0 <= n < SN && 0 <= b < SB
    requires r * 2250 + c * 150 + n * 10 + b <= 0x7FFF
    ensures var d := DecodeUnit([CR[r], CC[c], CN[n], CB[b]]);
      d.Ok? && d.value == r * 2250 + c * 150 + n * 10 + b
  {
    LookupR(r);
    LookupC(c);
    LookupN(n);
    LookupB(b);
    var g := [CR[r], CC[c], CN[n], CB[b]];
    assert IndexOf(CR, g[0]) == r;
    assert IndexOf(CC, g[1]) == c;
    assert IndexOf(CN, g[2]) == n;
    assert IndexOf(CB, g[3]) == b;
  }

  /** A group written N B R C decodes to the value of its digits with the top bit set. */
  lemma DecodeReversed(r: int, c: int, n: int, b: int)
    requires 0 <= r < SR && 0 <= c < SC && 0 <= n < SN && 0 <= b < SB
    requires r * 2250 + c * 150 + n * 10 + b <= 0x7FFF
    ensures var d := DecodeUnit([CN[n], CB[b], CR[r], CC[c]]);
      d.Ok? && d.value == (r * 2250 + c * 150 + n * 10 + b) + 0x8000
  {
    LookupR(r);
    LookupC(c);
    LookupN(n);
    LookupB(b);
    NIsNotR(n);
    var g := [CN[n], CB[b], CR[r], CC[c]];
    assert IndexOf(CR, g[0]) < 0;
    assert IndexOf(CR, g[2]) == r;
    assert IndexOf(CC, g[3]) == c;
    assert IndexOf(CN, g[0]) == n;
    assert IndexOf(CB, g[1]) == b;
  }

  /** Masking off the top bit subtracts it when it is set and changes nothing otherwise. */
  lemma ClearTopBit(x: int, bit: int)
    requires bit == 0x80 || bit == 0x8000
    requires 0 <= x < 2 * bit
    ensures x % bit == if x >= bit then x - bit else x
  {
  }

  /** Digits in range are encoded in class order. */
  lemma EncodeDigits(r: int, c: int, n: int, b: int)
    requires 0 <= r < SR && 0 <= c < SC && 0 <= n < SN && 0 <= b < SB
    requires r * 2250 + c * 150 + n * 10 + b <= 0x7FFF
    ensures EncodeUnit(r * 2250 + c * 150 + n * 10 + b) == [CR[r], CC[c], CN[n], CB[b]]
  {
    TopBitClear(r * 2250 + c * 150 + n * 10 + b);
    DigitsOf(r, c, n, b, r * 2250 + c * 150 + n * 10 + b);
  }

  /** The symbols of digits in range, in class order. */
  lemma DigitsOf(r: int, c: int, n: int, b: int, v: int)
    requires 0 <= r < SR && 0 <= c < SC && 0 <= n < SN && 0 <= b < SB
    requires v == r * 2250 + c * 150 + n * 10 + b && v <= 0x7FFF
    ensures Digits(v) == [CR[r], CC[c], CN[n], CB[b]]
  {
    ValueDigits(r, c, n, b, v);
  }

  /** Digits in range with the top bit set are encoded N B R C. */
  lemma EncodeDigitsReversed(r: int, c: int, n: int, b: int)
    requires 0 <= r < SR && 0 <= c < SC && 0 <= n < SN && 0 <= b < SB
    requires r * 2250 + c * 150 + n * 10 + b <= 0x7FFF
    ensures EncodeUnit((r * 2250 + c * 150 + n * 10 + b) + 0x8000) == [CN[n], CB[b], CR[r], CC[c]]
  {
    var v := r * 2250 + c * 150 + n * 10 + b;
    ClearTopBit(v + 0x8000, 0x8000);
    assert (v + 0x8000) % 0x8000 == v;
    DigitsOf(r, c, n, b, v);
    SwapPairs(Digits((v + 0x8000) % 0x8000), CR[r], CC[c], CN[n], CB[b]);
  }

  /** A unit with the top bit clear is the group of its digits. */
  lemma TopBitClear(v: Unit16)
    requires v <= 0x7FFF
    ensures v % 0x8000 == v && EncodeUnit(v) == Digits(v)
  {
    ClearTopBit(v, 0x8000);
    assert v % 0x8000 == v;
  }

  /** Exchanging the two pairs of a group of four. */
  lemma SwapPairs<T>(d: seq<T>, w: T, x: T, y: T, z: T)
    requires d == [w, x, y, z]
    ensures [d[2], d[3], d[0], d[1]] == [y, z, w, x]
  {
  }

  /** Decoding a group inverts encoding it, for every unit. */
  lemma UnitRoundTrip(u: Unit16)
    ensures var d := DecodeUnit(EncodeUnit(u));
      d.Ok? && d.value == u
  {
    var v := u % 0x8000;
    ClearTopBit(u, 0x8000);
    DigitsOfValue(v);
    var r, c, n, b := v / 2250, v % 2250 / 150, v % 150 / 10, v % 10;
    if u > 0x7FFF {
      assert u == (r * 2250 + c * 150 + n * 10 + b) + 0x8000;
      RoundTripReversed(r, c, n, b);
    } else {
      assert u == (r * 2250 + c * 150 + n * 10 + b);
      RoundTripForward(r, c, n, b);
    }
  }

  lemma RoundTripForward(r: int, c: int, n: int, b: int)
    requires 0 <= r < SR && 0 <= c < SC && 0 <= n < SN && 0 <= b < SB
    requires r * 2250 + c * 150 + n * 10 + b <= 0x7FFF
    ensures var d := DecodeUnit(EncodeUnit(r * 2250 + c * 150 + n * 10 + b));
      d.Ok? && d.value == r * 2250 + c * 150 + n * 10 + b
  {
    EncodeDigits(r, c, n, b);
    DecodeForward(r, c, n, b);
  }

  lemma RoundTripReversed(r: int, c: int, n: int, b: int)
    requires 0 <= r < SR && 0 <= c < SC && 0 <= n < SN && 0 <= b < SB
    requires r * 2250 + c * 150 + n * 10 + b <= 0x7FFF
    ensures var d := DecodeUnit(EncodeUnit((r * 2250 + c * 150 + n * 10 + b) + 0x8000));
      d.Ok? && d.value == (r * 2250 + c * 150 + n * 10 + b) + 0x8000
  {
    EncodeDigitsReversed(r, c, n, b);
    DecodeReversed(r, c, n, b);
  }

  /**
   * Every group the decoder accepts is the encoding of the unit it returns:
   * there is exactly one accepted spelling of each unit.
   */
  lemma UnitCanonical(g: seq<char>)
    requires |g| == 4
    ensures DecodeUnit(g).Ok? ==> EncodeUnit(DecodeUnit(g).value) == g
  {
    if DecodeUnit(g).Ok? {
      if IndexOf(CR, g[0]) < 0 {
        CanonicalReversed(g);
      } else {
        CanonicalForward(g);
      }
    }
  }

  /** An accepted group in class order R C N B is the encoding of its unit. */
  lemma CanonicalForward(g: seq<char>)
    requires |g| == 4 && DecodeUnit(g).Ok? && IndexOf(CR, g[0]) >= 0
    ensures EncodeUnit(DecodeUnit(g).value) == g
  {
    var r, c, n, b := IndexOf(CR, g[0]), IndexOf(CC, g[1]), IndexOf(CN, g[2]), IndexOf(CB, g[3]);
    assert g == [CR[r], CC[c], CN[n], CB[b]];
    assert DecodeUnit(g).value == r * 2250 + c * 150 + n * 10 + b;
    EncodeDigits(r, c, n, b);
  }

  /** An accepted group in the reversed order N B R C is the encoding of its unit. */
  lemma CanonicalReversed(g: seq<char>)
    requires |g| == 4 && DecodeUnit(g).Ok? && IndexOf(CR, g[0]) < 0
    ensures EncodeUnit(DecodeUnit(g).value) == g
  {
    var r, c, n, b := IndexOf(CR, g[2]), IndexOf(CC, g[3]), IndexOf(CN, g[0]), IndexOf(CB, g[1]);
    ReversedDigits(g, r, c, n, b);
    EncodeDigitsReversed(r, c, n, b);
  }

  /** The digits an accepted N B R C group is read with, and the group they spell. */
  lemma ReversedDigits(g: seq<char>, r: int, c: int, n: int, b: int)
    requires |g| == 4 && DecodeUnit(g).Ok? && IndexOf(CR, g[0]) < 0
    requires r == IndexOf(CR, g[2]) && c == IndexOf(CC, g[3]) && n == IndexOf(CN, g[0]) && b == IndexOf(CB, g[1])
    ensures 0 <= r < SR && 0 <= c < SC && 0 <= n < SN && 0 <= b < SB
    ensures r * 2250 + c * 150 + n * 10 + b <= 0x7FFF
    ensures DecodeUnit(g).value == (r * 2250 + c * 150 + n * 10 + b) + 0x8000
    ensures g == [CN[n], CB[b], CR[r], CC[c]]
  {
  }

  /** A group holding a symbol outside the alphabet is rejected as invalid. */
  lemma UnitRejectsForeign(g: seq<char>, i: int)
    requires |g| == 4 && 0 <= i < 4 && !IsSymbol(g[i])
    ensures var d := DecodeUnit(g);
      d.Err? && d.error == InvalidSymbol
  {
    NotFound(g[i]);
  }

  /** A symbol outside the alphabet is found in no class. */
  lemma NotFound(x: char)
    requires !IsSymbol(x)
    ensures IndexOf(CR, x) < 0 && IndexOf(CC, x) < 0 && IndexOf(CN, x) < 0 && IndexOf(CB, x) < 0
  {
  }

  /**
   * Well-formed digits can still be out of range: the largest group is worth
   * 14*2250 + 14*150 + 14*10 + 9 = 33749 > 0x7FFF.
   */
  lemma UnitOutOfRange()
    ensures var d := DecodeUnit([CR[14], CC[14], CN[14], CB[9]]);
      d.Err? && d.error == OutOfRange
  {
    LookupR(14);
    LookupC(14);
    LookupN(14);
    LookupB(9);
    var g := [CR[14], CC[14], CN[14], CB[9]];
    assert IndexOf(CR, g[0]) == 14;
    assert IndexOf(CC, g[1]) == 14;
    assert IndexOf(CN, g[2]) == 14;
    assert IndexOf(CB, g[3]) == 9;
  }

  /** Decoding a tail pair inverts encoding it, for every byte. */
  lemma TailRoundTrip(b: Byte)
    ensures var d := DecodeTail(EncodeTail(b));
      d.Ok? && d.value == b
  {
    if b > 0x7F {
      TailRoundTripNB(b);
    } else {
      TailRoundTripRC(b);
    }
  }

  /** A byte with the top bit set comes back from its N B pair. */
  lemma TailRoundTripNB(b: Byte)
    requires b > 0x7F
    ensures var d := DecodeTail(EncodeTail(b));
      d.Ok? && d.value == b
  {
    var n, d := b % 0x80 / 10, b % 0x80 % 10;
    ClearTopBit(b, 0x80);
    assert b == n * 10 + d + 0x80;
    EncodeTailNB(n, d);
    DecodeTailNB(n, d);
  }

  /** An N B pair of digits in range decodes to their value with the top bit set. */
  lemma DecodeTailNB(n: int, d: int)
    requires 0 <= n < SN && 0 <= d < SB && n * 10 + d <= 0x7F
    ensures var r := DecodeTail([CN[n], CB[d]]);
      r.Ok? && r.value == n * 10 + d + 0x80
  {
    LookupN(n);
    LookupB(d);
    NIsNotR(n);
    var g := [CN[n], CB[d]];
    assert IndexOf(CR, g[0]) < 0;
    assert IndexOf(CN, g[0]) == n;
    assert IndexOf(CB, g[1]) == d;
  }

  /** A byte below 0x80 comes back from its R C pair. */
  lemma TailRoundTripRC(b: Byte)
    requires b <= 0x7F
    ensures var d := DecodeTail(EncodeTail(b));
      d.Ok? && d.value == b
  {
    var g := EncodeTail(b);
    var r, c := b / 15, b % 15;
    LookupR(r);
    LookupC(c);
    assert g == [CR[r], CC[c]];
    assert IndexOf(CR, g[0]) == r;
    assert IndexOf(CC, g[1]) == c;
    assert r * 15 + c == b;
  }

  /** Tail digits in range are encoded with classes R C. */
  lemma EncodeTailRC(x: int, y: int)
    requires 0 <= x < SR && 0 <= y < SC && x * 15 + y <= 0x7F
    ensures EncodeTail(x * 15 + y) == [CR[x], CC[y]]
  {
    Split15(x * 15 + y, x, y);
  }

  /** Tail digits in range with the top bit set are encoded with classes N B. */
  lemma EncodeTailNB(n: int, b: int)
    requires 0 <= n < SN && 0 <= b < SB && n * 10 + b <= 0x7F
    ensures EncodeTail(n * 10 + b + 0x80) == [CN[n], CB[b]]
  {
    ClearTopBit(n * 10 + b + 0x80, 0x80);
    Split10(n * 10 + b, n, b);
  }

  /** Every tail pair the decoder accepts is the encoding of the byte it returns. */
  lemma TailCanonical(g: seq<char>)
    requires |g| == 2
    ensures DecodeTail(g).Ok? ==> EncodeTail(DecodeTail(g).value) == g
  {
    if DecodeTail(g).Ok? {
      if IndexOf(CR, g[0]) >= 0 && IndexOf(CC, g[1]) >= 0 {
        TailCanonicalRC(g);
      } else {
        TailCanonicalNB(g);
      }
    }
  }

  lemma TailCanonicalRC(g: seq<char>)
    requires |g| == 2 && IndexOf(CR, g[0]) >= 0 && IndexOf(CC, g[1]) >= 0 && DecodeTail(g).Ok?
    ensures EncodeTail(DecodeTail(g).value) == g
  {
    var ir, ic := IndexOf(CR, g[0]), IndexOf(CC, g[1]);
    assert DecodeTail(g).value == ir * 15 + ic;
    EncodeTailRC(ir, ic);
    assert g == [CR[ir], CC[ic]];
  }

  lemma TailCanonicalNB(g: seq<char>)
    requires |g| == 2 && (IndexOf(CR, g[0]) < 0 || IndexOf(CC, g[1]) < 0) && DecodeTail(g).Ok?
    ensures EncodeTail(DecodeTail(g).value) == g
  {
    var iN, ib := IndexOf(CN, g[0]), IndexOf(CB, g[1]);
    assert DecodeTail(g).value == iN * 10 + ib + 0x80;
    EncodeTailNB(iN, ib);
    assert g == [CN[iN], CB[ib]];
  }

  /** A tail pair holding a symbol outside the alphabet is rejected as invalid. */
  lemma TailRejectsForeign(g: seq<char>, i: int)
    requires |g| == 2 && 0 <= i < 2 && !IsSymbol(g[i])
    ensures var d := DecodeTail(g);
      d.Err? && d.error == InvalidSymbol
  {
    NotFound(g[i]);
  }

  /**
   * The first symbol of a group tells its orientation: it is an R symbol
   * exactly when the top bit of the unit is clear.
   */
  lemma UnitOrientation(u: Unit16)
    ensures EncodeUnit(u)[0] in CR <==> u < 0x8000
  {
    var v := u % 0x8000;
    DigitsOfValue(v);
    if u > 0x7FFF {
      NIsNotR(v % 150 / 10);
    }
  }

  /** The first symbol of a tail pair is an R symbol exactly when the byte is below 0x80. */
  lemma TailOrientation(b: Byte)
    ensures EncodeTail(b)[0] in CR <==> b < 0x80
  {
    if b > 0x7F {
      ClearTopBit(b, 0x80);
      NIsNotR(b % 0x80 / 10);
    }
  }
}
