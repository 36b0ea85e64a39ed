/**
 * The scalar streaming encoder of src/cencode.c.
 *
 * The output pointer that rcnb_encode_short and rcnb_encode_byte move back
 * and forth is an index into the output array; the encoding state is an
 * object whose two fields the block functions update in place.
 */
module Encoder {
  import opened Alphabet
  import opened UnitCodec
  import opened Stream
  import opened SeqFacts

  /**
   * rcnb_encode_short: writes the group of u at out[pos..pos+4] and returns
   * the advanced output position.  For a reversed group the pointer first
   * skips the N B slots, writes R C, steps back over four slots to write
   * N B, and skips forward again.
   */
  method EncodeShort(u: Unit16, out: array<char>, pos: nat) returns (next: nat)
    requires pos + 4 <= out.Length
    modifies out
    ensures next == pos + 4
    ensures out[pos..next] == EncodeUnit(u)
    ensures forall k | 0 <= k < out.Length && (k < pos || next <= k) :: out[k] == old(out[k])
  {
    var v := u;
    var reverse := false;
    if v > 0x7FFF {
      reverse := true;
      v := v - 0x8000;
    }
    ClearTopBit(u, 0x8000);
    assert v == u % 0x8000;
    ghost var d := Digits(v);
    var p := pos;
    if reverse {
      p := p + 2;
    }
    out[p] := CR[v / 2250];
    p := p + 1;
    out[p] := CC[v % 2250 / 150];
    p := p + 1;
    if reverse {
      p := p - 4;
    }
    out[p] := CN[v % 150 / 10];
    p := p + 1;
    out[p] := CB[v % 10];
    p := p + 1;
    if reverse {
      p := p + 2;
    }
    next := p;
    if reverse {
      assert out[pos..next] == [d[2], d[3], d[0], d[1]];
    } else {
      assert out[pos..next] == d;
    }
  }

  /**
   * rcnb_encode_byte: writes the two symbols of b at out[pos..pos+2] and
   * returns the advanced output position.
   */
  method EncodeByte(b: Byte, out: array<char>, pos: nat) returns (next: nat)
    requires pos + 2 <= out.Length
    modifies out
    ensures next == pos + 2
    ensures out[pos..next] == EncodeTail(b)
    ensures forall k | 0 <= k < out.Length && (k < pos || next <= k) :: out[k] == old(out[k])
  {
    var p := pos;
    if b > 0x7F {
      var v := b - 0x80;
      ClearTopBit(b, 0x80);
      assert v == b % 0x80;
      ghost var g := [CN[v / 10], CB[v % 10]];
      assert EncodeTail(b) == g;
      out[p] := CN[v / 10];
      p := p + 1;
      out[p] := CB[v % 10];
      p := p + 1;
      assert out[pos..p] == g;
      return p;
    }
    ghost var g := [CR[b / 15], CC[b % 15]];
    assert EncodeTail(b) == g;
    out[p] := CR[b / 15];
    p := p + 1;
    out[p] := CC[b % 15];
    p := p + 1;
    assert out[pos..p] == g;
    next := p;
  }

  /** The encoder's carry between blocks: at most one plaintext byte. */
  class EncodeState {
    var cached: bool
    var trailingByte: Byte

    /** The plaintext byte carried over from the previous block, if any. */
    function Pending(): (p: seq<Byte>)
      reads this
      ensures |p| <= 1 && (|p| == 1 <==> cached)
    {
      if cached then [trailingByte] else []
    }

    constructor ()
      ensures Pending() == []
    {
      cached := false;
      trailingByte := 0;
    }

    /** rcnb_init_encodestate: drops any carried byte. */
    method Init()
      modifies this
      ensures Pending() == [] && trailingByte == old(trailingByte)
    {
      cached := false;
    }

    /**
     * rcnb_encode_block: encodes the carried byte followed by the plaintext
     * as far as complete pairs go, writing the groups at out[at..] and
     * returning how many symbols it wrote; an odd byte left over is
     * carried to the next block.  An empty block changes nothing.
     */
    method EncodeBlock(input: seq<Byte>, out: array<char>, at: nat) returns (n: nat)
      requires at + 2 * (|Pending()| + |input|) <= out.Length
      modifies this, out
      ensures var all := old(Pending()) + input;
        n == 2 * |EvenPart(all)| &&
        out[at..at + n] == EncodePairs(EvenPart(all)) &&
        Pending() == OddTail(all)
      ensures input == [] ==> n == 0 && cached == old(cached) && trailingByte == old(trailingByte)
      ensures forall k | 0 <= k < out.Length && (k < at || at + n <= k) :: out[k] == old(out[k])
    {
      ghost var pending := Pending();
      if |input| == 0 {
        NothingWritten(out[..], at, pending, input);
        return 0;
      }
      var carried := Pending();
      // The carry and the output are disjoint, so updating the carry first
      // leaves the same state as the source's order.
      UpdateCarry(input);
      n := EncodeGroups(carried, input, out, at);
    }

    /**
     * The carry update of rcnb_encode_block: a carried byte is consumed
     * with the first input byte, and an odd byte left over is carried on.
     */
    method UpdateCarry(input: seq<Byte>)
      requires 1 <= |input|
      modifies this
      ensures Pending() == OddTail(old(Pending()) + input)
    {
      ghost var pending := Pending();
      var text := input;
      if cached {
        text := input[1..];
        cached := false;
      }
      CarryOdd(input, text, pending, pending + input);
    }

    /**
     * The end of rcnb_encode_block: when the bytes after the carried one
     * are odd in number, the last of them is carried to the next block.
     */
    method CarryOdd(input: seq<Byte>, text: seq<Byte>, ghost p: seq<Byte>, ghost all: seq<Byte>)
      requires 1 <= |input| && !cached
      requires |p| <= 1 && |text| == |input| - |p| && all == p + input
      requires text != [] ==> text[|text| - 1] == input[|input| - 1]
      modifies this
      ensures Pending() == OddTail(all)
      ensures |text| % 2 == 0 ==> trailingByte == old(trailingByte)
    {
      if |text| % 2 == 1 {
        trailingByte := text[|text| - 1];
        cached := true;
      }
      CarryOfBlock(p, input, |text|);
    }

    /**
     * rcnb_encode_blockend: writes the symbols of the carried byte, if any,
     * then a NUL terminator at out[at..]; returns how many symbols it wrote,
     * the terminator included, and leaves nothing carried.
     */
    method EncodeBlockEnd(out: array<char>, at: nat) returns (n: nat)
      requires at + 2 * |Pending()| + 1 <= out.Length
      modifies this, out
      ensures n == 2 * |old(Pending())| + 1
      ensures out[at..at + n] == TailSymbols(old(Pending())) + ['\0']
      ensures Pending() == [] && trailingByte == old(trailingByte)
      ensures forall k | 0 <= k < out.Length && (k < at || at + n <= k) :: out[k] == old(out[k])
    {
      var p := at;
      if cached {
        p := EncodeByte(trailingByte, out, p);
      }
      out[p] := '\0';
      p := p + 1;
      cached := false;
      n := p - at;
    }
  }

  /**
   * The loop of rcnb_encode_block: encodes the first count pairs of text,
   * each read first byte high, into consecutive groups at out[at..].
   */
  method EncodePairLoop(text: seq<Byte>, count: nat, out: array<char>, at: nat)
    returns (next: nat)
    requires 2 * count <= |text| && at + 4 * count <= out.Length
    modifies out
    ensures next == at + 4 * count
    ensures out[at..next] == EncodePairs(text[..2 * count])
    ensures forall k | 0 <= k < out.Length && (k < at || next <= k) :: out[k] == old(out[k])
  {
    next := at;
    var i := 0;
    while i < count
      invariant 0 <= i <= count && next == at + 4 * i
      invariant out[at..next] == EncodePairs(text[..2 * i])
      invariant forall k | 0 <= k < out.Length && (k < at || next <= k) :: out[k] == old(out[k])
    {
      ghost var before := out[..];
      ghost var p := next;
      next := EncodeShort(Unit(text[2 * i], text[2 * i + 1]), out, next);
      PairsOfNextPair(text, i);
      SameSlice(before, out[..], at, p);
      JoinSlices(out[..], at, p, next);
      i := i + 1;
    }
  }

  /**
   * The symbols rcnb_encode_block writes at out[at..] when the bytes in
   * pending were carried into it: the groups of all complete pairs.
   */
  method EncodeGroups(pending: seq<Byte>, input: seq<Byte>, out: array<char>, at: nat)
    returns (n: nat)
    requires |pending| <= 1 && 1 <= |input| && at + 2 * (|pending| + |input|) <= out.Length
    modifies out
    ensures n == 2 * |EvenPart(pending + input)|
    ensures out[at..at + n] == EncodePairs(EvenPart(pending + input))
    ensures forall k | 0 <= k < out.Length && (k < at || at + n <= k) :: out[k] == old(out[k])
  {
    if |pending| == 1 {
      SingleFront(pending, input);
      n := EncodeCarried(pending[0], input, out, at, pending + input);
    } else {
      EmptyFront(pending, input);
      n := EncodeUncarried(input, out, at, pending + input);
    }
  }

  /**
   * The part of rcnb_encode_block after a carried byte hi: the group of hi
   * with input[0], then the pairs that follow, written at out[at..].
   */
  method EncodeCarried(hi: Byte, input: seq<Byte>, out: array<char>, at: nat, ghost all: seq<Byte>)
    returns (n: nat)
    requires 1 <= |input| && at + 2 * (1 + |input|) <= out.Length
    requires all == [hi] + input
    modifies out
    ensures n == 2 * |EvenPart(all)|
    ensures out[at..at + n] == EncodePairs(EvenPart(all))
    ensures forall k | 0 <= k < out.Length && (k < at || at + n <= k) :: out[k] == old(out[k])
  {
    var p := EncodeShort(Unit(hi, input[0]), out, at);
    var text := input[1..];
    ghost var before := out[..];
    var next := EncodePairLoop(text, |text| / 2, out, p);
    SameSlice(before, out[..], at, p);
    JoinSlices(out[..], at, p, next);
    CarriedPairs(hi, input);
    n := next - at;
  }

  /** rcnb_encode_block with nothing carried: the pairs of the input at out[at..]. */
  method EncodeUncarried(input: seq<Byte>, out: array<char>, at: nat, ghost all: seq<Byte>)
    returns (n: nat)
    requires at + 2 * |input| <= out.Length && all == input
    modifies out
    ensures n == 2 * |EvenPart(all)|
    ensures out[at..at + n] == EncodePairs(EvenPart(all))
    ensures forall k | 0 <= k < out.Length && (k < at || at + n <= k) :: out[k] == old(out[k])
  {
    var next := EncodePairLoop(input, |input| / 2, out, at);
    EvenPartIsPairs(input);
    n := next - at;
  }

  /**
   * rcnb_encode: encodes the plaintext in one block followed by the block
   * end; the result is the complete encoding, two symbols per byte, then a NUL.
   */
  method Encode(input: seq<Byte>, out: array<char>) returns (n: nat)
    requires 2 * |input| + 1 <= out.Length
    modifies out
    ensures n == 2 * |input| + 1
    ensures out[..n] == EncodeAll(input) + ['\0']
    ensures forall k | n <= k < out.Length :: out[k] == old(out[k])
  {
    ghost var orig := out[..];
    var es := new EncodeState();
    es.Init();
    ghost var p := es.Pending();
    var k := es.EncodeBlock(input, out, 0);
    ghost var q := es.Pending();
    ghost var mid := out[..];
    var t := es.EncodeBlockEnd(out, k);
    n := k + t;
    Assemble(p, q, input, mid, out[..], k, n);
    KeptBeyond(orig, mid, out[..], k, n);
  }

  /**
   * Positions past where the block wrote were kept by the block, and those
   * past where the block end wrote were kept by the block end.
   */
  lemma KeptBeyond(orig: seq<char>, mid: seq<char>, fin: seq<char>, k: nat, n: nat)
    requires |orig| == |mid| == |fin| && k <= n
    requires forall j | 0 <= j < |mid| && k <= j :: mid[j] == orig[j]
    requires forall j | 0 <= j < |fin| && (j < k || n <= j) :: fin[j] == mid[j]
    ensures forall j | n <= j < |fin| :: fin[j] == orig[j]
  {
  }

  /**
   * The pairs written by the block, kept while the block end writes its
   * symbols after them, form the encoding with its terminator.
   */
  lemma Assemble(p: seq<Byte>, q: seq<Byte>, input: seq<Byte>, mid: seq<char>, fin: seq<char>, k: nat, n: nat)
    requires p == [] && |mid| == |fin| && k <= n <= |fin|
    requires q == OddTail(p + input)
    requires mid[0..0 + k] == EncodePairs(EvenPart(p + input))
    requires forall j | 0 <= j < |fin| && (j < k || n <= j) :: fin[j] == mid[j]
    requires fin[k..k + (n - k)] == TailSymbols(q) + ['\0']
    ensures fin[..n] == EncodeAll(input) + ['\0']
  {
    assert p + input == input;
    SameSlice(mid, fin, 0, k);
    JoinSlices(fin, 0, k, n);
    EncodeAllTerminated(input);
    assert fin[..n] == fin[0..n];
  }

  /** The complete encoding with its terminator, cut where the block end starts writing. */
  lemma EncodeAllTerminated(s: seq<Byte>)
    ensures EncodeAll(s) + ['\0'] == EncodePairs(EvenPart(s)) + (TailSymbols(OddTail(s)) + ['\0'])
  {
    ConcatAssoc(EncodePairs(EvenPart(s)), TailSymbols(OddTail(s)), ['\0']);
  }

  /** The concatenation of a sequence of plaintext chunks. */
  function Concat(chunks: seq<seq<Byte>>): (s: seq<Byte>)
    ensures chunks == [] ==> s == []
  {
    if chunks == [] then [] else chunks[0] + Concat(chunks[1..])
  }

  /**
   * The symbols written by a sequence of rcnb_encode_block calls, one per
   * chunk, starting with the carried bytes p, followed by
   * rcnb_encode_blockend (its terminator left out).
   */
  function EncodeChunks(p: seq<Byte>, chunks: seq<seq<Byte>>): seq<char>
    requires |p| <= 1
    decreases |chunks|
  {
    if chunks == [] then TailSymbols(p)
    else
      var all := p + chunks[0];
      EncodePairs(EvenPart(all)) + EncodeChunks(OddTail(all), chunks[1..])
  }

  /**
   * Splitting the plaintext across encode_block calls does not change the
   * concatenated output: it is always the one-shot encoding.
   */
  lemma {:induction false} ChunkedEncoding(p: seq<Byte>, chunks: seq<seq<Byte>>)
    requires |p| <= 1
    ensures EncodeChunks(p, chunks) == EncodeAll(p + Concat(chunks))
    decreases |chunks|
  {
    if chunks == [] {
      assert p + Concat(chunks) == p;
      NothingToPair(p);
    } else {
      var all := p + chunks[0];
      var rest := Concat(chunks[1..]);
      ChunkedEncoding(OddTail(all), chunks[1..]);
      EvenThenOdd(all);
      ConcatAssoc(p, chunks[0], rest);
      ConcatAssoc(EvenPart(all), OddTail(all), rest);
      EncodeAllAppend(EvenPart(all), OddTail(all) + rest);
    }
  }

  /** An empty block after at most one carried byte writes no group. */
  lemma NothingWritten(s: seq<char>, at: nat, p: seq<Byte>, input: seq<Byte>)
    requires |p| <= 1 && input == [] && at <= |s|
    ensures |EvenPart(p + input)| == 0 && s[at..at + 0] == EncodePairs(EvenPart(p + input))
    ensures OddTail(p + input) == p
  {
    EmptyBack(p, input);
    NothingToPair(p);
  }

  /** At most one byte makes no pair: it is all carried. */
  lemma NothingToPair(s: seq<Byte>)
    requires |s| <= 1
    ensures EvenPart(s) == [] && OddTail(s) == s
    ensures EncodePairs(EvenPart(s)) == []
  {
  }

  /** Encoding one more pair appends its group. */
  lemma PairsOfNextPair(s: seq<Byte>, i: nat)
    requires 2 * i + 2 <= |s|
    ensures EncodePairs(s[..2 * i + 2]) ==
      EncodePairs(s[..2 * i]) + EncodeUnit(Unit(s[2 * i], s[2 * i + 1]))
  {
    var a, b := s[..2 * i], s[2 * i..2 * i + 2];
    JoinSlices(s, 0, 2 * i, 2 * i + 2);
    assert s[0..2 * i] == a && s[0..2 * i + 2] == s[..2 * i + 2];
    EncodePairsAppend(a, b);
    assert b[2..] == [];
  }

  /**
   * With a byte hi carried, the block pairs hi with the first input byte,
   * then pairs the bytes after it.
   */
  lemma CarriedPairs(hi: Byte, s: seq<Byte>)
    requires 1 <= |s|
    ensures var t := s[1..];
      |EvenPart([hi] + s)| == 2 + 2 * (|t| / 2) &&
      EncodePairs(EvenPart([hi] + s)) == EncodeUnit(Unit(hi, s[0])) + EncodePairs(t[..2 * (|t| / 2)])
  {
    var all := [hi] + s;
    var t := s[1..];
    var head := [hi, s[0]];
    CutOfPairs(all, 1 + |t| / 2, |t| % 2);
    assert all[..2 + 2 * (|t| / 2)] == head + t[..2 * (|t| / 2)];
    EncodePairsAppend(head, t[..2 * (|t| / 2)]);
    assert head[2..] == [];
  }

  /**
   * What a block carries over: the last input byte when the bytes after the
   * carried one are odd in number, nothing otherwise.
   */
  lemma CarryOfBlock(p: seq<Byte>, s: seq<Byte>, rest: nat)
    requires |p| <= 1 && 1 <= |s| && rest == |s| - |p|
    ensures OddTail(p + s) == if rest % 2 == 1 then [s[|s| - 1]] else []
  {
    var all := p + s;
    assert |all| == 2 * |p| + rest;
    if |p| == 1 {
      assert |all| - |all| % 2 == 2 + rest - rest % 2;
    }
  }

  /** Once the complete pairs are consumed, what is left over is the odd tail. */
  lemma CutOfPairs(all: seq<Byte>, m: nat, odd: int)
    requires 0 <= odd <= 1 && |all| == 2 * m + odd
    ensures EvenPart(all) == all[..2 * m] && OddTail(all) == all[2 * m..]
  {
  }

  /** C's `/` on int: the quotient truncated toward zero. */
  function CDiv(a: int, b: int): (q: int)
    requires b > 0
    ensures a >= 0 ==> q == a / b
    ensures a < 0 ==> q <= 0 && (q < 0 <==> a <= -b)
  {
    if a >= 0 then a / b else -((-a) / b)
  }

  /** C's `%` on int: the remainder, with the sign of the dividend. */
  function CRem(a: int, b: int): (r: int)
    requires b > 0
    ensures a >= 0 ==> r == a % b
    ensures -b < a < 0 ==> r == a
  {
    a - CDiv(a, b) * b
  }

  /** The `short` value rcnb_encode_short receives for unit u: two's complement. */
  function AsShort(u: Unit16): (v: int)
    ensures -0x8000 <= v <= 0x7FFF
    ensures v >= 0 <==> u < 0x8000
  {
    if u >= 0x8000 then u - 0x1_0000 else u
  }

  /**
   * The four table positions rcnb_encode_short reads, as written: the
   * parameter is a signed short, so the test for bit 15 never holds and a
   * unit with bit 15 set is divided as a negative number.
   */
  function ShortIndicesAsWritten(u: Unit16): (ix: seq<int>)
    ensures |ix| == 4
  {
    var v := AsShort(u);
    [CDiv(v, 2250), CDiv(CRem(v, 2250), 150), CDiv(CRem(v, 150), 10), CRem(v, 10)]
  }

  /**
   * As written, rcnb_encode_short reads the digits of a unit below 0x8000,
   * and reads some table at a negative position for every other unit.
   */
  lemma TopBitIndexesBelowZero(u: Unit16)
    ensures u < 0x8000 ==> ShortIndicesAsWritten(u) == [u / 2250, u % 2250 / 150, u % 150 / 10, u % 10]
    ensures u >= 0x8000 ==> exists k | 0 <= k < 4 :: ShortIndicesAsWritten(u)[k] < 0
  {
    var v := AsShort(u);
    var ix := ShortIndicesAsWritten(u);
    if u >= 0x8000 {
      if v <= -2250 {
        assert ix[0] < 0;
      } else if v <= -150 {
        assert ix[1] < 0;
      } else if v <= -10 {
        assert ix[2] < 0;
      } else {
        assert ix[3] < 0;
      }
    }
  }

  /** The value a byte has once read through a signed `char`: two's complement. */
  function AsChar(b: Byte): (v: int)
    ensures -0x80 <= v <= 0x7F
    ensures v >= 0 <==> b < 0x80
  {
    if b >= 0x80 then b - 0x100 else b
  }

  /**
   * The two table positions rcnb_encode_byte reads, as written, where char
   * is signed: the test `value_in > 0x7F` never holds, so every byte takes
   * the R C branch, and a byte at or above 0x80 is divided as a negative
   * number.
   */
  function ByteIndicesAsWritten(b: Byte): (ix: seq<int>)
    ensures |ix| == 2
  {
    var v := AsChar(b);
    [CDiv(v, 15), CRem(v, 15)]
  }

  /**
   * As written, with a signed char, rcnb_encode_byte reads the R C digits
   * of a byte below 0x80, and reads cr or cc at a negative position for
   * every other byte.
   */
  lemma SignedByteIndexesBelowZero(b: Byte)
    ensures b < 0x80 ==> ByteIndicesAsWritten(b) == [b / 15, b % 15]
    ensures b >= 0x80 ==> exists k | 0 <= k < 2 :: ByteIndicesAsWritten(b)[k] < 0
  {
    var ix := ByteIndicesAsWritten(b);
    if b >= 0x80 {
      if AsChar(b) <= -15 {
        assert ix[0] < 0;
      } else {
        assert ix[1] < 0;
      }
    }
  }

  /** A signed char widened to a 32-bit int by C's integer promotion: its sign bit is copied upwards. */
  function Promote(c: bv8): bv32
  {
    if c & 0x80 == 0 then c as bv32 else c as bv32 | 0xFFFF_FF00
  }

  /**
   * ORing a promoted char into a value whose low eight bits are clear: a
   * negative char covers every bit above its own, so it is the result;
   * otherwise the two do not overlap and the OR is a sum.
   */
  lemma OrWithPromoted(x: bv32, c: bv8)
    requires x & 0xFF == 0
    ensures c & 0x80 != 0 ==> x | Promote(c) == Promote(c)
    ensures c & 0x80 == 0 ==> x | Promote(c) == x + Promote(c)
  {
  }

  /**
   * The unit rcnb_encode_block passes to rcnb_encode_short for the bytes hi
   * and lo, as written, where char is signed: `hi << 8 | lo` on the promoted
   * values (OrWithPromoted gives the OR), cut to the 16 bits of the `short`
   * parameter and read here as 0..0xFFFF.
   */
  function UnitAsWritten(hi: Byte, lo: Byte): Unit16
  {
    var shifted := AsChar(hi) * 0x100;
    var v := AsChar(lo);
    var joined := if v < 0 then v else shifted + v;
    joined % 0x1_0000
  }

  /**
   * As written, with a signed char, a low byte below 0x80 gives the intended
   * unit, while a low byte at or above 0x80 replaces the high byte by 0xFF:
   * two different pairs give the same unit, and that unit has bit 15 set, so
   * rcnb_encode_short then reads a table at a negative position.
   */
  lemma SignExtendedUnit(hi: Byte, lo: Byte)
    ensures lo < 0x80 ==> UnitAsWritten(hi, lo) == Unit(hi, lo)
    ensures lo >= 0x80 ==> UnitAsWritten(hi, lo) == Unit(0xFF, lo)
    ensures lo >= 0x80 && hi != 0xFF ==> UnitAsWritten(hi, lo) != Unit(hi, lo)
    ensures lo >= 0x80 ==> exists k | 0 <= k < 4 :: ShortIndicesAsWritten(UnitAsWritten(hi, lo))[k] < 0
  {
    var u := UnitAsWritten(hi, lo);
    UnitAsWrittenValue(hi, lo);
    if lo >= 0x80 {
      TopBitIndexesBelowZero(u);
    }
  }

  /** The unit as written: the intended one for a low byte below 0x80, and 0xFF00 plus the low byte otherwise. */
  lemma UnitAsWrittenValue(hi: Byte, lo: Byte)
    ensures UnitAsWritten(hi, lo) == if lo < 0x80 then hi * 0x100 + lo else 0xFF00 + lo
  {
  }

  /**
   * As written, with a signed char, a low byte at or above 0x80 makes every
   * high byte give the same unit: the encoding of such a pair loses its
   * high byte, where the intended units differ.
   */
  lemma SignExtensionCollides(a: Byte, b: Byte, lo: Byte)
    requires a != b && lo >= 0x80
    ensures UnitAsWritten(a, lo) == UnitAsWritten(b, lo)
    ensures Unit(a, lo) != Unit(b, lo)
  {
    var v := AsChar(lo);
    assert UnitAsWritten(a, lo) == v % 0x1_0000;
    assert UnitAsWritten(b, lo) == v % 0x1_0000;
  }

  /**
   * rcnb_encode_byte as written, where char is unsigned: on the N B branch
   * it writes both symbols but advances the output position past the first
   * one only.
   */
  method EncodeByteAsWritten(b: Byte, out: array<char>, pos: nat) returns (next: nat)
    requires pos + 2 <= out.Length
    modifies out
    ensures next == (if b > 0x7F then pos + 1 else pos + 2)
    ensures out[pos..pos + 2] == EncodeTail(b)
    ensures forall k | 0 <= k < out.Length && (k < pos || pos + 2 <= k) :: out[k] == old(out[k])
  {
    var p := pos;
    if b > 0x7F {
      var v := b - 0x80;
      ClearTopBit(b, 0x80);
      assert v == b % 0x80;
      ghost var g := [CN[v / 10], CB[v % 10]];
      assert EncodeTail(b) == g;
      out[p] := CN[v / 10];
      p := p + 1;
      out[p] := CB[v % 10];
      assert out[pos..pos + 2] == g;
      return p;
    }
    ghost var g := [CR[b / 15], CC[b % 15]];
    assert EncodeTail(b) == g;
    out[p] := CR[b / 15];
    p := p + 1;
    out[p] := CC[b % 15];
    p := p + 1;
    assert out[pos..p] == g;
    next := p;
  }

  /**
   * rcnb_encode_blockend as written with the byte b carried: the byte's
   * symbols, then the terminator at the position rcnb_encode_byte returned;
   * n is the count it returns.  For b above 0x7F the terminator lands on
   * the B symbol.
   */
  method TailEndAsWritten(b: Byte, out: array<char>, at: nat) returns (n: nat)
    requires at + 3 <= out.Length
    modifies out
    ensures b > 0x7F ==> n == 2 && out[at..at + n] == [EncodeTail(b)[0], '\0']
    ensures b <= 0x7F ==> n == 3 && out[at..at + n] == EncodeTail(b) + ['\0']
    ensures forall k | 0 <= k < out.Length && (k < at || at + n <= k) :: out[k] == old(out[k])
  {
    var p := EncodeByteAsWritten(b, out, at);
    out[p] := '\0';
    p := p + 1;
    n := p - at;
  }

  /**
   * What is left of the encoding of a byte above 0x7F as written is its N
   * symbol alone.  No decoder accepts one symbol, and the only symbol that
   * completes it to a stream decoding to the byte is the B symbol the
   * terminator overwrote.
   */
  lemma LostSymbolUndecodable(b: Byte)
    requires b > 0x7F
    ensures EncodeTail(b)[0] == CN[(b - 0x80) / 10]
    ensures DecodeAll([EncodeTail(b)[0]]).Err?
    ensures DecodeAll(EncodeTail(b)) == Ok([b])
    ensures forall c: char :: DecodeAll([EncodeTail(b)[0], c]) == Ok([b]) <==> c == EncodeTail(b)[1]
  {
    ClearTopBit(b, 0x80);
    PairOfByte(b, EncodeTail(b));
    forall c: char
      ensures DecodeAll([EncodeTail(b)[0], c]) == Ok([b]) <==> c == EncodeTail(b)[1]
    {
      PairOfByte(b, [EncodeTail(b)[0], c]);
    }
  }
}
