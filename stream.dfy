/**
 * Whole streams: the plaintext is cut into 16-bit units (first byte high),
 * each unit becomes a group of four symbols and an odd last byte becomes a
 * pair of symbols, so n bytes always give 2n symbols.
 *
 * These are the specification functions the imperative encoder, decoder
 * and vector kernels are proved against.
 */
module Stream {
  import opened Alphabet
  import opened UnitCodec
  import opened SeqFacts

  /** The unit formed by two consecutive plaintext bytes, the first one high. */
  function Unit(hi: Byte, lo: Byte): Unit16
  {
    hi * 0x100 + lo
  }

  /** The two plaintext bytes of a unit, high byte first, as the decoder writes them. */
  function UnitBytes(u: Unit16): (p: seq<Byte>)
    ensures |p| == 2 && Unit(p[0], p[1]) == u
  {
    [u / 0x100, u % 0x100]
  }

  /** The groups of the complete pairs of s, in order; an odd last byte is not paired. */
  function EncodePairs(s: seq<Byte>): seq<char>
    decreases |s|
  {
    if |s| < 2 then [] else EncodeUnit(Unit(s[0], s[1])) + EncodePairs(s[2..])
  }

  /** Every complete pair gives four symbols. */
  lemma {:induction false} EncodePairsLength(s: seq<Byte>)
    requires |s| % 2 == 0
    ensures |EncodePairs(s)| == 2 * |s|
    decreases |s|
  {
    if |s| > 0 {
      DropPair(|s|);
      EncodePairsLength(s[2..]);
    }
  }

  /** The complete pairs of s: all of it but an odd last byte. */
  function EvenPart(s: seq<Byte>): (e: seq<Byte>)
    ensures |e| % 2 == 0
  {
    s[..|s| - |s| % 2]
  }

  /** The byte left over when s is cut into pairs: empty or the last byte. */
  function OddTail(s: seq<Byte>): (p: seq<Byte>)
    ensures |p| <= 1
  {
    if |s| % 2 == 1 then [s[|s| - 1]] else []
  }

  /** The complete pairs are the first 2 * (|s| / 2) bytes. */
  lemma EvenPartIsPairs(s: seq<Byte>)
    ensures |s| - |s| % 2 == 2 * (|s| / 2)
    ensures EvenPart(s) == s[..2 * (|s| / 2)]
  {
  }

  /** An odd count, the test the low bit of a length makes. */
  predicate Odd(n: nat)
  {
    n % 2 == 1
  }

  /** A count twice some number is even (kept apart from the large contexts that use it). */
  lemma Twice(n: nat, half: int)
    requires n == 2 * half
    ensures !Odd(n)
  {
  }

  /** The pairs and the leftover byte make up the whole input again. */
  lemma EvenThenOdd(s: seq<Byte>)
    ensures EvenPart(s) + OddTail(s) == s
  {
    CutAt(s, |s| - |s| % 2);
  }

  /** The symbols of a leftover byte, if there is one. */
  function TailSymbols(p: seq<Byte>): (r: seq<char>)
    requires |p| <= 1
    ensures |r| == 2 * |p|
  {
    if p == [] then [] else EncodeTail(p[0])
  }

  /** The complete encoding of a plaintext: its groups, then the pair of an odd last byte. */
  function EncodeAll(s: seq<Byte>): (r: seq<char>)
    ensures |r| == 2 * |s|
  {
    EncodePairsLength(EvenPart(s));
    EncodePairs(EvenPart(s)) + TailSymbols(OddTail(s))
  }

  /**
   * What decoding whole groups yields: the bytes of the groups before the
   * first rejected one, and whether every group was accepted.
   */
  datatype Decoded = Decoded(bytes: seq<Byte>, ok: bool)

  /** The symbols after the last whole group: fewer than four. */
  function Remainder(s: seq<char>): (r: seq<char>)
    ensures |r| < 4 && |r| <= |s| && r == s[|s| - |r|..]
    decreases |s|
  {
    if |s| < 4 then s else Remainder(s[4..])
  }

  /** Decoding every whole group of s, stopping at the first rejected one. */
  function DecodeGroups(s: seq<char>): (d: Decoded)
    ensures 2 * |d.bytes| + |Remainder(s)| <= |s|
    ensures d.ok ==> 2 * |d.bytes| + |Remainder(s)| == |s|
    decreases |s|
  {
    if |s| < 4 then Decoded([], true)
    else
      match DecodeUnit(s[..4])
      case Err(_) => Decoded([], false)
      case Ok(u) =>
        var rest := DecodeGroups(s[4..]);
        Decoded(UnitBytes(u) + rest.bytes, rest.ok)
  }

  /** A non-empty plaintext of complete pairs holds a first pair and complete pairs after it. */
  lemma DropPair(n: int)
    requires n % 2 == 0 && n > 0
    ensures n >= 2 && (n - 2) % 2 == 0
  {
  }

  /** An even prefix does not change whether the rest is cut into pairs exactly. */
  lemma EvenPrefix(x: int, y: int)
    requires x % 2 == 0
    ensures (x + y) % 2 == y % 2
  {
  }

  /**
   * The intended one-shot decoding of a symbol stream: groups of four, then
   * an optional pair for an odd last byte.  A stream of odd length, or one
   * ending in three symbols, is malformed; the first rejected group or pair
   * gives the error.
   */
  function DecodeAll(s: seq<char>): (r: Result<seq<Byte>>)
    ensures r.Ok? ==> 2 * |r.value| == |s|
    decreases |s|
  {
    if |s| == 0 then Ok([])
    else if |s| == 2 then
      match DecodeTail(s)
      case Ok(b) => Ok([b])
      case Err(e) => Err(e)
    else if |s| < 4 then Err(MalformedTail)
    else
      match DecodeUnit(s[..4])
      case Err(e) => Err(e)
      case Ok(u) =>
        match DecodeAll(s[4..])
        case Err(e) => Err(e)
        case Ok(rest) => Ok(UnitBytes(u) + rest)
  }

  /** Cutting the plaintext at an even position cuts its groups at the same place. */
  lemma {:induction false} EncodePairsAppend(a: seq<Byte>, b: seq<Byte>)
    requires |a| % 2 == 0
    ensures EncodePairs(a + b) == EncodePairs(a) + EncodePairs(b)
    decreases |a|
  {
    if |a| == 0 {
      assert a + b == b;
    } else {
      DropPair(|a|);
      var ab := a + b;
      assert ab[0] == a[0] && ab[1] == a[1];
      assert ab[2..] == a[2..] + b;
      EncodePairsAppend(a[2..], b);
    }
  }

  /** After an even prefix, the cut into pairs of the rest is unchanged. */
  lemma CutAfterEven(a: seq<Byte>, b: seq<Byte>)
    requires |a| % 2 == 0
    ensures EvenPart(a + b) == a + EvenPart(b)
    ensures OddTail(a + b) == OddTail(b)
  {
    EvenPrefix(|a|, |b|);
    var k := |b| % 2;
    assert |a + b| - k == |a| + (|b| - k);
    assert (a + b)[..|a| + (|b| - k)] == a + b[..|b| - k];
    assert (a + b)[|a| + (|b| - k)..] == b[|b| - k..];
  }

  /** Encoding after an even prefix is encoding the rest: the basis of block-wise encoding. */
  lemma EncodeAllAppend(a: seq<Byte>, b: seq<Byte>)
    requires |a| % 2 == 0
    ensures EncodeAll(a + b) == EncodePairs(a) + EncodeAll(b)
  {
    CutAfterEven(a, b);
    EncodePairsAppend(a, EvenPart(b));
    var x, y, z := EncodePairs(a), EncodePairs(EvenPart(b)), TailSymbols(OddTail(b));
    assert EncodeAll(a + b) == (x + y) + z;
    assert EncodeAll(b) == y + z;
    ConcatAssoc(x, y, z);
  }

  /** The bytes of the unit made of two bytes are those two bytes. */
  lemma UnitBytesOfUnit(hi: Byte, lo: Byte)
    ensures UnitBytes(Unit(hi, lo)) == [hi, lo]
  {
  }

  /** A unit's bytes make it back. */
  lemma UnitOfUnitBytes(u: Unit16)
    ensures Unit(UnitBytes(u)[0], UnitBytes(u)[1]) == u
  {
  }

  /** A plaintext of at least two bytes encodes as the group of its first pair, then the rest. */
  lemma EncodeAllCons(s: seq<Byte>)
    requires |s| >= 2
    ensures EncodeAll(s) == EncodeUnit(Unit(s[0], s[1])) + EncodeAll(s[2..])
  {
    var p, t := [s[0], s[1]], s[2..];
    assert s == p + t;
    EncodeAllAppend(p, t);
    PairOfTwo(s[0], s[1]);
  }

  /** Two bytes make one pair and so one group. */
  lemma PairOfTwo(hi: Byte, lo: Byte)
    ensures EncodePairs([hi, lo]) == EncodeUnit(Unit(hi, lo))
  {
    assert [hi, lo][2..] == [];
    assert EncodeUnit(Unit(hi, lo)) + [] == EncodeUnit(Unit(hi, lo));
  }

  /** A single byte encodes as its pair of symbols. */
  lemma EncodeAllSingle(b: Byte)
    ensures EncodeAll([b]) == EncodeTail(b)
  {
    assert EvenPart([b]) == [];
    assert OddTail([b]) == [b];
  }

  /** A stream starting with an accepted group, followed by an accepted stream, is accepted. */
  lemma DecodeAllCons(g: seq<char>, c: seq<char>)
    requires |g| == 4 && DecodeUnit(g).Ok? && DecodeAll(c).Ok?
    ensures DecodeAll(g + c) == Ok(UnitBytes(DecodeUnit(g).value) + DecodeAll(c).value)
  {
    SplitConcat(g, c);
  }

  /** A plaintext's encoding decodes back to it. */
  lemma {:induction false} RoundTrip(s: seq<Byte>)
    ensures DecodeAll(EncodeAll(s)) == Ok(s)
    decreases |s|
  {
    if |s| == 0 {
      assert EvenPart(s) == [] && OddTail(s) == [];
    } else if |s| == 1 {
      assert s == [s[0]];
      EncodeAllSingle(s[0]);
      TailRoundTrip(s[0]);
    } else {
      var u := Unit(s[0], s[1]);
      EncodeAllCons(s);
      UnitRoundTrip(u);
      RoundTrip(s[2..]);
      DecodeAllCons(EncodeUnit(u), EncodeAll(s[2..]));
      UnitBytesOfUnit(s[0], s[1]);
      FirstPairAndRest(s);
    }
  }

  /** Every symbol stream the decoder accepts is the encoding of what it decodes to. */
  lemma {:induction false} Canonical(c: seq<char>)
    ensures DecodeAll(c).Ok? ==> EncodeAll(DecodeAll(c).value) == c
    decreases |c|
  {
    if DecodeAll(c).Ok? && |c| > 0 {
      var p := DecodeAll(c).value;
      if |c| == 2 {
        TailCanonical(c);
        assert p == [DecodeTail(c).value];
        EncodeAllSingle(p[0]);
      } else {
        var g, rest := c[..4], c[4..];
        CutAt(c, 4);
        var u := DecodeUnit(g).value;
        UnitCanonical(g);
        Canonical(rest);
        DecodeAllCons(g, rest);
        var q := DecodeAll(rest).value;
        var pair := UnitBytes(u);
        assert p == pair + q;
        SplitConcat(pair, q);
        EncodeAllCons(p);
        UnitOfUnitBytes(u);
      }
    }
  }

  /** A stream of two symbols decodes to the one byte b exactly when it is b's pair. */
  lemma PairOfByte(b: Byte, w: seq<char>)
    requires |w| == 2
    ensures DecodeAll(w) == Ok([b]) <==> w == EncodeTail(b)
  {
    EncodeAllSingle(b);
    RoundTrip([b]);
    Canonical(w);
  }

  /**
   * One-shot decoding, when it succeeds, accepts every whole group and the
   * remainder, and yields the groups' bytes followed by the remainder's.
   */
  lemma {:induction false} DecodeAllByGroups(s: seq<char>)
    requires DecodeAll(s).Ok?
    ensures DecodeGroups(s).ok && DecodeAll(Remainder(s)).Ok?
    ensures DecodeAll(s).value == DecodeGroups(s).bytes + DecodeAll(Remainder(s)).value
    decreases |s|
  {
    if |s| >= 4 {
      DecodeAllStep(s);
      DecodeAllByGroups(s[4..]);
      ConcatAssoc(UnitBytes(DecodeUnit(s[..4]).value), DecodeGroups(s[4..]).bytes,
                  DecodeAll(Remainder(s)).value);
    }
  }

  /** Accepted whole groups followed by an accepted remainder make an accepted stream. */
  lemma {:induction false} GroupsThenDecodeAll(s: seq<char>)
    requires DecodeGroups(s).ok && DecodeAll(Remainder(s)).Ok?
    ensures DecodeAll(s).Ok?
    decreases |s|
  {
    if |s| >= 4 {
      GroupsThenDecodeAll(s[4..]);
      DecodeAllStep(s);
    }
  }

  /** One-shot decoding of a stream of at least four symbols starts with a group. */
  lemma DecodeAllStep(s: seq<char>)
    requires |s| >= 4
    ensures DecodeAll(s).Ok? <==> DecodeUnit(s[..4]).Ok? && DecodeAll(s[4..]).Ok?
    ensures DecodeAll(s).Ok? ==>
      DecodeAll(s).value == UnitBytes(DecodeUnit(s[..4]).value) + DecodeAll(s[4..]).value
  {
  }

  /**
   * The whole groups from position from on: the group there, then those
   * from position to = from + 4 on.  This is how a loop over the groups
   * sees them.
   */
  lemma GroupsAt(s: seq<char>, from: nat, to: nat)
    requires to == from + 4 && to <= |s|
    ensures DecodeGroups(s[from..]).ok <==>
      DecodeUnit(s[from..from + 4]).Ok? && DecodeGroups(s[to..]).ok
    ensures DecodeUnit(s[from..from + 4]).Err? ==> DecodeGroups(s[from..]).bytes == []
    ensures DecodeUnit(s[from..from + 4]).Ok? ==>
      DecodeGroups(s[from..]).bytes ==
        UnitBytes(DecodeUnit(s[from..from + 4]).value) + DecodeGroups(s[to..]).bytes
  {
    DropTake(s, from, 4, from + 4);
    DropDrop(s, from, 4, to);
  }

  /** The whole groups of a group g followed by c: g's, then c's. */
  lemma GroupsCons(g: seq<char>, c: seq<char>)
    requires |g| == 4
    ensures DecodeGroups(g + c).ok <==> DecodeUnit(g).Ok? && DecodeGroups(c).ok
    ensures DecodeUnit(g).Err? ==> DecodeGroups(g + c).bytes == []
    ensures DecodeUnit(g).Ok? ==>
      DecodeGroups(g + c).bytes == UnitBytes(DecodeUnit(g).value) + DecodeGroups(c).bytes
    ensures Remainder(g + c) == Remainder(c)
  {
    SplitConcat(g, c);
  }

  /** Fewer than four symbols hold no whole group. */
  lemma GroupsEnd(s: seq<char>, from: nat)
    requires from <= |s| < from + 4
    ensures DecodeGroups(s[from..]).ok && DecodeGroups(s[from..]).bytes == []
  {
  }

  /** A lone pair decodes as a tail byte. */
  lemma DecodeAllPair(s: seq<char>)
    requires |s| == 2
    ensures DecodeAll(s).Ok? <==> DecodeTail(s).Ok?
    ensures DecodeAll(s).Ok? ==> DecodeAll(s).value == [DecodeTail(s).value]
  {
  }

  /** The whole groups decode to whole units: an even number of bytes. */
  lemma {:induction false} GroupsEven(s: seq<char>)
    ensures |DecodeGroups(s).bytes| % 2 == 0
    decreases |s|
  {
    if |s| >= 4 && DecodeUnit(s[..4]).Ok? {
      var rest := DecodeGroups(s[4..]).bytes;
      GroupsEven(s[4..]);
      EvenAfterPair(|DecodeGroups(s).bytes|, |rest|);
    }
  }

  lemma EvenAfterPair(n: int, m: int)
    requires n == 2 + m && m % 2 == 0
    ensures n % 2 == 0
  {
  }

  /** The remainder starts after the last whole group. */
  lemma {:induction false} RemainderAt(s: seq<char>, m: nat)
    requires m == |s| / 4
    ensures Remainder(s) == s[4 * m..]
    decreases |s|
  {
    if |s| < 4 {
      assert s[4 * m..] == s;
    } else {
      var k := m - 1;
      RemainderAt(s[4..], k);
      DropDrop(s, 4, 4 * k, 4 * m);
    }
  }
}
