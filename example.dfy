/**
 * The example the library carries with it: src/cencode.c and src/cdecode.c
 * both hold the sentence "The Quick Brown RC Jumps Over the NB Dog." beside
 * its encoding.  The model's encoder is checked against that encoding group
 * by group, and the published symbols are checked to decode back to the
 * sentence.
 */
module Example {
  import opened Alphabet
  import opened UnitCodec
  import opened Stream
  import opened Decoder

  /*
   * The sentence, written as five stretches of eight bytes and its closing
   * '.', and its published encoding, written as the sixteen symbols of each
   * stretch and the pair of the '.'.  Each stretch comes with the digits of
   * its four groups in class order R C N B.
   */

  /** "The Quic" */
  const Bytes0: seq<Byte> := [84, 104, 101, 32, 81, 117, 105, 99]
  const Symbols0: seq<char> := "ȐčnÞȒċƝÞȐĈnƁȒȼǹþ"
  const Digits0: seq<int> := [9, 9, 0, 8, 11, 7, 8, 8, 9, 4, 0, 3, 11, 14, 12, 9]

  /** "k Brown " */
  const Bytes1: seq<Byte> := [107, 32, 66, 114, 111, 119, 110, 32]
  const Symbols1: seq<char> := "ȓĆǹƃřČŇbȓƇńƄȓċȵƀ"
  const Digits1: seq<int> := [12, 2, 12, 4, 7, 8, 6, 0, 12, 10, 3, 5, 12, 7, 14, 2]

  /** "RC Jumps" */
  const Bytes2: seq<Byte> := [82, 67, 32, 74, 117, 109, 112, 115]
  const Symbols2: seq<char> := "ȐĉņþŕƇNƅɌĉŇBȓƈȠß"
  const Digits2: seq<int> := [9, 5, 5, 9, 3, 10, 1, 6, 13, 5, 6, 1, 12, 11, 13, 7]

  /** " Over th" */
  const Bytes3: seq<Byte> := [32, 79, 118, 101, 114, 32, 116, 104]
  const Symbols3: seq<char> := "ŕƇŃBɌċnþȓȼǸƅɌćÑb"
  const Digits3: seq<int> := [3, 10, 2, 1, 13, 7, 0, 9, 12, 14, 11, 6, 13, 3, 10, 0]

  /** "e NB Dog" */
  const Bytes4: seq<Byte> := [101, 32, 78, 66, 32, 68, 111, 103]
  const Symbols4: seq<char> := "ȒċƝÞƦȻƝƃŕƇNbȓƇNþ"
  const Digits4: seq<int> := [11, 7, 8, 8, 8, 13, 8, 4, 3, 10, 1, 0, 12, 10, 1, 9]

  /** The 41 ASCII bytes of the sentence. */
  const Sentence: seq<Byte> := Bytes0 + Bytes1 + Bytes2 + Bytes3 + Bytes4 + [46]

  /** The 82 symbols published as its encoding. */
  const Published: seq<char> := Symbols0 + Symbols1 + Symbols2 + Symbols3 + Symbols4 + "ŕC"

  /**
   * Group j of a stretch: pair j of s is below 0x8000 and has the digits
   * d[4j..4j+4], and c holds the symbols of those digits.
   */
  ghost predicate GroupAt(s: seq<Byte>, c: seq<char>, d: seq<int>, j: nat)
  {
    2 * j + 2 <= |s| && 4 * j + 4 <= |c| && 4 * j + 4 <= |d| &&
    0 <= d[4 * j] < SR && 0 <= d[4 * j + 1] < SC && 0 <= d[4 * j + 2] < SN && 0 <= d[4 * j + 3] < SB &&
    Unit(s[2 * j], s[2 * j + 1]) == d[4 * j] * 2250 + d[4 * j + 1] * 150 + d[4 * j + 2] * 10 + d[4 * j + 3] <= 0x7FFF &&
    c[4 * j] == CR[d[4 * j]] && c[4 * j + 1] == CC[d[4 * j + 1]] &&
    c[4 * j + 2] == CN[d[4 * j + 2]] && c[4 * j + 3] == CB[d[4 * j + 3]]
  }

  /** The four symbols of a spelled group, as one slice. */
  lemma GroupSymbols(s: seq<Byte>, c: seq<char>, d: seq<int>, j: nat)
    requires GroupAt(s, c, d, j)
    ensures c[4 * j..4 * j + 4] == [CR[d[4 * j]], CC[d[4 * j + 1]], CN[d[4 * j + 2]], CB[d[4 * j + 3]]]
  {
  }

  /** A spelled group in front of the encoding of the pairs after it. */
  lemma StepGroup(s: seq<Byte>, c: seq<char>, d: seq<int>, j: nat)
    requires GroupAt(s, c, d, j) && |c| == 2 * |s|
    requires EncodePairs(s[2 * j + 2..]) == c[4 * j + 4..]
    ensures EncodePairs(s[2 * j..]) == c[4 * j..]
  {
    EncodeDigits(d[4 * j], d[4 * j + 1], d[4 * j + 2], d[4 * j + 3]);
    GroupSymbols(s, c, d, j);
    var t := s[2 * j..];
    assert t[2..] == s[2 * j + 2..];
    assert c[4 * j..] == c[4 * j..4 * j + 4] + c[4 * j + 4..];
  }

  /** When every group from j on is spelled as its digits say, so are the pairs from j on. */
  lemma {:induction false} GroupsFrom(s: seq<Byte>, c: seq<char>, d: seq<int>, j: nat)
    requires |s| % 2 == 0 && |c| == 2 * |s| && 2 * j <= |s|
    requires forall k | j <= k < |s| / 2 :: GroupAt(s, c, d, k)
    ensures EncodePairs(s[2 * j..]) == c[4 * j..]
    decreases |s| - 2 * j
  {
    if 2 * j < |s| {
      GroupsFrom(s, c, d, j + 1);
      StepGroup(s, c, d, j);
    }
  }

  /** The four groups of an eight-byte stretch are spelled as its digits say. */
  ghost predicate Spells(s: seq<Byte>, c: seq<char>, d: seq<int>)
  {
    GroupAt(s, c, d, 0) && GroupAt(s, c, d, 1) && GroupAt(s, c, d, 2) && GroupAt(s, c, d, 3)
  }

  /** A group of x is still spelled at the same place once y is appended. */
  lemma KeepGroup(x: seq<Byte>, cx: seq<char>, dx: seq<int>, y: seq<Byte>, cy: seq<char>, dy: seq<int>, k: nat)
    requires GroupAt(x, cx, dx, k)
    ensures GroupAt(x + y, cx + cy, dx + dy, k)
  {
  }

  /** Each of the four groups of a spelled stretch is spelled. */
  lemma SpelledGroup(y: seq<Byte>, cy: seq<char>, dy: seq<int>, j: nat)
    requires Spells(y, cy, dy) && j < 4
    ensures GroupAt(y, cy, dy, j)
  {
    if j == 0 {
    } else if j == 1 {
    } else if j == 2 {
    }
  }

  /** The four groups of a spelled stretch, as one quantified fact. */
  lemma SpelledGroups(y: seq<Byte>, cy: seq<char>, dy: seq<int>)
    requires Spells(y, cy, dy)
    ensures forall j | 0 <= j < 4 :: GroupAt(y, cy, dy, j)
  {
    forall j | 0 <= j < 4
      ensures GroupAt(y, cy, dy, j)
    {
      SpelledGroup(y, cy, dy, j);
    }
  }

  /** Group j of y is spelled n groups further on once y follows n groups of x. */
  lemma ShiftedGroup(x: seq<Byte>, cx: seq<char>, dx: seq<int>, y: seq<Byte>, cy: seq<char>, dy: seq<int>, n: nat, j: nat)
    requires |x| == 2 * n && |cx| == 4 * n && |dx| == 4 * n
    requires GroupAt(y, cy, dy, j)
    ensures GroupAt(x + y, cx + cy, dx + dy, n + j)
  {
  }

  /** Group k of n spelled groups of x followed by four spelled groups of y. */
  lemma ExtendAt(x: seq<Byte>, cx: seq<char>, dx: seq<int>, y: seq<Byte>, cy: seq<char>, dy: seq<int>, n: nat, k: nat)
    requires |x| == 2 * n && |cx| == 4 * n && |dx| == 4 * n
    requires k < n ==> GroupAt(x, cx, dx, k)
    requires n <= k ==> GroupAt(y, cy, dy, k - n)
    ensures GroupAt(x + y, cx + cy, dx + dy, k)
  {
    if k < n {
      KeepGroup(x, cx, dx, y, cy, dy, k);
    } else {
      ShiftedGroup(x, cx, dx, y, cy, dy, n, k - n);
    }
  }

  /** Appending four spelled groups to n spelled groups gives n + 4 spelled groups. */
  lemma Extend(x: seq<Byte>, cx: seq<char>, dx: seq<int>, y: seq<Byte>, cy: seq<char>, dy: seq<int>, n: nat)
    requires |x| == 2 * n && |cx| == 4 * n && |dx| == 4 * n
    requires forall i | 0 <= i < n :: GroupAt(x, cx, dx, i)
    requires forall j | 0 <= j < 4 :: GroupAt(y, cy, dy, j)
    ensures forall k | 0 <= k < n + 4 :: GroupAt(x + y, cx + cy, dx + dy, k)
  {
    forall k | 0 <= k < n + 4
      ensures GroupAt(x + y, cx + cy, dx + dy, k)
    {
      if k < n {
        assert GroupAt(x, cx, dx, k);
      } else {
        assert GroupAt(y, cy, dy, k - n);
      }
      ExtendAt(x, cx, dx, y, cy, dy, n, k);
    }
  }

  /** Five spelled stretches, one after the other, spell all twenty of their groups. */
  lemma AllGroups(b0: seq<Byte>, b1: seq<Byte>, b2: seq<Byte>, b3: seq<Byte>, b4: seq<Byte>,
                  c0: seq<char>, c1: seq<char>, c2: seq<char>, c3: seq<char>, c4: seq<char>,
                  d0: seq<int>, d1: seq<int>, d2: seq<int>, d3: seq<int>, d4: seq<int>)
    requires |b0| == |b1| == |b2| == |b3| == 8
    requires |c0| == |c1| == |c2| == |c3| == 16
    requires |d0| == |d1| == |d2| == |d3| == 16
    requires Spells(b0, c0, d0) && Spells(b1, c1, d1) && Spells(b2, c2, d2) && Spells(b3, c3, d3) && Spells(b4, c4, d4)
    ensures forall k | 0 <= k < 20 ::
      GroupAt(b0 + b1 + b2 + b3 + b4, c0 + c1 + c2 + c3 + c4, d0 + d1 + d2 + d3 + d4, k)
  {
    SpelledGroups(b0, c0, d0);
    SpelledGroups(b1, c1, d1);
    SpelledGroups(b2, c2, d2);
    SpelledGroups(b3, c3, d3);
    SpelledGroups(b4, c4, d4);
    Extend(b0, c0, d0, b1, c1, d1, 4);
    Extend(b0 + b1, c0 + c1, d0 + d1, b2, c2, d2, 8);
    Extend(b0 + b1 + b2, c0 + c1 + c2, d0 + d1 + d2, b3, c3, d3, 12);
    Extend(b0 + b1 + b2 + b3, c0 + c1 + c2 + c3, d0 + d1 + d2 + d3, b4, c4, d4, 16);
  }

  /**
   * Twenty spelled groups, then a closing byte: the encoding of the whole is
   * the symbols of the groups and the pair of the closing byte.
   */
  lemma Assembled(s: seq<Byte>, c: seq<char>, d: seq<int>, last: Byte)
    requires |s| == 40 && |c| == 80
    requires forall k | 0 <= k < 20 :: GroupAt(s, c, d, k)
    ensures EncodeAll(s + [last]) == c + EncodeTail(last)
  {
    GroupsFrom(s, c, d, 0);
    assert s[0..] == s && c[0..] == c;
    EncodeAllAppend(s, [last]);
    EncodeAllSingle(last);
  }

  /** Published stretch 0 spells the digits of byte stretch 0. */
  lemma Spelled0()
    ensures Spells(Bytes0, Symbols0, Digits0)
  {
  }

  /** Published stretch 1 spells the digits of byte stretch 1. */
  lemma Spelled1()
    ensures Spells(Bytes1, Symbols1, Digits1)
  {
  }

  /** Published stretch 2 spells the digits of byte stretch 2. */
  lemma Spelled2()
    ensures Spells(Bytes2, Symbols2, Digits2)
  {
  }

  /** Published stretch 3 spells the digits of byte stretch 3. */
  lemma Spelled3()
    ensures Spells(Bytes3, Symbols3, Digits3)
  {
  }

  /** Published stretch 4 spells the digits of byte stretch 4. */
  lemma Spelled4()
    ensures Spells(Bytes4, Symbols4, Digits4)
  {
  }

  /** The sentence encodes to the published symbols. */
  lemma PublishedEncoding()
    ensures EncodeAll(Sentence) == Published
  {
    Spelled0();
    Spelled1();
    Spelled2();
    Spelled3();
    Spelled4();
    AllGroups(Bytes0, Bytes1, Bytes2, Bytes3, Bytes4, Symbols0, Symbols1, Symbols2, Symbols3, Symbols4,
              Digits0, Digits1, Digits2, Digits3, Digits4);
    Assembled(Bytes0 + Bytes1 + Bytes2 + Bytes3 + Bytes4, Symbols0 + Symbols1 + Symbols2 + Symbols3 + Symbols4,
              Digits0 + Digits1 + Digits2 + Digits3 + Digits4, 46);
    EncodeTailRC(3, 1);
  }

  /** An odd plaintext of three bytes or more comes back from its encoding through both decoders. */
  lemma DecodesBack(s: seq<Byte>, c: seq<char>)
    requires |s| >= 3 && |s| % 2 == 1 && EncodeAll(s) == c
    ensures DecodeSpec(c) == Produced(s)
    ensures DecodeCheckedSpec(c) == Produced(s)
  {
    OddPlaintextDecoded(s);
    CheckedRoundTrip(s);
  }

  /**
   * The published symbols decode back to the sentence, through rcnb_decode
   * as written (the sentence has an odd length) and through the corrected
   * decoder.
   */
  lemma PublishedDecodes()
    ensures DecodeSpec(Published) == Produced(Sentence)
    ensures DecodeCheckedSpec(Published) == Produced(Sentence)
  {
    PublishedEncoding();
    DecodesBack(Sentence, Published);
  }
}
