/**
 * The scalar streaming decoder of src/cdecode.c.
 *
 * The symbol input is read-only and is a sequence; the plaintext output is
 * an array written at an advancing index, and the decoding state is an
 * object holding the carried-over symbols in a four-slot buffer.
 */
module Decoder {
  import opened Alphabet
  import opened UnitCodec
  import opened Stream
  import opened SeqFacts

  /** find: the linear search for x in the table t; -1 when it is absent. */
  method Find(t: seq<char>, x: char) returns (r: int)
    ensures r == IndexOf(t, x)
  {
    IndexOfFirst(t, x);
    var i := 0;
    while i < |t|
      invariant 0 <= i <= |t|
      invariant forall j | 0 <= j < i :: t[j] != x
    {
      if t[i] == x {
        return i;
      }
      i := i + 1;
    }
    return -1;
  }

  /**
   * rcnb_decode_short: decodes the group code[from..from+4].  When it is
   * accepted, its two plaintext bytes, high byte first, are written at
   * out[pos..pos+2] and the position advances; otherwise nothing is written.
   */
  method DecodeShort(code: seq<char>, from: nat, out: array<Byte>, pos: nat)
    returns (ok: bool, next: nat)
    requires from + 4 <= |code| && pos + 2 <= out.Length
    modifies out
    ensures var r := DecodeUnit(code[from..from + 4]);
      ok == r.Ok? && next == (if ok then pos + 2 else pos) &&
      (ok ==> Holds(out[..], pos, UnitBytes(r.value)))
    ensures forall k | 0 <= k < out.Length && (k < pos || next <= k) :: out[k] == old(out[k])
  {
    var result;
    ok, result := GroupValue(code, from);
    if !ok {
      return false, pos;
    }
    // The high byte (result >> 8) first, then the low byte (result & 0xFF).
    var bytes := UnitBytes(result);
    out[pos] := bytes[0];
    out[pos + 1] := bytes[1];
    next := pos + 2;
    assert out[..][pos..next] == bytes;
  }

  /**
   * The lookups and arithmetic of rcnb_decode_short: the 16-bit value of
   * the group code[from..from+4], read as R C N B and, when its first
   * symbol is not an R, as N B R C with bit 15 set.
   */
  method GroupValue(code: seq<char>, from: nat) returns (ok: bool, result: Unit16)
    requires from + 4 <= |code|
    ensures var r := DecodeUnit(code[from..from + 4]);
      ok == r.Ok? && (ok ==> result == r.value)
  {
    ghost var g := code[from..from + 4];
    var first := Find(CR, code[from]);
    var reverse := first < 0;
    var ir, ic, iN, ib;
    if !reverse {
      ir := Find(CR, code[from]);
      ic := Find(CC, code[from + 1]);
      iN := Find(CN, code[from + 2]);
      ib := Find(CB, code[from + 3]);
    } else {
      ir := Find(CR, code[from + 2]);
      ic := Find(CC, code[from + 3]);
      iN := Find(CN, code[from]);
      ib := Find(CB, code[from + 1]);
    }
    UnitByIndices(g, reverse, ir, ic, iN, ib);
    if ir < 0 || ic < 0 || iN < 0 || ib < 0 {
      return false, 0;
    }
    var v := ir * 2250 + ic * 150 + iN * 10 + ib;
    if v > 0x7FFF {
      return false, 0;
    }
    // Setting bit 15 of a value below 0x8000 adds 0x8000.
    result := if reverse then v + 0x8000 else v;
    ok := true;
  }

  /**
   * rcnb_decode_byte: decodes the pair code[from..from+2], read as R C and
   * otherwise as N B.  When it is accepted, its byte is written at out[pos]
   * and the position advances; otherwise nothing is written.
   */
  method DecodeByte(code: seq<char>, from: nat, out: array<Byte>, pos: nat)
    returns (ok: bool, next: nat)
    requires from + 2 <= |code| && pos + 1 <= out.Length
    modifies out
    ensures var r := DecodeTail(code[from..from + 2]);
      ok == r.Ok? && next == (if ok then pos + 1 else pos) &&
      (ok ==> out[pos] == r.value)
    ensures forall k | 0 <= k < out.Length && (k < pos || next <= k) :: out[k] == old(out[k])
  {
    ghost var g := code[from..from + 2];
    var nb := false;
    var i0 := Find(CR, code[from]);
    var i1 := Find(CC, code[from + 1]);
    if i0 < 0 || i1 < 0 {
      i0 := Find(CN, code[from]);
      i1 := Find(CB, code[from + 1]);
      nb := true;
    }
    TailByIndices(g, nb, i0, i1);
    if i0 < 0 || i1 < 0 {
      return false, pos;
    }
    var result := if nb then i0 * 10 + i1 else i0 * 15 + i1;
    if result > 0x7F {
      return false, pos;
    }
    // Setting bit 7 of a value below 0x80 adds 0x80.
    var b := if nb then result + 0x80 else result;
    out[pos] := b;
    ok, next := true, pos + 1;
  }

  /** DecodeUnit in terms of the four table lookups of rcnb_decode_short. */
  lemma UnitByIndices(g: seq<char>, reverse: bool, ir: int, ic: int, iN: int, ib: int)
    requires |g| == 4 && reverse == (IndexOf(CR, g[0]) < 0)
    requires ir == IndexOf(CR, if reverse then g[2] else g[0])
    requires ic == IndexOf(CC, if reverse then g[3] else g[1])
    requires iN == IndexOf(CN, if reverse then g[0] else g[2])
    requires ib == IndexOf(CB, if reverse then g[1] else g[3])
    ensures ir < 0 || ic < 0 || iN < 0 || ib < 0 ==> DecodeUnit(g).Err?
    ensures ir >= 0 && ic >= 0 && iN >= 0 && ib >= 0 ==>
      var v := ir * 2250 + ic * 150 + iN * 10 + ib;
      (DecodeUnit(g).Ok? <==> v <= 0x7FFF) &&
      (v <= 0x7FFF ==> DecodeUnit(g).value == if reverse then v + 0x8000 else v)
  {
  }

  /** DecodeTail in terms of the table lookups of rcnb_decode_byte. */
  lemma TailByIndices(g: seq<char>, nb: bool, i0: int, i1: int)
    requires |g| == 2
    requires nb == (IndexOf(CR, g[0]) < 0 || IndexOf(CC, g[1]) < 0)
    requires i0 == if nb then IndexOf(CN, g[0]) else IndexOf(CR, g[0])
    requires i1 == if nb then IndexOf(CB, g[1]) else IndexOf(CC, g[1])
    ensures i0 < 0 || i1 < 0 ==> DecodeTail(g).Err?
    ensures i0 >= 0 && i1 >= 0 ==>
      var v := if nb then i0 * 10 + i1 else i0 * 15 + i1;
      (DecodeTail(g).Ok? <==> v <= 0x7F) &&
      (v <= 0x7F ==> DecodeTail(g).value == if nb then v + 0x80 else v)
  {
  }

  /** The last two symbols of a remainder of two or three; none otherwise. */
  function LastPair(r: seq<char>): (c: seq<char>)
    ensures |c| == (if |r| >= 2 then 2 else 0)
  {
    if |r| >= 2 then r[|r| - 2..] else []
  }

  /** The pair after the whole groups of text is its last two symbols, when there is one. */
  lemma LastPairAt(text: seq<char>)
    ensures |text| % 4 >= 2 ==> LastPair(Remainder(text)) == text[|text| - 2..]
    ensures |text| % 4 < 2 ==> LastPair(Remainder(text)) == []
  {
    var m := |text| / 4;
    RemainderAt(text, m);
    if |text| % 4 >= 2 {
      DropDrop(text, 4 * m, |text| % 4 - 2, |text| - 2);
    }
  }

  /** The outcome of a decode_block call: bytes written, success, symbols carried. */
  datatype BlockOutcome = BlockOutcome(written: seq<Byte>, ok: bool, carry: seq<char>)

  /**
   * What one rcnb_decode_block call does, given the carried symbols p (none
   * or a pair) and the block's symbols: the bytes it writes, whether it
   * succeeds, and the symbols it carries to the next call.
   *
   * A block shorter than two symbols does nothing.  Otherwise the carried
   * pair and the block are read as whole groups; the bytes of the groups
   * before the first rejected one are written even when the block fails.  A
   * failing carried group leaves the pair carried.  After the whole groups,
   * a remainder of two or three symbols carries its last two symbols (with
   * three, the first of them is skipped), and a single symbol is dropped.
   */
  function BlockSpec(p: seq<char>, code: seq<char>): (r: BlockOutcome)
    requires |p| == 0 || |p| == 2
    ensures |r.carry| == 0 || |r.carry| == 2
    ensures 2 * |r.written| + |r.carry| <= |p| + |code|
    ensures |code| >= 2 && r.ok ==>
      2 * |r.written| + |Remainder(p + code)| == |p| + |code| &&
      |r.carry| == (if |Remainder(p + code)| >= 2 then 2 else 0)
  {
    if |code| < 2 then BlockOutcome([], true, p)
    else
      var all := p + code;
      var d := DecodeGroups(all);
      if !d.ok then BlockOutcome(d.bytes, false, if |p| == 2 && d.bytes == [] then p else [])
      else BlockOutcome(d.bytes, true, LastPair(Remainder(all)))
  }

  /**
   * BlockSpec when a pair p is carried, read as the C code does: the pair
   * with the block's first two symbols, then the rest as whole groups.
   */
  function CarriedSpec(p: seq<char>, code: seq<char>): (r: BlockOutcome)
    requires |p| == 2 && |code| >= 2
    ensures r.ok ==> DecodeUnit(p + code[..2]).Ok?
    ensures !DecodeUnit(p + code[..2]).Ok? ==> r.written == [] && r.carry == p
  {
    var g := DecodeUnit(p + code[..2]);
    var d := DecodeGroups(code[2..]);
    if g.Err? then BlockOutcome([], false, p)
    else BlockOutcome(UnitBytes(g.value) + d.bytes, d.ok, if d.ok then LastPair(Remainder(code[2..])) else [])
  }

  /** The output s holds the bytes w from position at on. */
  predicate Holds(s: seq<Byte>, at: nat, w: seq<Byte>)
  {
    at + |w| <= |s| && s[at..at + |w|] == w
  }

  /** The decoder's carry between blocks: a pair of symbols in a four-slot buffer. */
  class DecodeState {
    var cached: bool
    const trailingCode: array<char>

    predicate Valid()
      reads this
    {
      trailingCode.Length == 4
    }

    /** The symbols carried over from the previous block: none, or a pair. */
    function Pending(): (p: seq<char>)
      reads this, trailingCode
      requires Valid()
      ensures |p| == if cached then 2 else 0
    {
      if cached then trailingCode[..2] else []
    }

    constructor ()
      ensures Valid() && Pending() == [] && fresh(trailingCode)
    {
      cached := false;
      trailingCode := new char[4];
    }

    /** rcnb_init_decodestate: drops any carried symbols. */
    method Init()
      requires Valid()
      modifies this
      ensures Valid() && Pending() == []
    {
      cached := false;
    }

    /**
     * rcnb_decode_block: decodes the carried pair followed by the block's
     * symbols as whole groups, writing their bytes at out[at..], and carries
     * a final pair.  It returns the number of bytes written, or 0 when a group
     * is rejected; ok tells the two apart, which the returned count alone
     * does not.
     */
    method DecodeBlock(code: seq<char>, out: array<Byte>, at: nat) returns (n: nat, ok: bool)
      requires Valid() && at + (|Pending()| + |code|) / 2 <= out.Length
      modifies this, trailingCode, out
      ensures Valid()
      ensures var r := BlockSpec(old(Pending()), code);
        ok == r.ok && n == (if r.ok then |r.written| else 0) &&
        Holds(out[..], at, r.written) &&
        Pending() == r.carry
      ensures forall k | 0 <= k < out.Length && (k < at || at + |BlockSpec(old(Pending()), code).written| <= k) ::
        out[k] == old(out[k])
    {
      ghost var pending := Pending();
      if |code| < 2 {
        return 0, true;
      }
      if cached {
        ghost var pair := trailingCode[..2];
        assert pending == pair;
        BlockSpecCarried(pair, code);
        n, ok := DecodeCarriedBlock(code, out, at, pair);
      } else {
        BlockSpecPlain(code);
        Room(0, |code|, |code|);
        n, ok := DecodeGroupsAfter(code, out, at, at, []);
        assert [] + DecodeGroups(code).bytes == DecodeGroups(code).bytes;
      }
    }

    /** rcnb_decode_block when a pair is carried from the previous call. */
    method DecodeCarriedBlock(code: seq<char>, out: array<Byte>, at: nat, ghost pair: seq<char>)
      returns (n: nat, ok: bool)
      requires Valid() && cached && pair == trailingCode[..2]
      requires |code| >= 2 && at + (|Pending()| + |code|) / 2 <= out.Length
      modifies this, trailingCode, out
      ensures Valid()
      ensures var r := CarriedSpec(pair, code);
        ok == r.ok && n == (if r.ok then |r.written| else 0) &&
        Holds(out[..], at, r.written) &&
        Pending() == r.carry
      ensures forall k | 0 <= k < out.Length &&
                (k < at || at + |CarriedSpec(pair, code).written| <= k) ::
        out[k] == old(out[k])
    {
      ghost var room := |Pending()|;
      var p;
      ok, p := DecodeCarriedGroup(code, out, at);
      if !ok {
        return 0, false;
      }
      ghost var head := UnitBytes(DecodeUnit(pair + code[..2]).value);
      var text := code[2..];
      cached := false;
      Room(room, |code|, |text|);
      n, ok := DecodeGroupsAfter(text, out, at, p, head);
    }

    /**
     * The rest of rcnb_decode_block once any carried group is done: the
     * bytes head of that group are already at out[at..mid]; the block's
     * whole groups follow them, and a final pair is carried.
     */
    method DecodeGroupsAfter(text: seq<char>, out: array<Byte>, at: nat, mid: nat, ghost head: seq<Byte>)
      returns (n: nat, ok: bool)
      requires Valid() && !cached && mid + 2 * (|text| / 4) <= out.Length
      requires mid == at + |head| && Holds(out[..], at, head)
      modifies this, trailingCode, out
      ensures Valid()
      ensures var d := DecodeGroups(text);
        ok == d.ok && n == (if ok then |head + d.bytes| else 0) &&
        Holds(out[..], at, head + d.bytes) &&
        Pending() == (if ok then LastPair(Remainder(text)) else [])
      ensures forall k | 0 <= k < out.Length && (k < mid || at + |head + DecodeGroups(text).bytes| <= k) ::
        out[k] == old(out[k])
    {
      ghost var before := out[..];
      var p;
      ok, p := DecodeGroupLoop(text, out, mid);
      HoldsKept(before, out[..], at, head);
      HoldsJoin(out[..], at, mid, head, DecodeGroups(text).bytes);
      if !ok {
        return 0, false;
      }
      CarryPair(text);
      n := p - at;
    }

    /**
     * The start of rcnb_decode_block with a pair carried: the block's first
     * two symbols complete the carried group in trailingCode, which is then
     * decoded into out[at..].
     */
    method DecodeCarriedGroup(code: seq<char>, out: array<Byte>, at: nat) returns (ok: bool, next: nat)
      requires Valid() && cached && |code| >= 2 && at + 2 <= out.Length
      modifies trailingCode, out
      ensures trailingCode[..2] == old(trailingCode[..2])
      ensures var r := DecodeUnit(old(trailingCode[..2]) + code[..2]);
        ok == r.Ok? && next == (if ok then at + 2 else at) &&
        (ok ==> Holds(out[..], at, UnitBytes(r.value)))
      ensures forall k | 0 <= k < out.Length && (k < at || next <= k) :: out[k] == old(out[k])
    {
      trailingCode[2] := code[0];
      trailingCode[3] := code[1];
      assert trailingCode[..][0..4] == old(trailingCode[..2]) + code[..2];
      ok, next := DecodeShort(trailingCode[..], 0, out, at);
    }

    /**
     * The end of rcnb_decode_block: when the symbols after the whole groups
     * number two or three (bit 1 of the length is set), the last two are
     * carried to the next call.
     */
    method CarryPair(text: seq<char>)
      requires Valid() && !cached
      modifies this, trailingCode
      ensures Valid()
      ensures Pending() == LastPair(Remainder(text))
    {
      LastPairAt(text);
      if |text| % 4 >= 2 {
        trailingCode[0] := text[|text| - 2];
        trailingCode[1] := text[|text| - 1];
        cached := true;
        assert trailingCode[..2] == text[|text| - 2..];
      }
    }

    /**
     * rcnb_decode_blockend: decodes the carried pair, if any, as a single
     * byte at out[at].  It returns the number of bytes written, or 0 when the
     * pair is rejected, and then leaves the pair carried; ok tells an empty
     * carry and a rejected one apart.
     */
    method DecodeBlockEnd(out: array<Byte>, at: nat) returns (n: nat, ok: bool)
      requires Valid() && at + |Pending()| / 2 <= out.Length
      modifies this, out
      ensures Valid()
      ensures old(Pending()) == [] ==> ok && n == 0 && Pending() == []
      ensures old(Pending()) != [] ==>
        var r := DecodeTail(old(Pending()));
        ok == r.Ok? && n == (if ok then 1 else 0) &&
        (ok ==> out[at] == r.value && Pending() == []) &&
        (!ok ==> Pending() == old(Pending()))
      ensures n == |EndBytes(old(Pending()))| && Holds(out[..], at, EndBytes(old(Pending())))
      ensures forall k | 0 <= k < out.Length && (k < at || at + n <= k) :: out[k] == old(out[k])
    {
      var p := at;
      ok := true;
      if cached {
        assert trailingCode[..][0..2] == trailingCode[..2];
        ok, p := DecodeByte(trailingCode[..], 0, out, at);
        if !ok {
          return 0, false;
        }
        assert out[..][at..at + 1] == [out[at]];
      }
      cached := false;
      n := p - at;
    }
  }

  /**
   * The loop of rcnb_decode_block: decodes the whole groups of text into
   * out[at..], stopping at the first rejected group.
   */
  method DecodeGroupLoop(text: seq<char>, out: array<Byte>, at: nat)
    returns (ok: bool, next: nat)
    requires at + 2 * (|text| / 4) <= out.Length
    modifies out
    ensures var d := DecodeGroups(text);
      ok == d.ok && next == at + |d.bytes| && Holds(out[..], at, d.bytes)
    ensures forall k | 0 <= k < out.Length && (k < at || next <= k) :: out[k] == old(out[k])
  {
    next := at;
    var count := |text| / 4;
    LastGroup(|text|, count);
    var i, from := 0, 0;
    ghost var done: seq<Byte> := [];
    assert text[from..] == text;
    while i < count
      invariant 0 <= i <= count && from == 4 * i && next == at + 2 * i
      invariant next == at + |done| && Holds(out[..], at, done)
      invariant DecodeGroups(text).ok == DecodeGroups(text[from..]).ok
      invariant DecodeGroups(text).bytes == done + DecodeGroups(text[from..]).bytes
      invariant forall k | 0 <= k < out.Length && (k < at || next <= k) :: out[k] == old(out[k])
    {
      var to := from + 4;
      var good;
      good, next, done := DecodeGroupAt(text, from, to, out, at, next, done);
      if !good {
        assert done + [] == done;
        return false, next;
      }
      i, from := i + 1, to;
    }
    GroupsEnd(text, from);
    assert done + [] == done;
    return true, next;
  }

  /**
   * One turn of the loop of rcnb_decode_block: decodes the group at
   * text[from..to] after the bytes done of the groups before it, which
   * out[at..p] holds.
   */
  method DecodeGroupAt(text: seq<char>, from: nat, to: nat, out: array<Byte>, at: nat, p: nat,
                       ghost done: seq<Byte>)
    returns (good: bool, next: nat, ghost done': seq<Byte>)
    requires to == from + 4 && to <= |text| && p + 2 <= out.Length
    requires p == at + |done| && Holds(out[..], at, done)
    modifies out
    ensures next == at + |done'| && Holds(out[..], at, done')
    ensures good ==>
      next == p + 2 &&
      DecodeGroups(text[from..]).ok == DecodeGroups(text[to..]).ok &&
      done + DecodeGroups(text[from..]).bytes == done' + DecodeGroups(text[to..]).bytes
    ensures !good ==>
      next == p && done' == done &&
      !DecodeGroups(text[from..]).ok && DecodeGroups(text[from..]).bytes == []
    ensures forall k | 0 <= k < out.Length && (k < p || next <= k) :: out[k] == old(out[k])
  {
    ghost var before := out[..];
    good, next := DecodeShort(text, from, out, p);
    HoldsKept(before, out[..], at, done);
    done' := done;
    if good {
      ghost var unit := UnitBytes(DecodeUnit(text[from..from + 4]).value);
      done' := done + unit;
      HoldsJoin(out[..], at, p, done, unit);
      GroupAccepted(text, from, to, done);
    } else {
      GroupRejected(text, from, to);
    }
  }

  /** An accepted group adds its two bytes to those before it. */
  lemma GroupAccepted(text: seq<char>, from: nat, to: nat, done: seq<Byte>)
    requires to == from + 4 && to <= |text| && DecodeUnit(text[from..from + 4]).Ok?
    ensures DecodeGroups(text[from..]).ok == DecodeGroups(text[to..]).ok
    ensures done + DecodeGroups(text[from..]).bytes ==
      (done + UnitBytes(DecodeUnit(text[from..from + 4]).value)) + DecodeGroups(text[to..]).bytes
  {
    GroupsAt(text, from, to);
    ConcatAssoc(done, UnitBytes(DecodeUnit(text[from..from + 4]).value), DecodeGroups(text[to..]).bytes);
  }

  /** A rejected group ends the decoding with nothing from it or after it. */
  lemma GroupRejected(text: seq<char>, from: nat, to: nat)
    requires to == from + 4 && to <= |text| && DecodeUnit(text[from..from + 4]).Err?
    ensures !DecodeGroups(text[from..]).ok && DecodeGroups(text[from..]).bytes == []
  {
    GroupsAt(text, from, to);
  }

  /** Holding w and then u is holding w + u. */
  lemma HoldsJoin(s: seq<Byte>, at: nat, mid: nat, w: seq<Byte>, u: seq<Byte>)
    requires mid == at + |w| && Holds(s, at, w) && Holds(s, mid, u)
    ensures Holds(s, at, w + u)
  {
    JoinFilled(s, at, mid, mid + |u|, w, u);
  }

  /**
   * The output room a block needs: pend carried symbols and clen block
   * symbols, of which tlen remain after the carried group.
   */
  lemma Room(pend: nat, clen: nat, tlen: nat)
    requires (pend == 0 && tlen == clen) || (pend == 2 && tlen + 2 == clen)
    ensures pend + 2 * (tlen / 4) <= (pend + clen) / 2
  {
  }

  /** After count = n / 4 whole groups, fewer than four symbols remain. */
  lemma LastGroup(n: nat, count: nat)
    requires count == n / 4
    ensures 4 * count <= n < 4 * count + 4
  {
  }

  /** BlockSpec with nothing carried: the whole groups of the block, then its remainder. */
  lemma BlockSpecPlain(code: seq<char>)
    requires |code| >= 2
    ensures var d := DecodeGroups(code);
      var r := BlockSpec([], code);
      r.written == d.bytes && r.ok == d.ok &&
      r.carry == (if d.ok then LastPair(Remainder(code)) else [])
  {
    assert [] + code == code;
  }

  /**
   * BlockSpec with a pair carried: the carried pair and the first two
   * symbols make the first group, then come the whole groups of the rest.
   */
  lemma BlockSpecCarried(p: seq<char>, code: seq<char>)
    requires |p| == 2 && |code| >= 2
    ensures BlockSpec(p, code).written == CarriedSpec(p, code).written
    ensures BlockSpec(p, code).ok == CarriedSpec(p, code).ok
    ensures BlockSpec(p, code).carry == CarriedSpec(p, code).carry
  {
    var g, text := p + code[..2], code[2..];
    assert g + text == p + code;
    GroupsCons(g, text);
  }

  /** The result of rcnb_decode: -1, or the decoded bytes whose count it returns. */
  datatype Output = Rejected | Produced(bytes: seq<Byte>)

  /**
   * What rcnb_decode returns, as written: one block from an empty carry,
   * then the block end.  A block that writes nothing and a block end that
   * writes nothing are both taken as failures, even when they succeeded.
   */
  function DecodeSpec(code: seq<char>): (o: Output)
    ensures o.Produced? ==> 2 * |o.bytes| <= |code|
  {
    if |code| == 0 then Produced([])
    else
      var b := BlockSpec([], code);
      if !b.ok || b.written == [] || b.carry == [] then Rejected
      else
        match DecodeTail(b.carry)
        case Err(_) => Rejected
        case Ok(v) => Produced(b.written + [v])
  }

  /**
   * rcnb_decode with the return values of the block and the block end read
   * through their ok flags, and an odd number of symbols rejected.
   */
  function DecodeCheckedSpec(code: seq<char>): (o: Output)
    ensures o.Produced? ==> !Odd(|code|)
  {
    if Odd(|code|) then Rejected
    else if |code| == 0 then Produced([])
    else
      var b := BlockSpec([], code);
      if !b.ok then Rejected
      else if b.carry == [] then Produced(b.written)
      else
        match DecodeTail(b.carry)
        case Err(_) => Rejected
        case Ok(v) => Produced(b.written + [v])
  }

  /**
   * The byte rcnb_decode_blockend writes for the carried symbols p: the
   * byte of the pair when it decodes, and nothing when no pair is carried or
   * the pair is rejected.
   */
  function EndBytes(p: seq<char>): (w: seq<Byte>)
    requires |p| == 0 || |p| == 2
    ensures |w| <= |p| / 2
    ensures w != [] <==> p != [] && DecodeTail(p).Ok?
    ensures w != [] ==> w == [DecodeTail(p).value]
  {
    if p != [] && DecodeTail(p).Ok? then [DecodeTail(p).value] else []
  }

  /**
   * What rcnb_decode leaves at the start of its output, accepted or not:
   * the bytes of the block's whole groups before the first rejected one,
   * followed by the block end's byte when the block wrote something.
   */
  function DecodeWritten(code: seq<char>): (w: seq<Byte>)
    ensures 2 * |w| <= |code|
    ensures DecodeSpec(code).Produced? ==> w == DecodeSpec(code).bytes
  {
    if |code| == 0 then []
    else
      var b := BlockSpec([], code);
      if !b.ok || b.written == [] then b.written
      else b.written + EndBytes(b.carry)
  }

  /** What DecodeChecked leaves at the start of its output, accepted or not. */
  function CheckedWritten(code: seq<char>): (w: seq<Byte>)
    ensures 2 * |w| <= |code|
    ensures DecodeCheckedSpec(code).Produced? ==> w == DecodeCheckedSpec(code).bytes
  {
    if Odd(|code|) || |code| == 0 then []
    else
      var b := BlockSpec([], code);
      if !b.ok then b.written else b.written + EndBytes(b.carry)
  }

  /** rcnb_decode, as written. */
  method Decode(code: seq<char>, out: array<Byte>) returns (r: int)
    requires |code| / 2 <= out.Length
    modifies out
    ensures DecodeSpec(code).Rejected? ==> r == -1
    ensures DecodeSpec(code).Produced? ==> r == |DecodeSpec(code).bytes|
    ensures Holds(out[..], 0, DecodeWritten(code))
    ensures forall k | |DecodeWritten(code)| <= k < out.Length :: out[k] == old(out[k])
  {
    if |code| == 0 {
      return 0;
    }
    var es := new DecodeState();
    es.Init();
    ghost var b := BlockSpec([], code);
    DecodeSpecBlock(code);
    BlockRoom(|es.Pending()|, |code|, out.Length);
    var n, ok := es.DecodeBlock(code, out, 0);
    if n == 0 {
      return -1;
    }
    ghost var block := out[..];
    ghost var carry := es.Pending();
    EndRoom(n, |es.Pending()|, |code|, out.Length);
    var m, done := es.DecodeBlockEnd(out, n);
    HoldsAppend(block, out[..], n, b.written, EndBytes(carry));
    assert DecodeWritten(code) == b.written + EndBytes(carry);
    if m == 0 {
      return -1;
    }
    r := n + m;
  }

  /** rcnb_decode with the ok flags and the length parity checked. */
  method DecodeChecked(code: seq<char>, out: array<Byte>) returns (r: int)
    requires |code| / 2 <= out.Length
    modifies out
    ensures DecodeCheckedSpec(code).Rejected? ==> r == -1
    ensures DecodeCheckedSpec(code).Produced? ==> r == |DecodeCheckedSpec(code).bytes|
    ensures Holds(out[..], 0, CheckedWritten(code))
    ensures forall k | |CheckedWritten(code)| <= k < out.Length :: out[k] == old(out[k])
  {
    if Odd(|code|) {
      return -1;
    }
    if |code| == 0 {
      return 0;
    }
    CheckedSpecBlock(code);
    r := DecodeCheckedBlocks(code, out);
  }

  /**
   * The block and the block end of DecodeChecked, on a nonempty input of
   * even length: the block's bytes are written even when a group is
   * rejected, and the block end's byte follows them when the block succeeds.
   */
  method DecodeCheckedBlocks(code: seq<char>, out: array<Byte>) returns (r: int)
    requires |code| > 0 && |code| / 2 <= out.Length
    modifies out
    ensures var b := BlockSpec([], code);
      (!b.ok || (b.carry != [] && !DecodeTail(b.carry).Ok?) ==> r == -1) &&
      (b.ok && (b.carry == [] || DecodeTail(b.carry).Ok?) ==> r == |b.written + EndBytes(b.carry)|)
    ensures var b := BlockSpec([], code);
      var w := if b.ok then b.written + EndBytes(b.carry) else b.written;
      Holds(out[..], 0, w) && forall k | |w| <= k < out.Length :: out[k] == old(out[k])
  {
    var es := new DecodeState();
    es.Init();
    ghost var b := BlockSpec([], code);
    BlockRoom(|es.Pending()|, |code|, out.Length);
    var n, ok := es.DecodeBlock(code, out, 0);
    if !ok {
      return -1;
    }
    EndRoom(n, |es.Pending()|, |code|, out.Length);
    r := CheckedEnd(es, out, n, b.written);
  }

  /**
   * The block end of DecodeChecked, after a block that wrote the bytes w:
   * it fails only on a carried pair that is rejected, which stays carried.
   */
  method CheckedEnd(es: DecodeState, out: array<Byte>, n: nat, ghost w: seq<Byte>) returns (r: int)
    requires es.Valid() && n == |w| && Holds(out[..], 0, w) && n + |es.Pending()| / 2 <= out.Length
    modifies es, out
    ensures var p := old(es.Pending());
      (p != [] && !DecodeTail(p).Ok? ==> r == -1) &&
      (p == [] || DecodeTail(p).Ok? ==> r == n + |EndBytes(p)|)
    ensures es.Valid() && es.Pending() ==
      (if old(es.Pending()) != [] && !DecodeTail(old(es.Pending())).Ok? then old(es.Pending()) else [])
    ensures Holds(out[..], 0, w + EndBytes(old(es.Pending())))
    ensures forall k | n + |EndBytes(old(es.Pending()))| <= k < out.Length :: out[k] == old(out[k])
  {
    ghost var block := out[..];
    ghost var carry := es.Pending();
    var m, done := es.DecodeBlockEnd(out, n);
    HoldsAppend(block, out[..], n, w, EndBytes(carry));
    if !done {
      return -1;
    }
    r := n + m;
  }

  /** DecodeSpec on a nonempty input, in terms of the outcome of its one block. */
  lemma DecodeSpecBlock(code: seq<char>)
    requires |code| > 0
    ensures var b := BlockSpec([], code);
      (DecodeSpec(code).Produced? <==>
        b.ok && b.written != [] && b.carry != [] && DecodeTail(b.carry).Ok?) &&
      (DecodeSpec(code).Produced? ==> DecodeSpec(code).bytes == b.written + [DecodeTail(b.carry).value])
  {
  }

  /** DecodeCheckedSpec on a nonempty input of even length, in terms of the outcome of its one block. */
  lemma CheckedSpecBlock(code: seq<char>)
    requires |code| > 0 && !Odd(|code|)
    ensures var b := BlockSpec([], code);
      (DecodeCheckedSpec(code).Produced? <==> b.ok && (b.carry == [] || DecodeTail(b.carry).Ok?)) &&
      (DecodeCheckedSpec(code).Produced? && b.carry == [] ==> DecodeCheckedSpec(code).bytes == b.written) &&
      (DecodeCheckedSpec(code).Produced? && b.carry != [] ==>
        DecodeCheckedSpec(code).bytes == b.written + [DecodeTail(b.carry).value])
  {
  }

  /** The output room the block needs, from an empty carry. */
  lemma BlockRoom(pending: nat, symbols: nat, room: int)
    requires pending == 0 && symbols / 2 <= room
    ensures 0 + (pending + symbols) / 2 <= room
  {
  }

  /** The output room the block end needs after a block that wrote written bytes. */
  lemma EndRoom(written: nat, carry: nat, symbols: nat, room: int)
    requires 2 * written + carry <= symbols && (carry == 0 || carry == 2) && symbols / 2 <= room
    ensures written + carry / 2 <= room
  {
  }

  /** Bytes held in s stay held in t where t agrees with s. */
  lemma HoldsKept(s: seq<Byte>, t: seq<Byte>, at: nat, w: seq<Byte>)
    requires Holds(s, at, w) && |t| == |s|
    requires forall k | 0 <= k < |t| && k < at + |w| :: t[k] == s[k]
    ensures Holds(t, at, w)
  {
    SameSlice(s, t, at, at + |w|);
  }

  /**
   * Bytes w held in s from the start stay held in t where t agrees with s,
   * and the bytes e that t holds right after them join them; beyond both,
   * t agrees with s.
   */
  lemma HoldsAppend(s: seq<Byte>, t: seq<Byte>, n: nat, w: seq<Byte>, e: seq<Byte>)
    requires n == |w| && Holds(s, 0, w) && |t| == |s| && Holds(t, n, e)
    requires forall k | 0 <= k < |t| && (k < n || n + |e| <= k) :: t[k] == s[k]
    ensures Holds(t, 0, w + e)
  {
    SameSlice(s, t, 0, n);
    JoinFilled(t, 0, n, n + |e|, w, e);
  }

  /** Bytes held in s stay held in t where t agrees with s, and one more byte follows them. */
  lemma HoldsSnoc(s: seq<Byte>, t: seq<Byte>, at: nat, mid: nat, w: seq<Byte>, v: Byte)
    requires mid == at + |w| && Holds(s, at, w) && |t| == |s| && mid < |t| && t[mid] == v
    requires forall k | 0 <= k < |t| && k < mid :: t[k] == s[k]
    ensures Holds(t, at, w + [v])
  {
    SameSlice(s, t, at, mid);
    assert t[at..mid + 1] == t[at..mid] + [v];
  }

  /** DecodeSpec on two or more symbols, in terms of the whole groups and the pair after them. */
  lemma DecodeSpecGroups(code: seq<char>)
    requires |code| >= 2
    ensures var d := DecodeGroups(code);
      var c := LastPair(Remainder(code));
      (DecodeSpec(code).Produced? <==> d.ok && d.bytes != [] && c != [] && DecodeTail(c).Ok?) &&
      (DecodeSpec(code).Produced? ==> DecodeSpec(code).bytes == d.bytes + [DecodeTail(c).value])
  {
    BlockSpecPlain(code);
  }

  /** DecodeCheckedSpec on two or more symbols, in terms of the whole groups and the pair after them. */
  lemma CheckedSpecGroups(code: seq<char>)
    requires |code| >= 2 && !Odd(|code|)
    ensures var d := DecodeGroups(code);
      var c := LastPair(Remainder(code));
      (DecodeCheckedSpec(code).Produced? <==> d.ok && (c == [] || DecodeTail(c).Ok?)) &&
      (DecodeCheckedSpec(code).Produced? ==>
        DecodeCheckedSpec(code).bytes == d.bytes + (if c == [] then [] else [DecodeTail(c).value]))
  {
    BlockSpecPlain(code);
    var b := BlockSpec([], code);
    if !b.ok {
      assert DecodeCheckedSpec(code).Rejected?;
    } else if b.carry == [] {
      assert DecodeCheckedSpec(code).bytes == b.written + [];
    } else {
      assert DecodeCheckedSpec(code).Produced? <==> DecodeTail(b.carry).Ok?;
    }
  }

  /** The symbols after the whole groups of an even-length input: none or a pair. */
  lemma EvenRemainder(r: seq<char>)
    requires |r| == 0 || |r| == 2
    ensures LastPair(r) == r
    ensures DecodeAll(r).Ok? <==> (r == [] || DecodeTail(r).Ok?)
    ensures DecodeAll(r).Ok? ==> DecodeAll(r).value == (if r == [] then [] else [DecodeTail(r).value])
  {
    if r != [] {
      DecodeAllPair(r);
    }
  }

  /**
   * An even-length input decodes in one block and a block end exactly when
   * its whole groups decode and the pair after them, if any, decodes.
   */
  lemma EvenBlockAgrees(code: seq<char>)
    requires |code| >= 2 && !Odd(|code|)
    ensures var d := DecodeGroups(code);
      var c := LastPair(Remainder(code));
      (DecodeAll(code).Ok? <==> d.ok && (c == [] || DecodeTail(c).Ok?)) &&
      (DecodeAll(code).Ok? ==>
        DecodeAll(code).value == d.bytes + (if c == [] then [] else [DecodeTail(c).value]))
  {
    var d, r := DecodeGroups(code), Remainder(code);
    if DecodeAll(code).Ok? {
      DecodeAllByGroups(code);
      PairOrNone(|r|, |d.bytes|, |code|);
      EvenRemainder(r);
    } else if d.ok {
      PairOrNone(|r|, |d.bytes|, |code|);
      EvenRemainder(r);
      if DecodeAll(r).Ok? {
        GroupsThenDecodeAll(code);
      }
    }
  }

  /** The corrected decoder is the reference decoder DecodeAll. */
  lemma CheckedAgrees(code: seq<char>)
    ensures DecodeCheckedSpec(code).Produced? <==> DecodeAll(code).Ok?
    ensures DecodeAll(code).Ok? ==> DecodeCheckedSpec(code).bytes == DecodeAll(code).value
  {
    if Odd(|code|) {
      OddMalformed(code);
    } else if |code| == 0 {
      assert DecodeAll(code).Ok?;
    } else {
      CheckedSpecGroups(code);
      EvenBlockAgrees(code);
    }
  }

  /** No stream of an odd number of symbols decodes. */
  lemma OddMalformed(code: seq<char>)
    requires Odd(|code|)
    ensures DecodeAll(code).Err?
  {
    if DecodeAll(code).Ok? {
      HalfOfOdd(|DecodeAll(code).value|, |code|);
    }
  }

  /** An odd count is not twice any number. */
  lemma HalfOfOdd(half: int, n: nat)
    requires Odd(n)
    ensures 2 * half != n
  {
  }

  /** The corrected decoder inverts the encoder on every plaintext. */
  lemma CheckedRoundTrip(s: seq<Byte>)
    ensures DecodeCheckedSpec(EncodeAll(s)).Produced? && DecodeCheckedSpec(EncodeAll(s)).bytes == s
  {
    RoundTrip(s);
    CheckedAgrees(EncodeAll(s));
  }

  /** The corrected decoder accepts only the encoder's own output. */
  lemma CheckedCanonical(code: seq<char>)
    ensures DecodeCheckedSpec(code).Produced? ==> EncodeAll(DecodeCheckedSpec(code).bytes) == code
  {
    CheckedAgrees(code);
    Canonical(code);
  }

  /**
   * The decoder as written rejects the encoding of every plaintext of even
   * length: nothing is carried, so the block end writes nothing.
   */
  lemma EvenPlaintextRejected(s: seq<Byte>)
    requires |s| >= 2 && |s| % 2 == 0
    ensures DecodeSpec(EncodeAll(s)).Rejected?
  {
    var code := EncodeAll(s);
    RoundTrip(s);
    DecodeAllByGroups(code);
    GroupsEven(code);
    RemainderOfPlaintext(|Remainder(code)|, |DecodeGroups(code).bytes|, |s|);
    DecodeSpecGroups(code);
  }

  /**
   * The decoder as written rejects the encoding of a single byte: the block
   * only carries the pair, so it writes nothing.
   */
  lemma SingleByteRejected(b: Byte)
    ensures DecodeSpec(EncodeAll([b])).Rejected?
  {
    EncodeAllSingle(b);
    DecodeSpecGroups(EncodeAll([b]));
  }

  /** The decoder as written inverts the encoder on plaintexts of odd length three or more. */
  lemma OddPlaintextDecoded(s: seq<Byte>)
    requires |s| >= 3 && |s| % 2 == 1
    ensures DecodeSpec(EncodeAll(s)).Produced? && DecodeSpec(EncodeAll(s)).bytes == s
  {
    var code := EncodeAll(s);
    RoundTrip(s);
    DecodeAllByGroups(code);
    GroupsEven(code);
    RemainderOfPlaintext(|Remainder(code)|, |DecodeGroups(code).bytes|, |s|);
    Twice(|code|, |s|);
    EvenBlockAgrees(code);
    DecodeSpecGroups(code);
  }

  /** Whatever the decoder as written accepts from an even-length input is decoded correctly. */
  lemma AcceptedEvenIsCorrect(code: seq<char>)
    requires !Odd(|code|)
    ensures DecodeSpec(code).Produced? ==> DecodeAll(code).Ok? && DecodeAll(code).value == DecodeSpec(code).bytes
  {
    if |code| > 0 && DecodeSpec(code).Produced? {
      DecodeSpecGroups(code);
      EvenBlockAgrees(code);
    }
  }

  /**
   * The decoder as written accepts an odd number of symbols: any group, any
   * stray symbol and any pair decode to three bytes, the stray symbol
   * skipped, where the reference decoder and the corrected one reject the
   * input.
   */
  lemma OddLengthAccepted(u: Unit16, x: char, b: Byte)
    ensures var c := EncodeUnit(u) + ([x] + EncodeTail(b));
      DecodeSpec(c).Produced? && DecodeSpec(c).bytes == UnitBytes(u) + [b] &&
      DecodeAll(c).Err? && DecodeCheckedSpec(c).Rejected?
  {
    var c := EncodeUnit(u) + ([x] + EncodeTail(b));
    UnitThenStrayPair(u, x, b);
    assert Odd(|c|);
    OddMalformed(c);
  }

  /** The unit is decoded by the loop and the trailing pair by the block end. */
  lemma UnitThenStrayPair(u: Unit16, x: char, b: Byte)
    ensures var c := EncodeUnit(u) + ([x] + EncodeTail(b));
      |c| == 7 && DecodeSpec(c).Produced? && DecodeSpec(c).bytes == UnitBytes(u) + [b]
  {
    var g, t := EncodeUnit(u), EncodeTail(b);
    var r := [x] + t;
    var c := g + r;
    UnitRoundTrip(u);
    TailRoundTrip(b);
    GroupsCons(g, r);
    assert DecodeGroups(c).bytes == UnitBytes(u) + [];
    assert LastPair(Remainder(c)) == t;
    DecodeSpecGroups(c);
  }

  /** After the whole groups of an even-length input come no symbols or a pair. */
  lemma PairOrNone(rest: int, bytes: int, symbols: nat)
    requires 2 * bytes + rest == symbols && !Odd(symbols) && 0 <= rest < 4
    ensures rest == 0 || rest == 2
  {
  }

  /**
   * After the whole groups of a plaintext's encoding come no symbols when
   * the plaintext has even length, and a pair when it has odd length.
   */
  lemma RemainderOfPlaintext(rest: int, bytes: int, plain: int)
    requires 2 * bytes + rest == 2 * plain && bytes % 2 == 0 && 0 <= rest < 4
    ensures plain % 2 == 0 ==> rest == 0
    ensures plain % 2 == 1 ==> rest == 2
  {
  }
}
