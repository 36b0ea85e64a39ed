/**
 * The vectorised kernels rcnb_encode_32n_asm and rcnb_decode_32n_asm
 * (src/rcnb_x86.c with SSSE3 or AVX2, src/rcnb_arm64.c with NEON, and the
 * encoder copies in src/cencode_x86.c and src/cencode_arm64.c).
 *
 * Each kernel runs n times over a granule of 32 plaintext bytes and 64
 * symbols.  Within a granule every 16-bit lane is independent, so a granule
 * is modelled lane by lane with the functions of module Lanes, in memory
 * order; the loop over granules and its stores are imperative, with the
 * symbol input read-only and the output an array.
 */
module Kernels {
  import opened UnitCodec
  import opened Stream
  import opened Lanes
  import opened SeqFacts

  /** Plaintext bytes one iteration of a kernel consumes or produces. */
  const GranuleBytes: nat := 32

  /** Symbols one iteration of a kernel produces or consumes. */
  const GranuleSymbols: nat := 64

  /** Lanes of the decode kernel in one granule. */
  const GranuleLanes: nat := 16

  /** The encode lanes over the complete pairs of s, in memory order. */
  function EncodeLanes(s: seq<Byte>): seq<char>
    decreases |s|
  {
    if |s| < 2 then [] else EncodeLane(s[0], s[1]) + EncodeLanes(s[2..])
  }

  /** The encode lanes write exactly the groups of the scalar encoder. */
  lemma {:induction false} EncodeLanesAgree(s: seq<Byte>)
    ensures EncodeLanes(s) == EncodePairs(s)
    decreases |s|
  {
    if |s| >= 2 {
      EncodeLaneAgrees(s[0], s[1]);
      EncodeLanesAgree(s[2..]);
    }
  }

  /** The decode lanes over the complete groups of four symbols of s, in memory order. */
  function DecodeLanes(s: seq<char>): seq<LaneResult>
    decreases |s|
  {
    if |s| < 4 then [] else [DecodeLane(s[..4])] + DecodeLanes(s[4..])
  }

  /** m groups of four symbols give m lanes. */
  lemma {:induction false} LanesLength(s: seq<char>, m: nat)
    requires |s| == 4 * m
    ensures |DecodeLanes(s)| == m
    decreases m
  {
    if m > 0 {
      LanesLength(s[4..], m - 1);
    }
  }

  /** Whole groups followed by more symbols have their lanes followed by the others'. */
  lemma {:induction false} LanesAppend(x: seq<char>, y: seq<char>, m: nat)
    requires |x| == 4 * m
    ensures DecodeLanes(x + y) == DecodeLanes(x) + DecodeLanes(y)
    decreases m
  {
    if m == 0 {
      assert x + y == y;
    } else {
      var l := DecodeLane(x[..4]);
      assert (x + y)[..4] == x[..4];
      assert (x + y)[4..] == x[4..] + y;
      LanesAppend(x[4..], y, m - 1);
      ConcatAssoc([l], DecodeLanes(x[4..]), DecodeLanes(y));
    }
  }

  /**
   * The bytes the lanes compute, each lane's unit first byte high, and
   * whether no lane found a symbol outside its table.
   */
  function Gather(ls: seq<LaneResult>): (d: Decoded)
    ensures |d.bytes| == 2 * |ls|
  {
    if ls == [] then Decoded([], true)
    else
      var rest := Gather(ls[1..]);
      Decoded(UnitBytes(ls[0].unit) + rest.bytes, !ls[0].bad && rest.ok)
  }

  /** Gathering lanes in two parts is gathering them in one. */
  lemma {:induction false} GatherAppend(a: seq<LaneResult>, b: seq<LaneResult>)
    ensures Gather(a + b) == Decoded(Gather(a).bytes + Gather(b).bytes, Gather(a).ok && Gather(b).ok)
  {
    if a != [] {
      assert (a + b)[1..] == a[1..] + b;
      GatherAppend(a[1..], b);
      ConcatAssoc(UnitBytes(a[0].unit), Gather(a[1..]).bytes, Gather(b).bytes);
    } else {
      assert a + b == b;
    }
  }

  /** The gathered lanes are good exactly when no lane is bad. */
  lemma {:induction false} GatherGood(ls: seq<LaneResult>)
    ensures Gather(ls).ok <==> forall k | 0 <= k < |ls| :: !ls[k].bad
  {
    if ls != [] {
      GatherGood(ls[1..]);
      assert forall k | 1 <= k < |ls| :: ls[k] == ls[1..][k - 1];
    }
  }

  /**
   * The decode kernel over lanes, a granule of GranuleLanes at a time: the
   * bytes of the granules before the first one holding a bad lane, and
   * whether there was none.  Lanes after the last whole granule are not
   * read.
   */
  function KernelGather(ls: seq<LaneResult>): Decoded
    decreases |ls|
  {
    if |ls| < GranuleLanes then Decoded([], true)
    else
      var g := Gather(ls[..GranuleLanes]);
      if !g.ok then Decoded([], false)
      else
        var rest := KernelGather(ls[GranuleLanes..]);
        Decoded(g.bytes + rest.bytes, rest.ok)
  }

  /**
   * Over whole granules the kernel succeeds exactly when no lane is bad,
   * and then gives the bytes of all lanes; otherwise it gives the bytes of
   * the whole granules before the bad one, a prefix of them.
   */
  lemma {:induction false} KernelGatherStops(ls: seq<LaneResult>, m: nat)
    requires |ls| == GranuleLanes * m
    ensures KernelGather(ls).ok == Gather(ls).ok
    ensures KernelGather(ls).ok ==> KernelGather(ls).bytes == Gather(ls).bytes
    ensures KernelGather(ls).bytes <= Gather(ls).bytes
    ensures exists j | 0 <= j <= m :: |KernelGather(ls).bytes| == 2 * GranuleLanes * j
    decreases m
  {
    if m == 0 {
      assert |KernelGather(ls).bytes| == 2 * GranuleLanes * 0;
    } else {
      var g, rest := ls[..GranuleLanes], ls[GranuleLanes..];
      assert g + rest == ls;
      GatherAppend(g, rest);
      KernelGatherStops(rest, m - 1);
      var j :| 0 <= j <= m - 1 && |KernelGather(rest).bytes| == 2 * GranuleLanes * j;
      if Gather(g).ok {
        assert |KernelGather(ls).bytes| == 2 * GranuleLanes * (j + 1);
      } else {
        assert |KernelGather(ls).bytes| == 2 * GranuleLanes * 0;
      }
    }
  }

  /**
   * What rcnb_decode_32n_asm leaves behind on the symbols s: the bytes of
   * the granules before the first one holding a bad lane, and whether there
   * was none.  A bad granule stores nothing.
   */
  function KernelDecode(s: seq<char>): Decoded
  {
    KernelGather(DecodeLanes(s))
  }

  /** Where the scalar decoder accepts whole groups, the decode lanes accept them and give its bytes. */
  lemma {:induction false} LanesAgree(s: seq<char>, m: nat)
    requires |s| == 4 * m && DecodeAll(s).Ok?
    ensures Gather(DecodeLanes(s)) == Decoded(DecodeAll(s).value, true)
    decreases m
  {
    var ls := DecodeLanes(s);
    if m > 0 {
      DecodeAllStep(s);
      DecodeLaneAgrees(s[..4]);
      assert ls == [DecodeLane(s[..4])] + DecodeLanes(s[4..]);
      assert ls[1..] == DecodeLanes(s[4..]);
      LanesAgree(s[4..], m - 1);
    } else {
      assert ls == [];
    }
  }

  /** Symbols whose decode lanes are all good decode in the kernel to the bytes of the lanes. */
  lemma {:induction false} KernelOfGood(s: seq<char>, n: nat, p: seq<Byte>)
    requires |s| == GranuleSymbols * n && Gather(DecodeLanes(s)) == Decoded(p, true)
    ensures KernelDecode(s) == Decoded(p, true)
  {
    LanesLength(s, GranuleLanes * n);
    KernelGatherStops(DecodeLanes(s), n);
  }

  /** Granules the scalar decoder accepts decode in the kernel to its bytes. */
  lemma {:induction false} KernelAgrees(s: seq<char>, n: nat)
    requires |s| == GranuleSymbols * n && DecodeAll(s).Ok?
    ensures KernelDecode(s) == Decoded(DecodeAll(s).value, true)
  {
    LanesAgree(s, GranuleLanes * n);
    KernelOfGood(s, n, DecodeAll(s).value);
  }

  /** Whole pairs that the scalar decoder gives back. */
  lemma {:induction false} PairsRoundTrip(p: seq<Byte>, n: nat)
    requires |p| == GranuleBytes * n
    ensures |EncodePairs(p)| == GranuleSymbols * n && DecodeAll(EncodePairs(p)) == Ok(p)
  {
    Twice(|p|, 16 * n);
    EncodePairsLength(p);
    EncodeAllAppend(p, []);
    assert p + [] == p;
    assert EncodeAll([]) == [];
    assert EncodePairs(p) + [] == EncodePairs(p);
    RoundTrip(p);
  }

  /** The decode kernel gives back every whole number of granules the encode kernel wrote. */
  lemma {:induction false} KernelRoundTrip(p: seq<Byte>, n: nat)
    requires |p| == GranuleBytes * n
    ensures KernelDecode(EncodeLanes(p)) == Decoded(p, true)
  {
    EncodeLanesAgree(p);
    PairsRoundTrip(p, n);
    KernelAgrees(EncodePairs(p), n);
  }

  /** The kernel over lanes from a granule boundary on: the granule there, then the rest. */
  lemma KernelAt(ls: seq<LaneResult>, from: int, to: int)
    requires 0 <= from && to == from + GranuleLanes && to <= |ls|
    ensures KernelGather(ls[from..]) ==
      var g := Gather(ls[from..to]);
      if !g.ok then Decoded([], false)
      else
        var rest := KernelGather(ls[to..]);
        Decoded(g.bytes + rest.bytes, rest.ok)
  {
    DropTake(ls, from, GranuleLanes, to);
    DropDrop(ls, from, GranuleLanes, to);
  }

  /** _mm_storeu_si128 / vst1q: src written to dst from position at on, nothing else. */
  method Store<T>(dst: array<T>, at: nat, src: seq<T>)
    requires at + |src| <= dst.Length
    modifies dst
    ensures dst[at..at + |src|] == src
    ensures dst[..at] == old(dst[..at])
    ensures forall k | 0 <= k < dst.Length && (k < at || at + |src| <= k) :: dst[k] == old(dst[k])
  {
    var i := 0;
    while i < |src|
      invariant 0 <= i <= |src|
      invariant dst[at..at + i] == src[..i]
      invariant forall k | 0 <= k < dst.Length && (k < at || at + i <= k) :: dst[k] == old(dst[k])
    {
      dst[at + i] := src[i];
      i := i + 1;
    }
  }

  /** One granule of the encode kernel: the groups of its 32 bytes. */
  lemma GranuleEncodes(t: seq<Byte>)
    requires |t| == GranuleBytes
    ensures EncodeLanes(t) == EncodePairs(t) && |EncodeLanes(t)| == GranuleSymbols
  {
    EncodeLanesAgree(t);
    Twice(|t|, 16);
    EncodePairsLength(t);
  }

  /** One iteration of rcnb_encode_32n_asm: the lanes of the granule of input at from. */
  method EncodeGranule(input: seq<Byte>, from: nat) returns (granule: seq<char>)
    requires from + GranuleBytes <= |input|
    ensures granule == EncodePairs(input[from..from + GranuleBytes]) && |granule| == GranuleSymbols
  {
    granule := EncodeLanes(input[from..from + GranuleBytes]);
    GranuleEncodes(input[from..from + GranuleBytes]);
  }

  /** The groups of the first i + 1 granules: those of the first i, then those of granule i. */
  lemma PairsOfGranules(input: seq<Byte>, i: nat)
    requires GranuleBytes * (i + 1) <= |input|
    ensures EncodePairs(input[..GranuleBytes * (i + 1)]) ==
      EncodePairs(input[..GranuleBytes * i]) + EncodePairs(input[GranuleBytes * i..GranuleBytes * (i + 1)])
  {
    var from, to := GranuleBytes * i, GranuleBytes * (i + 1);
    PrefixJoin(input, from, to);
    Twice(from, 16 * i);
    EncodePairsAppend(input[..from], input[from..to]);
  }

  /** After g is stored at position at behind a prefix that completes to whole with g, the prefix through g is whole. */
  lemma StoredAfter<T>(before: seq<T>, after: seq<T>, at: int, g: seq<T>, whole: seq<T>)
    requires 0 <= at && at + |g| <= |after| == |before|
    requires after[..at] == before[..at] && after[at..at + |g|] == g
    requires whole == before[..at] + g
    ensures after[..at + |g|] == whole
  {
    PrefixJoin(after, at, at + |g|);
  }

  /** After i granules: out holds the groups of the first i granules of input, and is orig past them. */
  ghost predicate EncodedUpTo(out: seq<char>, orig: seq<char>, input: seq<Byte>, i: nat)
    requires GranuleBytes * i <= |input| && GranuleSymbols * i <= |out| == |orig|
  {
    out[..GranuleSymbols * i] == EncodePairs(input[..GranuleBytes * i]) &&
    forall k | GranuleSymbols * i <= k < |out| :: out[k] == orig[k]
  }

  /**
   * Iteration i of the loop of rcnb_encode_32n_asm: with the groups of
   * the first i granules stored and out past them still orig, the same
   * holds one granule further.
   */
  method EncodeStep(input: seq<Byte>, output: array<char>, i: nat, ghost orig: seq<char>)
    requires GranuleBytes * (i + 1) <= |input| && GranuleSymbols * (i + 1) <= output.Length == |orig|
    requires EncodedUpTo(output[..], orig, input, i)
    modifies output
    ensures EncodedUpTo(output[..], orig, input, i + 1)
  {
    var at := GranuleSymbols * i;
    ghost var before := output[..];
    var granule := EncodeGranule(input, GranuleBytes * i);
    Store(output, at, granule);
    PairsOfGranules(input, i);
    StoredAfter(before, output[..], at, granule, EncodePairs(input[..GranuleBytes * (i + 1)]));
  }

  /** Nothing is encoded before the first granule. */
  lemma EncodedNothing(out: seq<char>, input: seq<Byte>)
    ensures EncodedUpTo(out, out, input, 0)
  {
    assert input[..GranuleBytes * 0] == [];
    assert out[..GranuleSymbols * 0] == [];
  }

  /**
   * rcnb_encode_32n_asm: encodes n granules of input into output, each
   * pair of bytes read first byte high, and writes nothing past them.
   */
  method EncodeKernel(input: seq<Byte>, output: array<char>, n: nat)
    requires GranuleBytes * n <= |input| && GranuleSymbols * n <= output.Length
    modifies output
    ensures output[..GranuleSymbols * n] == EncodePairs(input[..GranuleBytes * n])
    ensures forall k | GranuleSymbols * n <= k < output.Length :: output[k] == old(output[k])
  {
    ghost var orig := output[..];
    EncodedNothing(orig, input);
    var i := 0;
    while i < n
      invariant 0 <= i <= n && output.Length == |orig|
      invariant EncodedUpTo(output[..], orig, input, i)
    {
      EncodeStep(input, output, i, orig);
      i := i + 1;
    }
  }

  /**
   * The bytes stored so far followed by what the kernel gives from the next
   * granule on: after a good granule g is stored at position at, the same
   * holds one granule further.
   */
  lemma StoredGranule(before: seq<Byte>, after: seq<Byte>, at: int, g: seq<Byte>, rest: seq<Byte>, next: seq<Byte>, whole: seq<Byte>)
    requires 0 <= at && at + |g| <= |after| == |before|
    requires after[..at] == before[..at] && after[at..at + |g|] == g
    requires before[..at] + rest == whole && rest == g + next
    ensures after[..at + |g|] + next == whole
  {
    PrefixJoin(after, at, at + |g|);
    ConcatAssoc(before[..at], g, next);
  }

  /**
   * When the kernel from the current granule on is d, the bytes stored so
   * far followed by d's are the whole result, and the kernel from here on
   * is good exactly when the whole is, the whole result is what is stored
   * and d says whether it is good.
   */
  lemma Finished(o: seq<Byte>, at: int, d: Decoded, whole: Decoded)
    requires 0 <= at <= |o| && d.bytes == []
    requires o[..at] + d.bytes == whole.bytes && d.ok == whole.ok
    ensures |whole.bytes| == at && o[..|whole.bytes|] == whole.bytes && whole.ok == d.ok
  {
    assert o[..at] + [] == o[..at];
  }

  /** The lanes of granule j. */
  function LaneGranule(ls: seq<LaneResult>, j: nat): seq<LaneResult>
    requires GranuleLanes * (j + 1) <= |ls|
  {
    ls[GranuleLanes * j..GranuleLanes * (j + 1)]
  }

  /** The symbols of granule j. */
  function SymbolGranule(input: seq<char>, j: nat): seq<char>
    requires GranuleSymbols * (j + 1) <= |input|
  {
    input[GranuleSymbols * j..GranuleSymbols * (j + 1)]
  }

  /** The lanes of whole groups between two other runs of symbols, sliced out of the lanes of all three. */
  lemma LanesMiddle(a: seq<char>, b: seq<char>, c: seq<char>, ma: nat, mb: nat)
    requires |a| == 4 * ma && |b| == 4 * mb
    ensures |DecodeLanes(a + (b + c))| >= ma + mb
    ensures DecodeLanes(a + (b + c))[ma..ma + mb] == DecodeLanes(b)
  {
    LanesAppend(b, c, mb);
    LanesAppend(a, b + c, ma);
    LanesLength(a, ma);
    LanesLength(b, mb);
    MiddleSlice(DecodeLanes(a), DecodeLanes(b), DecodeLanes(c));
  }

  /** The lanes of whole granules, granule j of them being the lanes of granule j of the symbols. */
  lemma GranuleOfLanes(input: seq<char>, n: nat, j: nat)
    requires GranuleSymbols * n <= |input| && j < n
    ensures |DecodeLanes(input[..GranuleSymbols * n])| == GranuleLanes * n
    ensures LaneGranule(DecodeLanes(input[..GranuleSymbols * n]), j) == DecodeLanes(SymbolGranule(input, j))
  {
    var s := input[..GranuleSymbols * n];
    LanesLength(s, GranuleLanes * n);
    var from, to := GranuleSymbols * j, GranuleSymbols * (j + 1);
    var a, b, c := s[..from], s[from..to], s[to..];
    assert s == a + (b + c);
    SliceOfPrefix(input, GranuleSymbols * n, from, to);
    LanesMiddle(a, b, c, GranuleLanes * j, GranuleLanes);
  }

  /** Every granule of the lanes of whole granules is the lanes of that granule of the symbols. */
  lemma GranulesOfLanes(input: seq<char>, n: nat)
    requires GranuleSymbols * n <= |input|
    ensures |DecodeLanes(input[..GranuleSymbols * n])| == GranuleLanes * n
    ensures forall j {:trigger SymbolGranule(input, j)} | 0 <= j < n ::
      LaneGranule(DecodeLanes(input[..GranuleSymbols * n]), j) == DecodeLanes(SymbolGranule(input, j))
  {
    LanesLength(input[..GranuleSymbols * n], GranuleLanes * n);
    forall j | 0 <= j < n
      ensures LaneGranule(DecodeLanes(input[..GranuleSymbols * n]), j) == DecodeLanes(SymbolGranule(input, j))
    {
      GranuleOfLanes(input, n, j);
    }
  }

  /**
   * One iteration of rcnb_decode_32n_asm, on granule j of input, whose
   * lanes are granule j of ls: when no lane is bad it stores their bytes
   * at granule j of output; otherwise it stores nothing.
   */
  method DecodeGranule(input: seq<char>, output: array<Byte>, n: nat, j: nat, ghost ls: seq<LaneResult>)
    returns (good: bool)
    requires GranuleSymbols * n <= |input| && GranuleBytes * n <= output.Length && |ls| == GranuleLanes * n && j < n
    requires forall j {:trigger SymbolGranule(input, j)} | 0 <= j < n ::
      LaneGranule(ls, j) == DecodeLanes(SymbolGranule(input, j))
    modifies output
    ensures var g := Gather(LaneGranule(ls, j)); var at := GranuleBytes * j;
      good == g.ok &&
      (good ==> output[at..at + GranuleBytes] == g.bytes && output[..at] == old(output[..at])) &&
      (good ==> forall k | 0 <= k < output.Length && (k < at || at + GranuleBytes <= k) :: output[k] == old(output[k])) &&
      (!good ==> output[..] == old(output[..]))
  {
    var granule := Gather(DecodeLanes(SymbolGranule(input, j)));
    LanesLength(SymbolGranule(input, j), GranuleLanes);
    good := granule.ok;
    if good {
      Store(output, GranuleBytes * j, granule.bytes);
    }
  }

  /**
   * After i granules of lanes ls: out holds their bytes, the kernel on the
   * remaining lanes completes the kernel's result, and out is orig past
   * the bytes stored.
   */
  ghost predicate DecodedUpTo(out: seq<Byte>, orig: seq<Byte>, ls: seq<LaneResult>, i: nat)
    requires GranuleLanes * i <= |ls| && GranuleBytes * i <= |out| == |orig|
  {
    out[..GranuleBytes * i] + KernelGather(ls[GranuleLanes * i..]).bytes == KernelGather(ls).bytes &&
    KernelGather(ls[GranuleLanes * i..]).ok == KernelGather(ls).ok &&
    forall k | GranuleBytes * i <= k < |out| :: out[k] == orig[k]
  }

  /** out holds the kernel's result on lanes ls and is orig past it. */
  ghost predicate DecodedAll(out: seq<Byte>, orig: seq<Byte>, ls: seq<LaneResult>)
    requires |out| == |orig|
  {
    var d := KernelGather(ls);
    |d.bytes| <= |out| && out[..|d.bytes|] == d.bytes &&
    forall k | |d.bytes| <= k < |out| :: out[k] == orig[k]
  }

  /**
   * Iteration i of the loop of rcnb_decode_32n_asm: it either extends
   * the bytes stored by granule i or, on a bad lane, stops with the
   * kernel's whole result stored.
   */
  method DecodeStep(input: seq<char>, output: array<Byte>, n: nat, i: nat, ghost ls: seq<LaneResult>, ghost orig: seq<Byte>)
    returns (good: bool)
    requires GranuleSymbols * n <= |input| && GranuleBytes * n <= output.Length == |orig| && |ls| == GranuleLanes * n && i < n
    requires forall j {:trigger SymbolGranule(input, j)} | 0 <= j < n ::
      LaneGranule(ls, j) == DecodeLanes(SymbolGranule(input, j))
    requires DecodedUpTo(output[..], orig, ls, i)
    modifies output
    ensures good ==> DecodedUpTo(output[..], orig, ls, i + 1)
    ensures !good ==> !KernelGather(ls).ok && DecodedAll(output[..], orig, ls)
  {
    var at := GranuleBytes * i;
    ghost var before := output[..];
    good := DecodeGranule(input, output, n, i, ls);
    KernelAt(ls, GranuleLanes * i, GranuleLanes * (i + 1));
    if !good {
      Finished(output[..], at, KernelGather(ls[GranuleLanes * i..]), KernelGather(ls));
      return;
    }
    StoredGranule(before, output[..], at, Gather(LaneGranule(ls, i)).bytes, KernelGather(ls[GranuleLanes * i..]).bytes,
      KernelGather(ls[GranuleLanes * (i + 1)..]).bytes, KernelGather(ls).bytes);
  }

  /** Before the first granule nothing is stored; after the last, everything is. */
  lemma DecodedEnds(out: seq<Byte>, orig: seq<Byte>, ls: seq<LaneResult>, n: nat)
    requires |ls| == GranuleLanes * n && GranuleBytes * n <= |out| == |orig|
    ensures out == orig ==> DecodedUpTo(out, orig, ls, 0)
    ensures DecodedUpTo(out, orig, ls, n) ==> KernelGather(ls).ok && DecodedAll(out, orig, ls)
  {
    assert ls[GranuleLanes * 0..] == ls;
    assert ls[GranuleLanes * n..] == [];
    if DecodedUpTo(out, orig, ls, n) {
      Finished(out, GranuleBytes * n, KernelGather(ls[GranuleLanes * n..]), KernelGather(ls));
    }
  }

  /**
   * The loop of rcnb_decode_32n_asm over n granules of input, against the
   * lanes ls those granules have: it stores the bytes of each good granule
   * and stops at the first one holding a bad lane.
   */
  method DecodeGranules(input: seq<char>, output: array<Byte>, n: nat, ghost ls: seq<LaneResult>) returns (ok: bool)
    requires GranuleSymbols * n <= |input| && GranuleBytes * n <= output.Length && |ls| == GranuleLanes * n
    requires forall j {:trigger SymbolGranule(input, j)} | 0 <= j < n ::
      LaneGranule(ls, j) == DecodeLanes(SymbolGranule(input, j))
    modifies output
    ensures ok == KernelGather(ls).ok && DecodedAll(output[..], old(output[..]), ls)
  {
    ghost var orig := output[..];
    DecodedEnds(output[..], orig, ls, n);
    var i := 0;
    while i < n
      invariant 0 <= i <= n && |orig| == output.Length
      invariant DecodedUpTo(output[..], orig, ls, i)
    {
      var good := DecodeStep(input, output, n, i, ls, orig);
      if !good {
        return false;
      }
      i := i + 1;
    }
    DecodedEnds(output[..], orig, ls, n);
    return true;
  }

  /**
   * rcnb_decode_32n_asm: decodes n granules of input into output and
   * answers whether every lane was good.  It stops at the first granule
   * holding a bad lane, storing nothing of it, after the bytes of the
   * granules before it.
   */
  method DecodeKernel(input: seq<char>, output: array<Byte>, n: nat) returns (ok: bool)
    requires GranuleSymbols * n <= |input| && GranuleBytes * n <= output.Length
    modifies output
    ensures var d := KernelDecode(input[..GranuleSymbols * n]);
      ok == d.ok && |d.bytes| <= output.Length && output[..|d.bytes|] == d.bytes &&
      forall k | |d.bytes| <= k < output.Length :: output[k] == old(output[k])
  {
    GranulesOfLanes(input, n);
    ok := DecodeGranules(input, output, n, DecodeLanes(input[..GranuleSymbols * n]));
  }
}
