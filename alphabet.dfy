/**
 * The RCNB alphabet: four ordered symbol classes R, C, N and B, their sizes
 * and the weights of the mixed-radix number system built from them.
 *
 * The same four tables appear in src/rcnb.c, src/cencode.c and
 * src/cdecode.c; they are defined once here.
 */
module Alphabet {

  /** Class R: fifteen variants of the letter r. */
  const CR: seq<char> := "rRŔŕŖŗŘřƦȐȑȒȓɌɍ"
  /** Class C: fifteen variants of the letter c. */
  const CC: seq<char> := "cCĆćĈĉĊċČčƇƈÇȻȼ"
  /** Class N: fifteen variants of the letter n. */
  const CN: seq<char> := "nNŃńŅņŇňƝƞÑǸǹȠȵ"
  /** Class B: ten variants of the letter b. */
  const CB: seq<char> := "bBƀƁƃƄƅßÞþ"

  /**
   * Class sizes and digit weights.  The source derives them from the tables
   * with sizeof; TableSizes proves the literals agree with the tables.
   */
  const SR: nat := 15
  const SC: nat := 15
  const SN: nat := 15
  const SB: nat := 10

  /** Weights of the mixed-radix digits: a group is r*SCNB + c*SNB + n*SB + b. */
  const SRC: nat := 225
  const SNB: nat := 150
  const SCNB: nat := 2250

  /** No symbol occurs twice in a class. */
  predicate Distinct(t: seq<char>)
  {
    forall i, j | 0 <= i < j < |t| :: t[i] != t[j]
  }

  /** The symbol belongs to one of the four classes. */
  predicate IsSymbol(x: char)
  {
    x in CR || x in CC || x in CN || x in CB
  }

  /**
   * Position of the first occurrence of x in t, or -1 when x does not occur:
   * what the decoder's linear search `find` computes.  IndexOfFirst states
   * that no earlier position holds x and that -1 means x is absent.
   */
  function IndexOf(t: seq<char>, x: char): (r: int)
    ensures -1 <= r < |t|
    ensures r >= 0 ==> t[r] == x
  {
    if |t| == 0 then -1
    else if t[0] == x then 0
    else
      var k := IndexOf(t[1..], x);
      if k < 0 then -1 else k + 1
  }

  /** IndexOf finds the first occurrence, and finds none only when x is absent. */
  lemma {:induction false} IndexOfFirst(t: seq<char>, x: char)
    ensures IndexOf(t, x) >= 0 ==> forall j | 0 <= j < IndexOf(t, x) :: t[j] != x
    ensures IndexOf(t, x) < 0 <==> x !in t
  {
    if |t| > 0 && t[0] != x {
      IndexOfFirst(t[1..], x);
      assert t == [t[0]] + t[1..];
    }
  }

  lemma TableSizes()
    ensures |CR| == SR && |CC| == SC && |CN| == SN && |CB| == SB
    ensures SRC == SR * SC && SNB == SN * SB && SCNB == SC * SNB
  {
  }

  lemma ClassesDistinct()
    ensures Distinct(CR) && Distinct(CC) && Distinct(CN) && Distinct(CB)
  {
    DistinctR();
    DistinctC();
    DistinctN();
    DistinctB();
  }

  lemma DistinctR() ensures Distinct(CR) {}
  lemma DistinctC() ensures Distinct(CC) {}
  lemma DistinctN() ensures Distinct(CN) {}
  lemma DistinctB() ensures Distinct(CB) {}

  /** No symbol of s occurs in t. */
  predicate Disjoint(s: seq<char>, t: seq<char>)
  {
    forall i | 0 <= i < |s| :: s[i] !in t
  }

  /** No symbol belongs to two classes, so a lookup identifies its class. */
  lemma ClassesDisjoint()
    ensures Disjoint(CR, CC) && Disjoint(CR, CN) && Disjoint(CR, CB)
    ensures Disjoint(CC, CN) && Disjoint(CC, CB) && Disjoint(CN, CB)
  {
    DisjointRC();
    DisjointRN();
    DisjointRB();
    DisjointCN();
    DisjointCB();
    DisjointNB();
  }

  lemma DisjointRC() ensures Disjoint(CR, CC) {}
  lemma DisjointRN() ensures Disjoint(CR, CN) {}
  lemma DisjointRB() ensures Disjoint(CR, CB) {}
  lemma DisjointCN() ensures Disjoint(CC, CN) {}
  lemma DisjointCB() ensures Disjoint(CC, CB) {}
  lemma DisjointNB() ensures Disjoint(CN, CB) {}

  /** Every symbol of t is a code point below 0x300: its high byte is at most 2. */
  predicate Below0x300(t: seq<char>)
  {
    forall i | 0 <= i < |t| :: t[i] as int < 0x300
  }

  /** The symbols of all four classes are code points below 0x300. */
  lemma CodePointsBelow0x300()
    ensures Below0x300(CR) && Below0x300(CC) && Below0x300(CN) && Below0x300(CB)
  {
    assert Below0x300(CR);
    assert Below0x300(CC);
    assert Below0x300(CN);
    assert Below0x300(CB);
  }

  /** In a class without repetitions the lookup of the k-th symbol gives back k. */
  lemma IndexOfDistinct(t: seq<char>, k: int)
    requires Distinct(t) && 0 <= k < |t|
    ensures IndexOf(t, t[k]) == k
  {
    IndexOfFirst(t, t[k]);
  }

  /** The lookup of the k-th R symbol gives back k. */
  lemma LookupR(k: int)
    requires 0 <= k < SR
    ensures IndexOf(CR, CR[k]) == k
  {
    DistinctR();
    IndexOfDistinct(CR, k);
  }

  /** The lookup of the k-th C symbol gives back k. */
  lemma LookupC(k: int)
    requires 0 <= k < SC
    ensures IndexOf(CC, CC[k]) == k
  {
    DistinctC();
    IndexOfDistinct(CC, k);
  }

  /** The lookup of the k-th N symbol gives back k. */
  lemma LookupN(k: int)
    requires 0 <= k < SN
    ensures IndexOf(CN, CN[k]) == k
  {
    DistinctN();
    IndexOfDistinct(CN, k);
  }

  /** The lookup of the k-th B symbol gives back k. */
  lemma LookupB(k: int)
    requires 0 <= k < SB
    ensures IndexOf(CB, CB[k]) == k
  {
    DistinctB();
    IndexOfDistinct(CB, k);
  }

  /** An N symbol is never found among the R symbols: it marks a reversed group. */
  lemma NIsNotR(k: int)
    requires 0 <= k < SN
    ensures CN[k] !in CR && IndexOf(CR, CN[k]) < 0
  {
    assert CN[k] !in CR;
  }
}
