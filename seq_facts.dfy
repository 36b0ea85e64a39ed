/** Facts about cutting and joining sequences, stated once for every element type. */
module SeqFacts {

  /** Concatenation is associative. */
  lemma ConcatAssoc<T>(x: seq<T>, y: seq<T>, z: seq<T>)
    ensures (x + y) + z == x + (y + z)
  {
  }

  /** Nothing in front leaves a sequence as it is. */
  lemma EmptyFront<T>(p: seq<T>, s: seq<T>)
    requires p == []
    ensures p + s == s
  {
  }

  /** Nothing behind leaves a sequence as it is. */
  lemma EmptyBack<T>(p: seq<T>, s: seq<T>)
    requires s == []
    ensures p + s == p
  {
  }

  /** A one-element front is its element. */
  lemma SingleFront<T>(p: seq<T>, s: seq<T>)
    requires |p| == 1
    ensures p + s == [p[0]] + s
  {
    assert p == [p[0]];
  }

  /** A sequence is its prefix followed by its suffix. */
  lemma CutAt<T>(s: seq<T>, k: int)
    requires 0 <= k <= |s|
    ensures s[..k] + s[k..] == s
  {
  }

  /** Cutting a concatenation where its first part ends gives back the parts. */
  lemma SplitConcat<T>(x: seq<T>, y: seq<T>)
    ensures (x + y)[..|x|] == x && (x + y)[|x|..] == y
  {
  }

  /** A sequence of at least two elements is its first two elements, then the rest. */
  lemma FirstPairAndRest<T>(s: seq<T>)
    requires |s| >= 2
    ensures [s[0], s[1]] + s[2..] == s
  {
  }

  /** Two adjacent slices of a sequence join into one. */
  lemma JoinSlices<T>(s: seq<T>, i: int, j: int, k: int)
    requires 0 <= i <= j <= k <= |s|
    ensures s[i..j] + s[j..k] == s[i..k]
  {
  }

  /** The middle of three joined sequences, sliced out again. */
  lemma MiddleSlice<T>(a: seq<T>, b: seq<T>, c: seq<T>)
    ensures (a + (b + c))[|a|..|a| + |b|] == b
  {
    assert forall k | 0 <= k < |b| :: (a + (b + c))[|a| + k] == b[k];
  }

  /** A longer prefix is a shorter one followed by the slice between them. */
  lemma PrefixJoin<T>(s: seq<T>, i: int, j: int)
    requires 0 <= i <= j <= |s|
    ensures s[..j] == s[..i] + s[i..j]
  {
  }

  /** Two adjacent slices holding a and b make one slice holding a + b. */
  lemma JoinFilled<T>(s: seq<T>, i: int, j: int, k: int, a: seq<T>, b: seq<T>)
    requires 0 <= i <= j <= k <= |s| && j == i + |a| && k == j + |b|
    requires s[i..j] == a && s[j..k] == b
    ensures k == i + |a + b| && s[i..i + |a + b|] == a + b
  {
    JoinSlices(s, i, j, k);
  }

  /** A slice of a slice is a slice of the whole. */
  lemma SliceOfSlice<T>(s: seq<T>, i: int, j: int, k: int)
    requires 0 <= i <= j <= |s| && 0 <= k <= j - i
    ensures s[i..j][..k] == s[i..i + k]
  {
  }

  /** Sequences that agree on every index of a range have the same slice there. */
  lemma SameSlice<T>(x: seq<T>, y: seq<T>, i: int, j: int)
    requires 0 <= i <= j <= |x| && |x| == |y|
    requires forall k | i <= k < j :: x[k] == y[k]
    ensures x[i..j] == y[i..j]
  {
  }

  /** A slice of a prefix is the same slice of the whole. */
  lemma SliceOfPrefix<T>(s: seq<T>, n: int, i: int, j: int)
    requires 0 <= i <= j <= n <= |s|
    ensures s[..n][i..j] == s[i..j]
  {
  }

  /** Dropping i elements, then j more, drops i + j. */
  lemma DropDrop<T>(s: seq<T>, i: int, j: int, k: int)
    requires 0 <= i && 0 <= j && k == i + j && k <= |s|
    ensures s[i..][j..] == s[k..]
  {
  }

  /** The first j elements after position i are the slice from i to i + j. */
  lemma DropTake<T>(s: seq<T>, i: int, j: int, k: int)
    requires 0 <= i && 0 <= j && k == i + j && k <= |s|
    ensures s[i..][..j] == s[i..k]
  {
  }
}
