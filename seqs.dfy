/** Shapes of sequences: splitting, regrouping and slicing concatenations. */
module Seqs {

  lemma SplitAt<A>(s: seq<A>, k: nat)
    requires k < |s|
    ensures s == s[..k] + [s[k]] + s[k + 1..]
  {
    assert s == s[..k] + s[k..];
    assert s[k..] == [s[k]] + s[k + 1..];
  }

  lemma Assoc<A>(a: seq<A>, b: seq<A>, c: seq<A>)
    ensures a + (b + c) == a + b + c
  {
  }

  /** The middle part of a three-part concatenation. */
  lemma SliceMid<A>(x: seq<A>, y: seq<A>, z: seq<A>)
    ensures (x + y + z)[|x|..|x| + |y|] == y
  {
  }

  /** Prefix and suffix of a concatenation at the seam. */
  lemma SliceSeam<A>(x: seq<A>, y: seq<A>)
    ensures (x + y)[..|x|] == x && (x + y)[|x|..] == y
  {
  }

  lemma SplitThree<A>(s: seq<A>, a: nat, b: nat)
    requires a <= b <= |s|
    ensures s == s[..a] + s[a..b] + s[b..]
  {
    assert s[..b] == s[..a] + s[a..b];
    assert s == s[..b] + s[b..];
  }

  /** A slice of a slice is a slice of the whole, at the summed offset. */
  lemma SliceOfSlice<A>(s: seq<A>, i: nat, j: nat, a: nat, len: nat, p: nat)
    requires i <= j <= |s| && a + len <= j - i && p == i + a
    ensures s[i..j][a..a + len] == s[p..p + len]
  {
    var t, u := s[i..j][a..a + len], s[p..p + len];
    forall m | 0 <= m < len
      ensures t[m] == u[m]
    {
      assert t[m] == s[i + a + m];
    }
  }
}
