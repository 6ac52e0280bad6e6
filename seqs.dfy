/** Facts about sequences, proved once away from any model-specific terms. */
module Seqs {
  /** Concatenation is associative. */
  lemma AppendAssoc<T>(x: seq<T>, y: seq<T>, z: seq<T>)
    ensures (x + y) + z == x + (y + z)
  {
    forall i | 0 <= i < |x| + |y| + |z|
      ensures ((x + y) + z)[i] == (x + (y + z))[i]
    {
      if i < |x| {
      } else if i < |x| + |y| {
        assert (y + z)[i - |x|] == y[i - |x|];
      } else {
        assert (y + z)[i - |x|] == z[i - |x| - |y|];
      }
    }
  }

  /** The tail of a sequence built by putting `x` in front of `ys` is `ys`. */
  lemma ConsTail<T>(x: T, ys: seq<T>)
    ensures ([x] + ys)[0] == x && ([x] + ys)[1..] == ys
  {
  }

  /** A slice running to the end is a suffix, and one running from the start is a prefix. */
  lemma SliceEnds<T>(s: seq<T>, p: nat)
    requires p <= |s|
    ensures s[p..|s|] == s[p..] && s[0..p] == s[..p]
  {
  }

  /** Cutting a suffix at `m` and putting the pieces back together gives the suffix again. */
  lemma SliceSplit<T>(s: seq<T>, p: nat, m: nat)
    requires p <= m <= |s|
    ensures s[p..m] + s[m..] == s[p..]
  {
  }

  /** The first element of a non-empty slice, and the rest of it. */
  lemma SliceFirst<T>(s: seq<T>, p: nat, q: nat)
    requires p < q <= |s|
    ensures s[p..q][0] == s[p] && s[p..q][1..] == s[p + 1..q]
  {
  }

  /** The three parts of `x + y + z`, each at its offset. */
  lemma Slot<T>(x: seq<T>, y: seq<T>, z: seq<T>)
    ensures (x + y + z)[..|x|] == x
    ensures (x + y + z)[|x|..|x| + |y|] == y
    ensures (x + y + z)[|x| + |y|..] == z
  {
  }

  /** A slice of a slice is a slice of the whole. */
  lemma SliceOfSlice<T>(s: seq<T>, p: nat, q: nat, i: nat, j: nat)
    requires p <= q <= |s| && i <= j <= q - p
    ensures s[p..q][i..j] == s[p + i..p + j]
  {
    forall k | 0 <= k < j - i
      ensures s[p..q][i..j][k] == s[p + i..p + j][k]
    {
      assert s[p..q][i..j][k] == s[p..q][i + k] == s[p + i + k];
    }
  }

  /** Dropping the first element of a suffix gives the next suffix. */
  lemma DropFirst<T>(s: seq<T>, i: nat)
    requires i < |s|
    ensures s[i..][1..] == s[i + 1..]
  {
  }

  /** An element in none of three sequences is not in their concatenation. */
  lemma NotInConcat<T>(x: T, a: seq<T>, b: seq<T>, c: seq<T>)
    requires x !in a && x !in b && x !in c
    ensures x !in a + b + c
  {
  }

  /** A slice of `m`, where `m` stands at `p` in `s`, is the slice of `s` shifted by `p`. */
  lemma SliceWithin<T>(s: seq<T>, p: nat, m: seq<T>, i: nat, j: nat)
    requires p + |m| <= |s| && s[p..p + |m|] == m && i <= j <= |m|
    ensures s[p + i..p + j] == m[i..j]
  {
    SliceOfSlice(s, p, p + |m|, i, j);
  }
}
