/** Facts about slices and concatenation that the text-rewriting proofs share. */
module Seqs {
  /** Concatenation is associative. */
  lemma AppendAssoc<T>(a: seq<T>, b: seq<T>, c: seq<T>)
    ensures a + (b + c) == a + b + c
  {
  }

  /** A slice of a slice is a slice of the whole. */
  lemma SliceOfSlice<T>(s: seq<T>, a: nat, b: nat, k: nat, n: nat)
    requires a <= b <= |s| && k + n <= b - a
    ensures s[a..b][k..k + n] == s[a + k..a + k + n]
  {
    var lhs, rhs := s[a..b][k..k + n], s[a + k..a + k + n];
    assert forall j :: 0 <= j < n ==> lhs[j] == rhs[j];
  }

  /** The middle part of a concatenation is the slice of it between the other two parts. */
  lemma SliceOfConcat<T>(x: seq<T>, y: seq<T>, z: seq<T>)
    ensures (x + y + z)[|x|..|x| + |y|] == y
  {
    var w := x + y + z;
    assert forall j :: 0 <= j < |y| ==> w[|x| + j] == y[j];
  }

  /** A prefix one element longer is the prefix followed by that element. */
  lemma TakeOneMore<T>(s: seq<T>, i: nat)
    requires i < |s|
    ensures s[..i + 1] == s[..i] + [s[i]]
  {
    var lhs, rhs := s[..i + 1], s[..i] + [s[i]];
    assert forall j :: 0 <= j <= i ==> lhs[j] == rhs[j];
  }

  /** Adjacent slices join into one. */
  lemma SlicesJoin<T>(s: seq<T>, a: nat, b: nat, c: nat)
    requires a <= b <= c <= |s|
    ensures s[a..b] + s[b..c] == s[a..c]
  {
    var lhs, rhs := s[a..b] + s[b..c], s[a..c];
    assert forall j :: 0 <= j < c - a ==> lhs[j] == rhs[j];
  }
}
