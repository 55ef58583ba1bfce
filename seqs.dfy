// Slicing and concatenation facts, stated once for any element type so that
// the proofs about rows and statements can cite them instead of re-deriving
// sequence equality element by element.

module Seqs {

  lemma AppendAssoc<T>(a: seq<T>, b: seq<T>, c: seq<T>)
    ensures a + (b + c) == (a + b) + c
  {
  }

  lemma AppendEmpty<T>(a: seq<T>)
    ensures a + [] == a
  {
  }

  /** A prefix followed by the rest is the whole sequence. */
  lemma PrefixThenRest<T>(s: seq<T>, i: nat)
    requires i <= |s|
    ensures s[..i] + s[i..] == s
  {
  }

  /** A prefix followed by the next slice is the longer prefix. */
  lemma PrefixThenSlice<T>(s: seq<T>, i: nat, j: nat)
    requires i <= j <= |s|
    ensures s[..i] + s[i..j] == s[..j]
  {
  }

  /** A slice followed by the rest from its end is the rest from its start. */
  lemma SliceThenRest<T>(s: seq<T>, i: nat, j: nat)
    requires i <= j <= |s|
    ensures s[i..j] + s[j..] == s[i..]
  {
  }
}
