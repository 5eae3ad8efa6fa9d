/** Sequence helpers shared by the receiver and compression models. */
module Seqs {
  /** n copies of v: Python's `[v] * n`, and a row written into n output rows. */
  function Repeat<T>(v: T, n: nat): (r: seq<T>)
    ensures |r| == n && forall k :: 0 <= k < n ==> r[k] == v
  {
    seq(n, _ => v)
  }

  /** m copies followed by n copies are m + n copies. */
  lemma RepeatAdd<T>(v: T, m: nat, n: nat)
    ensures Repeat(v, m) + Repeat(v, n) == Repeat(v, m + n)
  {
  }
}
