/** Bytes of the viewed file and the newline search every component uses. */
module Bytes {
  import opened Wrappers

  type byte = bv8

  /** The line terminator `b'\n'`. */
  const NL: byte := 10

  /** No newline in the half-open range `[lo, hi)` of `buf`. */
  predicate NoNewline(buf: seq<byte>, lo: nat, hi: nat) {
    forall i | lo <= i < hi && i < |buf| :: buf[i] != NL
  }

  /** Position of the first newline at or after `from`: the byte loop of
      `split_file` and `memchr` in the chunk cache. */
  function FirstNewline(buf: seq<byte>, from: nat): (r: Option<nat>)
    ensures r.Some? ==> from <= r.value < |buf| && buf[r.value] == NL
    ensures r.Some? ==> NoNewline(buf, from, r.value)
    ensures r.None? ==> NoNewline(buf, from, |buf|)
    decreases |buf| - from
  {
    if from >= |buf| then None
    else if buf[from] == NL then Some(from)
    else FirstNewline(buf, from + 1)
  }
}
