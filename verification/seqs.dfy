/** Orderings on sequences of naturals and the search the source performs
    with `binary_search` on them. */
module Seqs {

  /** Every element is at most the next one (what `binary_search` needs). */
  predicate NonDecreasing(s: seq<nat>) {
    forall i, j | 0 <= i < j < |s| :: s[i] <= s[j]
  }

  /** Every element is below the next one. */
  predicate StrictlyIncreasing(s: seq<nat>) {
    forall i, j | 0 <= i < j < |s| :: s[i] < s[j]
  }

  /** Appending an element above every element keeps a list strictly
      increasing and adds exactly that element. */
  lemma AppendAbove(s: seq<nat>, x: nat)
    requires StrictlyIncreasing(s) && forall k | 0 <= k < |s| :: s[k] < x
    ensures StrictlyIncreasing(s + [x])
    ensures forall y :: y in s + [x] <==> y in s || y == x
  {
  }

  /** Prepending an element below every element keeps a list strictly
      increasing and adds exactly that element. */
  lemma PrependBelow(x: nat, s: seq<nat>)
    requires StrictlyIncreasing(s) && forall k | 0 <= k < |s| :: x < s[k]
    ensures StrictlyIncreasing([x] + s)
    ensures forall y :: y in [x] + s <==> y == x || y in s
  {
    var r := [x] + s;
    forall i, j | 0 <= i < j < |r|
      ensures r[i] < r[j]
    {
      assert r[j] == s[j - 1];
      if i > 0 {
        assert r[i] == s[i - 1];
      }
    }
  }

  function Last<T>(s: seq<T>): T
    requires |s| > 0
  {
    s[|s| - 1]
  }

  /** Index of the first element of `s[lo..hi]` above `x`, by bisection.
      On a sorted slice this is the `Ok(i) => i + 1, Err(i) => i` mapping the
      source applies to the result of `binary_search`. */
  function UpperBoundIn(s: seq<nat>, x: nat, lo: nat, hi: nat): (r: nat)
    requires lo <= hi <= |s|
    requires NonDecreasing(s)
    ensures lo <= r <= hi
    ensures forall i | lo <= i < r :: s[i] <= x
    ensures forall i | r <= i < hi :: x < s[i]
    decreases hi - lo
  {
    if lo == hi then lo
    else
      var mid := lo + (hi - lo) / 2;
      if s[mid] <= x then UpperBoundIn(s, x, mid + 1, hi)
      else UpperBoundIn(s, x, lo, mid)
  }

  /** Number of elements of the sorted `s` that are at most `x`. */
  function UpperBound(s: seq<nat>, x: nat): (r: nat)
    requires NonDecreasing(s)
    ensures r <= |s|
    ensures forall i | 0 <= i < r :: s[i] <= x
    ensures forall i | r <= i < |s| :: x < s[i]
  {
    UpperBoundIn(s, x, 0, |s|)
  }

  /** Number of `true` entries of a bitmap. */
  function CountTrue(bits: seq<bool>): (r: nat)
    ensures r <= |bits|
  {
    if |bits| == 0 then 0
    else (if bits[0] then 1 else 0) + CountTrue(bits[1..])
  }

  /** Clearing one set bit lowers the count by exactly one. */
  lemma {:induction false} CountTrueClear(bits: seq<bool>, k: nat)
    requires k < |bits| && bits[k]
    ensures CountTrue(bits[k := false]) == CountTrue(bits) - 1
  {
    if k == 0 {
      assert bits[k := false][1..] == bits[1..];
    } else {
      assert bits[k := false][1..] == bits[1..][k - 1 := false];
      CountTrueClear(bits[1..], k - 1);
    }
  }

  /** A bitmap with no set bit counts zero, and one with a set bit counts more. */
  lemma {:induction false} CountTruePositive(bits: seq<bool>, k: nat)
    requires k < |bits| && bits[k]
    ensures CountTrue(bits) > 0
  {
    if k > 0 {
      CountTruePositive(bits[1..], k - 1);
    }
  }
}
