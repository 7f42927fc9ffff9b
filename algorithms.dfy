/**
 * The two iterator algorithms the split view relies on: the four-argument
 * `mismatch` and the bounded `next`. Ranges are sequences and iterators
 * are indices into them (an index equal to the length is the end).
 */
module Algorithms {

  /**
   * Four-argument mismatch: walk `s` from `i` and `p` from `j` in step
   * until either range is exhausted or the elements differ, and return
   * both positions reached.
   */
  method Mismatch<T(==)>(s: seq<T>, i: nat, p: seq<T>, j: nat) returns (b: nat, q: nat)
    requires i <= |s| && j <= |p|
    ensures i <= b <= |s| && j <= q <= |p| && b - i == q - j
    ensures s[i..b] == p[j..q]
    ensures b < |s| && q < |p| ==> s[b] != p[q]
  {
    b, q := i, j;
    while b < |s| && q < |p| && s[b] == p[q]
      invariant i <= b <= |s| && j <= q <= |p| && b - i == q - j
      invariant s[i..b] == p[j..q]
      decreases |s| - b
    {
      assert s[i..b + 1] == s[i..b] + [s[b]];
      assert p[j..q + 1] == p[j..q] + [p[q]];
      b, q := b + 1, q + 1;
    }
  }

  /**
   * Bounded advance `next(i, n, bound)`: move `i` forward by `n`, but
   * never past `bound`.
   */
  function NextBounded(i: nat, n: nat, bound: nat): (r: nat)
    requires i <= bound
    ensures i <= r <= bound
    ensures r == i + n || r == bound
    ensures i + n <= bound ==> r == i + n
  {
    if i + n <= bound then i + n else bound
  }
}
