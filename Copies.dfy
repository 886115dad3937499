/** `Array(n).fill(0).map(e => Object.assign({}, x).valueOf())`, used by
    `dyadicArrayWrap` (src/utils/index.js:75-76) and `arrayFillByRandomGroup`
    (src/utils/index.js:109): n clones of a value. A clone is the value
    itself here. */
module Copies {

  /** n copies of `x`. */
  function Repeat<T>(x: T, n: nat): (r: seq<T>)
    ensures |r| == n && forall k :: 0 <= k < n ==> r[k] == x
  {
    seq(n, _ => x)
  }

  /** The copies hold `x` n times and nothing else. */
  lemma {:induction false} RepeatCount<T>(y: T, n: nat, x: T)
    ensures multiset(Repeat(y, n))[x] == if x == y then n else 0
  {
    if n > 0 {
      RepeatCount(y, n - 1, x);
      assert Repeat(y, n) == Repeat(y, n - 1) + [y];
    }
  }
}
