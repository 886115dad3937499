/** `arrayShuffle` (src/utils/index.js:98-101): an in-place Fisher-Yates
    shuffle. Each random draw `~~(Math.random() * i)` is injected: the k-th
    draw of a shuffle of n elements is a natural number below n - k. */
module Shuffling {

  /** The draws one shuffle of an n-element array consumes: one per step,
      the k-th in [0, n - k). */
  ghost predicate ValidDraws(draws: seq<nat>, n: nat)
  {
    |draws| == n && (n == 0 || (draws[0] < n && ValidDraws(draws[1..], n - 1)))
  }

  /** Exchanging two positions of a sequence. */
  function Swap<T>(s: seq<T>, i: nat, j: nat): seq<T>
    requires i < |s| && j < |s|
  {
    s[i := s[j]][j := s[i]]
  }

  /** A swap exchanges the two positions, keeps every other one, and so keeps
      the multiset of elements. */
  lemma SwapPermutes<T>(s: seq<T>, i: nat, j: nat)
    requires i < |s| && j < |s|
    ensures |Swap(s, i, j)| == |s| && Swap(s, i, j)[i] == s[j] && Swap(s, i, j)[j] == s[i]
    ensures forall k :: 0 <= k < |s| && k != i && k != j ==> Swap(s, i, j)[k] == s[k]
    ensures multiset(Swap(s, i, j)) == multiset(s)
  {
  }

  /** The last `i` steps of the shuffle: with `i` elements still unplaced,
      position i - 1 is swapped with the drawn position `draws[0]`, and the
      shuffle continues on the first i - 1 positions. */
  ghost function ShuffleSteps<T>(s: seq<T>, i: nat, draws: seq<nat>): seq<T>
    requires i <= |s| && ValidDraws(draws, i)
    decreases i
  {
    if i == 0 then s
    else ShuffleSteps(Swap(s, i - 1, draws[0]), i - 1, draws[1..])
  }

  /** The whole shuffle of `s` under the given draws. */
  ghost function Shuffled<T>(s: seq<T>, draws: seq<nat>): seq<T>
    requires ValidDraws(draws, |s|)
  {
    ShuffleSteps(s, |s|, draws)
  }

  /** Every shuffle is a permutation: same length, same multiset. */
  lemma {:induction false} ShuffleStepsPermutes<T>(s: seq<T>, i: nat, draws: seq<nat>)
    requires i <= |s| && ValidDraws(draws, i)
    ensures |ShuffleSteps(s, i, draws)| == |s|
    ensures multiset(ShuffleSteps(s, i, draws)) == multiset(s)
    decreases i
  {
    if i > 0 {
      SwapPermutes(s, i - 1, draws[0]);
      ShuffleStepsPermutes(Swap(s, i - 1, draws[0]), i - 1, draws[1..]);
    }
  }

  /** Positions at or above `i` are already placed and are never touched again. */
  lemma {:induction false} ShuffleStepsKeepsPlaced<T>(s: seq<T>, i: nat, draws: seq<nat>, k: nat)
    requires i <= k < |s| && ValidDraws(draws, i)
    ensures |ShuffleSteps(s, i, draws)| == |s| && ShuffleSteps(s, i, draws)[k] == s[k]
    decreases i
  {
    ShuffleStepsPermutes(s, i, draws);
    if i > 0 {
      SwapPermutes(s, i - 1, draws[0]);
      ShuffleStepsKeepsPlaced(Swap(s, i - 1, draws[0]), i - 1, draws[1..], k);
    }
  }

  /** The first step fixes the last unplaced position for good: it ends up
      holding the element the first draw selected. */
  lemma ShuffleStepsPlacesDrawn<T>(s: seq<T>, i: nat, draws: seq<nat>)
    requires 0 < i <= |s| && ValidDraws(draws, i)
    ensures |ShuffleSteps(s, i, draws)| == |s| && ShuffleSteps(s, i, draws)[i - 1] == s[draws[0]]
  {
    SwapPermutes(s, i - 1, draws[0]);
    ShuffleStepsKeepsPlaced(Swap(s, i - 1, draws[0]), i - 1, draws[1..], i - 1);
  }

  /** One step unfolded: the shuffle of the remaining `i` positions is the
      swap of position i - 1 with the first draw, then the remaining steps. */
  lemma ShuffleStepsUnfold<T>(s: seq<T>, i: nat, draws: seq<nat>, n: nat, all: seq<nat>)
    requires 0 < i <= |s| && i <= n && |all| == n && draws == all[n - i..] && ValidDraws(draws, i)
    ensures draws[0] < i && ValidDraws(all[n - i + 1..], i - 1)
    ensures ShuffleSteps(s, i, draws) == ShuffleSteps(Swap(s, i - 1, draws[0]), i - 1, all[n - i + 1..])
  {
    assert draws[1..] == all[n - i + 1..];
  }

  /** The statement `x = arr[--i], arr[i] = arr[j], arr[j] = x` after `i`
      has been decremented. */
  method Exchange<T>(a: array<T>, i: nat, j: nat)
    requires i < a.Length && j < a.Length
    modifies a
    ensures a[..] == Swap(old(a[..]), i, j)
  {
    var x := a[i];
    a[i] := a[j];
    a[j] := x;
  }

  /** The shuffle of the source: the loop starts with `i` at the length,
      draws `j` below the current `i`, decrements `i`, then swaps positions
      `i` and `j`; it stops when `i` reaches 0 and returns the same array. */
  method Shuffle<T>(a: array<T>, draws: seq<nat>) returns (r: array<T>)
    requires ValidDraws(draws, a.Length)
    modifies a
    ensures r == a
    ensures a[..] == Shuffled(old(a[..]), draws)
    ensures multiset(a[..]) == multiset(old(a[..]))
  {
    var i := a.Length;
    while i != 0
      invariant 0 <= i <= a.Length
      invariant ValidDraws(draws[a.Length - i..], i)
      invariant ShuffleSteps(a[..], i, draws[a.Length - i..]) == Shuffled(old(a[..]), draws)
    {
      ShuffleStepsUnfold(a[..], i, draws[a.Length - i..], a.Length, draws);
      var j := draws[a.Length - i];
      i := i - 1;
      Exchange(a, i, j);
    }
    ShuffleStepsPermutes(old(a[..]), a.Length, draws);
    r := a;
  }
}
