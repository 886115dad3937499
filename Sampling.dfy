/** `arrayRandomItem` and `arrayRandom` (src/utils/index.js:80-95): drawing
    elements of an array at pairwise-distinct indices. The source redraws
    `~~(Math.random() * arr.length)` until it hits an index not in the `Set`
    of used indices; here the draws come from a finite oracle, each below the
    array's length, and running out of draws is reported instead of looping. */
module Sampling {
  import opened Shuffling

  datatype Option<T> = None | Some(value: T)

  /** The outcome of one rejection-sampling call. */
  datatype Pick<T> = Picked(index: nat, item: T) | OutOfDraws

  /** Reference definition of rejection sampling: the draws that are accepted,
      in draw order, when every draw already in `used` (or accepted earlier)
      is rejected. */
  function DistinctFrom(draws: seq<nat>, used: set<nat>): (r: seq<nat>)
    ensures |r| <= |draws|
    ensures forall k :: 0 <= k < |r| ==> r[k] !in used && r[k] in draws
    ensures forall j, k :: 0 <= j < k < |r| ==> r[j] != r[k]
  {
    if draws == [] then []
    else if draws[0] in used then DistinctFrom(draws[1..], used)
    else [draws[0]] + DistinctFrom(draws[1..], used + {draws[0]})
  }

  /** The filter accepts exactly the draws not in `used`: every such draw
      is accepted (once, however often it is drawn), and no other. */
  lemma {:induction false} DistinctFromExactly(draws: seq<nat>, used: set<nat>)
    ensures forall d :: d in DistinctFrom(draws, used) <==> d in draws && d !in used
  {
    if draws != [] {
      DistinctFromExactly(draws[1..], used);
      DistinctFromExactly(draws[1..], used + {draws[0]});
      assert forall d :: d in draws <==> d == draws[0] || d in draws[1..];
    }
  }

  /** The distinct values a sequence holds. */
  function Values(s: seq<nat>): (r: set<nat>)
    ensures forall d :: d in r <==> d in s
  {
    set d | d in s
  }

  /** A sequence without repeats has as many distinct values as entries. */
  lemma {:induction false} DistinctCount(r: seq<nat>)
    requires forall j, k :: 0 <= j < k < |r| ==> r[j] != r[k]
    ensures |Values(r)| == |r|
  {
    if r != [] {
      var tail := r[1..];
      assert forall j, k :: 0 <= j < k < |tail| ==> tail[j] != tail[k] by {
        forall j, k | 0 <= j < k < |tail| ensures tail[j] != tail[k] {
          assert tail[j] == r[j + 1] && tail[k] == r[k + 1];
        }
      }
      DistinctCount(tail);
      assert r[0] !in Values(tail) by {
        forall k | 0 <= k < |tail| ensures tail[k] != r[0] {
          assert tail[k] == r[k + 1];
        }
      }
      assert Values(r) == Values(tail) + {r[0]};
    }
  }

  /** Starting from no used index, as `arrayRandom` does, the accepted draws
      are as many as the distinct values among the draws. */
  lemma AcceptedCount(draws: seq<nat>)
    ensures |DistinctFrom(draws, {})| == |Values(draws)|
  {
    var r := DistinctFrom(draws, {});
    DistinctFromExactly(draws, {});
    DistinctCount(r);
    assert Values(r) == Values(draws);
  }

  /** The fact that makes rejection sampling terminate: while fewer than n
      indices of an n-element array are used, an unused index exists. */
  lemma FreeIndexExists(used: set<nat>, n: nat)
    requires forall u :: u in used ==> u < n
    requires |used| < n
    ensures exists i :: 0 <= i < n && i !in used
  {
    if forall i :: 0 <= i < n ==> i in used {
      CoversRange(used, n);
      assert false;
    }
  }

  /** A set holding every index below n has at least n members. */
  lemma {:induction false} CoversRange(used: set<nat>, n: nat)
    requires forall i :: 0 <= i < n ==> i in used
    ensures |used| >= n
  {
    if n > 0 {
      CoversRange(used - {n - 1}, n - 1);
    }
  }

  /** `arrayRandomItem`: consumes draws until one is not in `used`; that
      index is recorded as used and its element returned. The recursion of
      the source is the loop here. Callers keep fewer than `|arr|` indices
      in `used`, as `arrayRandom` does; with every index used the source
      would redraw forever. So running out of draws is never due to a full
      `used` set: an unused index was still there to be drawn. */
  method RandomItem<T>(arr: seq<T>, used: set<nat>, draws: seq<nat>)
    returns (pick: Pick<T>, usedAfter: set<nat>, rest: seq<nat>)
    requires forall u :: u in used ==> u < |arr|
    requires |used| < |arr|
    requires forall k :: 0 <= k < |draws| ==> draws[k] < |arr|
    ensures |rest| <= |draws| && rest == draws[|draws| - |rest|..]
    ensures pick.Picked? ==>
      && pick.index < |arr| && pick.item == arr[pick.index]
      && pick.index !in used
      && usedAfter == used + {pick.index} && |usedAfter| == |used| + 1
      && DistinctFrom(draws, used) == [pick.index] + DistinctFrom(rest, usedAfter)
    ensures pick.OutOfDraws? ==> usedAfter == used && rest == [] && DistinctFrom(draws, used) == []
    ensures pick.OutOfDraws? ==> exists i :: 0 <= i < |arr| && i !in used
  {
    rest := draws;
    while rest != [] && rest[0] in used
      invariant |rest| <= |draws| && rest == draws[|draws| - |rest|..]
      invariant DistinctFrom(rest, used) == DistinctFrom(draws, used)
    {
      rest := rest[1..];
    }
    if rest == [] {
      FreeIndexExists(used, |arr|);
      return OutOfDraws, used, [];
    }
    var rand := rest[0];
    rest := rest[1..];
    usedAfter := used + {rand};
    pick := Picked(rand, arr[rand]);
  }

  /** The `map` of `arrayRandom`: `count` calls of `arrayRandomItem` sharing
      one used-index set, their elements in call order. `count` is below the
      array's length, so a free index always exists. `None` means the oracle
      held fewer than `count` distinct draws. */
  method DrawDistinct<T>(arr: seq<T>, count: nat, draws: seq<nat>)
    returns (picks: Option<seq<T>>, ghost indices: seq<nat>)
    requires count < |arr|
    requires forall k :: 0 <= k < |draws| ==> draws[k] < |arr|
    ensures picks.Some? <==> count <= |DistinctFrom(draws, {})|
    ensures picks.Some? <==> count <= |Values(draws)|
    ensures picks.Some? ==>
      && |picks.value| == count
      && indices == DistinctFrom(draws, {})[..count]
      && forall k :: 0 <= k < count ==> indices[k] < |arr| && picks.value[k] == arr[indices[k]]
  {
    AcceptedCount(draws);
    indices := [];
    var used: set<nat> := {};
    var rest: seq<nat> := draws;
    var items: seq<T> := [];
    while |items| < count
      invariant |items| == |indices| <= count
      invariant forall u :: u in used ==> u < |arr|
      invariant |used| == |indices|
      invariant indices + DistinctFrom(rest, used) == DistinctFrom(draws, {})
      invariant forall k :: 0 <= k < |rest| ==> rest[k] < |arr|
      invariant forall k :: 0 <= k < |items| ==> indices[k] < |arr| && items[k] == arr[indices[k]]
      decreases count - |items|
    {
      var pick, usedAfter, rest' := RandomItem(arr, used, rest);
      if pick.OutOfDraws? {
        return None, indices;
      }
      assert (indices + [pick.index]) + DistinctFrom(rest', usedAfter)
        == indices + DistinctFrom(rest, used);
      items := items + [pick.item];
      indices := indices + [pick.index];
      used, rest := usedAfter, rest';
    }
    ghost var all := DistinctFrom(draws, {});
    assert indices == all[..count];
    return Some(items), indices;
  }

  /** `arrayRandom`: when the array has no more than `count` elements it is
      shuffled in place and returned itself; otherwise a new array holds
      `count` elements taken at pairwise-distinct indices, in draw order.
      `None` means the oracle held fewer than `count` distinct draws. */
  method Random<T>(a: array<T>, count: nat, draws: seq<nat>)
    returns (r: Option<array<T>>, ghost indices: seq<nat>)
    requires a.Length <= count ==> ValidDraws(draws, a.Length)
    requires a.Length > count ==> forall k :: 0 <= k < |draws| ==> draws[k] < a.Length
    modifies a
    ensures a.Length <= count ==>
      && r == Some(a)
      && a[..] == Shuffled(old(a[..]), draws)
      && multiset(a[..]) == multiset(old(a[..]))
    ensures a.Length > count ==> a[..] == old(a[..])
    ensures a.Length > count ==> (r.Some? <==> count <= |DistinctFrom(draws, {})|)
    ensures a.Length > count ==> (r.Some? <==> count <= |Values(draws)|)
    ensures a.Length > count && r.Some? ==>
      && fresh(r.value) && r.value.Length == count
      && indices == DistinctFrom(draws, {})[..count]
      && (forall k :: 0 <= k < count ==> indices[k] < a.Length && r.value[k] == a[indices[k]])
      && (forall j, k :: 0 <= j < k < count ==> indices[j] != indices[k])
  {
    if a.Length <= count {
      var _ := Shuffle(a, draws);
      return Some(a), [];
    }
    var picks;
    picks, indices := DrawDistinct(a[..], count, draws);
    if picks.None? {
      return None, indices;
    }
    var items := picks.value;
    var out := new T[|items|](k requires 0 <= k < |items| => items[k]);
    return Some(out), indices;
  }
}
