/** `arrayFillByRandomGroup` (src/utils/index.js:103-112): filling an array
    with copies of group templates, each group's share a multiple of
    `groupCount`, then shuffling it. A clone of a template is the template
    itself here. */
module GroupFill {
  import opened DivMod
  import opened Shuffling
  import opened Copies

  /** The even share of every group: `~~(~~(fillCount / groupLength) /
      groupCount) * groupCount`, the largest multiple of `groupCount` that
      every group can get within `fillCount`. */
  function PerGroup(fillCount: nat, groupLength: nat, groupCount: nat): (r: nat)
    requires groupLength > 0 && groupCount > 0
    ensures r % groupCount == 0
    ensures r * groupLength <= fillCount < (r + groupCount) * groupLength
  {
    var q := fillCount / groupLength;
    var m := q / groupCount;
    ShareBounds(fillCount, groupLength, groupCount, q, m);
    m * groupCount
  }

  lemma ShareBounds(f: nat, g: nat, c: nat, q: nat, m: nat)
    requires g > 0 && c > 0 && q == f / g && m == q / c
    ensures (m * c) % c == 0
    ensures (m * c) * g <= f < (m * c + c) * g
  {
    DivBounds(f, g);
    DivBounds(q, c);
    DivModMultiple(m, c);
    MulMonotone(m * c, q, g);
    MulMonotone(q + 1, m * c + c, g);
    MulSucc(q, g);
  }

  /** What is left after the even shares: less than one more `groupCount`
      for every group. */
  function Rest(fillCount: nat, groupLength: nat, groupCount: nat): (r: nat)
    requires groupLength > 0 && groupCount > 0
    ensures r + PerGroup(fillCount, groupLength, groupCount) * groupLength == fillCount
    ensures r < groupLength * groupCount
  {
    var p := PerGroup(fillCount, groupLength, groupCount);
    RestBound(fillCount, groupLength, groupCount, p);
    fillCount - p * groupLength
  }

  lemma RestBound(f: nat, g: nat, c: nat, p: nat)
    requires p * g <= f < (p + c) * g
    ensures f - p * g < g * c
  {
    assert (p + c) * g == p * g + g * c;
  }

  /** The count of every group: `rest / groupCount > i` (a division of
      reals in the source) holds exactly when `rest > i * groupCount`, and
      then group i gets one more `groupCount`. */
  function Allocations(fillCount: nat, groupLength: nat, groupCount: nat): (counts: seq<nat>)
    requires groupLength > 0 && groupCount > 0
    ensures |counts| == groupLength
  {
    var p := PerGroup(fillCount, groupLength, groupCount);
    var rest := Rest(fillCount, groupLength, groupCount);
    seq(groupLength, i requires 0 <= i < groupLength =>
      if rest > i * groupCount then p + groupCount else p)
  }

  /** The number of groups that get the extra `groupCount`: `rest` rounded up
      to whole `groupCount`s. */
  function Extras(fillCount: nat, groupLength: nat, groupCount: nat): nat
    requires groupLength > 0 && groupCount > 0
  {
    (Rest(fillCount, groupLength, groupCount) + groupCount - 1) / groupCount
  }

  /** Group i gets the extra exactly when it is among the first
      `Extras` groups, and there are no more extras than groups. */
  lemma AllocationsByExtras(fillCount: nat, groupLength: nat, groupCount: nat)
    requires groupLength > 0 && groupCount > 0
    ensures Extras(fillCount, groupLength, groupCount) <= groupLength
    ensures forall i :: 0 <= i < groupLength ==>
      Allocations(fillCount, groupLength, groupCount)[i]
      == if i < Extras(fillCount, groupLength, groupCount)
         then PerGroup(fillCount, groupLength, groupCount) + groupCount
         else PerGroup(fillCount, groupLength, groupCount)
  {
    var rest := Rest(fillCount, groupLength, groupCount);
    ExtrasBound(rest, groupLength, groupCount);
    forall i | 0 <= i < groupLength
      ensures i < Extras(fillCount, groupLength, groupCount) <==> rest > i * groupCount
    {
      ExtrasSplit(rest, groupCount, i);
    }
  }

  lemma ExtrasBound(rest: nat, g: nat, c: nat)
    requires c > 0 && rest < g * c
    ensures (rest + c - 1) / c <= g
  {
    var e := (rest + c - 1) / c;
    DivBounds(rest + c - 1, c);
    if e > g {
      MulMonotone(g + 1, e, c);
      MulSucc(g, c);
      assert false;
    }
  }

  lemma ExtrasSplit(rest: nat, c: nat, i: nat)
    requires c > 0
    ensures i < (rest + c - 1) / c <==> rest > i * c
  {
    var e := (rest + c - 1) / c;
    DivBounds(rest + c - 1, c);
    MulSucc(i, c);
    if i < e {
      MulMonotone(i + 1, e, c);
    } else {
      MulMonotone(e, i, c);
    }
  }

  /** Every count is a multiple of `groupCount`, earlier groups never get
      fewer than later ones, and no two counts differ by more than
      `groupCount`. */
  lemma AllocationsEven(fillCount: nat, groupLength: nat, groupCount: nat)
    requires groupLength > 0 && groupCount > 0
    ensures var counts := Allocations(fillCount, groupLength, groupCount);
      && (forall i :: 0 <= i < groupLength ==> counts[i] % groupCount == 0)
      && (forall i, j :: 0 <= i <= j < groupLength ==> counts[j] <= counts[i] <= counts[j] + groupCount)
  {
    AllocationsByExtras(fillCount, groupLength, groupCount);
    DivModStep(PerGroup(fillCount, groupLength, groupCount), groupCount);
  }

  /** Sum of a sequence of counts, in order. */
  function Sum(s: seq<nat>): nat
  {
    if s == [] then 0 else Sum(s[..|s| - 1]) + s[|s| - 1]
  }

  /** A sequence whose first `e` entries are `p + c` and the rest `p` adds up
      to `|s| * p + e * c`. */
  lemma {:induction false} SumTwoLevels(s: seq<nat>, p: nat, c: nat, e: nat)
    requires e <= |s|
    requires forall i :: 0 <= i < |s| ==> s[i] == if i < e then p + c else p
    ensures Sum(s) == |s| * p + e * c
  {
    if s != [] {
      var n := |s|;
      SumTwoLevels(s[..n - 1], p, c, if e == n then e - 1 else e);
      MulSucc(n - 1, p);
      if e == n {
        MulSucc(e - 1, c);
      }
    }
  }

  /** The total length of the filled array. */
  function Total(fillCount: nat, groupLength: nat, groupCount: nat): nat
    requires groupLength > 0 && groupCount > 0
  {
    Sum(Allocations(fillCount, groupLength, groupCount))
  }

  /** The total the source produces: `fillCount` rounded up to the next
      multiple of `groupCount`. It equals `fillCount` exactly when
      `groupCount` divides `fillCount`. */
  lemma AllocationsTotal(fillCount: nat, groupLength: nat, groupCount: nat)
    requires groupLength > 0 && groupCount > 0
    ensures var total := Total(fillCount, groupLength, groupCount);
      && total % groupCount == 0
      && fillCount <= total < fillCount + groupCount
      && (total == fillCount <==> fillCount % groupCount == 0)
  {
    var p := PerGroup(fillCount, groupLength, groupCount);
    var rest := Rest(fillCount, groupLength, groupCount);
    var e := Extras(fillCount, groupLength, groupCount);
    AllocationsByExtras(fillCount, groupLength, groupCount);
    SumTwoLevels(Allocations(fillCount, groupLength, groupCount), p, groupCount, e);
    RoundUpTotal(fillCount, groupLength, groupCount, p, rest, e);
  }

  /** The arithmetic of AllocationsTotal: `f = p * g + rest` with `p` a
      multiple of `c`, and `e * c` is `rest` rounded up to a multiple of `c`. */
  lemma RoundUpTotal(f: nat, g: nat, c: nat, p: nat, rest: nat, e: nat)
    requires c > 0 && p % c == 0 && rest + p * g == f && e == (rest + c - 1) / c
    ensures var total := g * p + e * c;
      && total % c == 0
      && f <= total < f + c
      && (total == f <==> f % c == 0)
  {
    DivBounds(rest + c - 1, c);
    MulSucc(e, c);
    assert f <= g * p + e * c < f + c;
    SumOfMultiples(g, p, e, c);
    NextMultiple(f, g * p + e * c, c);
  }

  /** `g * p + e * c` is a multiple of `c` when `p` is. */
  lemma SumOfMultiples(g: nat, p: nat, e: nat, c: nat)
    requires c > 0 && p % c == 0
    ensures (g * p + e * c) % c == 0
  {
    var m := p / c;
    DivModUnique(p, c, m, 0);
    assert g * p == (g * m) * c by {
      assert p == m * c;
    }
    assert g * p + e * c == (g * m + e) * c;
    DivModMultiple(g * m + e, c);
  }

  /** The only multiple of `c` in `[f, f + c)` is `f` itself exactly when
      `c` divides `f`. */
  lemma NextMultiple(f: nat, t: nat, c: nat)
    requires c > 0 && t % c == 0 && f <= t < f + c
    ensures t == f <==> f % c == 0
  {
    if f % c == 0 {
      var q, k := f / c, t / c;
      DivModUnique(f, c, q, 0);
      DivModUnique(t, c, k, 0);
      if k < q {
        MulMonotone(k + 1, q, c);
        MulSucc(k, c);
      } else if k > q {
        MulMonotone(q + 1, k, c);
        MulSucc(q, c);
      }
    }
  }

  /** Two worked cases: ten cells over three groups in pairs give counts
      4, 4, 2 (ten in all); five cells over two groups in pairs give 4, 2, so
      six cells, one more than asked for. */
  lemma AllocationsExamples()
    ensures Allocations(10, 3, 2) == [4, 4, 2] && Total(10, 3, 2) == 10
    ensures Allocations(5, 2, 2) == [4, 2] && Total(5, 2, 2) == 6
  {
    assert PerGroup(10, 3, 2) == 2 && Rest(10, 3, 2) == 4;
    var ten := Allocations(10, 3, 2);
    assert ten[0] == 4 && ten[1] == 4 && ten[2] == 2;
    assert ten == [4, 4, 2];
    assert [4, 4, 2][..2] == [4, 4] && [4, 4][..1] == [4];
    assert Sum([4, 4, 2]) == 10;
    assert PerGroup(5, 2, 2) == 2 && Rest(5, 2, 2) == 1;
    var five := Allocations(5, 2, 2);
    assert five[0] == 4 && five[1] == 2;
    assert five == [4, 2];
    assert [4, 2][..1] == [4];
    assert Sum([4, 2]) == 6;
  }

  /** The `reduce` that concatenates, group by group, as many copies of each
      template as its count says; it is as long as the counts add up to. */
  function Expand<T>(group: seq<T>, counts: seq<nat>): (r: seq<T>)
    requires |counts| == |group|
    ensures |r| == Sum(counts)
  {
    if group == [] then []
    else Expand(group[..|group| - 1], counts[..|counts| - 1]) + Repeat(group[|group| - 1], counts[|counts| - 1])
  }

  /** Grouped back by template, the concatenation holds each template exactly
      as many times as its count, when the templates are distinct. */
  lemma {:induction false} ExpandCounts<T>(group: seq<T>, counts: seq<nat>, i: nat)
    requires |counts| == |group| && i < |group|
    requires forall j, k :: 0 <= j < k < |group| ==> group[j] != group[k]
    ensures multiset(Expand(group, counts))[group[i]] == counts[i]
  {
    var n := |group|;
    var x := group[i];
    ExpandLast(group, counts, x);
    if i == n - 1 {
      AbsentFromExpand(group[..n - 1], counts[..n - 1], x);
    } else {
      ExpandCounts(group[..n - 1], counts[..n - 1], i);
    }
  }

  lemma {:induction false} AbsentFromExpand<T>(group: seq<T>, counts: seq<nat>, x: T)
    requires |counts| == |group| && forall k :: 0 <= k < |group| ==> group[k] != x
    ensures multiset(Expand(group, counts))[x] == 0
  {
    if group != [] {
      var n := |group|;
      ExpandLast(group, counts, x);
      AbsentFromExpand(group[..n - 1], counts[..n - 1], x);
    }
  }

  /** How often `x` occurs: in the groups before the last, plus in the last
      group's copies. */
  lemma ExpandLast<T>(group: seq<T>, counts: seq<nat>, x: T)
    requires |counts| == |group| > 0
    ensures var n := |group|;
      multiset(Expand(group, counts))[x]
      == multiset(Expand(group[..n - 1], counts[..n - 1]))[x] + (if x == group[n - 1] then counts[n - 1] else 0)
  {
    var n := |group|;
    RepeatCount(group[n - 1], counts[n - 1], x);
  }

  /** `arrayFillByRandomGroup`: the counts per group, the concatenation of
      copies, then an in-place shuffle of the new array. */
  method FillByRandomGroup<T>(fillCount: nat, group: seq<T>, draws: seq<nat>, groupCount: nat := 2)
    returns (result: array<T>)
    requires |group| > 0 && groupCount > 0
    requires ValidDraws(draws, Total(fillCount, |group|, groupCount))
    ensures fresh(result)
    ensures result.Length == Total(fillCount, |group|, groupCount)
    ensures result[..] == Shuffled(Expand(group, Allocations(fillCount, |group|, groupCount)), draws)
    ensures multiset(result[..]) == multiset(Expand(group, Allocations(fillCount, |group|, groupCount)))
  {
    var groupLength := |group|;
    var countArray := Allocations(fillCount, groupLength, groupCount);
    var items := Expand(group, countArray);
    result := new T[|items|](k requires 0 <= k < |items| => items[k]);
    assert result[..] == items;
    var _ := Shuffle(result, draws);
  }
}
