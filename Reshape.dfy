/** `arrayToDyadic` (src/utils/index.js:114-124): reshaping a flat array into
    rows of `col` elements, element i going to row `~~(i / col)`, column
    `i % col`. */
module Reshape {
  import opened DivMod

  /** Reference definition: cut the sequence into consecutive chunks of `col`
      elements; the last chunk holds what is left. */
  function Dyadic<T>(s: seq<T>, col: nat): seq<seq<T>>
    requires col > 0
    decreases |s|
  {
    if s == [] then []
    else if |s| <= col then [s]
    else [s[..col]] + Dyadic(s[col..], col)
  }

  /** Row-major flattening: the rows concatenated in order. */
  function Flatten<T>(g: seq<seq<T>>): seq<T>
  {
    if g == [] then [] else g[0] + Flatten(g[1..])
  }

  /** Concatenating the rows gives back the input. */
  lemma {:induction false} DyadicFlatten<T>(s: seq<T>, col: nat)
    requires col > 0
    ensures Flatten(Dyadic(s, col)) == s
    decreases |s|
  {
    if |s| > col {
      DyadicFlatten(s[col..], col);
      assert s[..col] + s[col..] == s;
    }
  }

  /** The shape: ceil(|s| / col) rows, every row but the last exactly `col`
      wide, the last one holding the remaining `|s| % col` elements (a full
      row when `col` divides `|s|`); no rows at all for an empty input. */
  lemma {:induction false} DyadicShape<T>(s: seq<T>, col: nat)
    requires col > 0
    ensures |Dyadic(s, col)| == (|s| + col - 1) / col
    ensures forall r :: 0 <= r < |Dyadic(s, col)| - 1 ==> |Dyadic(s, col)[r]| == col
    ensures s != [] ==> |Dyadic(s, col)[|Dyadic(s, col)| - 1]| == if |s| % col == 0 then col else |s| % col
    ensures s == [] <==> Dyadic(s, col) == []
    decreases |s|
  {
    if s == [] {
      DivModSmall(col - 1, col);
    } else if |s| <= col {
      DivModSmall(|s| - 1, col);
      DivModStep(|s| - 1, col);
      if |s| < col { DivModSmall(|s|, col); } else { DivModMultiple(1, col); }
    } else {
      DyadicShape(s[col..], col);
      DivModStep(|s| - 1, col);
      DivModStep(|s| - col, col);
    }
  }

  /** Element i sits at row i / col, column i % col. */
  lemma {:induction false} DyadicAt<T>(s: seq<T>, col: nat, i: nat)
    requires col > 0 && i < |s|
    ensures i / col < |Dyadic(s, col)|
    ensures i % col < |Dyadic(s, col)[i / col]|
    ensures Dyadic(s, col)[i / col][i % col] == s[i]
    decreases |s|
  {
    if i < col {
      DivModSmall(i, col);
    } else {
      DyadicAt(s[col..], col, i - col);
      DivModStep(i - col, col);
    }
  }

  /** DyadicAt for every element at once. */
  lemma DyadicPlacesAll<T>(s: seq<T>, col: nat)
    requires col > 0
    ensures forall i :: 0 <= i < |s| ==>
      i / col < |Dyadic(s, col)| && i % col < |Dyadic(s, col)[i / col]| && Dyadic(s, col)[i / col][i % col] == s[i]
  {
    forall i | 0 <= i < |s|
      ensures i / col < |Dyadic(s, col)| && i % col < |Dyadic(s, col)[i / col]| && Dyadic(s, col)[i / col][i % col] == s[i]
    {
      DyadicAt(s, col, i);
    }
  }

  /** Appending one element either opens a new row (when the rows so far are
      all full) or extends the last row. */
  lemma {:induction false} DyadicSnoc<T>(s: seq<T>, e: T, col: nat)
    requires col > 0
    ensures |s| % col == 0 ==> Dyadic(s + [e], col) == Dyadic(s, col) + [[e]]
    ensures |s| % col != 0 ==>
      && Dyadic(s, col) != []
      && Dyadic(s + [e], col) == Dyadic(s, col)[|Dyadic(s, col)| - 1 := Dyadic(s, col)[|Dyadic(s, col)| - 1] + [e]]
    decreases |s|
  {
    if |s| <= col {
      DyadicSnocShort(s, e, col);
    } else {
      var t, head := s[col..], s[..col];
      DyadicSnoc(t, e, col);
      DivModStep(|t|, col);
      assert |s| == |t| + col;
      DyadicUnfold(s, e, col);
      var d, d' := Dyadic(t, col), Dyadic(t + [e], col);
      if |t| % col != 0 {
        ConsStore(head, d, d', e);
      } else {
        assert [head] + d' == ([head] + d) + [[e]];
      }
    }
  }

  /** Past the first row, both grids start with the same full row. */
  lemma DyadicUnfold<T>(s: seq<T>, e: T, col: nat)
    requires 0 < col < |s|
    ensures Dyadic(s, col) == [s[..col]] + Dyadic(s[col..], col)
    ensures Dyadic(s + [e], col) == [s[..col]] + Dyadic(s[col..] + [e], col)
  {
    assert (s + [e])[..col] == s[..col];
    assert (s + [e])[col..] == s[col..] + [e];
  }

  /** Extending the last row commutes with putting a row in front. */
  lemma ConsStore<T>(h: seq<T>, d: seq<seq<T>>, d': seq<seq<T>>, e: T)
    requires d != [] && d' == d[|d| - 1 := d[|d| - 1] + [e]]
    ensures [h] + d' == ([h] + d)[|d| := ([h] + d)[|d|] + [e]]
  {
  }

  /** DyadicSnoc for an input of at most one row. */
  lemma DyadicSnocShort<T>(s: seq<T>, e: T, col: nat)
    requires 0 < col && |s| <= col
    ensures |s| % col == 0 ==> Dyadic(s + [e], col) == Dyadic(s, col) + [[e]]
    ensures |s| % col != 0 ==> Dyadic(s, col) == [s] && Dyadic(s + [e], col) == [s + [e]]
  {
    if s == [] {
      assert s + [e] == [e];
      assert Dyadic([e], col) == [[e]];
    } else if |s| < col {
      DivModSmall(|s|, col);
    } else {
      DivModMultiple(1, col);
      assert (s + [e])[..col] == s;
      assert (s + [e])[col..] == [e];
      assert Dyadic([e], col) == [[e]];
    }
  }

  /** One step of the source's loop on the grid built from `s`: the row
      `|s| / col` is either the next new row or the last one, and the column
      `|s| % col` is its first free position; storing `e` there gives the
      grid built from `s + [e]`. */
  lemma DyadicStore<T>(s: seq<T>, e: T, col: nat, index: nat, mod: nat)
    requires col > 0 && index == |s| / col && mod == |s| % col
    ensures index <= |Dyadic(s, col)|
    ensures index == |Dyadic(s, col)| ==> mod == 0 && Dyadic(s + [e], col) == Dyadic(s, col) + [[e]]
    ensures index < |Dyadic(s, col)| ==>
      && mod == |Dyadic(s, col)[index]|
      && Dyadic(s + [e], col) == Dyadic(s, col)[index := Dyadic(s, col)[index] + [e]]
  {
    var i, d := |s|, Dyadic(s, col);
    DyadicShape(s, col);
    DyadicSnoc(s, e, col);
    CeilDiv(i, col);
    if mod == 0 {
      assert index == |d|;
    } else {
      assert index + 1 == |d|;
    }
  }

  lemma SnocThenStore<T>(d: seq<seq<T>>, e: T)
    ensures (d + [[]])[|d| := (d + [[]])[|d|] + [e]] == d + [[e]]
  {
    var rows := d + [[]];
    assert rows[|d|] + [e] == [e];
  }

  /** The source's loop: each element's row and column come from index
      arithmetic; a row is created when its first element arrives, and the
      element is stored at the next free column of that row. */
  method ToDyadic<T>(arr: seq<T>, col: nat) returns (result: seq<seq<T>>)
    requires col > 0
    ensures result == Dyadic(arr, col)
    ensures Flatten(result) == arr
    ensures forall i :: 0 <= i < |arr| ==>
      i / col < |result| && i % col < |result[i / col]| && result[i / col][i % col] == arr[i]
  {
    result := [];
    var i := 0;
    while i < |arr|
      invariant 0 <= i <= |arr|
      invariant result == Dyadic(arr[..i], col)
    {
      var e := arr[i];
      var index := i / col;
      var mod := i % col;
      DyadicStore(arr[..i], e, col, index, mod);
      ghost var before := result;
      if index == |result| {
        result := result + [[]];
      }
      assert mod == |result[index]|;
      result := result[index := result[index] + [e]];
      if index == |before| {
        SnocThenStore(before, e);
      }
      assert arr[..i + 1] == arr[..i] + [e];
      i := i + 1;
    }
    assert arr[..i] == arr;
    DyadicFlatten(arr, col);
    DyadicPlacesAll(arr, col);
  }
}
