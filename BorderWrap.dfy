/** `dyadicArrayWrap` (src/utils/index.js:51-78): padding a grid in place
    with a one-cell border of copies of `fill`. The grid is the array of rows
    the source mutates; each row is a value here (a `splice` at either end of
    a row becomes a concatenation), and a clone of `fill` is `fill` itself. */
module BorderWrap {
  import opened Copies

  /** Every row of `g` padded with one `fill` at each end. */
  function PadRows<T>(g: seq<seq<T>>, fill: T): (r: seq<seq<T>>)
    ensures |r| == |g| && forall k :: 0 <= k < |g| ==> r[k] == [fill] + g[k] + [fill]
  {
    seq(|g|, k requires 0 <= k < |g| => [fill] + g[k] + [fill])
  }

  /** The width of the new top row: the first row's width plus 2, or 0 for
      an empty grid. */
  function TopWidth<T>(g: seq<seq<T>>): nat
  {
    if |g| > 0 then |g[0]| + 2 else 0
  }

  /** The width of the new bottom row as the source computes it: because the
      last row is only measured in an `else` branch of the first-row test, a
      grid of fewer than two rows gets width 0. */
  function BottomWidth<T>(g: seq<seq<T>>): nat
  {
    if |g| >= 2 then |g[|g| - 1]| + 2 else 0
  }

  /** The grid the source produces. */
  function Wrapped<T>(g: seq<seq<T>>, fill: T): seq<seq<T>>
  {
    [Repeat(fill, TopWidth(g))] + PadRows(g, fill) + [Repeat(fill, BottomWidth(g))]
  }

  /** The bottom row width the border promises: the last row's width plus 2. */
  function FullBottomWidth<T>(g: seq<seq<T>>): nat
  {
    if |g| > 0 then |g[|g| - 1]| + 2 else 0
  }

  /** The grid the border diagram promises. */
  function Bordered<T>(g: seq<seq<T>>, fill: T): seq<seq<T>>
  {
    [Repeat(fill, TopWidth(g))] + PadRows(g, fill) + [Repeat(fill, FullBottomWidth(g))]
  }

  /** An R-row grid whose rows are all C wide. */
  ghost predicate Rectangular<T>(g: seq<seq<T>>, rows: nat, cols: nat)
  {
    |g| == rows && forall r :: 0 <= r < rows ==> |g[r]| == cols
  }

  /** The frame the diagram shows: `b` is `g` with a border of `fill` all
      around: rows and columns grow by two, the interior is `g` unchanged,
      and every cell on the border is `fill`. */
  ghost predicate Framed<T>(b: seq<seq<T>>, g: seq<seq<T>>, fill: T, rows: nat, cols: nat)
    requires Rectangular(g, rows, cols)
  {
    && Rectangular(b, rows + 2, cols + 2)
    && (forall r, c :: 0 <= r < rows && 0 <= c < cols ==> b[r + 1][c + 1] == g[r][c])
    && (forall c :: 0 <= c < cols + 2 ==> b[0][c] == fill && b[rows + 1][c] == fill)
    && (forall r :: 0 <= r < rows + 2 ==> b[r][0] == fill && b[r][cols + 1] == fill)
  }

  /** What the source delivers on a rectangular grid of at least two rows:
      the full frame. */
  lemma WrappedFrames<T>(g: seq<seq<T>>, fill: T, rows: nat, cols: nat)
    requires Rectangular(g, rows, cols) && rows >= 2
    ensures Framed(Wrapped(g, fill), g, fill, rows, cols)
  {
    FramedFromPadding(Wrapped(g, fill), g, fill, rows, cols);
  }

  /** Any one-row grid comes back with an empty bottom row, so no bottom
      border: the single row is padded and topped by a full border row, and
      the row below it is `[]`. */
  lemma SingleRowLosesBottom<T>(g: seq<seq<T>>, fill: T, cols: nat)
    requires Rectangular(g, 1, cols)
    ensures Wrapped(g, fill) == [Repeat(fill, cols + 2), [fill] + g[0] + [fill], []]
    ensures !Framed(Wrapped(g, fill), g, fill, 1, cols)
  {
    var w := Wrapped(g, fill);
    assert PadRows(g, fill) == [[fill] + g[0] + [fill]];
    assert Repeat(fill, 0) == [];
    assert |w[2]| == 0;
  }

  /** The smallest case: `[[x]]` becomes `[[fill, fill, fill], [fill, x, fill], []]`. */
  lemma SingleCellLosesBottom<T>(x: T, fill: T)
    ensures Wrapped([[x]], fill) == [[fill, fill, fill], [fill, x, fill], []]
  {
    SingleRowLosesBottom([[x]], fill, 1);
    assert Repeat(fill, 3) == [fill, fill, fill];
    assert [fill] + [x] + [fill] == [fill, x, fill];
  }

  /** The corrected padding frames every rectangular grid with at least one row. */
  lemma BorderedFrames<T>(g: seq<seq<T>>, fill: T, rows: nat, cols: nat)
    requires Rectangular(g, rows, cols) && rows >= 1
    ensures Framed(Bordered(g, fill), g, fill, rows, cols)
  {
    FramedFromPadding(Bordered(g, fill), g, fill, rows, cols);
  }

  /** A padded grid with top and bottom rows of `cols + 2` fills is framed. */
  lemma FramedFromPadding<T>(b: seq<seq<T>>, g: seq<seq<T>>, fill: T, rows: nat, cols: nat)
    requires Rectangular(g, rows, cols)
    requires b == [Repeat(fill, cols + 2)] + PadRows(g, fill) + [Repeat(fill, cols + 2)]
    ensures Framed(b, g, fill, rows, cols)
  {
    forall r | 0 <= r < rows
      ensures |b[r + 1]| == cols + 2 && b[r + 1][0] == fill && b[r + 1][cols + 1] == fill
      ensures forall c :: 0 <= c < cols ==> b[r + 1][c + 1] == g[r][c]
    {
      assert b[r + 1] == [fill] + g[r] + [fill];
    }
  }

  /** The grid the source mutates: an array of rows. */
  class Grid<T> {
    var rows: seq<seq<T>>

    constructor (rows: seq<seq<T>>)
      ensures this.rows == rows
    {
      this.rows := rows;
    }

    /** `dyadicArrayWrap` as written: one pass over the rows records the
        padded widths of the first row and, in an `else if`, of the last one,
        and pads each row at both ends; then a row of fills as wide as the
        recorded first width goes in front and one as wide as the recorded
        last width at the back. */
    method Wrap(fill: T)
      modifies this
      ensures rows == Wrapped(old(rows), fill)
      ensures |rows| == |old(rows)| + 2
      ensures forall k :: 0 <= k < |old(rows)| ==> rows[k + 1] == [fill] + old(rows)[k] + [fill]
    {
      var firstRowLength := 0;
      var lastRowLength := 0;
      var index := 0;
      while index < |rows|
        invariant 0 <= index <= |rows| == |old(rows)|
        invariant forall k :: 0 <= k < index ==> rows[k] == [fill] + old(rows)[k] + [fill]
        invariant forall k :: index <= k < |rows| ==> rows[k] == old(rows)[k]
        invariant firstRowLength == (if index > 0 then TopWidth(old(rows)) else 0)
        invariant lastRowLength == (if index == |rows| then BottomWidth(old(rows)) else 0)
      {
        var row := rows[index];
        if index == 0 {
          firstRowLength := |row| + 2;
        } else if index == |rows| - 1 {
          lastRowLength := |row| + 2;
        }
        row := [fill] + row;
        row := row + [fill];
        rows := rows[index := row];
        index := index + 1;
      }
      assert rows == PadRows(old(rows), fill);
      rows := [Repeat(fill, firstRowLength)] + rows;
      rows := rows + [Repeat(fill, lastRowLength)];
    }

    /** The same padding with the last row measured whenever it exists, so a
        one-row grid is framed too. */
    method WrapAllSides(fill: T)
      modifies this
      ensures rows == Bordered(old(rows), fill)
      ensures |rows| == |old(rows)| + 2
      ensures forall k :: 0 <= k < |old(rows)| ==> rows[k + 1] == [fill] + old(rows)[k] + [fill]
    {
      var firstRowLength := 0;
      var lastRowLength := 0;
      var index := 0;
      while index < |rows|
        invariant 0 <= index <= |rows| == |old(rows)|
        invariant forall k :: 0 <= k < index ==> rows[k] == [fill] + old(rows)[k] + [fill]
        invariant forall k :: index <= k < |rows| ==> rows[k] == old(rows)[k]
        invariant firstRowLength == (if index > 0 then TopWidth(old(rows)) else 0)
        invariant lastRowLength == (if index == |rows| then FullBottomWidth(old(rows)) else 0)
      {
        var row := rows[index];
        if index == 0 {
          firstRowLength := |row| + 2;
        }
        if index == |rows| - 1 {
          lastRowLength := |row| + 2;
        }
        row := [fill] + row;
        row := row + [fill];
        rows := rows[index := row];
        index := index + 1;
      }
      assert rows == PadRows(old(rows), fill);
      rows := [Repeat(fill, firstRowLength)] + rows;
      rows := rows + [Repeat(fill, lastRowLength)];
    }
  }
}
