# Grid and array helpers of a link-up game board

A Dafny model of the helper library `src/utils/index.js` behind the board of a
"link link up" tile-matching game. The library has five helpers:

- `arrayShuffle`: an in-place Fisher-Yates shuffle.
- `arrayRandom`: draws `count` elements at distinct indices, using the internal
  `arrayRandomItem`, a rejection sampler over a `Set` of used indices.
- `arrayFillByRandomGroup`: builds the tiles of a board. It gives every tile
  kind a count that is a multiple of `groupCount`, concatenates that many copies
  of each kind, and shuffles the result.
- `arrayToDyadic`: cuts the flat tile array into rows of `col` tiles.
- `dyadicArrayWrap`: pads the board in place with a one-cell border of a filler
  value.

Modules, one per helper, plus two shared ones:

- `Shuffling` (Shuffling.dfy): `Shuffle` works on an `array<T>` in place. It is
  proved equal to the specification function `Shuffled` and to be a
  permutation. Lemmas say what each step fixes.
- `Sampling` (Sampling.dfy): `RandomItem`, `DrawDistinct` and `Random`. Their
  reference definition is `DistinctFrom`: the draws that rejection sampling
  accepts, in draw order.
- `GroupFill` (GroupFill.dfy): the share arithmetic (`PerGroup`, `Rest`,
  `Allocations`), the concatenation `Expand` and the method `FillByRandomGroup`.
- `Reshape` (Reshape.dfy): `ToDyadic` is the source's indexed loop. It is proved
  equal to `Dyadic`, a recursive chunking.
- `BorderWrap` (BorderWrap.dfy): the class `Grid` holds the array of rows that
  the source mutates. `Wrap` is the code as written; `WrapAllSides` is the
  corrected form (see Findings).
- `Copies` (Copies.dfy): `Array(n).fill(0).map(clone)`, n copies of a value, which both the border rows and the group fill use.
- `DivMod` (DivMod.dfy): facts about quotient and remainder used by the proofs.

Randomness is a parameter. Each `~~(Math.random() * n)` becomes one entry of a
`draws: seq<nat>` oracle, and a precondition keeps that entry below `n`. A
shuffle of n elements takes exactly n draws; its k-th draw is below `n - k`
(`ValidDraws`). The rejection sampler consumes draws from a finite oracle and
reports when they run out.

The output length of `arrayFillByRandomGroup` is not always `fillCount`, though
the helper's own comment (src/utils/index.js:103) says it fills an array of a
specified size. The code rounds `fillCount` up to
the next multiple of `groupCount`. For example, 5 cells over 2 kinds in pairs
give 6 tiles. The model follows the code and proves the rounding
(`GroupFill.AllocationsTotal`). For 10 cells over 3 kinds in pairs the code
gives counts 4, 4, 2, so 10 tiles (`GroupFill.AllocationsExamples`).

## Model

| member | source | states |
|---|---|---|
| `Copies.Repeat` | src/utils/index.js:75-76 | `Array(n).fill(0).map(clone)`: exactly `n` cells, each a copy of the value (a border row at lines 75-76, a group's copies at line 109) |
| `Copies.RepeatCount` | src/utils/index.js:109 | the copies hold the value `n` times and no other value |
| `Shuffling.SwapPermutes` | src/utils/index.js:99 | one swap exchanges positions i and j, leaves every other position alone and keeps the multiset |
| `Shuffling.ShuffleStepsPermutes` | src/utils/index.js:98-101 | any run of the shuffle keeps the length and the multiset of elements: the result is a permutation |
| `Shuffling.ShuffleStepsKeepsPlaced` | src/utils/index.js:99 | positions at or above the current `i` are never touched by later steps |
| `Shuffling.ShuffleStepsPlacesDrawn` | src/utils/index.js:99 | the step with `i` positions left puts the element at the drawn `j < i` into position `i - 1` for good |
| `Shuffling.ShuffleStepsUnfold` | src/utils/index.js:99 | one iteration consumes the next draw, which is below `i`; it swaps position `i - 1` with that draw and leaves `i - 1` steps |
| `Shuffling.Exchange` | src/utils/index.js:99 | `x = arr[i], arr[i] = arr[j], arr[j] = x` leaves the array equal to the swap of the two positions |
| `Shuffling.Shuffle` | src/utils/index.js:98-101 | the array becomes `Shuffled` of its old contents, a permutation of them (same multiset); the same array is returned |
| `Sampling.DistinctFrom` | src/utils/index.js:81-85 | the accepted draws avoid the used set, are pairwise distinct, are all taken from the draws, and are no more than the draws (the converse is `Sampling.DistinctFromExactly`) |
| `Sampling.DistinctFromExactly` | src/utils/index.js:84 | the converse of the filter: a draw is accepted exactly when it is not in the used set, so every unused draw is accepted (once) and no other |
| `Sampling.AcceptedCount` | src/utils/index.js:93-94 | starting from an empty used set, the number of accepted draws equals the number of distinct values among the draws |
| `Sampling.FreeIndexExists` | src/utils/index.js:84-89 | while fewer than `arr.length` indices are used (the guard `count < arr.length`), an unused index in range exists, so a redraw can succeed |
| `Sampling.RandomItem` | src/utils/index.js:81-85 | a pick is an in-range index not used before, with its element. The used set grows by exactly that index (one more member), and the pick is the next accepted draw of `DistinctFrom`. Otherwise no unused draw was left, though an unused in-range index still existed (fewer than `arr.length` are used) |
| `Sampling.DrawDistinct` | src/utils/index.js:93-94 | succeeds exactly when the draws hold at least `count` distinct indices (both as the length of `DistinctFrom(draws, {})` and as the number of distinct draw values). The result has `count` elements, taken at the first `count` accepted draws, in draw order |
| `Sampling.Random` | src/utils/index.js:88-95 | if `arr.length <= count`, the input array itself comes back, shuffled in place (a permutation). Otherwise the input is unchanged; a result comes back exactly when the draws hold at least `count` distinct indices, and it is a fresh array holding `count` elements at pairwise-distinct in-range indices, in draw order |
| `GroupFill.PerGroup` | src/utils/index.js:106 | the even share is a multiple of `groupCount`; all groups' shares fit in `fillCount`, and one more `groupCount` each would not |
| `GroupFill.Rest` | src/utils/index.js:107 | the rest completes the even shares to `fillCount` and is below `groupLength * groupCount` |
| `GroupFill.Allocations` | src/utils/index.js:108 | one count per group template |
| `GroupFill.AllocationsByExtras` | src/utils/index.js:108 | exactly the first `ceil(rest / groupCount)` groups get the extra `groupCount`, and there are no more such groups than groups |
| `GroupFill.AllocationsEven` | src/utils/index.js:103-108 | every count is a multiple of `groupCount`; earlier groups never get fewer than later ones; any two counts differ by at most `groupCount` |
| `GroupFill.AllocationsTotal` | src/utils/index.js:106-109 | the total is a multiple of `groupCount` in `[fillCount, fillCount + groupCount)`, i.e. `fillCount` rounded up; it equals `fillCount` exactly when `groupCount` divides `fillCount` |
| `GroupFill.AllocationsExamples` | src/utils/index.js:104-109 | 10 cells, 3 kinds, pairs: counts 4, 4, 2 and total 10; 5 cells, 2 kinds, pairs: counts 4, 2 and total 6 |
| `GroupFill.Expand` | src/utils/index.js:109 | the concatenation is as long as the counts add up to |
| `GroupFill.ExpandCounts` | src/utils/index.js:109 | with distinct templates, each template occurs in the concatenation exactly as often as its count |
| `GroupFill.FillByRandomGroup` | src/utils/index.js:104-112 | a fresh array as long as the allocation total, equal to the shuffle of the concatenation, hence a permutation of it |
| `Reshape.DyadicFlatten` | src/utils/index.js:115-124 | concatenating the rows in order gives back the input |
| `Reshape.DyadicShape` | src/utils/index.js:115-123 | `ceil(n / col)` rows. Every row but the last is exactly `col` wide, and the last holds `n % col` elements, or `col` when that is 0. The grid is empty exactly when the input is |
| `Reshape.DyadicAt` | src/utils/index.js:117-121 | input element `i` is at row `i / col`, column `i % col` |
| `Reshape.DyadicSnoc` | src/utils/index.js:117-121 | one more element opens a new row when all rows are full, and otherwise extends the last row |
| `Reshape.DyadicStore` | src/utils/index.js:118-121 | row `i / col` is either the next new row (then `i % col == 0`) or an existing one whose next free column is `i % col`; storing there extends the grid by element `i` |
| `Reshape.ToDyadic` | src/utils/index.js:115-124 | the loop's result is `Dyadic(arr, col)`; flattening it gives `arr`, and every element `i` sits at `[i / col][i % col]` |
| `BorderWrap.PadRows` | src/utils/index.js:72-73 | every row `r` becomes `[fill] + r + [fill]`, and the number of rows stays the same |
| `BorderWrap.WrappedFrames` | src/utils/index.js:56-60 | on a rectangular R x C grid with R >= 2, the code gives the full frame. The result is (R+2) x (C+2), the interior is the old grid, and every border cell is the filler |
| `BorderWrap.SingleRowLosesBottom` | src/utils/index.js:66-76 | every one-row grid `[r]` of width C becomes `[C+2 fills, [f] + r + [f], []]`: the bottom row is empty, so the result is not framed |
| `BorderWrap.SingleCellLosesBottom` | src/utils/index.js:66-76 | the smallest case: `[[x]]` becomes `[[f,f,f], [f,x,f], []]` |
| `BorderWrap.BorderedFrames` | src/utils/index.js:56-60 | the corrected padding gives the full frame for every rectangular grid with at least one row |
| `BorderWrap.Grid.Wrap` | src/utils/index.js:63-78 | the rows become `Wrapped(old rows)`: two more rows, old row `k` at `k + 1` padded at both ends. The top row is the first row's width + 2; the bottom row is the last row's width + 2 only with two or more rows, and empty otherwise |
| `BorderWrap.Grid.WrapAllSides` | src/utils/index.js:63-78 | the corrected method: the rows become `Bordered(old rows)`, whose bottom row is the last row's width + 2 whenever a row exists |

## Left out

- The `Array.prototype.fill` polyfill (src/utils/index.js:3-48) is a compatibility shim for a standard-library method. Where the code calls `Array(n).fill(0).map(...)`, the model uses a sequence of `n` values.
- The `export default` wiring (src/utils/index.js:126).
- `Math.random` and any claim about uniformity or distribution. Draws are injected natural numbers below the bound each call site uses; only permutation and distinctness are proved.
- `Sampling.RandomItem`, `Sampling.DrawDistinct`, `Sampling.Random`: the source redraws until it succeeds, which ends only with probability 1. The model reads draws from a finite oracle and returns `OutOfDraws` / `None` when they run out, an outcome the source does not have.
- `~~` truncation to 32 bits. Counts and quotients at or above 2^31 are not modelled, and `fillCount`, `count` and `col` are natural numbers.
- A negative `count` in `arrayRandom` (the source throws a RangeError from `Array(count)`). `count` has type `nat`.
- `Reshape.ToDyadic`: requires `col > 0`. With `col == 0` the source puts every element in row 0 under the column key NaN (`i % 0`), each overwriting the one before. With a negative `col`, `~~(i / col)` is negative from `i = -col` on, so those elements go under negative keys that are not part of the returned array: `arr = [a, b, c]`, `col = -2` gives `[[a, b]]`. Neither case is modelled.
- `GroupFill.FillByRandomGroup`: requires a nonempty `group` and `groupCount > 0`, and `groupCount` has type `nat`. For an empty `group` or `groupCount == 0` the source returns `[]`, because `~~` turns the NaN or Infinity quotients at line 106 into 0 and line 108 then gives no counts or only zero counts. A negative `groupCount` gives every group the largest multiple of `|groupCount|` not above `fillCount / groupLength`, and no extras: (10 cells, 3 templates, `groupCount = -2`) gives counts 2, 2, 2. None of these cases is modelled.
- `Object.assign({}, x).valueOf()` cloning: the shallow copy and its aliasing, and a primitive filler such as `0` turning into an empty object. Cells are values of a type `T`, and a clone is the value itself.
- Rows of the padded grid are values. In the source each row is a separate array, so a row array that appears twice in the grid would be padded twice; the model does not capture that aliasing.

## Findings

| source | as written | input that shows it | evidently intended | confidence | as-written member | corrected member |
|---|---|---|---|---|---|---|
| src/utils/index.js:67-70 | the last row's width is recorded only in an `else if` after the first-row test, so a one-row grid never records it and gets an empty bottom row | `dyadicArrayWrap([[x]], f)` gives `[[f,f,f], [f,x,f], []]`; every one-row grid loses its bottom row the same way | a bottom row of `f` as wide as the padded last row, `[[f,f,f], [f,x,f], [f,f,f]]`, as the border diagram at lines 56-60 shows | high; not executed | `BorderWrap.SingleRowLosesBottom` and `BorderWrap.SingleCellLosesBottom` (about `BorderWrap.Grid.Wrap`) | `BorderWrap.Grid.WrapAllSides`, with `BorderWrap.BorderedFrames` |
