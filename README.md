# Staggered vertical grid: a verified model of its measure policy

`StaggeredVerticalGrid` is a Jetpack Compose layout. It arranges a list of
children of varying height into equal-width columns. Each child goes into the
column that is currently shortest. Its measure policy (the
`Layout { measurables, constraints -> ... }` lambda) works in four steps:

- It fixes the column count, `max(1, maxWidth / maxColumnWidthPx)`.
- It gives every column the width `maxWidth / columnCount`.
- It measures the children in order. Each one goes to the first column of
  least height, and that column's height grows by the child's height.
- It reports a container `maxWidth` wide, whose height is the tallest column
  clamped into `[minHeight, maxHeight]`. Then it places each child at
  x = the summed widths of the columns to its left and y = a fresh per-column
  offset, which then grows by the child's height.

The project has three modules:

- `GridMath` (grid_math.dfy) holds Kotlin's truncating division `DivTrunc` and
  sequence helpers: `Sum`, the first
  minimum `ArgMin` (Kotlin's `minByOrNull`), `MaxOrNone` (`maxOrNull`) and
  `Clamp` (`coerceIn`).
- `StaggeredGrid` (staggered_grid.dfy) states the policy as functions:
  `ColumnCount`, `ColumnWidth`, the greedy assignment `Run`/`Assign`, the
  placement `Place`, `ContainerHeight` and the whole pass `Layout`. It also
  holds the lemmas about them.
- `StaggeredGridPolicy` (measure_policy.dfy) follows the imperative form of the
  Kotlin code. The column-height `IntArray` and the `columnY` `IntArray` are arrays
  updated in loops, and each method is proved to compute the matching
  function.

Pixel sizes are natural numbers. The one exception is the column width
`colPx`, an integer that may be negative, as the Kotlin `Int` may be. The child measurement is an input:
`measure(i, w)` is the height child `i` reports when measured at the fixed
width `w`. All columns have the same width, so every child is measured at the
column width whichever column it lands in. The measure pass therefore runs
over the sequence of those heights (`Measured`).

Column widths: the code gives every column `maxWidth / columnCount` pixels. So
the columns add up to `maxWidth` only when `columnCount` divides `maxWidth`.
Otherwise fewer than `columnCount` pixels at the right edge belong to no
column, and nothing hands them out. `ColumnWidth` states exactly this:
`n * w <= maxWidth < n * w + n`.

## Model

Source paths are relative to the repository root. Below the table,
`MainActivity.kt` is short for that same file.

| member | source | states |
|---|---|---|
| StaggeredGrid.ColumnCount | app/src/main/java/com/example/customcomposestaggeredgrid/MainActivity.kt:54 | at least one column; more than one only when that many whole `colPx` columns fit in `maxWidth`; one more would not fit; a negative `colPx` gives one column. Together these pin the result to `max(1, maxWidth / colPx)` with Kotlin's truncating division |
| StaggeredGrid.ColumnWidth | app/src/main/java/com/example/customcomposestaggeredgrid/MainActivity.kt:55 | the `n` columns fit in `maxWidth`, and fewer than `n` pixels are left over |
| StaggeredGrid.ColumnWidths | app/src/main/java/com/example/customcomposestaggeredgrid/MainActivity.kt:55 | there are `n` widths and every one is the uniform column width |
| GridMath.DivTrunc | app/src/main/java/com/example/customcomposestaggeredgrid/MainActivity.kt:54 | Kotlin's `/` on `Int`: the remainder `a - q * b` has the sign of `a` and is smaller than `b` in size, i.e. the quotient is truncated toward zero |
| GridMath.ArgMin | app/src/main/java/com/example/customcomposestaggeredgrid/MainActivity.kt:60 | the index is in range, holds a value no larger than any other, and every earlier index holds a strictly larger value (first minimum, as `minByOrNull`) |
| GridMath.ArgMinUnique | app/src/main/java/com/example/customcomposestaggeredgrid/MainActivity.kt:60 | any index with the first-minimum properties is `ArgMin`'s, so the tie-break is fully determined |
| StaggeredGridPolicy.FirstMinIndex | app/src/main/java/com/example/customcomposestaggeredgrid/MainActivity.kt:60 | the array scan returns 0 for no columns, otherwise an in-range index of the first smallest height |
| StaggeredGrid.Run | app/src/main/java/com/example/customcomposestaggeredgrid/MainActivity.kt:56-66 | the measure pass yields one placed child per child and one running height per column |
| StaggeredGrid.RunStep | app/src/main/java/com/example/customcomposestaggeredgrid/MainActivity.kt:60-65 | if `c` is the first shortest column, the next child goes to `c` with its own height and only column `c` grows, by that height |
| StaggeredGrid.RunPlaced | app/src/main/java/com/example/customcomposestaggeredgrid/MainActivity.kt:58-66 | every child of the measure pass lands in one of the `n` columns and keeps its measured height |
| StaggeredGrid.RunHeights | app/src/main/java/com/example/customcomposestaggeredgrid/MainActivity.kt:56-64 | each running column height equals the total height of the children assigned to that column |
| StaggeredGrid.Assign | app/src/main/java/com/example/customcomposestaggeredgrid/MainActivity.kt:58-66 | one entry per child; every column is below `n`; every child keeps its measured height |
| StaggeredGrid.AssignGreedy | app/src/main/java/com/example/customcomposestaggeredgrid/MainActivity.kt:60 | when child `i` is assigned, its column is no taller than any column, and every column left of it is strictly taller |
| StaggeredGrid.AssignLoadsGrow | app/src/main/java/com/example/customcomposestaggeredgrid/MainActivity.kt:64 | no column height decreases as more children are assigned |
| StaggeredGrid.AssignTotal | app/src/main/java/com/example/customcomposestaggeredgrid/MainActivity.kt:56-66 | the final column heights add up to the sum of all children's heights |
| StaggeredGrid.AssignPrefix | app/src/main/java/com/example/customcomposestaggeredgrid/MainActivity.kt:58-66 | assigning only the first `k` children puts them in the same columns as assigning all of them |
| StaggeredGridPolicy.MeasurePass | app/src/main/java/com/example/customcomposestaggeredgrid/MainActivity.kt:56-66 | the loop over the height array produces exactly `Assign`'s columns, and the final array holds each column's total child height |
| StaggeredGrid.Place | app/src/main/java/com/example/customcomposestaggeredgrid/MainActivity.kt:71-78 | one placement per placed child |
| StaggeredGridPolicy.PlacePass | app/src/main/java/com/example/customcomposestaggeredgrid/MainActivity.kt:71-78 | the loop over a fresh `columnY` array places exactly as `Place` does, and the final offsets equal the column heights of the measure pass |
| StaggeredGrid.PlacePrefix | app/src/main/java/com/example/customcomposestaggeredgrid/MainActivity.kt:73-78 | placing only the first `k` children gives those children the same placements |
| StaggeredGrid.PlaceStacked | app/src/main/java/com/example/customcomposestaggeredgrid/MainActivity.kt:75-77 | a later child of a column starts at or below the bottom of every earlier child of that column, and exactly at the bottom of the previous one |
| StaggeredGrid.PlaceFirstInColumn | app/src/main/java/com/example/customcomposestaggeredgrid/MainActivity.kt:71-75 | the first child of each column is placed at y = 0 |
| StaggeredGrid.PlaceUniformX | app/src/main/java/com/example/customcomposestaggeredgrid/MainActivity.kt:74 | with uniform widths `w`, a child of column `c` starts at x = `c * w` and is `w` wide |
| StaggeredGrid.ColumnSumSnoc | app/src/main/java/com/example/customcomposestaggeredgrid/MainActivity.kt:64 | appending a child grows its own column by its height and leaves every other column as it was |
| StaggeredGrid.LoadsSnoc | app/src/main/java/com/example/customcomposestaggeredgrid/MainActivity.kt:64 | the same for the array of all column heights: exactly one entry changes |
| StaggeredGrid.ColumnSumPrefix | app/src/main/java/com/example/customcomposestaggeredgrid/MainActivity.kt:64 | a column's height over a prefix of the children is at most its final height |
| StaggeredGrid.ColumnSumSkip | app/src/main/java/com/example/customcomposestaggeredgrid/MainActivity.kt:77 | children of other columns leave a column's offset unchanged |
| StaggeredGrid.LastInColumn | app/src/main/java/com/example/customcomposestaggeredgrid/MainActivity.kt:64-77 | a non-empty column has a last child, whose bottom edge equals the column's final height |
| StaggeredGrid.LoadsTotal | app/src/main/java/com/example/customcomposestaggeredgrid/MainActivity.kt:64 | the column heights add up to the total height of the children |
| StaggeredGrid.HeightTotalIsSum | app/src/main/java/com/example/customcomposestaggeredgrid/MainActivity.kt:61-64 | the total height of the placed children is the sum of their measured heights |
| GridMath.SumUpdate | app/src/main/java/com/example/customcomposestaggeredgrid/MainActivity.kt:64 | adding `h` to one column adds `h` to the sum over all columns |
| GridMath.SumOfConstant | app/src/main/java/com/example/customcomposestaggeredgrid/MainActivity.kt:74 | `c` columns of width `w` add up to `c * w` |
| GridMath.MaxOrNone | app/src/main/java/com/example/customcomposestaggeredgrid/MainActivity.kt:68 | None exactly for no columns; otherwise some column's height that is at least every column's height |
| GridMath.Clamp | app/src/main/java/com/example/customcomposestaggeredgrid/MainActivity.kt:68 | the result lies in `[lo, hi]`: the value itself when inside, `lo` below it, `hi` above it |
| StaggeredGrid.ContainerHeight | app/src/main/java/com/example/customcomposestaggeredgrid/MainActivity.kt:68 | the height is within `[minHeight, maxHeight]`, covers every column as far as `maxHeight` allows, and is `minHeight` or some column's capped height |
| StaggeredGrid.Layout | app/src/main/java/com/example/customcomposestaggeredgrid/MainActivity.kt:53-80 | the column count is `ColumnCount`, the width is `maxWidth`, the height is within the constraints, and there is one placement per child |
| StaggeredGridPolicy.MeasureAndPlace | app/src/main/java/com/example/customcomposestaggeredgrid/MainActivity.kt:53-80 | the whole policy, with its arrays and loops, returns exactly `Layout`'s result |
| StaggeredGrid.LayoutWithinWidth | app/src/main/java/com/example/customcomposestaggeredgrid/MainActivity.kt:61-74 | each child is in a real column, is measured at the column width, starts at x = `column * width` and ends within `maxWidth` |
| StaggeredGrid.PlaceHeight | app/src/main/java/com/example/customcomposestaggeredgrid/MainActivity.kt:68-77 | for any assignment, the container height covers every child's bottom edge (capped at `maxHeight`) and is `minHeight` or some child's capped bottom edge |
| StaggeredGrid.LayoutHeight | app/src/main/java/com/example/customcomposestaggeredgrid/MainActivity.kt:68-70 | the same for the whole layout |
| StaggeredGrid.LayoutEmpty | app/src/main/java/com/example/customcomposestaggeredgrid/MainActivity.kt:68 | with no children the container is `minHeight` tall and nothing is placed |
| StaggeredGrid.LayoutAppendOnly | app/src/main/java/com/example/customcomposestaggeredgrid/MainActivity.kt:58-78 | laying out only the first `k` children places them exactly where laying out all of them does |

## Left out

- The scroll host (`rememberScrollState`, `verticalScroll`, MainActivity.kt:49, 51). Offset clamping and drag handling live inside the Compose library.
- `maxColumnWidth.roundToPx()` (MainActivity.kt:54). It is a density-dependent conversion. The model takes the column width in pixels, `colPx`, as an input.
- `colPx == 0`, where the Kotlin code divides by zero and throws. It is excluded by the precondition `colPx != 0`. A negative `colPx` (from a negative `maxColumnWidth`) is modelled: Kotlin's truncating `/` (`DivTrunc`) then gives a quotient of at most 0, so there is one column.
- `Constraints.Infinity` (an unbounded `maxWidth`). It is not modelled.
- `minHeight > maxHeight`, where `coerceIn` would throw. It is excluded by `minHeight <= maxHeight`, which Compose constraints guarantee.
- 32-bit `Int` overflow of the column heights and offsets. Sizes are unbounded naturals.
- The internals of `measurable.measure`, `Constraints.fixedWidth` and `placeRelative` (MainActivity.kt:61-63, 76). These are framework calls. A child's measurement is the input function `measure(index, width)`, and a placement is recorded as its column, x, y, width and height.
- StaggeredGridPolicy.MeasurePass: the source measures each child inside the loop, at `columnWidths[column]`. The method instead takes the heights the children report at the column width. Because all columns have that one width, and measuring is assumed to depend only on the child and the width, the result is the same. The interleaving of measuring and assigning is not captured.
- `MainActivity.onCreate` and `StaggeredGridDemo` (MainActivity.kt:29-41, 83-113). They are application bootstrap and demo content: random heights and colours, no layout logic.
