// The measure policy of `StaggeredVerticalGrid` as the Kotlin code runs it: a
// column-height array updated while the children are measured, then a fresh
// column-offset array updated while they are placed. Each method is proved to
// compute what the functions of StaggeredGrid describe.

module StaggeredGridPolicy {
  import opened GridMath
  import opened StaggeredGrid

  /**
   * `columnHeights.withIndex().minByOrNull { it.value }?.index ?: 0`: the
   * first index holding the smallest height, or 0 when there are no columns.
   */
  method FirstMinIndex(heights: array<nat>) returns (k: nat)
    ensures heights.Length == 0 ==> k == 0
    ensures heights.Length > 0 ==> k < heights.Length
    ensures forall j :: 0 <= j < heights.Length ==> heights[k] <= heights[j]
    ensures forall j :: 0 <= j < k ==> heights[j] > heights[k]
  {
    k := 0;
    if heights.Length == 0 {
      return;
    }
    var i := 1;
    while i < heights.Length
      invariant 1 <= i <= heights.Length && k < i
      invariant forall j :: 0 <= j < i ==> heights[k] <= heights[j]
      invariant forall j :: 0 <= j < k ==> heights[j] > heights[k]
    {
      if heights[i] < heights[k] {
        k := i;
      }
      i := i + 1;
    }
  }

  /**
   * The `measurables.map { ... }` pass over `n` columns: each child goes to
   * the first shortest column, and that column's height grows by the child's
   * height. `measured[i]` is the height child `i` reports when measured at
   * the column width. Returns the placeables with their columns and the final
   * column heights.
   */
  method MeasurePass(measured: seq<nat>, n: nat) returns (placeables: seq<Placed>, columnHeights: seq<nat>)
    requires n >= 1
    ensures placeables == Assign(measured, n)
    ensures columnHeights == Loads(placeables, n)
  {
    var heights := new nat[n](_ => 0);
    placeables := [];
    var i := 0;
    while i < |measured|
      invariant 0 <= i <= |measured|
      invariant placeables == Run(measured[..i], n).placed
      invariant heights[..] == Run(measured[..i], n).heights
    {
      var column := FirstMinIndex(heights);
      ghost var before := heights[..];
      RunStep(measured, n, i, before, column);
      heights[column] := heights[column] + measured[i];
      ghost var after := before[column := before[column] + measured[i]];
      assert forall j :: 0 <= j < n ==> heights[j] == after[j];
      assert heights[..] == after;
      placeables := placeables + [Placed(column, measured[i])];
      i := i + 1;
    }
    assert measured[..i] == measured;
    RunHeights(measured, n);
    columnHeights := heights[..];
  }

  /**
   * The placement pass inside `layout(...)`: a fresh offset per column; each
   * child is put at the summed width of the columns before its own and at its
   * column's current offset, which then grows by the child's height. Returns
   * the placements and the final offsets, which equal the column heights.
   */
  method PlacePass(placeables: seq<Placed>, columnWidths: array<nat>)
    returns (placements: seq<Placement>, columnY: seq<nat>)
    requires forall i :: 0 <= i < |placeables| ==> placeables[i].column < columnWidths.Length
    ensures placements == Place(placeables, columnWidths[..])
    ensures columnY == Loads(placeables, columnWidths.Length)
  {
    var n := columnWidths.Length;
    var y := new nat[n](_ => 0);
    placements := [];
    var i := 0;
    while i < |placeables|
      invariant 0 <= i <= |placeables|
      invariant placements == Place(placeables[..i], columnWidths[..])
      invariant y[..] == Loads(placeables[..i], n)
    {
      var p := placeables[i];
      var x := Sum(columnWidths[..p.column]);
      assert placeables[..i + 1] == placeables[..i] + [p];
      LoadsSnoc(placeables[..i], p, n);
      PlacePrefix(placeables[..i + 1], columnWidths[..], i);
      assert placeables[..i + 1][..i] == placeables[..i];
      placements := placements + [Placement(p.column, x, y[p.column], columnWidths[p.column], p.height)];
      y[p.column] := y[p.column] + p.height;
      i := i + 1;
    }
    assert placeables[..i] == placeables;
    columnY := y[..];
  }

  /**
   * The whole measure policy: column count and widths, the measure pass, the
   * clamped container height and the placement pass.
   */
  method MeasureAndPlace(count: nat, measure: (nat, nat) -> nat, maxWidth: nat, colPx: int,
                         minHeight: nat, maxHeight: nat)
    returns (r: LayoutResult)
    requires colPx != 0 && minHeight <= maxHeight
    ensures r == Layout(count, measure, maxWidth, colPx, minHeight, maxHeight)
  {
    var columnCount := ColumnCount(maxWidth, colPx);
    var columnWidths := new nat[columnCount](_ => ColumnWidth(maxWidth, columnCount));
    assert columnWidths[..] == ColumnWidths(maxWidth, columnCount);
    assert columnWidths[0] == ColumnWidth(maxWidth, columnCount);
    var measured := Measured(count, measure, columnWidths[0]);
    var placeables, columnHeights := MeasurePass(measured, columnCount);
    var height := match MaxOrNone(columnHeights)
                  case None => minHeight
                  case Some(m) => Clamp(m, minHeight, maxHeight);
    assert height == ContainerHeight(Loads(placeables, columnCount), minHeight, maxHeight);
    var placements, _ := PlacePass(placeables, columnWidths);
    r := LayoutResult(columnCount, maxWidth, height, placements);
  }
}
