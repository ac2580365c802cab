// The staggered vertical grid's measure policy, stated as functions: how many
// columns there are, how wide each one is, which column each child goes to,
// where it is placed and how tall the container reports itself. The methods
// in StaggeredGridPolicy compute the same thing with the Kotlin code's arrays
// and loops and are proved equal to these functions.

module StaggeredGrid {
  import opened GridMath

  /** A measured child together with the column it was assigned to (`Pair(placeable, column)`). */
  datatype Placed = Placed(column: nat, height: nat)

  /** Where a child is placed and the size it was measured at. */
  datatype Placement = Placement(column: nat, x: nat, y: nat, width: nat, height: nat)

  /** What one layout pass reports: its column count, own size and the children's placements. */
  datatype LayoutResult = LayoutResult(columnCount: nat, width: nat, height: nat, placements: seq<Placement>)

  /**
   * `max(1, maxWidth / colPx)` with Kotlin's truncating `/`: as many whole
   * columns of `colPx` pixels as fit, but never fewer than one. A negative
   * `colPx` makes the quotient zero or negative, hence a single column.
   */
  function ColumnCount(maxWidth: nat, colPx: int): (n: nat)
    requires colPx != 0
    ensures n >= 1
    ensures colPx < 0 ==> n == 1
    ensures colPx > 0 ==> (n == 1 || n * colPx <= maxWidth) && maxWidth < (n + 1) * colPx
  {
    var q := DivTrunc(maxWidth, colPx);
    assert colPx > 0 ==> q * colPx <= maxWidth < (q + 1) * colPx;
    assert colPx < 0 ==> q <= 0;
    if q > 1 then q else assert colPx > 0 ==> (q + 1) * colPx <= 2 * colPx; 1
  }

  /**
   * Every column's width, `maxWidth / n`: the columns fit in `maxWidth`, and
   * fewer than `n` pixels are left unallocated.
   */
  function ColumnWidth(maxWidth: nat, n: nat): (w: nat)
    requires n >= 1
    ensures n * w <= maxWidth < n * w + n
  {
    maxWidth / n
  }

  /** The width of every one of the `n` columns. */
  function ColumnWidths(maxWidth: nat, n: nat): (ws: seq<nat>)
    requires n >= 1
    ensures |ws| == n
    ensures forall c :: 0 <= c < n ==> ws[c] == ColumnWidth(maxWidth, n)
  {
    seq(n, _ => ColumnWidth(maxWidth, n))
  }

  /** Total height of the children of `ps` that sit in column `c`. */
  function ColumnSum(ps: seq<Placed>, c: nat): nat
  {
    if |ps| == 0 then 0
    else ColumnSum(ps[..|ps| - 1], c) + (if ps[|ps| - 1].column == c then ps[|ps| - 1].height else 0)
  }

  /** The height of each of the `n` columns once the children of `ps` are stacked in them. */
  function Loads(ps: seq<Placed>, n: nat): seq<nat>
  {
    seq(n, c requires 0 <= c => ColumnSum(ps, c))
  }

  /** The heights of `count` children all measured at width `w`. */
  function Measured(count: nat, measure: (nat, nat) -> nat, w: nat): seq<nat>
  {
    seq(count, i requires 0 <= i => measure(i, w))
  }

  /** Total height of all children of `ps`. */
  function HeightTotal(ps: seq<Placed>): nat
  {
    if |ps| == 0 then 0 else HeightTotal(ps[..|ps| - 1]) + ps[|ps| - 1].height
  }

  /** The state of the measure pass: the children placed so far and the running column heights. */
  datatype Greedy = Greedy(placed: seq<Placed>, heights: seq<nat>)

  /**
   * The measure pass over children of measured heights `hs` and `n` columns:
   * each child goes to the first of the shortest columns, whose running
   * height then grows by the child's height.
   */
  function Run(hs: seq<nat>, n: nat): (g: Greedy)
    requires n >= 1
    ensures |g.placed| == |hs| && |g.heights| == n
  {
    if |hs| == 0 then Greedy([], seq(n, _ => 0))
    else
      var g := Run(hs[..|hs| - 1], n);
      var c := ArgMin(g.heights);
      Greedy(g.placed + [Placed(c, hs[|hs| - 1])], g.heights[c := g.heights[c] + hs[|hs| - 1]])
  }

  /**
   * One step of the measure pass: if `c` is the first shortest column of the
   * running heights `cur`, child `i` goes to `c` and only `c` grows.
   */
  lemma RunStep(hs: seq<nat>, n: nat, i: nat, cur: seq<nat>, c: nat)
    requires n >= 1 && i < |hs| && cur == Run(hs[..i], n).heights
    requires c < |cur| && forall j :: 0 <= j < |cur| ==> cur[c] <= cur[j]
    requires forall j :: 0 <= j < c ==> cur[j] > cur[c]
    ensures Run(hs[..i + 1], n).placed == Run(hs[..i], n).placed + [Placed(c, hs[i])]
    ensures Run(hs[..i + 1], n).heights == cur[c := cur[c] + hs[i]]
  {
    ArgMinUnique(cur, c);
    var t := hs[..i + 1];
    assert t[..|t| - 1] == hs[..i] && t[|t| - 1] == hs[i];
    var g := Run(hs[..i], n);
    assert Run(t, n) == Greedy(g.placed + [Placed(c, hs[i])], cur[c := cur[c] + hs[i]]);
  }

  /**
   * The column each child is assigned to, with its height: every column is
   * one of the `n`, and every child keeps its measured height.
   */
  function Assign(hs: seq<nat>, n: nat): (ps: seq<Placed>)
    requires n >= 1
    ensures |ps| == |hs|
    ensures forall i :: 0 <= i < |hs| ==> ps[i].column < n && ps[i].height == hs[i]
  {
    RunPlaced(hs, n);
    Run(hs, n).placed
  }

  /**
   * Where each child goes: `x` is the total width of the columns left of its
   * column, `y` the height of the earlier children of that column.
   */
  function Place(ps: seq<Placed>, widths: seq<nat>): (r: seq<Placement>)
    requires forall i :: 0 <= i < |ps| ==> ps[i].column < |widths|
    ensures |r| == |ps|
  {
    seq(|ps|, i requires 0 <= i < |ps| =>
      Placement(ps[i].column, Sum(widths[..ps[i].column]), ColumnSum(ps[..i], ps[i].column),
                widths[ps[i].column], ps[i].height))
  }

  /**
   * `columnHeights.maxOrNull()?.coerceIn(minHeight, maxHeight) ?: minHeight`:
   * the container is at least as tall as every column (as far as `maxHeight`
   * allows) and is `minHeight` or the capped height of some column.
   */
  function ContainerHeight(loads: seq<nat>, minHeight: nat, maxHeight: nat): (h: nat)
    requires minHeight <= maxHeight
    ensures minHeight <= h <= maxHeight
    ensures forall c :: 0 <= c < |loads| ==> Min(loads[c], maxHeight) <= h
    ensures h == minHeight || exists c :: 0 <= c < |loads| && h == Min(loads[c], maxHeight)
  {
    match MaxOrNone(loads)
    case None => minHeight
    case Some(m) => Clamp(m, minHeight, maxHeight)
  }

  /** One whole measure-and-place pass over `count` children. */
  function Layout(count: nat, measure: (nat, nat) -> nat, maxWidth: nat, colPx: int,
                  minHeight: nat, maxHeight: nat): (r: LayoutResult)
    requires colPx != 0 && minHeight <= maxHeight
    ensures r.columnCount == ColumnCount(maxWidth, colPx)
    ensures r.width == maxWidth && minHeight <= r.height <= maxHeight
    ensures |r.placements| == count
  {
    var n := ColumnCount(maxWidth, colPx);
    var widths := ColumnWidths(maxWidth, n);
    var ps := Assign(Measured(count, measure, ColumnWidth(maxWidth, n)), n);
    LayoutResult(n, maxWidth, ContainerHeight(Loads(ps, n), minHeight, maxHeight), Place(ps, widths))
  }

  // ---------------------------------------------------------------------------
  // Column sums

  /** Appending a child grows exactly its own column, by its height. */
  lemma ColumnSumSnoc(ps: seq<Placed>, p: Placed)
    ensures forall c :: ColumnSum(ps + [p], c) == ColumnSum(ps, c) + (if p.column == c then p.height else 0)
  {
    assert (ps + [p])[..|ps|] == ps;
  }

  /** The same, for all columns at once. */
  lemma LoadsSnoc(ps: seq<Placed>, p: Placed, n: nat)
    requires p.column < n
    ensures Loads(ps + [p], n) == Loads(ps, n)[p.column := Loads(ps, n)[p.column] + p.height]
  {
    assert (ps + [p])[..|ps|] == ps;
  }

  /** A column only grows as children are appended. */
  lemma {:induction false} ColumnSumPrefix(ps: seq<Placed>, k: nat, c: nat)
    requires k <= |ps|
    ensures ColumnSum(ps[..k], c) <= ColumnSum(ps, c)
    decreases |ps|
  {
    if k < |ps| {
      var m := |ps| - 1;
      assert ps[..m][..k] == ps[..k];
      ColumnSumPrefix(ps[..m], k, c);
    } else {
      assert ps[..k] == ps;
    }
  }

  /** Children of other columns leave column `c` unchanged. */
  lemma {:induction false} ColumnSumSkip(ps: seq<Placed>, a: nat, b: nat, c: nat)
    requires a <= b <= |ps|
    requires forall k :: a <= k < b ==> ps[k].column != c
    ensures ColumnSum(ps[..b], c) == ColumnSum(ps[..a], c)
    decreases b
  {
    if a < b {
      assert ps[..b][..b - 1] == ps[..b - 1];
      ColumnSumSkip(ps, a, b - 1, c);
    }
  }

  /** A non-empty column has a last child, whose bottom edge is the column's height. */
  lemma {:induction false} LastInColumn(ps: seq<Placed>, c: nat) returns (j: nat)
    requires ColumnSum(ps, c) > 0
    ensures j < |ps| && ps[j].column == c
    ensures ColumnSum(ps[..j], c) + ps[j].height == ColumnSum(ps, c)
    decreases |ps|
  {
    var m := |ps| - 1;
    assert ps[..m + 1] == ps;
    if ps[m].column == c {
      j := m;
    } else {
      j := LastInColumn(ps[..m], c);
      assert ps[..m][..j] == ps[..j];
    }
  }

  /** The column heights add up to the heights of all the children. */
  lemma {:induction false} LoadsTotal(ps: seq<Placed>, n: nat)
    requires forall i :: 0 <= i < |ps| ==> ps[i].column < n
    ensures Sum(Loads(ps, n)) == HeightTotal(ps)
    decreases |ps|
  {
    if |ps| == 0 {
      SumOfConstant(Loads(ps, n), 0);
    } else {
      var m := |ps| - 1;
      assert ps == ps[..m] + [ps[m]];
      LoadsTotal(ps[..m], n);
      LoadsSnoc(ps[..m], ps[m], n);
      SumUpdate(Loads(ps[..m], n), ps[m].column, ps[m].height);
    }
  }

  // ---------------------------------------------------------------------------
  // Greedy assignment

  /** Every child of the measure pass lands in one of the `n` columns and keeps its height. */
  lemma {:induction false} RunPlaced(hs: seq<nat>, n: nat)
    requires n >= 1
    ensures var ps := Run(hs, n).placed;
            forall i :: 0 <= i < |hs| ==> ps[i].column < n && ps[i].height == hs[i]
  {
    if |hs| > 0 {
      RunPlaced(hs[..|hs| - 1], n);
    }
  }

  /**
   * The running height of every column is the total height of the children
   * assigned to it so far.
   */
  lemma {:induction false} RunHeights(hs: seq<nat>, n: nat)
    requires n >= 1
    ensures Run(hs, n).heights == Loads(Run(hs, n).placed, n)
  {
    if |hs| > 0 {
      var g := Run(hs[..|hs| - 1], n);
      RunHeights(hs[..|hs| - 1], n);
      LoadsSnoc(g.placed, Placed(ArgMin(g.heights), hs[|hs| - 1]), n);
    }
  }

  /** Assignment is append-only: the first `k` children land where they would without the rest. */
  lemma {:induction false} AssignPrefix(hs: seq<nat>, n: nat, k: nat)
    requires n >= 1 && k <= |hs|
    ensures Assign(hs[..k], n) == Assign(hs, n)[..k]
    decreases |hs|
  {
    if k < |hs| {
      var m := |hs| - 1;
      var ps := Run(hs, n).placed;
      var prev := Run(hs[..m], n).placed;
      assert ps[..m] == prev;
      assert ps[..k] == prev[..k];
      assert hs[..m][..k] == hs[..k];
      AssignPrefix(hs[..m], n, k);
    } else {
      assert hs[..k] == hs;
    }
  }

  /**
   * When child `i` is assigned, its column is no taller than any other, and
   * every column to its left is strictly taller.
   */
  lemma AssignGreedy(hs: seq<nat>, n: nat, i: nat)
    requires n >= 1 && i < |hs|
    ensures var ps := Assign(hs, n);
            var before := Loads(ps[..i], n);
            (forall c :: 0 <= c < n ==> before[ps[i].column] <= before[c]) &&
            (forall c :: 0 <= c < ps[i].column ==> before[c] > before[ps[i].column])
  {
    var ps := Assign(hs, n);
    AssignPrefix(hs, n, i + 1);
    AssignPrefix(hs, n, i);
    RunHeights(hs[..i], n);
    assert hs[..i + 1][..i] == hs[..i];
    assert ps[..i + 1][i] == ps[i];
  }

  /** Column heights never decrease while children are assigned. */
  lemma AssignLoadsGrow(hs: seq<nat>, n: nat, k: nat, c: nat)
    requires n >= 1 && k <= |hs| && c < n
    ensures Loads(Assign(hs[..k], n), n)[c] <= Loads(Assign(hs, n), n)[c]
  {
    AssignPrefix(hs, n, k);
    ColumnSumPrefix(Assign(hs, n), k, c);
  }

  /** The column heights add up to the heights of all the children. */
  lemma AssignTotal(hs: seq<nat>, n: nat)
    requires n >= 1
    ensures Sum(Loads(Assign(hs, n), n)) == Sum(hs)
  {
    var ps := Assign(hs, n);
    LoadsTotal(ps, n);
    HeightTotalIsSum(ps, hs);
  }

  lemma {:induction false} HeightTotalIsSum(ps: seq<Placed>, hs: seq<nat>)
    requires |ps| == |hs| && forall i :: 0 <= i < |ps| ==> ps[i].height == hs[i]
    ensures HeightTotal(ps) == Sum(hs)
    decreases |ps|
  {
    if |ps| > 0 {
      HeightTotalIsSum(ps[..|ps| - 1], hs[..|hs| - 1]);
    }
  }

  // ---------------------------------------------------------------------------
  // Placement

  /** Placement is append-only too. */
  lemma PlacePrefix(ps: seq<Placed>, widths: seq<nat>, k: nat)
    requires forall i :: 0 <= i < |ps| ==> ps[i].column < |widths|
    requires k <= |ps|
    ensures Place(ps[..k], widths) == Place(ps, widths)[..k]
  {
    forall i | 0 <= i < k
      ensures Place(ps[..k], widths)[i] == Place(ps, widths)[i]
    {
      assert ps[..k][..i] == ps[..i];
    }
  }

  /**
   * Children of one column are stacked from the top without gap or overlap:
   * the first one sits at 0, a later one right below the previous one of that
   * column, and in general below every earlier one.
   */
  lemma PlaceStacked(ps: seq<Placed>, widths: seq<nat>, i: nat, j: nat)
    requires forall k :: 0 <= k < |ps| ==> ps[k].column < |widths|
    requires i < j < |ps| && ps[i].column == ps[j].column
    ensures Place(ps, widths)[i].y + ps[i].height <= Place(ps, widths)[j].y
    ensures (forall k :: i < k < j ==> ps[k].column != ps[j].column) ==>
              Place(ps, widths)[j].y == Place(ps, widths)[i].y + ps[i].height
  {
    var c := ps[j].column;
    assert ps[..i + 1][..i] == ps[..i];
    assert ColumnSum(ps[..i + 1], c) == ColumnSum(ps[..i], c) + ps[i].height;
    assert ps[..j][..i + 1] == ps[..i + 1];
    ColumnSumPrefix(ps[..j], i + 1, c);
    if forall k :: i < k < j ==> ps[k].column != c {
      ColumnSumSkip(ps, i + 1, j, c);
    }
  }

  /** The first child of a column sits at the top. */
  lemma PlaceFirstInColumn(ps: seq<Placed>, widths: seq<nat>, j: nat)
    requires forall k :: 0 <= k < |ps| ==> ps[k].column < |widths|
    requires j < |ps| && forall k :: 0 <= k < j ==> ps[k].column != ps[j].column
    ensures Place(ps, widths)[j].y == 0
  {
    ColumnSumSkip(ps, 0, j, ps[j].column);
  }

  // ---------------------------------------------------------------------------
  // Whole layout

  /**
   * Each child lands in a real column, is measured at the column width, sits
   * `column * width` from the left edge and ends inside the container width.
   */
  lemma LayoutWithinWidth(count: nat, measure: (nat, nat) -> nat, maxWidth: nat, colPx: int,
                          minHeight: nat, maxHeight: nat, i: nat)
    requires colPx != 0 && minHeight <= maxHeight && i < count
    ensures var r := Layout(count, measure, maxWidth, colPx, minHeight, maxHeight);
            var w := ColumnWidth(maxWidth, r.columnCount);
            var p := r.placements[i];
            p.column < r.columnCount && p.width == w && p.height == measure(i, w) &&
            p.x == p.column * w && p.x + p.width <= maxWidth
  {
    var n := ColumnCount(maxWidth, colPx);
    var widths := ColumnWidths(maxWidth, n);
    var w := ColumnWidth(maxWidth, n);
    var ps := Assign(Measured(count, measure, w), n);
    PlaceUniformX(ps, widths, w, i);
    MulMonotone(ps[i].column + 1, n, w);
  }

  /** With columns all of width `w`, a child of column `c` starts at `c * w`. */
  lemma PlaceUniformX(ps: seq<Placed>, widths: seq<nat>, w: nat, i: nat)
    requires forall k :: 0 <= k < |ps| ==> ps[k].column < |widths|
    requires forall c :: 0 <= c < |widths| ==> widths[c] == w
    requires i < |ps|
    ensures Place(ps, widths)[i].x == ps[i].column * w
    ensures Place(ps, widths)[i].width == w
  {
    var col := ps[i].column;
    assert forall k :: 0 <= k < |widths[..col]| ==> widths[..col][k] == w;
    SumOfConstant(widths[..col], w);
  }

  /** Fewer columns of the same width take no more room. */
  lemma MulMonotone(a: nat, b: nat, w: nat)
    requires a <= b
    ensures a * w <= b * w
  {
  }

  /**
   * The container height covers every child's bottom edge as far as
   * `maxHeight` allows, and is either `minHeight` or the (capped) bottom edge
   * of some child. With no children it is `minHeight`.
   */
  lemma LayoutHeight(count: nat, measure: (nat, nat) -> nat, maxWidth: nat, colPx: int,
                     minHeight: nat, maxHeight: nat)
    requires colPx != 0 && minHeight <= maxHeight
    ensures var r := Layout(count, measure, maxWidth, colPx, minHeight, maxHeight);
            (forall i :: 0 <= i < count ==>
               Min(r.placements[i].y + r.placements[i].height, maxHeight) <= r.height) &&
            (r.height == minHeight ||
               exists i :: 0 <= i < count && r.height == Min(r.placements[i].y + r.placements[i].height, maxHeight))
  {
    var n := ColumnCount(maxWidth, colPx);
    var ps := Assign(Measured(count, measure, ColumnWidth(maxWidth, n)), n);
    PlaceHeight(ps, ColumnWidths(maxWidth, n), minHeight, maxHeight);
  }

  /** LayoutHeight for any assignment of children to columns. */
  lemma PlaceHeight(ps: seq<Placed>, widths: seq<nat>, minHeight: nat, maxHeight: nat)
    requires forall i :: 0 <= i < |ps| ==> ps[i].column < |widths|
    requires minHeight <= maxHeight
    ensures var h := ContainerHeight(Loads(ps, |widths|), minHeight, maxHeight);
            var pl := Place(ps, widths);
            (forall i :: 0 <= i < |ps| ==> Min(pl[i].y + pl[i].height, maxHeight) <= h) &&
            (h == minHeight || exists i :: 0 <= i < |ps| && h == Min(pl[i].y + pl[i].height, maxHeight))
  {
    var loads := Loads(ps, |widths|);
    var h := ContainerHeight(loads, minHeight, maxHeight);
    var pl := Place(ps, widths);
    forall i | 0 <= i < |ps|
      ensures Min(pl[i].y + pl[i].height, maxHeight) <= h
    {
      var c := ps[i].column;
      assert ps[..i + 1][..i] == ps[..i];
      ColumnSumPrefix(ps, i + 1, c);
      assert pl[i].y + pl[i].height <= loads[c];
    }
    if h != minHeight {
      var c :| 0 <= c < |widths| && h == Min(loads[c], maxHeight);
      if loads[c] == 0 {
        assert false;
      }
      var j := LastInColumn(ps, c);
      assert pl[j].y + pl[j].height == loads[c];
    }
  }

  /** With no children the container is `minHeight` tall and places nothing. */
  lemma LayoutEmpty(measure: (nat, nat) -> nat, maxWidth: nat, colPx: int, minHeight: nat, maxHeight: nat)
    requires colPx != 0 && minHeight <= maxHeight
    ensures var r := Layout(0, measure, maxWidth, colPx, minHeight, maxHeight);
            r.height == minHeight && r.placements == []
  {
    LayoutHeight(0, measure, maxWidth, colPx, minHeight, maxHeight);
  }

  /**
   * Layout is append-only: laying out only the first `k` children places
   * them exactly where laying out all `count` children does.
   */
  lemma LayoutAppendOnly(count: nat, k: nat, measure: (nat, nat) -> nat, maxWidth: nat, colPx: int,
                         minHeight: nat, maxHeight: nat)
    requires colPx != 0 && minHeight <= maxHeight && k <= count
    ensures Layout(k, measure, maxWidth, colPx, minHeight, maxHeight).placements ==
            Layout(count, measure, maxWidth, colPx, minHeight, maxHeight).placements[..k]
  {
    var n := ColumnCount(maxWidth, colPx);
    var widths := ColumnWidths(maxWidth, n);
    var hs := Measured(count, measure, ColumnWidth(maxWidth, n));
    assert Measured(k, measure, ColumnWidth(maxWidth, n)) == hs[..k];
    AssignPrefix(hs, n, k);
    PlacePrefix(Assign(hs, n), widths, k);
  }
}
