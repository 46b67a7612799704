/**
 * The sampling loop of `GET /:date`: columns `ix` outer, rows `iy` inner,
 * no-data cells skipped, each data cell turned into `{lat, lon, tavg}`, and
 * the whole walk stopped once `MAX_POINTS` points have been collected.
 */
module Sampling {
  import opened Wrappers
  import opened RasterWindow
  import opened Units

  /** `MAX_POINTS`. */
  const MaxPoints: nat := 10000

  /** One element of the JSON array the route answers with. */
  datatype Point = Point(lat: real, lon: real, tavg: real)

  /** A data cell of the first band: its column, its row and its value in Celsius. */
  datatype Cell = Cell(ix: int, iy: int, celsius: real)

  /** The point emitted for a data cell. */
  function ToPoint(r: Raster, c: Cell): Point
  {
    Point(Lat(r, c.iy), Lon(r, c.ix), CelsiusToFahrenheit(c.celsius))
  }

  function PointsOf(r: Raster, cells: seq<Cell>): seq<Point>
  {
    seq(|cells|, k requires 0 <= k < |cells| => ToPoint(r, cells[k]))
  }

  /** The first `n` elements of `s`, or all of `s` when it is shorter. */
  function Cap<T>(s: seq<T>, n: nat): (t: seq<T>)
    ensures t <= s
    ensures |t| == if |s| <= n then |s| else n
  {
    if |s| <= n then s else s[..n]
  }

  lemma PointsOfAppend(r: Raster, cells: seq<Cell>, c: Cell)
    ensures PointsOf(r, cells + [c]) == PointsOf(r, cells) + [ToPoint(r, c)]
  {
  }

  /**
   * Cell `(ix, iy)` of band 0, as a list holding it when it has data and
   * empty otherwise (and, so that the walk is defined everywhere, empty
   * outside the grid).
   */
  function CellAt(r: Raster, ix: int, iy: int): seq<Cell>
  {
    if |r.values| >= 1 && 0 <= iy < |r.values[0]| && 0 <= ix < |r.values[0][iy]| then
      match r.values[0][iy][ix]
      case None => []
      case Some(c) => [Cell(ix, iy, c)]
    else []
  }

  /** The data cells of column `ix`, rows `iyLo` up to but excluding `iyHi`, top to bottom. */
  function ColumnCells(r: Raster, ix: int, iyLo: int, iyHi: int): seq<Cell>
    decreases iyHi - iyLo
  {
    if iyHi <= iyLo then [] else ColumnCells(r, ix, iyLo, iyHi - 1) + CellAt(r, ix, iyHi - 1)
  }

  /** The data cells of the window's columns before `ixHi`, column by column. */
  function CellsBefore(r: Raster, w: Window, ixHi: int): seq<Cell>
    decreases ixHi - w.ixStart
  {
    if ixHi <= w.ixStart then []
    else CellsBefore(r, w, ixHi - 1) + ColumnCells(r, ixHi - 1, w.iyStart, w.iyEnd + 1)
  }

  /** All data cells of the window, in the order the route visits them. */
  function WindowCells(r: Raster, w: Window): seq<Cell>
  {
    CellsBefore(r, w, w.ixEnd + 1)
  }

  /** `a` is visited before `b`: an earlier column, or the same column and an earlier row. */
  predicate Precedes(a: Cell, b: Cell)
  {
    a.ix < b.ix || (a.ix == b.ix && a.iy < b.iy)
  }

  predicate ColumnMajor(cells: seq<Cell>)
  {
    forall k, l :: 0 <= k < l < |cells| ==> Precedes(cells[k], cells[l])
  }

  /** A data cell of band 0 at `(c.ix, c.iy)` holding `c.celsius`. */
  predicate IsDataCell(r: Raster, c: Cell)
    requires WellFormed(r)
  {
    0 <= c.ix < r.width && 0 <= c.iy < r.height && r.values[0][c.iy][c.ix] == Some(c.celsius)
  }

  lemma SortedAppend(a: seq<Cell>, b: seq<Cell>)
    requires ColumnMajor(a) && ColumnMajor(b)
    requires forall x, y :: x in a && y in b ==> Precedes(x, y)
    ensures ColumnMajor(a + b)
  {
    forall k, l | 0 <= k < l < |a + b| ensures Precedes((a + b)[k], (a + b)[l]) {
      if l < |a| {
      } else if k >= |a| {
        assert (a + b)[k] == b[k - |a|] && (a + b)[l] == b[l - |a|];
      } else {
        assert (a + b)[k] in a && (a + b)[l] in b;
      }
    }
  }

  /** Every cell of a column's list lies in that column and row range (whatever the raster). */
  lemma {:induction false} ColumnCellsBounds(r: Raster, ix: int, iyLo: int, iyHi: int)
    ensures forall c :: c in ColumnCells(r, ix, iyLo, iyHi) ==> c.ix == ix && iyLo <= c.iy < iyHi
    decreases iyHi - iyLo
  {
    if iyHi > iyLo {
      assert ColumnCells(r, ix, iyLo, iyHi) == ColumnCells(r, ix, iyLo, iyHi - 1) + CellAt(r, ix, iyHi - 1);
      ColumnCellsBounds(r, ix, iyLo, iyHi - 1);
    }
  }

  /** A column's list runs top to bottom. */
  lemma {:induction false} ColumnCellsSorted(r: Raster, ix: int, iyLo: int, iyHi: int)
    ensures ColumnMajor(ColumnCells(r, ix, iyLo, iyHi))
    decreases iyHi - iyLo
  {
    if iyHi > iyLo {
      var above := ColumnCells(r, ix, iyLo, iyHi - 1);
      var here := CellAt(r, ix, iyHi - 1);
      assert ColumnCells(r, ix, iyLo, iyHi) == above + here;
      ColumnCellsSorted(r, ix, iyLo, iyHi - 1);
      ColumnCellsBounds(r, ix, iyLo, iyHi - 1);
      SortedAppend(above, here);
    }
  }

  /** A column's list holds exactly its data cells in the row range. */
  lemma {:induction false} ColumnCellsMembers(r: Raster, ix: int, iyLo: int, iyHi: int)
    requires WellFormed(r) && 0 <= ix < r.width && 0 <= iyLo
    requires iyHi <= r.height || iyHi <= iyLo
    ensures forall c :: c in ColumnCells(r, ix, iyLo, iyHi) <==>
      c.ix == ix && iyLo <= c.iy < iyHi && IsDataCell(r, c)
    decreases iyHi - iyLo
  {
    if iyHi > iyLo {
      assert ColumnCells(r, ix, iyLo, iyHi) == ColumnCells(r, ix, iyLo, iyHi - 1) + CellAt(r, ix, iyHi - 1);
      ColumnCellsMembers(r, ix, iyLo, iyHi - 1);
      CellAtInGrid(r, ix, iyHi - 1);
    }
  }

  /** Every cell of the columns before `ixHi` lies in those columns and the window's rows. */
  lemma {:induction false} CellsBeforeBounds(r: Raster, w: Window, ixHi: int)
    ensures forall c :: c in CellsBefore(r, w, ixHi) ==>
      w.ixStart <= c.ix < ixHi && w.iyStart <= c.iy <= w.iyEnd
    decreases ixHi - w.ixStart
  {
    if ixHi > w.ixStart {
      var column := ColumnCells(r, ixHi - 1, w.iyStart, w.iyEnd + 1);
      assert CellsBefore(r, w, ixHi) == CellsBefore(r, w, ixHi - 1) + column;
      CellsBeforeBounds(r, w, ixHi - 1);
      ColumnCellsBounds(r, ixHi - 1, w.iyStart, w.iyEnd + 1);
    }
  }

  /** The columns before `ixHi` are listed column by column, each top to bottom. */
  lemma {:induction false} CellsBeforeSorted(r: Raster, w: Window, ixHi: int)
    ensures ColumnMajor(CellsBefore(r, w, ixHi))
    decreases ixHi - w.ixStart
  {
    if ixHi > w.ixStart {
      var left := CellsBefore(r, w, ixHi - 1);
      var column := ColumnCells(r, ixHi - 1, w.iyStart, w.iyEnd + 1);
      assert CellsBefore(r, w, ixHi) == left + column;
      CellsBeforeSorted(r, w, ixHi - 1);
      CellsBeforeBounds(r, w, ixHi - 1);
      ColumnCellsSorted(r, ixHi - 1, w.iyStart, w.iyEnd + 1);
      ColumnCellsBounds(r, ixHi - 1, w.iyStart, w.iyEnd + 1);
      SortedAppend(left, column);
    }
  }

  /** The columns before `ixHi` hold exactly their data cells in the window's rows. */
  lemma {:induction false} CellsBeforeMembers(r: Raster, w: Window, ixHi: int)
    requires WellFormed(r) && Clamped(r, w)
    requires ixHi <= w.ixEnd + 1 || ixHi <= w.ixStart
    ensures forall c :: c in CellsBefore(r, w, ixHi) <==>
      w.ixStart <= c.ix < ixHi && w.iyStart <= c.iy <= w.iyEnd && IsDataCell(r, c)
    decreases ixHi - w.ixStart
  {
    if ixHi > w.ixStart {
      var column := ColumnCells(r, ixHi - 1, w.iyStart, w.iyEnd + 1);
      assert CellsBefore(r, w, ixHi) == CellsBefore(r, w, ixHi - 1) + column;
      CellsBeforeMembers(r, w, ixHi - 1);
      ColumnCellsMembers(r, ixHi - 1, w.iyStart, w.iyEnd + 1);
    }
  }

  /**
   * The cells the route walks are exactly the window's data cells (no-data
   * cells are left out), each once, with `ix` outer and `iy` inner.
   */
  lemma WindowCellsExactly(r: Raster, w: Window)
    requires WellFormed(r) && Clamped(r, w)
    ensures forall c :: c in WindowCells(r, w) <==> InWindow(w, c.ix, c.iy) && IsDataCell(r, c)
    ensures ColumnMajor(WindowCells(r, w))
  {
    CellsBeforeMembers(r, w, w.ixEnd + 1);
    CellsBeforeSorted(r, w, w.ixEnd + 1);
  }

  lemma {:induction false} ColumnPrefix(r: Raster, ix: int, iyLo: int, i: int, j: int)
    requires i <= j
    ensures ColumnCells(r, ix, iyLo, i) <= ColumnCells(r, ix, iyLo, j)
    decreases j - i
  {
    if i < j && j > iyLo {
      ColumnPrefix(r, ix, iyLo, i, j - 1);
    }
  }

  lemma {:induction false} CellsBeforePrefix(r: Raster, w: Window, a: int, b: int)
    requires a <= b
    ensures CellsBefore(r, w, a) <= CellsBefore(r, w, b)
    decreases b - a
  {
    if a < b && b > w.ixStart {
      CellsBeforePrefix(r, w, a, b - 1);
    }
  }

  /** The rows of column `ix` visited so far are a prefix of the column's full list. */
  lemma ColumnPartPrefix(r: Raster, w: Window, ix: int, iy: int)
    requires w.iyStart <= iy && (iy <= w.iyEnd + 1 || iy == w.iyStart)
    ensures ColumnCells(r, ix, w.iyStart, iy) <= ColumnCells(r, ix, w.iyStart, w.iyEnd + 1)
  {
    if iy <= w.iyEnd + 1 {
      ColumnPrefix(r, ix, w.iyStart, iy, w.iyEnd + 1);
    } else {
      assert ColumnCells(r, ix, w.iyStart, iy) == [];
    }
  }

  /** A column of `n` rows holds at most `n` data cells. */
  lemma {:induction false} ColumnCellsLength(r: Raster, ix: int, iyLo: int, iyHi: int)
    requires iyLo <= iyHi
    ensures |ColumnCells(r, ix, iyLo, iyHi)| <= iyHi - iyLo
    decreases iyHi - iyLo
  {
    if iyLo < iyHi {
      ColumnCellsLength(r, ix, iyLo, iyHi - 1);
    }
  }

  /** The walk up to column `ix + 1` is the walk up to `ix` followed by column `ix`. */
  lemma CellsBeforeStep(r: Raster, w: Window, ix: int)
    requires w.ixStart <= ix
    ensures CellsBefore(r, w, ix + 1) == CellsBefore(r, w, ix) + ColumnCells(r, ix, w.iyStart, w.iyEnd + 1)
  {
  }

  /** What the loops have visited part-way through column `ix` is a prefix of the whole walk. */
  lemma VisitedIsPrefix(r: Raster, w: Window, ix: int, iy: int)
    requires w.ixStart <= ix <= w.ixEnd
    requires w.iyStart <= iy && (iy <= w.iyEnd + 1 || iy == w.iyStart)
    ensures CellsBefore(r, w, ix) + ColumnCells(r, ix, w.iyStart, iy) <= WindowCells(r, w)
  {
    ColumnPartPrefix(r, w, ix, iy);
    PrefixExtend(CellsBefore(r, w, ix), ColumnCells(r, ix, w.iyStart, iy), ColumnCells(r, ix, w.iyStart, w.iyEnd + 1));
    CellsBeforeStep(r, w, ix);
    CellsBeforePrefix(r, w, ix + 1, w.ixEnd + 1);
    PrefixTransitive(CellsBefore(r, w, ix) + ColumnCells(r, ix, w.iyStart, iy),
                     CellsBefore(r, w, ix + 1), WindowCells(r, w));
  }

  /** One more row of column `ix`: the cell's list, empty for a no-data cell, is appended to the walk. */
  lemma VisitStep(r: Raster, w: Window, ix: int, iy: int)
    requires w.iyStart <= iy
    ensures CellsBefore(r, w, ix) + ColumnCells(r, ix, w.iyStart, iy + 1) ==
      CellsBefore(r, w, ix) + ColumnCells(r, ix, w.iyStart, iy) + CellAt(r, ix, iy)
  {
  }

  /** Inside the grid, a cell's list is the cell itself when it holds data and empty otherwise. */
  lemma CellAtInGrid(r: Raster, ix: int, iy: int)
    requires WellFormed(r) && 0 <= ix < r.width && 0 <= iy < r.height
    ensures r.values[0][iy][ix].None? ==> CellAt(r, ix, iy) == []
    ensures r.values[0][iy][ix].Some? ==> CellAt(r, ix, iy) == [Cell(ix, iy, r.values[0][iy][ix].value)]
  {
  }

  /** Once the inner loop has run past the last row, the whole column has been visited. */
  lemma ColumnDone(r: Raster, w: Window, ix: int, iy: int)
    requires w.iyEnd < iy && (iy <= w.iyEnd + 1 || iy == w.iyStart)
    ensures ColumnCells(r, ix, w.iyStart, iy) == ColumnCells(r, ix, w.iyStart, w.iyEnd + 1)
  {
  }

  lemma PrefixExtend<T>(a: seq<T>, b: seq<T>, c: seq<T>)
    requires b <= c
    ensures a + b <= a + c
  {
    assert (a + c)[..|a + b|] == a + b;
  }

  lemma PrefixTransitive<T>(a: seq<T>, b: seq<T>, c: seq<T>)
    requires a <= b && b <= c
    ensures a <= c
  {
    assert c[..|a|] == b[..|a|];
  }

  /**
   * The nested loops of the route. Every read `values[0][iy][ix]` is in
   * bounds, and the points are the first `MaxPoints` data cells of the window
   * in visiting order, each converted by `ToPoint`.
   */
  method SampleWindow(r: Raster, w: Window) returns (points: seq<Point>)
    requires WellFormed(r) && Clamped(r, w)
    ensures |points| <= MaxPoints
    ensures points == PointsOf(r, Cap(WindowCells(r, w), MaxPoints))
  {
    points := [];
    var count := 0;
    ghost var visited: seq<Cell> := [];
    var ix := w.ixStart;
    while ix <= w.ixEnd && count < MaxPoints
      invariant w.ixStart <= ix && (ix <= w.ixEnd + 1 || ix == w.ixStart)
      invariant count == |points| == |visited| <= MaxPoints
      invariant points == PointsOf(r, visited)
      invariant visited <= WindowCells(r, w)
      invariant count < MaxPoints ==> visited == CellsBefore(r, w, ix)
    {
      var iy := w.iyStart;
      while iy <= w.iyEnd && count < MaxPoints
        invariant w.iyStart <= iy && (iy <= w.iyEnd + 1 || iy == w.iyStart)
        invariant count == |points| == |visited| <= MaxPoints
        invariant points == PointsOf(r, visited)
        invariant visited == CellsBefore(r, w, ix) + ColumnCells(r, ix, w.iyStart, iy)
      {
        var cval := r.values[0][iy][ix];  // [band][row][col]
        VisitStep(r, w, ix, iy);
        CellAtInGrid(r, ix, iy);
        // a null or NaN cell is skipped and does not count
        if cval.Some? {
          var lon := Lon(r, ix);  // xmin + ix * pixelWidth
          var lat := Lat(r, iy);  // ymax - iy * pixelHeight
          PointsOfAppend(r, visited, Cell(ix, iy, cval.value));
          points := points + [Point(lat, lon, CelsiusToFahrenheit(cval.value))];
          visited := visited + [Cell(ix, iy, cval.value)];
          count := count + 1;
        }
        iy := iy + 1;
      }
      VisitedIsPrefix(r, w, ix, iy);
      if count < MaxPoints {
        ColumnDone(r, w, ix, iy);
        CellsBeforeStep(r, w, ix);
      }
      ix := ix + 1;
    }
    if count < MaxPoints {
      assert visited == WindowCells(r, w);
    }
  }

  /** The number of points is the number of data cells in the window, capped at `MaxPoints`. */
  lemma SampleCount(r: Raster, w: Window)
    requires WellFormed(r) && Clamped(r, w)
    ensures |PointsOf(r, Cap(WindowCells(r, w), MaxPoints))| ==
      if |WindowCells(r, w)| <= MaxPoints then |WindowCells(r, w)| else MaxPoints
  {
  }

  /** `p` is the point the route emits for data cell `c`: its formulas written out. */
  predicate EmittedFrom(r: Raster, p: Point, c: Cell)
    requires WellFormed(r)
  {
    && IsDataCell(r, c)
    && p == Point(r.ymax - c.iy as real * r.pixelHeight,
                  r.xmin + c.ix as real * r.pixelWidth,
                  c.celsius * 9.0 / 5.0 + 32.0)
  }

  /**
   * The k-th emitted point comes from the k-th visited data cell of the
   * window, with lon = xmin + ix * pixelWidth, lat = ymax - iy * pixelHeight
   * and tavg = c * 9 / 5 + 32; the cells are in visiting order.
   */
  lemma SampledPoints(r: Raster, w: Window)
    requires WellFormed(r) && Clamped(r, w)
    ensures forall k :: 0 <= k < |Cap(WindowCells(r, w), MaxPoints)| ==>
      && InWindow(w, Cap(WindowCells(r, w), MaxPoints)[k].ix, Cap(WindowCells(r, w), MaxPoints)[k].iy)
      && EmittedFrom(r, PointsOf(r, Cap(WindowCells(r, w), MaxPoints))[k], Cap(WindowCells(r, w), MaxPoints)[k])
    ensures ColumnMajor(Cap(WindowCells(r, w), MaxPoints))
  {
    WindowCellsExactly(r, w);
    var all := WindowCells(r, w);
    var capped := Cap(all, MaxPoints);
    forall k | 0 <= k < |capped| ensures capped[k] in all {
      assert capped[k] == all[k];
    }
  }

  /** When the window holds at most `MaxPoints` data cells, every one of them is emitted. */
  lemma UnderCapAllEmitted(r: Raster, w: Window, c: Cell)
    requires WellFormed(r) && Clamped(r, w)
    requires |WindowCells(r, w)| <= MaxPoints
    requires InWindow(w, c.ix, c.iy) && IsDataCell(r, c)
    ensures ToPoint(r, c) in PointsOf(r, Cap(WindowCells(r, w), MaxPoints))
  {
    WindowCellsExactly(r, w);
    var all := WindowCells(r, w);
    var k :| 0 <= k < |all| && all[k] == c;
    assert PointsOf(r, all)[k] == ToPoint(r, c);
  }

  /** An empty window (a start past its end) yields no points. */
  lemma EmptyWindowNoPoints(r: Raster, w: Window)
    requires WellFormed(r) && Clamped(r, w) && IsEmpty(w)
    ensures PointsOf(r, Cap(WindowCells(r, w), MaxPoints)) == []
  {
    if w.iyStart > w.iyEnd {
      NoRowsNoCells(r, w, w.ixEnd + 1);
    }
  }

  lemma {:induction false} NoRowsNoCells(r: Raster, w: Window, ixHi: int)
    requires w.iyStart > w.iyEnd
    ensures CellsBefore(r, w, ixHi) == []
    decreases ixHi - w.ixStart
  {
    if ixHi > w.ixStart {
      NoRowsNoCells(r, w, ixHi - 1);
    }
  }
}
