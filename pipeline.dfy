/** One image through the seat-assignment pipeline: build the table grid, seat the
    persons, and update the classroom's attendance. */
module Pipeline {
  import opened Detections
  import opened Grids
  import opened GridManager
  import opened Assignment
  import opened Occupancy

  /** The centers of a list of tables, in list order. */
  function TableCenters(ts: seq<Detection>): (cs: seq<Point>)
    ensures |cs| == |ts|
  {
    seq(|ts|, i requires 0 <= i < |ts| => ts[i].center)
  }

  lemma CentersOfRowMajor(sorted: seq<Detection>, cols: nat, n: nat)
    requires n <= |sorted| && (n == 0 || cols > 0)
    ensures Centers(RowMajorSlots(sorted, cols, n)) == TableCenters(sorted[..n])
  {
    var slots := RowMajorSlots(sorted, cols, n);
    CentersOfSlots(slots);
    forall i | 0 <= i < n ensures Centers(slots)[i] == TableCenters(sorted[..n])[i] {
      assert slots[i].table == sorted[i];
    }
  }

  /** The table centers the engine collects from a grid built from `tables` are those of
      the first min(n, rows * cols) sorted tables, in sorted order. */
  lemma LayoutCenters(v: seq<seq<Cell>>, tables: seq<Detection>, rows: nat, cols: nat)
    requires IsLayout(v, SortByCenter(tables), rows, cols)
    ensures |SortByCenter(tables)| == |tables| && 0 <= Min(|tables|, rows * cols) <= |tables|
    ensures Centers(GridSlots(v)) == TableCenters(SortByCenter(tables)[..Min(|tables|, rows * cols)])
  {
    var sorted := SortByCenter(tables);
    SortByCenterSorted(tables);
    assert |sorted| == |multiset(sorted)| == |multiset(tables)| == |tables|;
    ScanOfLayout(v, sorted, rows, cols);
    CentersOfRowMajor(sorted, cols, Min(|sorted|, rows * cols));
  }

  /** On a grid built from `tables`, the cutoff depends only on the centers of the first
      min(n, rows * cols) sorted tables; the fallback is used exactly when at most one
      table made it into the grid. */
  lemma CutoffOfBuiltGrid(v: seq<seq<Cell>>, tables: seq<Detection>, rows: nat, cols: nat,
                          settings: Settings, dist: (Point, Point) -> real)
    requires IsLayout(v, SortByCenter(tables), rows, cols)
    ensures |SortByCenter(tables)| == |tables|
    ensures MaxAllowedDistance(v, settings, dist) ==
      CutoffOf(TableCenters(SortByCenter(tables)[..Min(|tables|, rows * cols)]), settings, dist)
    ensures Min(|tables|, rows * cols) <= 1 ==> MaxAllowedDistance(v, settings, dist) == settings.fallbackDistance
  {
    LayoutCenters(v, tables, rows, cols);
    var cs := TableCenters(SortByCenter(tables)[..Min(|tables|, rows * cols)]);
    assert |cs| == Min(|tables|, rows * cols);
  }

  /** Grid, assignment and attendance steps for one image's detections. The grid is
      always stored on the classroom; the attendance is only rebuilt when a grid exists,
      so an image without tables keeps the previous image's matrix and map. */
  method ProcessDetections(classroom: Classroom, persons: seq<Detection>, tables: seq<Detection>,
                           settings: Settings, dist: (Point, Point) -> real)
    modifies classroom
    requires classroom.Valid()
    ensures classroom.Valid()
    ensures classroom.tableGrid.None? <==> tables == []
    ensures tables == [] ==>
      classroom.attendance == old(classroom.attendance) && classroom.assignments == old(classroom.assignments)
    ensures tables != [] ==>
      classroom.tableGrid.value.Length0 == classroom.rows && classroom.tableGrid.value.Length1 == classroom.cols
    ensures tables != [] ==>
      var v := View(classroom.tableGrid.value, classroom.rows, classroom.cols);
      && IsLayout(v, SortByCenter(tables), classroom.rows, classroom.cols)
      && classroom.assignments == Assign(persons, v, MaxAllowedDistance(v, settings, dist), dist)
      && classroom.Matrix() == OccupancyMatrix(classroom.assignments, classroom.rows, classroom.cols)
  {
    var tableGrid := CreateTableGrid(tables, classroom.rows, classroom.cols);
    classroom.tableGrid := tableGrid;
    if tableGrid.Some? {
      var assignments := AssignPersonsToTables(persons, tableGrid.value, (classroom.rows, classroom.cols), settings, dist);
      classroom.UpdateAttendance(assignments);
    }
  }
}
