# Classroom attendance: seat-assignment pipeline

This project models the core of a classroom attendance tool. An object detector
finds tables and persons in a photo. The tool then:

1. **Builds the grid.** It sorts the table detections by center (y first, then x)
   and lays them out row-major into a `rows x cols` grid. When the count is exactly
   `rows * cols`, the sorted list is reshaped. Otherwise it falls back to a grid of
   empty cells filled up to capacity, and the excess tables are dropped. No tables
   means no grid at all.
2. **Assigns persons to tables.** For each person it scans the grid row-major for
   the nearest table strictly closer than an adaptive cutoff. The cutoff is
   `ratio x` the mean distance over all pairs of table centers, or a fallback when
   there are fewer than two tables. Results go into a seat -> person map, where a
   later person overwrites an earlier one on the same seat.
3. **Keeps the occupancy.** The `Classroom` rebuilds a 0/1 attendance matrix from the
   map and derives a report: total seats, present, absent and percentage.

Files and modules:

- `detection.dfy`, module `Detections`: the `Detection` record, points, boxes and `Option`.
- `grid.dfy`, module `Grids`: cells (`Empty | Occupied(table)`) and the value view of a
  2-D array. It also defines the row-major scan over occupied cells, which both the
  engine's loops and its specification walk, and the row-major index arithmetic.
- `grid_manager.dfy`, module `GridManager`: the stable sort and the two layout branches.
  The grid is an `array2<Cell>` written in place, as in the source.
- `assignment.dfy`, module `Assignment`: the engine's three operations as methods with
  loops. They are proved equal to specification functions (`MaxAllowedDistance`,
  `BestTable`, `Assign`), and the properties of the engine are proved as lemmas about
  those functions. The first loop of `_get_max_allowed_distance` and its pair loops are
  two methods, `CollectCenters` and `CutoffFromCenters`. `GetMaxAllowedDistance` runs
  one after the other.
- `classroom.dfy`, module `Occupancy`: the `Classroom` class, with the attendance
  matrix as an `array2<int>` field, and the report.
- `pipeline.dfy`, module `Pipeline`: the composition that the command-line driver
  performs for one image (attendance_taking/run_attendance.py:36-49). It also holds
  lemmas that connect the grid builder to the engine.

The point distance (`_calculate_distance`, a Euclidean `np.sqrt`) is a parameter
`dist: (Point, Point) -> real`. Lemmas that need it non-negative and symmetric
require `IsDistance(dist)`. The configuration values (11 x 3 grid, ratio 0.4,
fallback 200) are parameters too. `Assignment.DefaultSettings` holds the engine's
constructor defaults.

Three behaviours of the code that are easy to miss, and that the model keeps:

- An image without tables does not reset the occupancy. The driver skips
  `update_attendance` when no grid is built, so the previous image's matrix and map
  stay in place (`Pipeline.ProcessDetections`). "Zero tables gives zero present" holds
  only for a fresh `Classroom`.
- The percentage is not always defined. With `rows * cols == 0`, numpy's `0 / 0` gives
  nan, modelled as `None`.
- Processing order matters for the map. When two persons pick the same seat, the later
  one in list order is stored (`Assignment.AssignIsLastClaim`).

## Model

| member | source | states |
|---|---|---|
| `Grids.GridSlotsSoundAndOrdered` | attendance_taking/processors/assignment.py:25-27 | The nested row/col scan meets only occupied cells inside the grid shape, and meets them in strictly increasing row-major order. |
| `Grids.GridSlotsComplete` | attendance_taking/processors/assignment.py:25-27 | Every occupied cell inside the grid shape is met by the scan. |
| `GridManager.SortByCenterSorted` | attendance_taking/processors/grid_manager.py:15 | The sorted list is ordered by (center-y, center-x) and is a permutation of the input tables. |
| `GridManager.SortByCenterStable` | attendance_taking/processors/grid_manager.py:15 | The sort is stable: tables with equal keys keep their input order. |
| `GridManager.CreatePartialGrid` | attendance_taking/processors/grid_manager.py:24-34 | Returns a fresh `rows x cols` grid. The cell with row-major index k holds table k when k < min(n, rows*cols), and every other cell is empty. |
| `GridManager.CreateTableGrid` | attendance_taking/processors/grid_manager.py:9-22 | Returns no grid exactly when the table list is empty. Otherwise it returns a fresh `rows x cols` grid that is the row-major layout of the tables sorted by (y, x). |
| `GridManager.LayoutUnique` | attendance_taking/processors/grid_manager.py:17-22 | Two grids that are both layouts of the same sorted list are equal, so the reshape branch and the partial-fill branch agree. |
| `GridManager.ExactFitFillsEveryCell` | attendance_taking/processors/grid_manager.py:17-19 | When n == rows*cols, no cell is empty and cell (r, c) holds sorted table r*cols + c. |
| `GridManager.LayoutPlacesTable` | attendance_taking/processors/grid_manager.py:28-32 | Sorted table i, for i < rows*cols, sits in cell (i div cols, i mod cols). |
| `GridManager.LayoutHoldsInputTables` | attendance_taking/processors/grid_manager.py:15-19 | Every filled cell of the built grid holds one of the input tables. |
| `GridManager.ScanOfLayout` | attendance_taking/processors/grid_manager.py:28-32 | The occupied cells of the built grid are exactly the first min(n, rows*cols) sorted tables, in order, table i at (i div cols, i mod cols). So exactly min(n, rows*cols) cells are filled and the excess tables are dropped. |
| `Assignment.CentersOfSlots` | attendance_taking/processors/assignment.py:43-47 | The centers list has one entry per occupied cell, in scan order. |
| `Assignment.PairDistancesCount` | attendance_taking/processors/assignment.py:49-53 | The pair loops produce n(n-1)/2 distances for n centers. |
| `Assignment.PairDistancesArePairs` | attendance_taking/processors/assignment.py:49-53 | The distance of each pair a < b of centers sits at that pair's lexicographic position, and every position belongs to such a pair: one entry per pair, no repeats. |
| `Assignment.PairIndexInjective` | attendance_taking/processors/assignment.py:49-53 | Distinct pairs a < b occupy distinct positions in the list of pair distances. |
| `Assignment.PairsBeforeFrom` | attendance_taking/processors/assignment.py:49-53 | After the outer loop has run i times, entry k is the distance of the pair (a, b) with a < i whose lexicographic position is k. |
| `Assignment.PairsBeforeAt` | attendance_taking/processors/assignment.py:49-53 | Once the outer loop has passed index a, the distance of pair (a, b) is at that pair's lexicographic position. |
| `Assignment.MaxAllowedDistanceNonNegative` | attendance_taking/processors/assignment.py:41-56 | The cutoff is never negative when the ratio and the fallback are not. |
| `Assignment.MaxAllowedDistanceMonotone` | attendance_taking/processors/assignment.py:41-56 | Raising the ratio or the fallback never lowers the cutoff. |
| `Assignment.NearestIsFirstMinimum` | attendance_taking/processors/assignment.py:25-34 | The scan finds nothing exactly when no table is below the cutoff. Otherwise the table it keeps is below the cutoff, no farther than any qualifying table, and strictly closer than every qualifying table met before it. |
| `Assignment.NearestStableUnderLargerCutoff` | attendance_taking/processors/assignment.py:32 | A larger cutoff does not change a table already found. |
| `Assignment.BestTableIsNearestQualifying` | attendance_taking/processors/assignment.py:20-36 | No seat is returned exactly when no occupied cell is strictly below the cutoff. A returned seat is an in-range occupied cell below the cutoff, no farther than any qualifying cell. On ties the earliest cell in row-major order wins. |
| `Assignment.BestTableStableUnderLargerCutoff` | attendance_taking/processors/assignment.py:32 | Raising the cutoff never moves a person who already has a seat. |
| `Assignment.AssignKeysAreClaims` | attendance_taking/processors/assignment.py:13-16 | A seat is a key of the map exactly when some person's best table is that seat. |
| `Assignment.AssignIsLastClaim` | attendance_taking/processors/assignment.py:13-16 | A key maps to the last person in list order whose best table is that seat; every earlier claimant is overwritten. |
| `Assignment.AssignKeysAreQualifyingSeats` | attendance_taking/processors/assignment.py:13-16 | Every key of the map is an in-range occupied cell whose table is strictly closer than the cutoff to the person stored there. |
| `Assignment.AssignValuesAreSeated` | attendance_taking/processors/assignment.py:13-16 | Every stored person is one of the input persons, and their own best table is the key they are stored under. So a person with no qualifying table never appears. |
| `Assignment.AssignSize` | attendance_taking/processors/assignment.py:11-18 | The map holds at most as many entries as there are persons. |
| `Assignment.AssignMonotone` | attendance_taking/processors/assignment.py:32 | With a larger cutoff, the set of taken seats can only grow, and so can the number of entries. |
| `Assignment.AssignMonotoneInSettings` | attendance_taking/processors/assignment.py:41-56 | Raising the ratio or the fallback never shrinks the set of taken seats or the number of seated persons, holding all detections fixed; the person in a seat may change. |
| `Assignment.CollectCenters` | attendance_taking/processors/assignment.py:43-47 | The first loop collects the centers of the occupied cells in row-major order. |
| `Assignment.CutoffFromCenters` | attendance_taking/processors/assignment.py:49-56 | The pair loops and the mean give ratio x the mean pairwise distance for two or more centers, and the fallback otherwise. |
| `Assignment.GetMaxAllowedDistance` | attendance_taking/processors/assignment.py:41-56 | The method returns the cutoff of the grid, a value independent of the person. |
| `Assignment.TracksStep` | attendance_taking/processors/assignment.py:27-34 | One occupied cell of the scan becomes the best exactly when it is strictly below the cutoff and strictly closer than the best so far (the first cell beats the initial infinity). |
| `Assignment.FindBestTable` | attendance_taking/processors/assignment.py:20-36 | The nested loops return the nearest qualifying seat described by `BestTable`. A returned position is inside the grid shape and its cell is occupied. |
| `Assignment.AssignPersonsToTables` | attendance_taking/processors/assignment.py:9-18 | The loop builds the `Assign` map. Every key is an in-range occupied cell, and the size is at most the number of persons. |
| `Occupancy.OccupancyMatrixMarks` | attendance_taking/models/classroom.py:22-25 | The rebuilt matrix is `rows x cols` and holds only 0 and 1. Cell (r, c) is 1 exactly when (r, c) is a key of the map; out-of-range keys leave no mark. |
| `Occupancy.MatrixSumBounds` | attendance_taking/models/classroom.py:30-31 | A `rows x cols` 0/1 matrix sums to a count between 0 and rows*cols. |
| `Occupancy.OccupancyCount` | attendance_taking/models/classroom.py:22-31 | The present count is the number of in-range keys of the map, hence at most the number of entries. |
| `Occupancy.PercentageBounds` | attendance_taking/models/classroom.py:38 | present / total * 100 lies in [0, 100] when 0 <= present <= total and total > 0, and scales back to present. |
| `Occupancy.Classroom.constructor` | attendance_taking/models/classroom.py:13-18 | A new classroom has an all-zero `rows x cols` matrix, no table grid and an empty map. |
| `Occupancy.Classroom.UpdateAttendance` | attendance_taking/models/classroom.py:20-26 | The matrix is replaced by a fresh one that depends on the new map alone: all earlier marks are discarded, and a second call with the same map gives the same matrix. The map is stored as given, and the table grid and dimensions are unchanged. |
| `Occupancy.Classroom.GetReport` | attendance_taking/models/classroom.py:28-39 | total = rows*cols and present = sum of the matrix, with 0 <= present <= total and present + absent = total. The percentage is undefined exactly when total = 0; otherwise it lies in [0, 100] and equals 100 * present / total. |
| `Pipeline.LayoutCenters` | attendance_taking/processors/assignment.py:43-47 | On a built grid, the collected centers are those of the first min(n, rows*cols) sorted tables, in sorted order. |
| `Pipeline.CutoffOfBuiltGrid` | attendance_taking/processors/assignment.py:49-56 | On a built grid, the cutoff depends only on the centers of the first min(n, rows*cols) sorted tables. It is the fallback when at most one table made it into the grid. |
| `Pipeline.ProcessDetections` | attendance_taking/run_attendance.py:36-49 | The grid is always stored, and it is absent exactly when there are no tables. With tables, the map is `Assign` over the built layout and the matrix is rebuilt from it. Without tables, the matrix and map are left as they were. |

## Left out

- Object detection (attendance_taking/detectors/yolo_detector.py) is not modelled. Detections are given values, and the center is a field of `Detection`.
- Drawing (attendance_taking/utils/visualization.py) and JSON/CSV/image writing (attendance_taking/utils/file_io.py) are not modelled: they are I/O only.
- The command-line driver's argument parsing, folder listing and printing are not modelled; only its per-image composition is, in `Pipeline.ProcessDetections`.
- `_calculate_distance` is not modelled numerically: `np.sqrt` on floats is replaced by the abstract `dist`.
- Floating point is not modelled: all arithmetic is on reals, `np.mean` is sum over count, and nan distances are not considered.
- The initial `float('inf')` best distance is modelled as "no best seat yet": while no seat is chosen, the stored distance is ignored.
- The numpy `try/except` around `reshape` is modelled as the test `n == rows * cols`, which is when the reshape succeeds.
- `GridManager` and `AssignmentProcessor` are not classes here. Their constructors only store `rows`, `cols` and the two tuning values, which are never updated, so these are parameters (`Settings` for the engine).
- `CollectCenters`, `FindBestTable`, `GetMaxAllowedDistance` and `AssignPersonsToTables` require the grid shape to fit the grid array. The source would raise `IndexError` otherwise; its only caller passes the grid's own shape.
- `Classroom` dimensions are `nat`. Negative dimensions make `np.zeros` raise; that is not modelled.
- The insertion order of the Python dict is not modelled: the map is a Dafny `map`, and the occupancy matrix does not depend on the order.
- `if table_pos:` is modelled as "a seat was found": a non-empty tuple is always truthy, so only `None` skips a person.
- The attendance update marks a fresh local array and then stores it, where the source marks `self.attendance` after replacing it. The resulting state is the same.
- The report's `matrix` is the matrix as a list of rows (`tolist()`); numpy integer types are plain integers.
