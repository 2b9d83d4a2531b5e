/** Occupancy model: the classroom's 0/1 attendance matrix, rebuilt from a
    seat -> person map, and the report derived from it. */
module Occupancy {
  import opened Detections
  import opened Grids

  /** The matrix `update_attendance` builds: 1 at every in-range key of the map, 0 elsewhere. */
  function OccupancyMatrix(assignments: map<Pos, Detection>, rows: nat, cols: nat): seq<seq<int>> {
    seq(rows, r => seq(cols, c => if (r, c) in assignments then 1 else 0))
  }

  /** The keys of the map that name a seat inside the grid. */
  function InRangeKeys(assignments: map<Pos, Detection>, rows: nat, cols: nat): set<Pos> {
    set p | p in assignments && 0 <= p.0 < rows && 0 <= p.1 < cols
  }

  /** `np.sum` of a row. */
  function RowSum(row: seq<int>): int {
    if row == [] then 0 else RowSum(row[..|row| - 1]) + row[|row| - 1]
  }

  /** `np.sum` of a matrix given as a list of rows. */
  function MatrixSum(m: seq<seq<int>>): int {
    if m == [] then 0 else MatrixSum(m[..|m| - 1]) + RowSum(m[|m| - 1])
  }

  /** Every entry is 0 or 1. */
  predicate ZeroOne(m: seq<seq<int>>) {
    forall r, c :: 0 <= r < |m| && 0 <= c < |m[r]| ==> m[r][c] == 0 || m[r][c] == 1
  }

  /** The `update_attendance` matrix is `rows x cols`, holds only 0 and 1, and holds 1
      exactly at the seats that are keys of the map; out-of-range keys leave no mark. */
  lemma OccupancyMatrixMarks(assignments: map<Pos, Detection>, rows: nat, cols: nat)
    ensures IsGrid(OccupancyMatrix(assignments, rows, cols), rows, cols)
    ensures ZeroOne(OccupancyMatrix(assignments, rows, cols))
    ensures forall r, c :: 0 <= r < rows && 0 <= c < cols ==>
      (OccupancyMatrix(assignments, rows, cols)[r][c] == 1 <==> (r, c) in assignments)
  {
  }

  /** A 0/1 row sums to a count between 0 and its length. */
  lemma {:induction false} RowSumBounds(row: seq<int>)
    requires forall c :: 0 <= c < |row| ==> row[c] == 0 || row[c] == 1
    ensures 0 <= RowSum(row) <= |row|
    decreases |row|
  {
    if row != [] {
      RowSumBounds(row[..|row| - 1]);
    }
  }

  /** A 0/1 matrix of shape rows x cols sums to a count between 0 and rows * cols. */
  lemma {:induction false} MatrixSumBounds(m: seq<seq<int>>, rows: nat, cols: nat)
    requires IsGrid(m, rows, cols) && ZeroOne(m)
    ensures 0 <= MatrixSum(m) <= rows * cols
    decreases rows
  {
    if rows > 0 {
      var last := m[rows - 1];
      assert forall c :: 0 <= c < |last| ==> last[c] == 0 || last[c] == 1;
      RowSumBounds(last);
      MatrixSumBounds(m[..rows - 1], rows - 1, cols);
      assert (rows - 1) * cols + cols == rows * cols;
    }
  }

  /** Keys of row r with column below c. */
  function RowKeys(keys: set<Pos>, r: int, c: int): set<Pos> {
    set p | p in keys && p.0 == r && 0 <= p.1 < c
  }

  /** Keys with row below r. */
  function KeysBelow(keys: set<Pos>, r: int, cols: nat): set<Pos> {
    set p | p in keys && 0 <= p.0 < r && 0 <= p.1 < cols
  }

  lemma {:induction false} RowSumCounts(assignments: map<Pos, Detection>, rows: nat, cols: nat, r: nat, c: nat)
    requires r < rows && c <= cols
    ensures RowSum(OccupancyMatrix(assignments, rows, cols)[r][..c]) == |RowKeys(assignments.Keys, r, c)|
    decreases c
  {
    var row := OccupancyMatrix(assignments, rows, cols)[r];
    if c == 0 {
      assert RowKeys(assignments.Keys, r, c) == {};
    } else {
      RowSumCounts(assignments, rows, cols, r, c - 1);
      assert row[..c][..c - 1] == row[..c - 1];
      if (r, c - 1) in assignments {
        assert RowKeys(assignments.Keys, r, c) == RowKeys(assignments.Keys, r, c - 1) + {(r, c - 1)};
      } else {
        assert RowKeys(assignments.Keys, r, c) == RowKeys(assignments.Keys, r, c - 1);
      }
    }
  }

  lemma {:induction false} MatrixSumCounts(assignments: map<Pos, Detection>, rows: nat, cols: nat, r: nat)
    requires r <= rows
    ensures MatrixSum(OccupancyMatrix(assignments, rows, cols)[..r]) == |KeysBelow(assignments.Keys, r, cols)|
    decreases r
  {
    var m := OccupancyMatrix(assignments, rows, cols);
    if r == 0 {
      assert KeysBelow(assignments.Keys, r, cols) == {};
    } else {
      MatrixSumCounts(assignments, rows, cols, r - 1);
      RowSumCounts(assignments, rows, cols, r - 1, cols);
      assert m[..r][..r - 1] == m[..r - 1];
      assert m[r - 1][..cols] == m[r - 1];
      var below := KeysBelow(assignments.Keys, r - 1, cols);
      var row := RowKeys(assignments.Keys, r - 1, cols);
      assert KeysBelow(assignments.Keys, r, cols) == below + row;
      assert below * row == {};
    }
  }

  /** The number of persons marked present is the number of in-range seats of the map:
      several persons can never be counted on one seat, and out-of-range keys count
      for nothing. */
  lemma OccupancyCount(assignments: map<Pos, Detection>, rows: nat, cols: nat)
    ensures MatrixSum(OccupancyMatrix(assignments, rows, cols)) == |InRangeKeys(assignments, rows, cols)|
    ensures MatrixSum(OccupancyMatrix(assignments, rows, cols)) <= |assignments|
  {
    var m := OccupancyMatrix(assignments, rows, cols);
    MatrixSumCounts(assignments, rows, cols, rows);
    assert m[..rows] == m;
    assert KeysBelow(assignments.Keys, rows, cols) == InRangeKeys(assignments, rows, cols);
    assert InRangeKeys(assignments, rows, cols) <= assignments.Keys;
    SubsetSize(InRangeKeys(assignments, rows, cols), assignments.Keys);
  }


  /** Two matrices of the same shape with the same entries are equal. */
  lemma SameEntries(m: seq<seq<int>>, n: seq<seq<int>>, rows: nat, cols: nat)
    requires IsGrid(m, rows, cols) && IsGrid(n, rows, cols)
    requires forall r, c :: 0 <= r < rows && 0 <= c < cols ==> m[r][c] == n[r][c]
    ensures m == n
  {
    forall r | 0 <= r < rows ensures m[r] == n[r] {
      assert forall c :: 0 <= c < cols ==> m[r][c] == n[r][c];
    }
  }

  /** present / total * 100 lies in [0, 100] and scales back to present. */
  lemma PercentageBounds(present: int, total: int)
    requires 0 <= present <= total && 0 < total
    ensures 0.0 <= present as real / total as real * 100.0 <= 100.0
    ensures (present as real / total as real * 100.0) * (total as real) == (present as real) * 100.0
  {
    var q := present as real / total as real;
    assert q * (total as real) == present as real;
    assert 0.0 <= q;
  }

  /** The report `get_report` returns; `percentage` is None where numpy yields nan
      (a grid with no seats). */
  datatype Report = Report(matrix: seq<seq<int>>, totalSeats: int, present: int, absent: int,
                           percentage: Option<real>)

  /** `Classroom`: grid dimensions, the attendance matrix, the current table grid and
      the current seat -> person map. */
  class Classroom {
    const rows: nat
    const cols: nat
    var attendance: array2<int>
    var tableGrid: Option<array2<Cell>>
    var assignments: map<Pos, Detection>

    /** The matrix is `rows x cols` and holds only 0 and 1. */
    ghost predicate Valid()
      reads this, attendance
    {
      attendance.Length0 == rows && attendance.Length1 == cols && ZeroOne(Matrix())
    }

    /** `attendance.tolist()`. */
    function Matrix(): seq<seq<int>>
      reads this, attendance
      requires attendance.Length0 == rows && attendance.Length1 == cols
    {
      View(attendance, rows, cols)
    }

    /** `__init__`: an all-zero matrix, no table grid, no assignments. */
    constructor(rows: nat, cols: nat)
      ensures this.rows == rows && this.cols == cols
      ensures Valid() && fresh(attendance)
      ensures Matrix() == OccupancyMatrix(map[], rows, cols)
      ensures tableGrid == None && assignments == map[]
    {
      this.rows := rows;
      this.cols := cols;
      attendance := new int[rows, cols]((r, c) => 0);
      tableGrid := None;
      assignments := map[];
      new;
      SameEntries(Matrix(), OccupancyMatrix(map[], rows, cols), rows, cols);
    }

    /** `update_attendance`: a fresh zero matrix with 1 at every in-range key of the new
        map, which is then stored as given. */
    method UpdateAttendance(newAssignments: map<Pos, Detection>)
      modifies this
      ensures Valid() && fresh(attendance)
      ensures Matrix() == OccupancyMatrix(newAssignments, rows, cols)
      ensures assignments == newAssignments && tableGrid == old(tableGrid)
    {
      var matrix := new int[rows, cols]((r, c) => 0);
      var pending := newAssignments.Keys;
      while pending != {}
        invariant pending <= newAssignments.Keys
        invariant forall r, c :: 0 <= r < rows && 0 <= c < cols ==>
          matrix[r, c] == if (r, c) in newAssignments.Keys - pending then 1 else 0
        modifies matrix
        decreases pending
      {
        var key :| key in pending;
        var (row, col) := key;
        if 0 <= row < rows && 0 <= col < cols {
          matrix[row, col] := 1;
        }
        pending := pending - {key};
      }
      attendance := matrix;
      assignments := newAssignments;
      SameEntries(Matrix(), OccupancyMatrix(newAssignments, rows, cols), rows, cols);
    }

    /** `get_report`: total seats, number present (the sum of the matrix), number absent
        and the present percentage. */
    function GetReport(): (rep: Report)
      reads this, attendance
      requires Valid()
      ensures rep.matrix == Matrix() && rep.totalSeats == rows * cols
      ensures rep.present == MatrixSum(Matrix())
      ensures 0 <= rep.present <= rep.totalSeats && rep.present + rep.absent == rep.totalSeats
      ensures rep.percentage.None? <==> rep.totalSeats == 0
      ensures rep.percentage.Some? ==>
        0.0 <= rep.percentage.value <= 100.0 &&
        rep.percentage.value * (rep.totalSeats as real) == (rep.present as real) * 100.0
    {
      var total := rows * cols;
      var present := MatrixSum(Matrix());
      MatrixSumBounds(Matrix(), rows, cols);
      Report(Matrix(), total, present, total - present,
             if total == 0 then None
             else PercentageBounds(present, total); Some(present as real / total as real * 100.0))
    }
  }
}
