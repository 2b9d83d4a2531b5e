/** The table grid shared by the grid builder and the assignment engine: cells,
    seat positions, the row-major scan over occupied cells, and the row-major
    index arithmetic both components rely on. */
module Grids {
  import opened Detections

  /** A grid cell: no table (`None` in the object array) or a table detection. */
  datatype Cell = Empty | Occupied(table: Detection)

  /** A seat coordinate (row, col). Keys of an assignment map are arbitrary integer
      pairs; the occupancy model ignores those outside the grid. */
  type Pos = (int, int)

  /** An occupied cell met by a row-major scan: where it is and which table it holds. */
  datatype Slot = Slot(pos: Pos, table: Detection)

  function Min(a: int, b: int): int { if a <= b then a else b }

  /** `p` comes strictly before `q` in row-major order. */
  predicate Before(p: Pos, q: Pos) {
    p.0 < q.0 || (p.0 == q.0 && p.1 < q.1)
  }

  /** The value held by the top-left `rows x cols` block of a 2-D array. */
  function View<T>(g: array2<T>, rows: nat, cols: nat): (v: seq<seq<T>>)
    reads g
    requires rows <= g.Length0 && cols <= g.Length1
    ensures |v| == rows
    ensures forall r :: 0 <= r < rows ==> |v[r]| == cols
    ensures forall r, c :: 0 <= r < rows && 0 <= c < cols ==> v[r][c] == g[r, c]
  {
    seq(rows, r requires 0 <= r < rows reads g =>
      seq(cols, c requires 0 <= c < cols reads g => g[r, c]))
  }

  /** Shape predicate for a grid value: `rows` rows of `cols` entries. */
  predicate IsGrid<T>(v: seq<seq<T>>, rows: nat, cols: nat) {
    |v| == rows && forall r :: 0 <= r < rows ==> |v[r]| == cols
  }

  /** A slot names a real occupied cell of `v`. */
  predicate SlotIn(v: seq<seq<Cell>>, s: Slot) {
    0 <= s.pos.0 < |v| && 0 <= s.pos.1 < |v[s.pos.0]| && v[s.pos.0][s.pos.1] == Occupied(s.table)
  }

  /** Occupied cells of row `r` left of column `c`, left to right. */
  function RowSlotsTo(v: seq<seq<Cell>>, r: nat, c: nat): seq<Slot>
    requires r < |v| && c <= |v[r]|
    decreases c
  {
    if c == 0 then []
    else
      RowSlotsTo(v, r, c - 1) +
      match v[r][c - 1]
      case Empty => []
      case Occupied(t) => [Slot((r, c - 1), t)]
  }

  /** Occupied cells of the rows above `r`, in row-major order. */
  function GridSlotsTo(v: seq<seq<Cell>>, r: nat): seq<Slot>
    requires r <= |v|
  {
    if r == 0 then [] else GridSlotsTo(v, r - 1) + RowSlotsTo(v, r - 1, |v[r - 1]|)
  }

  /** The slots of a row scan name occupied cells of that row, left of `c`, from left to right. */
  lemma {:induction false} RowSlotsSoundAndOrdered(v: seq<seq<Cell>>, r: nat, c: nat)
    requires r < |v| && c <= |v[r]|
    ensures forall i :: 0 <= i < |RowSlotsTo(v, r, c)| ==>
      SlotIn(v, RowSlotsTo(v, r, c)[i]) && RowSlotsTo(v, r, c)[i].pos.0 == r && RowSlotsTo(v, r, c)[i].pos.1 < c
    ensures forall i, j :: 0 <= i < |RowSlotsTo(v, r, c)| && 0 <= j < |RowSlotsTo(v, r, c)| ==>
      (Before(RowSlotsTo(v, r, c)[i].pos, RowSlotsTo(v, r, c)[j].pos) <==> i < j)
    decreases c
  {
    if c > 0 { RowSlotsSoundAndOrdered(v, r, c - 1); }
  }

  /** The slots of a scan over the rows above `r` name occupied cells of those rows, in
      strictly increasing row-major order. */
  lemma {:induction false} GridSlotsSoundAndOrdered(v: seq<seq<Cell>>, r: nat)
    requires r <= |v|
    ensures forall i :: 0 <= i < |GridSlotsTo(v, r)| ==> SlotIn(v, GridSlotsTo(v, r)[i]) && GridSlotsTo(v, r)[i].pos.0 < r
    ensures forall i, j :: 0 <= i < |GridSlotsTo(v, r)| && 0 <= j < |GridSlotsTo(v, r)| ==>
      (Before(GridSlotsTo(v, r)[i].pos, GridSlotsTo(v, r)[j].pos) <==> i < j)
  {
    if r > 0 {
      GridSlotsSoundAndOrdered(v, r - 1);
      RowSlotsSoundAndOrdered(v, r - 1, |v[r - 1]|);
    }
  }

  /** Every occupied cell of the grid, in the row-major order of a scan. */
  function GridSlots(v: seq<seq<Cell>>): seq<Slot> {
    GridSlotsTo(v, |v|)
  }

  /** Occupied cells met by a row-major scan before it reaches (r, c). */
  function ScanTo(v: seq<seq<Cell>>, r: nat, c: nat): seq<Slot>
    requires r < |v| && c <= |v[r]|
  {
    GridSlotsTo(v, r) + RowSlotsTo(v, r, c)
  }

  /** A row's scan starts where the rows above it ended and ends where the next row starts. */
  lemma ScanRow(v: seq<seq<Cell>>, r: nat)
    requires r < |v|
    ensures ScanTo(v, r, 0) == GridSlotsTo(v, r)
    ensures ScanTo(v, r, |v[r]|) == GridSlotsTo(v, r + 1)
  {
    assert RowSlotsTo(v, r, 0) == [];
  }

  /** One step of the scan: cell (r, c) adds its slot when occupied. */
  lemma ScanStep(v: seq<seq<Cell>>, r: nat, c: nat)
    requires r < |v| && c < |v[r]|
    ensures ScanTo(v, r, c + 1) ==
      ScanTo(v, r, c) + match v[r][c] case Empty => [] case Occupied(t) => [Slot((r, c), t)]
  {
  }

  lemma {:induction false} RowSlotsComplete(v: seq<seq<Cell>>, r: nat, c: nat, col: nat) returns (i: nat)
    requires r < |v| && col < c <= |v[r]| && v[r][col].Occupied?
    ensures i < |RowSlotsTo(v, r, c)| && RowSlotsTo(v, r, c)[i] == Slot((r, col), v[r][col].table)
    decreases c
  {
    if col == c - 1 {
      i := |RowSlotsTo(v, r, c - 1)|;
    } else {
      i := RowSlotsComplete(v, r, c - 1, col);
    }
  }

  lemma {:induction false} GridSlotsToComplete(v: seq<seq<Cell>>, r: nat, row: nat, col: nat) returns (i: nat)
    requires row < r <= |v| && col < |v[row]| && v[row][col].Occupied?
    ensures i < |GridSlotsTo(v, r)| && GridSlotsTo(v, r)[i] == Slot((row, col), v[row][col].table)
    decreases r
  {
    if row == r - 1 {
      var k := RowSlotsComplete(v, row, |v[row]|, col);
      i := |GridSlotsTo(v, r - 1)| + k;
    } else {
      i := GridSlotsToComplete(v, r - 1, row, col);
    }
  }

  /** The scan meets every occupied cell: each one has its slot in GridSlots. */
  lemma GridSlotsComplete(v: seq<seq<Cell>>, row: nat, col: nat) returns (i: nat)
    requires row < |v| && col < |v[row]| && v[row][col].Occupied?
    ensures i < |GridSlots(v)| && GridSlots(v)[i] == Slot((row, col), v[row][col].table)
  {
    i := GridSlotsToComplete(v, |v|, row, col);
  }

  /** A subset is no larger than its superset. */
  lemma SubsetSize<T>(a: set<T>, b: set<T>)
    requires a <= b
    ensures |a| <= |b|
  {
    assert b == a + (b - a);
  }

  lemma MulStrict(a: nat, b: nat, k: nat)
    requires a < b
    ensures a * k + k <= b * k
  {
    if a + 1 < b { MulStrict(a, b - 1, k); }
  }

  /** A cell inside a rows x cols grid has a row-major index below rows * cols. */
  lemma RowMajorBound(r: nat, c: nat, rows: nat, cols: nat)
    requires r < rows && c < cols
    ensures r * cols + c < rows * cols
  {
    MulStrict(r, rows, cols);
  }

  /** The row-major index r * cols + c decodes back to (r, c). */
  lemma RowMajorDecode(r: nat, c: nat, cols: nat)
    requires c < cols
    ensures (r * cols + c) / cols == r && (r * cols + c) % cols == c
  {
    var i := r * cols + c;
    var q, m := i / cols, i % cols;
    assert q * cols + m == i && 0 <= m < cols;
    if q < r { MulStrict(q, r, cols); assert false; }
    else if q > r { MulStrict(r, q, cols); assert false; }
  }

  /** An index below rows * cols encodes a cell inside the grid. */
  lemma RowMajorEncode(i: nat, rows: nat, cols: nat)
    requires i < rows * cols
    ensures cols > 0 && i / cols < rows && i % cols < cols
    ensures (i / cols) * cols + i % cols == i
  {
    var q := i / cols;
    if q >= rows {
      if q > rows { MulStrict(rows, q, cols); }
      assert false;
    }
  }
}
