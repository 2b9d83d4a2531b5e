/** Grid builder: arranges an unordered list of table detections into a
    rows x cols grid, top row first and left column first. */
module GridManager {
  import opened Detections
  import opened Grids

  /** The sort key is (center-y, center-x), compared lexicographically. */
  function Key(d: Detection): (real, real) {
    (d.center.y, d.center.x)
  }

  /** `a` sorts strictly before `b`. */
  predicate KeyLess(a: Detection, b: Detection) {
    Key(a).0 < Key(b).0 || (Key(a).0 == Key(b).0 && Key(a).1 < Key(b).1)
  }

  predicate SortedByCenter(s: seq<Detection>) {
    forall i, j :: 0 <= i < j < |s| ==> !KeyLess(s[j], s[i])
  }

  /** Inserts `x` in front of the first element whose key is not smaller, so that
      `x` stays ahead of the equal-keyed elements that followed it in the input. */
  function InsertByCenter(x: Detection, s: seq<Detection>): (r: seq<Detection>)
    ensures multiset(r) == multiset(s) + multiset{x}
  {
    if s == [] then [x]
    else if KeyLess(s[0], x) then
      assert s == [s[0]] + s[1..];
      [s[0]] + InsertByCenter(x, s[1..])
    else [x] + s
  }

  /** A stable sort of the tables by (center-y, center-x): equal keys keep their input order. */
  function SortByCenter(s: seq<Detection>): (r: seq<Detection>)
    ensures multiset(r) == multiset(s)
  {
    if s == [] then []
    else
      assert s == [s[0]] + s[1..];
      InsertByCenter(s[0], SortByCenter(s[1..]))
  }

  /** `x` alone if its key is `k`, else none. */
  function Own(x: Detection, k: (real, real)): seq<Detection> {
    if Key(x) == k then [x] else []
  }

  /** The subsequence of `s` whose sort key is `k`, in order. */
  function WithKey(s: seq<Detection>, k: (real, real)): seq<Detection> {
    if s == [] then [] else Own(s[0], k) + WithKey(s[1..], k)
  }

  lemma {:induction false} InsertByCenterSorted(x: Detection, s: seq<Detection>)
    requires SortedByCenter(s)
    ensures SortedByCenter(InsertByCenter(x, s))
  {
    if s != [] && KeyLess(s[0], x) {
      InsertByCenterSorted(x, s[1..]);
      var r := InsertByCenter(x, s);
      var t := InsertByCenter(x, s[1..]);
      assert r == [s[0]] + t;
      forall j | 0 < j < |r| ensures !KeyLess(r[j], r[0]) {
        assert r[j] == t[j - 1];
        InsertByCenterMembers(x, s[1..], j - 1);
        if r[j] != x {
          var i :| 0 <= i < |s[1..]| && s[1..][i] == r[j];
          assert s[i + 1] == r[j];
        }
      }
    }
  }

  /** Every entry of the insertion result is `x` or an entry of `s`. */
  lemma {:induction false} InsertByCenterMembers(x: Detection, s: seq<Detection>, j: nat)
    requires j < |InsertByCenter(x, s)|
    ensures InsertByCenter(x, s)[j] == x || InsertByCenter(x, s)[j] in s
  {
    if s != [] && KeyLess(s[0], x) && j > 0 {
      InsertByCenterMembers(x, s[1..], j - 1);
      assert InsertByCenter(x, s)[j] == InsertByCenter(x, s[1..])[j - 1];
    }
  }

  /** The sort orders tables by (center-y, center-x) and keeps exactly the input's tables. */
  lemma {:induction false} SortByCenterSorted(s: seq<Detection>)
    ensures SortedByCenter(SortByCenter(s))
    ensures multiset(SortByCenter(s)) == multiset(s)
  {
    if s != [] {
      SortByCenterSorted(s[1..]);
      InsertByCenterSorted(s[0], SortByCenter(s[1..]));
    }
  }

  /** Putting a table in front of two lists with the same keyed tables up to `x`: when
      its key differs from `x`'s, at most one of the two is kept, so their order does not
      matter. */
  lemma PrependOtherKey(h: Detection, x: Detection, rest: seq<Detection>, tail: seq<Detection>, k: (real, real))
    requires Key(h) != Key(x)
    requires WithKey(rest, k) == Own(x, k) + WithKey(tail, k)
    ensures WithKey([h] + rest, k) == Own(x, k) + WithKey([h] + tail, k)
  {
    assert ([h] + rest)[0] == h && ([h] + rest)[1..] == rest;
    assert ([h] + tail)[0] == h && ([h] + tail)[1..] == tail;
    if Key(x) == k {
      assert Own(h, k) == [];
    } else {
      assert Own(x, k) == [];
    }
  }

  /** Inserting past a smaller head keeps the keyed tables in order. */
  lemma InsertPastHead(x: Detection, s: seq<Detection>, k: (real, real))
    requires s != [] && KeyLess(s[0], x)
    requires WithKey(InsertByCenter(x, s[1..]), k) == Own(x, k) + WithKey(s[1..], k)
    ensures WithKey(InsertByCenter(x, s), k) == Own(x, k) + WithKey(s, k)
  {
    assert InsertByCenter(x, s) == [s[0]] + InsertByCenter(x, s[1..]);
    assert s == [s[0]] + s[1..];
    PrependOtherKey(s[0], x, InsertByCenter(x, s[1..]), s[1..], k);
  }

  lemma {:induction false} InsertByCenterStable(x: Detection, s: seq<Detection>, k: (real, real))
    ensures WithKey(InsertByCenter(x, s), k) == Own(x, k) + WithKey(s, k)
  {
    if s != [] && KeyLess(s[0], x) {
      InsertByCenterStable(x, s[1..], k);
      InsertPastHead(x, s, k);
    } else if s != [] {
      assert InsertByCenter(x, s) == [x] + s;
      assert ([x] + s)[1..] == s;
    }
  }

  /** Stability: tables with equal keys keep their input order. */
  lemma {:induction false} SortByCenterStable(s: seq<Detection>, k: (real, real))
    ensures WithKey(SortByCenter(s), k) == WithKey(s, k)
  {
    if s != [] {
      SortByCenterStable(s[1..], k);
      InsertByCenterStable(s[0], SortByCenter(s[1..]), k);
    }
  }

  /** The cell holding row-major index `k`: the k-th table if there is one. */
  function LayoutCell(tables: seq<Detection>, k: int): Cell {
    if 0 <= k < |tables| then Occupied(tables[k]) else Empty
  }

  /** `v` is the row-major layout of `tables` into a rows x cols grid: cell (r, c)
      holds table number r * cols + c, if any; tables past rows * cols do not appear. */
  predicate IsLayout(v: seq<seq<Cell>>, tables: seq<Detection>, rows: nat, cols: nat) {
    IsGrid(v, rows, cols) &&
    forall r, c :: 0 <= r < rows && 0 <= c < cols ==> v[r][c] == LayoutCell(tables, r * cols + c)
  }

  /** Slots of the first `k` tables, table i at (i div cols, i mod cols). */
  function RowMajorSlots(tables: seq<Detection>, cols: nat, k: nat): seq<Slot>
    requires k <= |tables| && (k == 0 || cols > 0)
  {
    seq(k, i requires 0 <= i < k => Slot((i / cols, i % cols), tables[i]))
  }

  /** `np.full((rows, cols), None)` followed by the row-major fill of the first
      rows * cols tables; later tables are skipped. */
  method CreatePartialGrid(tables: seq<Detection>, rows: nat, cols: nat) returns (grid: array2<Cell>)
    ensures fresh(grid) && grid.Length0 == rows && grid.Length1 == cols
    ensures IsLayout(View(grid, rows, cols), tables, rows, cols)
  {
    grid := new Cell[rows, cols]((r, c) => Empty);
    for idx := 0 to |tables|
      invariant forall r, c :: 0 <= r < rows && 0 <= c < cols ==>
        grid[r, c] == (if r * cols + c < Min(idx, rows * cols) then Occupied(tables[r * cols + c]) else Empty)
    {
      if idx < rows * cols {
        RowMajorEncode(idx, rows, cols);
        var row := idx / cols;
        var col := idx % cols;
        grid[row, col] := Occupied(tables[idx]);
        forall r, c | 0 <= r < rows && 0 <= c < cols
          ensures grid[r, c] == (if r * cols + c < idx + 1 then Occupied(tables[r * cols + c]) else Empty)
        {
          RowMajorDecode(r, c, cols);
        }
      }
    }
    forall r, c | 0 <= r < rows && 0 <= c < cols
      ensures View(grid, rows, cols)[r][c] == LayoutCell(tables, r * cols + c)
    {
      RowMajorBound(r, c, rows, cols);
    }
  }

  /** `create_table_grid`: no grid for no tables; otherwise sort by center and lay the
      sorted tables out row-major, by reshaping when they fill the grid exactly and by
      the partial fill otherwise. Both branches build the layout of the sorted list. */
  method CreateTableGrid(tables: seq<Detection>, rows: nat, cols: nat) returns (grid: Option<array2<Cell>>)
    ensures grid.None? <==> tables == []
    ensures grid.Some? ==>
      && fresh(grid.value)
      && grid.value.Length0 == rows && grid.value.Length1 == cols
      && IsLayout(View(grid.value, rows, cols), SortByCenter(tables), rows, cols)
  {
    if tables == [] {
      return None;
    }
    var sorted := SortByCenter(tables);
    if |sorted| == rows * cols {
      // reshape(rows, cols): cell (r, c) takes element r * cols + c
      var g := new Cell[rows, cols]((r: nat, c: nat) => LayoutCell(sorted, r * cols + c));
      grid := Some(g);
    } else {
      var g := CreatePartialGrid(sorted, rows, cols);
      grid := Some(g);
    }
  }

  /** The layout is determined by the sorted tables and the shape, so the reshape
      branch and the partial-fill branch cannot build different grids. */
  lemma LayoutUnique(v: seq<seq<Cell>>, w: seq<seq<Cell>>, tables: seq<Detection>, rows: nat, cols: nat)
    requires IsLayout(v, tables, rows, cols) && IsLayout(w, tables, rows, cols)
    ensures v == w
  {
    forall r | 0 <= r < rows ensures v[r] == w[r] {
      assert forall c :: 0 <= c < cols ==> v[r][c] == w[r][c];
    }
  }

  /** When the tables fill the grid exactly, no cell is empty and cell (r, c) holds
      sorted table r * cols + c. */
  lemma ExactFitFillsEveryCell(v: seq<seq<Cell>>, sorted: seq<Detection>, rows: nat, cols: nat, r: nat, c: nat)
    requires IsLayout(v, sorted, rows, cols) && |sorted| == rows * cols
    requires r < rows && c < cols
    ensures r * cols + c < |sorted| && v[r][c] == Occupied(sorted[r * cols + c])
  {
    RowMajorBound(r, c, rows, cols);
  }

  /** Table i of the sorted list lands in cell (i div cols, i mod cols) whenever it fits. */
  lemma LayoutPlacesTable(v: seq<seq<Cell>>, sorted: seq<Detection>, rows: nat, cols: nat, i: nat)
    requires IsLayout(v, sorted, rows, cols)
    requires i < |sorted| && i < rows * cols
    ensures 0 <= i / cols < rows && 0 <= i % cols < cols
    ensures v[i / cols][i % cols] == Occupied(sorted[i])
  {
    RowMajorEncode(i, rows, cols);
    var r, c := i / cols, i % cols;
    assert v[r][c] == LayoutCell(sorted, r * cols + c);
  }

  /** Every filled cell of the grid built from `tables` holds one of the input tables. */
  lemma LayoutHoldsInputTables(v: seq<seq<Cell>>, tables: seq<Detection>, rows: nat, cols: nat, r: nat, c: nat)
    requires IsLayout(v, SortByCenter(tables), rows, cols)
    requires r < rows && c < cols && v[r][c].Occupied?
    ensures v[r][c].table in tables
  {
    var sorted := SortByCenter(tables);
    assert v[r][c] == LayoutCell(sorted, r * cols + c);
    assert sorted[r * cols + c] in multiset(sorted);
  }

  lemma {:induction false} RowScanOfLayout(v: seq<seq<Cell>>, tables: seq<Detection>, rows: nat, cols: nat, r: nat, c: nat)
    requires IsLayout(v, tables, rows, cols)
    requires r < rows && c <= cols
    ensures Min(|tables|, r * cols + c) == 0 || cols > 0
    ensures Min(|tables|, r * cols) == 0 || cols > 0
    ensures GridSlotsTo(v, r) == RowMajorSlots(tables, cols, Min(|tables|, r * cols)) ==>
            GridSlotsTo(v, r) + RowSlotsTo(v, r, c) == RowMajorSlots(tables, cols, Min(|tables|, r * cols + c))
    decreases c
  {
    if c > 0 {
      RowScanOfLayout(v, tables, rows, cols, r, c - 1);
      var k := r * cols + (c - 1);
      var before := RowMajorSlots(tables, cols, Min(|tables|, k));
      assert v[r][c - 1] == LayoutCell(tables, k);
      if GridSlotsTo(v, r) == RowMajorSlots(tables, cols, Min(|tables|, r * cols)) {
        assert GridSlotsTo(v, r) + RowSlotsTo(v, r, c - 1) == before;
        if k < |tables| {
          RowMajorDecode(r, c - 1, cols);
          assert RowMajorSlots(tables, cols, k + 1) == before + [Slot((r, c - 1), tables[k])];
        }
      }
    }
  }

  lemma {:induction false} GridScanOfLayout(v: seq<seq<Cell>>, tables: seq<Detection>, rows: nat, cols: nat, r: nat)
    requires IsLayout(v, tables, rows, cols)
    requires r <= rows
    ensures Min(|tables|, r * cols) == 0 || cols > 0
    ensures GridSlotsTo(v, r) == RowMajorSlots(tables, cols, Min(|tables|, r * cols))
  {
    if r > 0 {
      GridScanOfLayout(v, tables, rows, cols, r - 1);
      RowScanOfLayout(v, tables, rows, cols, r - 1, cols);
      assert (r - 1) * cols + cols == r * cols;
    }
  }

  /** A row-major scan of the built grid meets exactly the first min(n, rows * cols)
      sorted tables, in sorted order, table i at (i div cols, i mod cols): the
      filled cells number min(n, rows * cols) and the excess tables are dropped. */
  lemma ScanOfLayout(v: seq<seq<Cell>>, tables: seq<Detection>, rows: nat, cols: nat)
    requires IsLayout(v, tables, rows, cols)
    ensures Min(|tables|, rows * cols) == 0 || cols > 0
    ensures GridSlots(v) == RowMajorSlots(tables, cols, Min(|tables|, rows * cols))
    ensures |GridSlots(v)| == Min(|tables|, rows * cols)
  {
    GridScanOfLayout(v, tables, rows, cols, rows);
  }
}
