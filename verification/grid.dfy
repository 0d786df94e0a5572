/**
 The background grid: its cells, the `${row}-${col}` key each cell is known
 by, the row-major order in which the click handler visits the cells, the
 index -> cell mapping the renderer uses, and the grid size derived from the
 viewport.
 */
module Grid {
  import opened Text
  import opened Arith

  /** Side length in pixels the grid aims for (TARGET_CELL_SIZE). */
  const TARGET_CELL_SIZE: nat := 120

  datatype Cell = Cell(row: nat, col: nat)

  predicate Distinct<T(==)>(s: seq<T>) {
    forall i, j :: 0 <= i < j < |s| ==> s[i] != s[j]
  }

  function Members<T>(s: seq<T>): set<T> {
    set x | x in s
  }

  /** A non-empty sequence is its prefix followed by its last element. */
  lemma SplitLast<T>(s: seq<T>)
    requires s != []
    ensures s == s[..|s| - 1] + [s[|s| - 1]]
  {
  }

  /** A sequence without repetitions has as many elements as it has members. */
  lemma {:induction false} DistinctSetSize<T>(s: seq<T>)
    requires Distinct(s)
    ensures |Members(s)| == |s|
  {
    if s != [] {
      var init := s[..|s| - 1];
      assert Distinct(init);
      DistinctSetSize(init);
      SplitLast(s);
      assert Members(s) == Members(init) + {s[|s| - 1]};
    }
  }

  predicate InGrid(c: Cell, rows: nat, cols: nat) {
    c.row < rows && c.col < cols
  }

  /** The key `${row}-${col}` under which a cell's colour and flash are stored. */
  function Key(c: Cell): (k: string)
    ensures |k| >= 3
  {
    NatToString(c.row) + "-" + NatToString(c.col)
  }

  /** Two cells share a key only if they are the same cell. */
  lemma KeyInjective(a: Cell, b: Cell)
    requires Key(a) == Key(b)
    ensures a == b
  {
    var ra, rb := NatToString(a.row), NatToString(b.row);
    var ka, kb := Key(a), Key(b);
    assert ka[|ra|] == '-';
    assert kb[|rb|] == '-';
    assert ra == ka[..|ra|];
    assert rb == kb[..|rb|];
    NatToStringInjective(a.row, b.row);
    assert NatToString(a.col) == ka[|ra| + 1..];
    assert NatToString(b.col) == kb[|rb| + 1..];
    NatToStringInjective(a.col, b.col);
  }

  /** Keys of distinct cells are distinct. */
  lemma {:induction false} KeysDistinct(cells: seq<Cell>)
    requires Distinct(cells)
    ensures Distinct(Keys(cells))
  {
    forall i, j | 0 <= i < j < |cells| ensures Keys(cells)[i] != Keys(cells)[j] {
      if Key(cells[i]) == Key(cells[j]) {
        KeyInjective(cells[i], cells[j]);
      }
    }
  }

  /** The set of keys of `cells`. */
  function KeySet(cells: seq<Cell>): set<string> {
    set x | x in cells :: Key(x)
  }

  lemma KeySetAppend(cells: seq<Cell>, c: Cell)
    ensures KeySet(cells + [c]) == KeySet(cells) + {Key(c)}
  {
    assert forall x :: x in cells + [c] <==> x in cells || x == c;
  }

  /** Distinct cells have as many keys as cells. */
  lemma {:induction false} KeySetSize(cells: seq<Cell>)
    requires Distinct(cells)
    ensures |KeySet(cells)| == |cells|
  {
    if cells != [] {
      var init, c := cells[..|cells| - 1], cells[|cells| - 1];
      assert Distinct(init);
      KeySetSize(init);
      KeySetAppend(init, c);
      SplitLast(cells);
      if Key(c) in KeySet(init) {
        var x :| x in init && Key(x) == Key(c);
        KeyInjective(x, c);
      }
    }
  }

  function Keys(cells: seq<Cell>): (ks: seq<string>)
    ensures |ks| == |cells|
    ensures forall i :: 0 <= i < |cells| ==> ks[i] == Key(cells[i])
  {
    seq(|cells|, i requires 0 <= i < |cells| => Key(cells[i]))
  }

  /**
   The cells visited by `for (r = 0; r < rows; r++) for (c = 0; c < cols; c++)`
   before reaching row `r`, column `c`: all of rows 0..r-1, then row `r` up to
   (excluding) column `c`.
   */
  function RowMajor(r: nat, c: nat, cols: nat): (cells: seq<Cell>)
    requires c <= cols
    ensures |cells| == r * cols + c
    decreases r, c
  {
    if c > 0 then RowMajor(r, c - 1, cols) + [Cell(r, c - 1)]
    else if r > 0 then RowMajor(r - 1, cols, cols)
    else []
  }

  /** Every cell of a `rows` x `cols` grid, in the click handler's visiting order. */
  function AllCells(rows: nat, cols: nat): seq<Cell> {
    RowMajor(rows, 0, cols)
  }

  /** The visited cells are exactly those before (r, c) in row-major order, each once. */
  lemma {:induction false} RowMajorCells(r: nat, c: nat, cols: nat)
    requires c <= cols
    ensures forall x :: x in RowMajor(r, c, cols) <==> (x.row < r && x.col < cols) || (x.row == r && x.col < c)
    ensures Distinct(RowMajor(r, c, cols))
    decreases r, c
  {
    if c > 0 {
      RowMajorCells(r, c - 1, cols);
    } else if r > 0 {
      RowMajorCells(r - 1, cols, cols);
    }
  }

  /** The whole grid is visited, each cell once. */
  lemma AllCellsAreGrid(rows: nat, cols: nat)
    ensures forall x :: x in AllCells(rows, cols) <==> InGrid(x, rows, cols)
    ensures Distinct(AllCells(rows, cols))
    ensures |AllCells(rows, cols)| == rows * cols
  {
    RowMajorCells(rows, 0, cols);
  }

  /** The cell the renderer draws at position `index` of the grid. */
  function CellAt(index: nat, cols: nat): (c: Cell)
    requires cols > 0
    ensures c.col < cols && c.row * cols + c.col == index
  {
    Cell(index / cols, index % cols)
  }

  /** Position `i` of the rendered grid shows the cell the click handler visits `i`-th. */
  lemma {:induction false} RenderOrderMatchesVisitOrder(r: nat, c: nat, cols: nat)
    requires c <= cols && cols > 0
    ensures forall i :: 0 <= i < |RowMajor(r, c, cols)| ==> RowMajor(r, c, cols)[i] == CellAt(i, cols)
    decreases r, c
  {
    if c > 0 {
      RenderOrderMatchesVisitOrder(r, c - 1, cols);
      DivModOf(r * cols + (c - 1), cols, r, c - 1);
    } else if r > 0 {
      RenderOrderMatchesVisitOrder(r - 1, cols, cols);
    }
  }

  /** Rendering index -> key and the click loop produce the same keys in the same order. */
  lemma RenderedKeys(rows: nat, cols: nat)
    requires cols > 0
    ensures |AllCells(rows, cols)| == rows * cols
    ensures forall i :: 0 <= i < rows * cols ==> InGrid(CellAt(i, cols), rows, cols)
    ensures forall i :: 0 <= i < rows * cols ==> Key(CellAt(i, cols)) == Keys(AllCells(rows, cols))[i]
    ensures Distinct(Keys(AllCells(rows, cols)))
  {
    RenderOrderMatchesVisitOrder(rows, 0, cols);
    AllCellsAreGrid(rows, cols);
    KeysDistinct(AllCells(rows, cols));
    forall i | 0 <= i < rows * cols ensures InGrid(CellAt(i, cols), rows, cols) {
      assert CellAt(i, cols) == AllCells(rows, cols)[i];
    }
  }

  /** Math.max(1, Math.ceil(extent / TARGET_CELL_SIZE)) for an integer pixel extent. */
  function GridDimension(extent: nat): (n: nat)
    ensures 1 <= n
    ensures extent <= n * TARGET_CELL_SIZE
    ensures extent > 0 ==> (n - 1) * TARGET_CELL_SIZE < extent
    ensures extent == 0 ==> n == 1
  {
    var k := (extent + TARGET_CELL_SIZE - 1) / TARGET_CELL_SIZE;
    if k < 1 then 1 else k
  }
}
