/**
 * The grid graph the maze is carved on: cells, adjacency, the wall between two
 * adjacent cells and the shapes of the two wall matrices of index.js.
 */
module Grid {

  /** A cell (row, column) of the grid. */
  type Cell = (int, int)

  predicate InGrid(p: Cell, rows: int, cols: int) {
    0 <= p.0 < rows && 0 <= p.1 < cols
  }

  /** Two cells that share a side. */
  predicate Adjacent(a: Cell, b: Cell) {
    (a.0 == b.0 && (a.1 == b.1 + 1 || b.1 == a.1 + 1)) ||
    (a.1 == b.1 && (a.0 == b.0 + 1 || b.0 == a.0 + 1))
  }

  /** Every grid neighbour of `p` belongs to `s`. */
  ghost predicate NeighborsIn(p: Cell, s: set<Cell>, rows: int, cols: int) {
    forall q :: InGrid(q, rows, cols) && Adjacent(p, q) ==> q in s
  }

  lemma NeighborsInGrows(p: Cell, s: set<Cell>, t: set<Cell>, rows: int, cols: int)
    requires NeighborsIn(p, s, rows, cols) && s <= t
    ensures NeighborsIn(p, t, rows, cols)
  {
  }

  /** All the cells of a `rows` x `cols` grid. */
  ghost function AllCells(rows: nat, cols: nat): (cells: set<Cell>)
    ensures forall p :: p in cells <==> InGrid(p, rows, cols)
  {
    set r, c | 0 <= r < rows && 0 <= c < cols :: (r, c)
  }

  ghost function RowCells(r: int, cols: nat): (cells: set<Cell>)
    ensures forall p :: p in cells <==> p.0 == r && 0 <= p.1 < cols
  {
    set c | 0 <= c < cols :: (r, c)
  }

  lemma {:induction false} RowCellsCount(r: int, cols: nat)
    ensures |RowCells(r, cols)| == cols
  {
    if cols > 0 {
      RowCellsCount(r, cols - 1);
      assert RowCells(r, cols) == RowCells(r, cols - 1) + {(r, cols - 1)};
    }
  }

  /** A `rows` x `cols` grid has exactly `rows * cols` cells. */
  lemma {:induction false} AllCellsCount(rows: nat, cols: nat)
    ensures |AllCells(rows, cols)| == rows * cols
  {
    if rows > 0 {
      AllCellsCount(rows - 1, cols);
      RowCellsCount(rows - 1, cols);
      AllCellsSplit(rows, cols);
      RowMore(rows - 1, cols);
    }
  }

  lemma AllCellsSplit(rows: nat, cols: nat)
    requires rows > 0
    ensures |AllCells(rows, cols)| == |AllCells(rows - 1, cols)| + |RowCells(rows - 1, cols)|
  {
    assert AllCells(rows, cols) == AllCells(rows - 1, cols) + RowCells(rows - 1, cols);
    assert AllCells(rows - 1, cols) !! RowCells(rows - 1, cols);
  }

  lemma RowMore(n: int, cols: int)
    ensures (n + 1) * cols == n * cols + cols
  {
  }

  /**
   * The grid graph is connected: a set of cells that holds one cell and, with
   * each of its cells, every grid neighbour of it, holds the whole grid.
   */
  lemma ClosedSetCoversGrid(s: set<Cell>, rows: int, cols: int, start: Cell)
    requires InGrid(start, rows, cols) && start in s
    requires forall p :: p in s ==> NeighborsIn(p, s, rows, cols)
    ensures forall q :: InGrid(q, rows, cols) ==> q in s
  {
    forall q | InGrid(q, rows, cols) ensures q in s {
      ReachAlongColumn(s, rows, cols, start, q.0);
      ReachAlongRow(s, rows, cols, (q.0, start.1), q.1);
    }
  }

  /** From a cell of the closed set `s`, every cell of the same column is in `s`. */
  lemma {:induction false} ReachAlongColumn(s: set<Cell>, rows: int, cols: int, from: Cell, r: int)
    requires InGrid(from, rows, cols) && from in s && 0 <= r < rows
    requires forall p :: p in s ==> NeighborsIn(p, s, rows, cols)
    ensures (r, from.1) in s
    decreases if r < from.0 then from.0 - r else r - from.0
  {
    if r < from.0 {
      assert NeighborsIn(from, s, rows, cols);
      assert Adjacent(from, (from.0 - 1, from.1));
      ReachAlongColumn(s, rows, cols, (from.0 - 1, from.1), r);
    } else if r > from.0 {
      assert NeighborsIn(from, s, rows, cols);
      assert Adjacent(from, (from.0 + 1, from.1));
      ReachAlongColumn(s, rows, cols, (from.0 + 1, from.1), r);
    }
  }

  /** From a cell of the closed set `s`, every cell of the same row is in `s`. */
  lemma {:induction false} ReachAlongRow(s: set<Cell>, rows: int, cols: int, from: Cell, c: int)
    requires InGrid(from, rows, cols) && from in s && 0 <= c < cols
    requires forall p :: p in s ==> NeighborsIn(p, s, rows, cols)
    ensures (from.0, c) in s
    decreases if c < from.1 then from.1 - c else c - from.1
  {
    if c < from.1 {
      assert NeighborsIn(from, s, rows, cols);
      assert Adjacent(from, (from.0, from.1 - 1));
      ReachAlongRow(s, rows, cols, (from.0, from.1 - 1), c);
    } else if c > from.1 {
      assert NeighborsIn(from, s, rows, cols);
      assert Adjacent(from, (from.0, from.1 + 1));
      ReachAlongRow(s, rows, cols, (from.0, from.1 + 1), c);
    }
  }

  /** Which matrix a wall entry lives in. */
  datatype Orientation = Horizontal | Vertical

  /**
   * Entry [row][column] of `verticals` (the wall between (row, column) and
   * (row, column + 1)) or of `horizontals` (the wall between (row, column) and
   * (row + 1, column)).
   */
  datatype Wall = Wall(orientation: Orientation, row: int, column: int)

  /** The cell on the low side of a wall. */
  function Near(w: Wall): Cell {
    (w.row, w.column)
  }

  /** The cell on the high side of a wall. */
  function Far(w: Wall): Cell {
    match w.orientation
    case Vertical => (w.row, w.column + 1)
    case Horizontal => (w.row + 1, w.column)
  }

  /** Wall `w` is the one between cells `a` and `b`. */
  predicate Separates(w: Wall, a: Cell, b: Cell) {
    (a == Near(w) && b == Far(w)) || (a == Far(w) && b == Near(w))
  }

  /** Cells `x` and `y` are joined by a wall of `ps`, i.e. by an open passage. */
  predicate Step(ps: set<Wall>, x: Cell, y: Cell) {
    (Wall(Vertical, x.0, x.1) in ps && y == (x.0, x.1 + 1)) ||
    (Wall(Vertical, y.0, y.1) in ps && x == (y.0, y.1 + 1)) ||
    (Wall(Horizontal, x.0, x.1) in ps && y == (x.0 + 1, x.1)) ||
    (Wall(Horizontal, y.0, y.1) in ps && x == (y.0 + 1, y.1))
  }

  /** `path` leads from `a` to `b` through passages of `ps` only. */
  ghost predicate Walk(path: seq<Cell>, ps: set<Wall>, a: Cell, b: Cell) {
    |path| >= 1 && path[0] == a && path[|path| - 1] == b &&
    forall i :: 0 <= i < |path| - 1 ==> Step(ps, path[i], path[i + 1])
  }

  /** Some walk through the passages `ps` leads from `a` to `b`. */
  ghost predicate Linked(ps: set<Wall>, a: Cell, b: Cell) {
    exists path :: Walk(path, ps, a, b)
  }

  lemma StepSeparated(ps: set<Wall>, w: Wall, x: Cell, y: Cell)
    requires w in ps && Separates(w, x, y)
    ensures Step(ps, x, y) && Step(ps, y, x)
  {
  }

  lemma LinkedToItself(ps: set<Wall>, a: Cell)
    ensures Linked(ps, a, a)
  {
    assert Walk([a], ps, a, a);
  }

  /** Opening more walls keeps every walk. */
  lemma LinkedGrows(ps: set<Wall>, qs: set<Wall>, a: Cell, b: Cell)
    requires ps <= qs && Linked(ps, a, b)
    ensures Linked(qs, a, b)
  {
    var path :| Walk(path, ps, a, b);
    assert Walk(path, qs, a, b);
  }

  /** A walk from `b`, preceded by the passage `w` from `a` to `b`, is a walk from `a`. */
  lemma LinkedThrough(ps: set<Wall>, w: Wall, a: Cell, b: Cell, c: Cell)
    requires w in ps && Separates(w, a, b) && Linked(ps, b, c)
    ensures Linked(ps, a, c)
  {
    var path :| Walk(path, ps, b, c);
    StepSeparated(ps, w, a, b);
    var longer := [a] + path;
    forall i | 0 <= i < |longer| - 1 ensures Step(ps, longer[i], longer[i + 1]) {
      if i > 0 {
        assert longer[i] == path[i - 1] && longer[i + 1] == path[i];
      }
    }
    assert Walk(longer, ps, a, c);
  }

  /** Walks can be taken backwards. */
  lemma LinkedSymmetric(ps: set<Wall>, a: Cell, b: Cell)
    requires Linked(ps, a, b)
    ensures Linked(ps, b, a)
  {
    var path :| Walk(path, ps, a, b);
    var back := seq(|path|, i requires 0 <= i < |path| => path[|path| - 1 - i]);
    forall i | 0 <= i < |back| - 1 ensures Step(ps, back[i], back[i + 1]) {
      var j := |path| - 2 - i;
      assert Step(ps, path[j], path[j + 1]);
      assert back[i] == path[j + 1] && back[i + 1] == path[j];
    }
    assert Walk(back, ps, b, a);
  }

  /** Two walks that meet make one. */
  lemma LinkedTransitive(ps: set<Wall>, a: Cell, b: Cell, c: Cell)
    requires Linked(ps, a, b) && Linked(ps, b, c)
    ensures Linked(ps, a, c)
  {
    var first :| Walk(first, ps, a, b);
    var second :| Walk(second, ps, b, c);
    var whole := first + second[1..];
    forall i | 0 <= i < |whole| - 1 ensures Step(ps, whole[i], whole[i + 1]) {
      if i < |first| - 1 {
        assert whole[i] == first[i] && whole[i + 1] == first[i + 1];
      } else {
        var j := i - (|first| - 1);
        assert whole[i] == second[j] && whole[i + 1] == second[j + 1];
      }
    }
    assert Walk(whole, ps, a, c);
  }

  /** Cells all linked to one `hub` are linked to each other. */
  lemma LinkedThroughHub(ps: set<Wall>, s: set<Cell>, hub: Cell)
    requires forall p :: p in s ==> Linked(ps, hub, p)
    ensures forall p, q :: p in s && q in s ==> Linked(ps, p, q)
  {
    forall p, q | p in s && q in s ensures Linked(ps, p, q) {
      LinkedSymmetric(ps, hub, p);
      LinkedTransitive(ps, p, hub, q);
    }
  }

  /** The dimensions of the two wall matrices. */
  datatype Shape = Shape(verticalRows: int, verticalCols: int, horizontalRows: int, horizontalCols: int)

  /**
   * The wall matrices of a `rows` x `cols` grid: `verticals` is rows x (cols - 1)
   * and `horizontals` is (rows - 1) x cols. With these shapes the entries of the
   * two matrices are exactly the walls between two cells of the grid: every
   * carve writes in range, and every entry stands for a real wall.
   */
  function WallShape(rows: int, cols: int): (shape: Shape)
    ensures forall w :: Fits(w, shape) <==> InGrid(Near(w), rows, cols) && InGrid(Far(w), rows, cols)
  {
    Shape(rows, cols - 1, rows - 1, cols)
  }

  /**
   * The dimensions index.js gives the matrices, with cellsVertical = rows and
   * cellsHorizontal = cols: `verticals` is cellsVertical x (cellsVertical - 1)
   * and `horizontals` is (cellsHorizontal - 1) x cellsHorizontal.
   */
  function SourceWallShape(cellsVertical: int, cellsHorizontal: int): Shape {
    Shape(cellsVertical, cellsVertical - 1, cellsHorizontal - 1, cellsHorizontal)
  }

  /** The entry of `w` is inside the matrix `shape` gives it. */
  predicate Fits(w: Wall, shape: Shape) {
    match w.orientation
    case Vertical => 0 <= w.row < shape.verticalRows && 0 <= w.column < shape.verticalCols
    case Horizontal => 0 <= w.row < shape.horizontalRows && 0 <= w.column < shape.horizontalCols
  }

  /** The two cells a wall separates are adjacent. */
  lemma WallSidesAdjacent(w: Wall)
    ensures Adjacent(Near(w), Far(w))
  {
  }

  /** On a square grid, as in index.js (3 x 3), the source's shapes are the right ones. */
  lemma SourceWallShapeOnSquareGrid(n: int)
    ensures SourceWallShape(n, n) == WallShape(n, n)
  {
  }

  /**
   * On a 3 x 2 grid the source's `horizontals` has a single row, so carving down
   * from cell (1, 0) writes a row that does not exist.
   */
  lemma SourceWallShapeMisfit()
    ensures var w := Wall(Horizontal, 1, 0);
      InGrid(Near(w), 3, 2) && InGrid(Far(w), 3, 2) && !Fits(w, SourceWallShape(3, 2))
  {
  }
}
