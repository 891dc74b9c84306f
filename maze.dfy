/**
 * The maze generator of index.js: the `grid`, `verticals` and `horizontals`
 * matrices, the random start cell and the recursive carve `stepThroughCell`.
 */
module Maze {
  import opened Shuffling
  import opened Grid
  import opened Emission

  datatype Direction = Up | Down | Right | Left

  /** An entry [nextRow, nextColumn, direction] of the `neighbors` list. */
  datatype Neighbor = Neighbor(row: int, column: int, direction: Direction)

  function Target(n: Neighbor): Cell {
    (n.row, n.column)
  }

  /** The four candidates of `stepThroughCell`, in the order the source lists them. */
  function Candidates(row: int, column: int): (ns: seq<Neighbor>)
    ensures |ns| == 4
    ensures forall n :: n in ns ==> Adjacent((row, column), Target(n))
  {
    [Neighbor(row - 1, column, Up),
     Neighbor(row + 1, column, Down),
     Neighbor(row, column + 1, Right),
     Neighbor(row, column - 1, Left)]
  }

  /** Every cell adjacent to (row, column) is the target of one of the candidates. */
  lemma CandidatesCoverNeighbors(row: int, column: int, q: Cell)
    requires Adjacent((row, column), q)
    ensures exists n :: n in Candidates(row, column) && Target(n) == q
  {
    var ns := Candidates(row, column);
    if q == (row - 1, column) {
      assert Target(ns[0]) == q;
    } else if q == (row + 1, column) {
      assert Target(ns[1]) == q;
    } else if q == (row, column + 1) {
      assert Target(ns[2]) == q;
    } else {
      assert Target(ns[3]) == q;
    }
  }

  /** The matrix entry `stepThroughCell` sets when it moves from (row, column) in `direction`. */
  function Carved(row: int, column: int, direction: Direction): (w: Wall)
    ensures direction == Up ==> Separates(w, (row, column), (row - 1, column))
    ensures direction == Down ==> Separates(w, (row, column), (row + 1, column))
    ensures direction == Right ==> Separates(w, (row, column), (row, column + 1))
    ensures direction == Left ==> Separates(w, (row, column), (row, column - 1))
  {
    match direction
    case Left => Wall(Vertical, row, column - 1)
    case Right => Wall(Vertical, row, column)
    case Up => Wall(Horizontal, row - 1, column)
    case Down => Wall(Horizontal, row, column)
  }

  /** The entry set for a candidate is the wall between the current cell and that candidate. */
  lemma CarvedSeparates(row: int, column: int, n: Neighbor)
    requires n in Candidates(row, column)
    ensures Separates(Carved(row, column, n.direction), (row, column), Target(n))
  {
  }

  /** The closed walls of the spanning tree: all (rows - 1) * cols + rows * (cols - 1) entries but rows * cols - 1. */
  lemma ClosedCount(rows: int, cols: int, open: int, closed: int, hr: int, hc: int, vr: int, vc: int)
    requires hr == rows - 1 && hc == cols && vr == rows && vc == cols - 1
    requires open == rows * cols - 1 && open + closed == hr * hc + vr * vc
    ensures closed == (rows - 1) * (cols - 1)
  {
  }

  /**
   * The state of one run of the generator. `rows` is cellsVertical and `cols`
   * cellsHorizontal; `draws` counts the calls of Math.random() made so far.
   */
  class Generator {
    const rows: nat
    const cols: nat
    const random: Chooser
    var draws: nat
    const grid: array2<bool>
    const verticals: array2<bool>
    const horizontals: array2<bool>

    /** The cells whose `grid` flag is set. */
    ghost var visited: set<Cell>
    /** The walls whose `verticals` or `horizontals` entry is set: the passages. */
    ghost var passages: set<Wall>

    ghost predicate Valid()
      reads this, grid, verticals, horizontals
    {
      rows >= 1 && cols >= 1 &&
      grid.Length0 == rows && grid.Length1 == cols &&
      verticals.Length0 == WallShape(rows, cols).verticalRows &&
      verticals.Length1 == WallShape(rows, cols).verticalCols &&
      horizontals.Length0 == WallShape(rows, cols).horizontalRows &&
      horizontals.Length1 == WallShape(rows, cols).horizontalCols &&
      grid != verticals && grid != horizontals && verticals != horizontals &&
      (forall r, c :: 0 <= r < rows && 0 <= c < cols ==> (grid[r, c] <==> (r, c) in visited)) &&
      (forall p :: p in visited ==> InGrid(p, rows, cols)) &&
      (forall r, c :: 0 <= r < rows && 0 <= c < cols - 1 ==>
         (verticals[r, c] <==> Wall(Vertical, r, c) in passages)) &&
      (forall r, c :: 0 <= r < rows - 1 && 0 <= c < cols ==>
         (horizontals[r, c] <==> Wall(Horizontal, r, c) in passages)) &&
      (forall w :: w in passages ==> Fits(w, WallShape(rows, cols)))
    }

    /** Every passage joins two cells of `s`. */
    ghost predicate PassagesWithin(s: set<Cell>)
      reads this
    {
      forall w :: w in passages ==> Near(w) in s && Far(w) in s
    }

    /** The cells not yet visited: the measure the recursion decreases. */
    ghost function Unvisited(): set<Cell>
      reads this
    {
      AllCells(rows, cols) - visited
    }

    /**
     * index.js:72-89: three matrices with every entry false, each row of each of
     * them its own array (in Dafny an `array2` has no shared rows). The shapes
     * are the ones a rows x cols grid needs (see SourceWallShape).
     */
    constructor (rows: nat, cols: nat, random: Chooser)
      requires rows >= 1 && cols >= 1
      ensures Valid() && fresh(grid) && fresh(verticals) && fresh(horizontals)
      ensures this.rows == rows && this.cols == cols && this.random == random
      ensures draws == 0 && visited == {} && passages == {}
    {
      this.rows := rows;
      this.cols := cols;
      this.random := random;
      draws := 0;
      grid := new bool[rows, cols]((r, c) => false);
      verticals := new bool[rows, cols - 1]((r, c) => false);
      horizontals := new bool[rows - 1, cols]((r, c) => false);
      visited := {};
      passages := {};
    }

    /** index.js:101: `grid[row][column] = true`. */
    method MarkVisited(row: int, column: int)
      requires Valid() && InGrid((row, column), rows, cols)
      modifies this`visited, grid
      ensures Valid()
      ensures visited == old(visited) + {(row, column)}
      ensures grid[row, column]
    {
      grid[row, column] := true;
      visited := visited + {(row, column)};
    }

    /** index.js:129-137: sets the entry of the wall crossed moving from (row, column) in `direction`. */
    method OpenWall(row: int, column: int, direction: Direction)
      requires Valid() && Fits(Carved(row, column, direction), WallShape(rows, cols))
      modifies this`passages, verticals, horizontals
      ensures Valid()
      ensures passages == old(passages) + {Carved(row, column, direction)}
    {
      match direction
      case Left =>
        verticals[row, column - 1] := true;
        passages := passages + {Wall(Vertical, row, column - 1)};
      case Right =>
        verticals[row, column] := true;
        passages := passages + {Wall(Vertical, row, column)};
      case Up =>
        horizontals[row - 1, column] := true;
        passages := passages + {Wall(Horizontal, row - 1, column)};
      case Down =>
        horizontals[row, column] := true;
        passages := passages + {Wall(Horizontal, row, column)};
    }

    /**
     * `stepThroughCell(row, column)`: on a visited cell it changes nothing;
     * otherwise it marks the cell, shuffles its four candidates and, for each
     * candidate on the grid and still unvisited, opens the wall towards it and
     * recurses into it.
     */
    method StepThroughCell(row: int, column: int)
      requires Valid()
      requires InGrid((row, column), rows, cols)
      requires PassagesWithin(visited + {(row, column)})
      modifies this, grid, verticals, horizontals
      decreases Unvisited(), 0
      ensures Valid() && PassagesWithin(visited)
      ensures old(grid[row, column]) ==> unchanged(this, grid, verticals, horizontals)
      ensures forall r, c :: 0 <= r < rows && 0 <= c < cols && old(grid[r, c]) ==> grid[r, c]
      ensures forall r, c :: 0 <= r < rows && 0 <= c < cols - 1 && old(verticals[r, c]) ==> verticals[r, c]
      ensures forall r, c :: 0 <= r < rows - 1 && 0 <= c < cols && old(horizontals[r, c]) ==> horizontals[r, c]
      ensures (row, column) in visited
      ensures old(visited) <= visited && old(passages) <= passages
      ensures forall p :: p in visited - old(visited) ==> NeighborsIn(p, visited, rows, cols)
      ensures forall w :: w in passages - old(passages) ==>
                Near(w) in visited - old(visited) && Far(w) in visited - old(visited)
      ensures forall p :: p in visited - old(visited) ==> Linked(passages, (row, column), p)
      ensures |visited| - old(|visited|) == |passages| - old(|passages|) + (if old(grid[row, column]) then 0 else 1)
      ensures draws == old(draws) + 4 * (|visited| - old(|visited|))
    {
      if grid[row, column] {
        return;
      }
      MarkVisited(row, column);

      var shuffled := ShuffleCandidates(row, column);
      VisitNeighbors(row, column, shuffled);
      LinkedToItself(passages, (row, column));
    }

    /** index.js:104-110: the four candidates of (row, column), shuffled with the next four draws. */
    method ShuffleCandidates(row: int, column: int) returns (shuffled: seq<Neighbor>)
      modifies this`draws
      ensures shuffled == Shuffled(Candidates(row, column), random, old(draws))
      ensures forall n :: n in shuffled <==> n in Candidates(row, column)
      ensures draws == old(draws) + 4
    {
      var candidates := Candidates(row, column);
      var neighbors := new Neighbor[|candidates|](i requires 0 <= i < |candidates| => candidates[i]);
      assert neighbors[..] == candidates;
      draws := Shuffle(neighbors, random, draws);
      shuffled := neighbors[..];
      ShuffledIsPermutation(Candidates(row, column), random, old(draws));
    }

    /**
     * index.js:91-92 and 143: picks the start cell with two draws and carves
     * from it. Every cell ends up visited, the passages join every cell to
     * every other, and there are rows * cols - 1 of them: a spanning tree.
     */
    method Generate() returns (startRow: nat, startColumn: nat)
      requires Valid() && visited == {} && passages == {}
      modifies this, grid, verticals, horizontals
      ensures Valid()
      ensures startRow == Draw(random, old(draws), rows)
      ensures startColumn == Draw(random, old(draws) + 1, cols)
      ensures forall r, c :: 0 <= r < rows && 0 <= c < cols ==> grid[r, c]
      ensures visited == AllCells(rows, cols)
      ensures forall p, q :: InGrid(p, rows, cols) && InGrid(q, rows, cols) ==> Linked(passages, p, q)
      ensures |passages| == rows * cols - 1
      ensures |Walls(horizontals, verticals, true)| == rows * cols - 1
      ensures |ClosedWalls(horizontals, verticals)| == (rows - 1) * (cols - 1)
      ensures draws == old(draws) + 2 + 4 * (rows * cols)
    {
      startRow := Draw(random, draws, rows);
      draws := draws + 1;
      startColumn := Draw(random, draws, cols);
      draws := draws + 1;
      CarveFrom(startRow, startColumn);
    }

    /** index.js:143: `stepThroughCell(startRow, startColumn)` on a fresh grid. */
    method CarveFrom(startRow: int, startColumn: int)
      requires Valid() && visited == {} && passages == {}
      requires InGrid((startRow, startColumn), rows, cols)
      modifies this, grid, verticals, horizontals
      ensures Valid()
      ensures forall r, c :: 0 <= r < rows && 0 <= c < cols ==> grid[r, c]
      ensures visited == AllCells(rows, cols)
      ensures forall p, q :: InGrid(p, rows, cols) && InGrid(q, rows, cols) ==> Linked(passages, p, q)
      ensures |passages| == rows * cols - 1
      ensures |Walls(horizontals, verticals, true)| == rows * cols - 1
      ensures |ClosedWalls(horizontals, verticals)| == (rows - 1) * (cols - 1)
      ensures draws == old(draws) + 4 * (rows * cols)
    {
      StepThroughCell(startRow, startColumn);
      SpanningTree((startRow, startColumn));
    }

    /**
     * What a carve from `start` over a fresh grid leaves behind: every cell
     * visited, the passages joining all of them, rows * cols - 1 entries set to
     * true and (rows - 1) * (cols - 1) walls left closed.
     */
    lemma SpanningTree(start: Cell)
      requires Valid() && start in visited
      requires forall p :: p in visited ==> NeighborsIn(p, visited, rows, cols)
      requires forall p :: p in visited ==> Linked(passages, start, p)
      requires |visited| == |passages| + 1
      ensures visited == AllCells(rows, cols) && |visited| == rows * cols
      ensures forall r, c :: 0 <= r < rows && 0 <= c < cols ==> grid[r, c]
      ensures forall p, q :: InGrid(p, rows, cols) && InGrid(q, rows, cols) ==> Linked(passages, p, q)
      ensures |passages| == rows * cols - 1
      ensures |Walls(horizontals, verticals, true)| == rows * cols - 1
      ensures |ClosedWalls(horizontals, verticals)| == (rows - 1) * (cols - 1)
    {
      ClosedSetCoversGrid(visited, rows, cols, start);
      assert visited == AllCells(rows, cols);
      AllCellsCount(rows, cols);
      LinkedThroughHub(passages, visited, start);
      TreeCounts();
    }

    /** With rows * cols - 1 passages, the entries left false are (rows - 1) * (cols - 1). */
    lemma TreeCounts()
      requires Valid() && |passages| == rows * cols - 1
      ensures |Walls(horizontals, verticals, true)| == rows * cols - 1
      ensures |ClosedWalls(horizontals, verticals)| == (rows - 1) * (cols - 1)
    {
      OpenWallsArePassages();
      WallsSplit(horizontals, verticals);
      ClosedCount(rows, cols, |Walls(horizontals, verticals, true)|, |ClosedWalls(horizontals, verticals)|,
                  horizontals.Length0, horizontals.Length1, verticals.Length0, verticals.Length1);
    }

    /** Under Valid(), the entries set to true are exactly the passages, each met once. */
    lemma OpenWallsArePassages()
      requires Valid()
      ensures forall w :: w in Walls(horizontals, verticals, true) <==> w in passages
      ensures |Walls(horizontals, verticals, true)| == |passages|
    {
      var ws := Walls(horizontals, verticals, true);
      forall w ensures w in ws <==> w in passages {
        if w in passages {
          assert Fits(w, WallShape(rows, cols));
        }
      }
      WallsDistinct(horizontals, verticals, true);
      assert (set w | w in ws) == passages;
    }

    /**
     * index.js:145-189 on the generator's matrices: a wall body is placed for
     * exactly the walls of the grid that are not passages.
     */
    lemma ClosedWallsAreUnopened()
      requires Valid()
      ensures forall w :: w in ClosedWalls(horizontals, verticals) <==> Fits(w, WallShape(rows, cols)) && w !in passages
    {
    }

    /**
     * The `for...of` loop of `stepThroughCell` (index.js:112-140) over the
     * shuffled candidates of the cell (row, column), which is already marked.
     * Afterwards every grid neighbour of the cell is visited.
     */
    method VisitNeighbors(row: int, column: int, shuffled: seq<Neighbor>)
      requires Valid() && PassagesWithin(visited)
      requires InGrid((row, column), rows, cols) && (row, column) in visited
      requires forall n :: n in shuffled <==> n in Candidates(row, column)
      modifies this, grid, verticals, horizontals
      decreases Unvisited(), 3
      ensures Valid() && PassagesWithin(visited)
      ensures old(visited) <= visited && old(passages) <= passages
      ensures NeighborsIn((row, column), visited, rows, cols)
      ensures forall p :: p in visited - old(visited) ==> NeighborsIn(p, visited, rows, cols)
      ensures forall w :: w in passages - old(passages) ==>
                Near(w) in visited - old(visited) + {(row, column)} && Far(w) in visited - old(visited) + {(row, column)}
      ensures forall p :: p in visited - old(visited) ==> Linked(passages, (row, column), p)
      ensures |visited| - old(|visited|) == |passages| - old(|passages|)
      ensures draws == old(draws) + 4 * (|visited| - old(|visited|))
    {
      for i := 0 to |shuffled|
        invariant Valid() && PassagesWithin(visited)
        invariant old(visited) <= visited && old(passages) <= passages
        invariant forall j :: 0 <= j < i && InGrid(Target(shuffled[j]), rows, cols) ==> Target(shuffled[j]) in visited
        invariant forall p :: p in visited - old(visited) ==> NeighborsIn(p, visited, rows, cols)
        invariant forall w :: w in passages - old(passages) ==>
                    Near(w) in visited - old(visited) + {(row, column)} && Far(w) in visited - old(visited) + {(row, column)}
        invariant forall p :: p in visited - old(visited) ==> Linked(passages, (row, column), p)
        invariant |visited| - old(|visited|) == |passages| - old(|passages|)
        invariant draws == old(draws) + 4 * (|visited| - old(|visited|))
      {
        ghost var before := visited;
        ghost var beforePassages := passages;
        TryNeighbor(row, column, shuffled[i]);
        forall p | p in before - old(visited)
          ensures Linked(passages, (row, column), p)
        {
          LinkedGrows(beforePassages, passages, (row, column), p);
        }
        forall p | p in before - old(visited)
          ensures NeighborsIn(p, visited, rows, cols)
        {
          NeighborsInGrows(p, before, visited, rows, cols);
        }
        forall j | 0 <= j <= i && InGrid(Target(shuffled[j]), rows, cols)
          ensures Target(shuffled[j]) in visited
        {
          if j < i {
            assert Target(shuffled[j]) in before;
          }
        }
      }

      forall q | InGrid(q, rows, cols) && Adjacent((row, column), q)
        ensures q in visited
      {
        CandidatesCoverNeighbors(row, column, q);
        var n :| n in Candidates(row, column) && Target(n) == q;
        assert n in shuffled;
      }
    }

    /**
     * One turn of the `for...of` loop of `stepThroughCell` (index.js:112-140):
     * skips a candidate off the grid or already visited; otherwise opens the
     * wall towards it and recurses into it.
     */
    method TryNeighbor(row: int, column: int, n: Neighbor)
      requires Valid() && PassagesWithin(visited)
      requires InGrid((row, column), rows, cols) && (row, column) in visited
      requires n in Candidates(row, column)
      modifies this, grid, verticals, horizontals
      decreases Unvisited(), 2
      ensures Valid() && PassagesWithin(visited)
      ensures !InGrid(Target(n), rows, cols) || Target(n) in old(visited) ==> unchanged(this, grid, verticals, horizontals)
      ensures old(visited) <= visited && old(passages) <= passages
      ensures InGrid(Target(n), rows, cols) ==> Target(n) in visited
      ensures forall p :: p in visited - old(visited) ==> NeighborsIn(p, visited, rows, cols)
      ensures forall w :: w in passages - old(passages) ==>
                Near(w) in visited - old(visited) + {(row, column)} && Far(w) in visited - old(visited) + {(row, column)}
      ensures forall p :: p in visited - old(visited) ==> Linked(passages, (row, column), p)
      ensures |visited| - old(|visited|) == |passages| - old(|passages|)
      ensures draws == old(draws) + 4 * (|visited| - old(|visited|))
    {
      var Neighbor(nextRow, nextColumn, direction) := n;
      if nextRow < 0 || nextRow >= rows || nextColumn < 0 || nextColumn >= cols {
        return;
      }
      if grid[nextRow, nextColumn] {
        return;
      }
      CarveTowards(row, column, n);
    }

    /**
     * index.js:129-139: the wall between (row, column) and a candidate that is
     * on the grid and unvisited is opened, always inside its matrix, and the
     * carve goes on from the candidate.
     */
    method CarveTowards(row: int, column: int, n: Neighbor)
      requires Valid() && PassagesWithin(visited)
      requires InGrid((row, column), rows, cols) && (row, column) in visited
      requires n in Candidates(row, column)
      requires InGrid(Target(n), rows, cols) && Target(n) !in visited
      modifies this, grid, verticals, horizontals
      decreases Unvisited(), 1
      ensures Valid() && PassagesWithin(visited)
      ensures old(visited) <= visited && old(passages) <= passages
      ensures Target(n) in visited && Carved(row, column, n.direction) in passages
      ensures forall p :: p in visited - old(visited) ==> NeighborsIn(p, visited, rows, cols)
      ensures forall w :: w in passages - old(passages) ==>
                Near(w) in visited - old(visited) + {(row, column)} && Far(w) in visited - old(visited) + {(row, column)}
      ensures forall p :: p in visited - old(visited) ==> Linked(passages, (row, column), p)
      ensures |visited| - old(|visited|) == |passages| - old(|passages|)
      ensures draws == old(draws) + 4 * (|visited| - old(|visited|))
    {
      var w := Carved(row, column, n.direction);
      CarvedSeparates(row, column, n);
      OpenWall(row, column, n.direction);
      StepThroughCell(n.row, n.column);
      forall p | p in visited - old(visited)
        ensures Linked(passages, (row, column), p)
      {
        LinkedThrough(passages, w, (row, column), Target(n), p);
      }
    }
  }
}
