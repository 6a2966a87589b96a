/**
 * The Grid object: its row storage, cell addressing, length, iteration and the
 * update that replaces the whole state by the next one.
 */
module Engine {
  import opened Neighbourhood
  import opened Automaton
  import opened Layout

  /**
   * The cells of a new grid: with `initialState`, a tree on every cell of `seeded`
   * (the cells whose initial draw succeeded) and EMPTY elsewhere; without it, all EMPTY.
   */
  function InitialCells(rows: nat, columns: nat, initialState: bool, seeded: set<Coord>): (g: Rows)
    ensures Shaped(g, columns, rows)
  {
    seq(rows, y requires 0 <= y < rows =>
      seq(columns, x requires 0 <= x < columns =>
        if initialState && (x, y) in seeded then TREE else EMPTY))
  }

  /** A grid built without an initial state is empty, cell by cell and item by item of its iteration. */
  lemma NewGridEmpty(rows: nat, columns: nat, seeded: set<Coord>)
    ensures Uniform(InitialCells(rows, columns, false, seeded), columns, rows, EMPTY)
    ensures forall c :: c in Flatten(InitialCells(rows, columns, false, seeded)) ==> c == EMPTY
  {
    UniformIteration(InitialCells(rows, columns, false, seeded), columns, rows, EMPTY);
  }

  /** An initial state holds trees exactly on the seeded cells, and nothing but trees and EMPTY cells. */
  lemma InitialStateCells(rows: nat, columns: nat, seeded: set<Coord>)
    ensures forall y, x :: 0 <= y < rows && 0 <= x < columns ==>
              (InitialCells(rows, columns, true, seeded)[y][x] == TREE <==> (x, y) in seeded)
    ensures forall y, x :: 0 <= y < rows && 0 <= x < columns ==>
              InitialCells(rows, columns, true, seeded)[y][x] in {TREE, EMPTY}
  {
  }

  class Grid {
    /** Number of rows. */
    const height: nat
    /** Number of columns. */
    const width: nat
    /** Chance that an EMPTY cell grows a tree in one update. */
    const plantingRate: real
    /** Chance that lightning strikes somewhere in one update. */
    const lightningRate: real
    /** The rows of cells; column x of row y is `cells[y][x]`. */
    var cells: Rows

    ghost predicate Valid()
      reads this
    {
      Shaped(cells, width, height)
    }

    /** `Grid(rows, columns, ...)`: the first argument is the number of rows. */
    constructor (rows: nat, columns: nat, plantingRate: real, lightningRate: real,
                 initialState: bool, seeded: set<Coord>)
      ensures Valid()
      ensures height == rows && width == columns
      ensures this.plantingRate == plantingRate && this.lightningRate == lightningRate
      ensures cells == InitialCells(rows, columns, initialState, seeded)
    {
      height := rows;
      width := columns;
      this.plantingRate := plantingRate;
      this.lightningRate := lightningRate;
      cells := InitialCells(rows, columns, initialState, seeded);
    }

    /** `grid[x, y]`: the value at column x of row y, which is item `y * width + x` of the iteration. */
    function Get(x: int, y: int): (v: int)
      reads this
      requires Valid() && InBounds((x, y), width, height)
      ensures y * width + x < |Flatten(cells)| && v == Flatten(cells)[y * width + x]
    {
      FlattenAt(cells, width, y, x);
      cells[y][x]
    }

    /** `grid[x, y] = v`: column x of row y becomes `v`, every other cell is unchanged. */
    method Set(x: int, y: int, v: int)
      requires Valid() && InBounds((x, y), width, height)
      modifies this
      ensures Valid()
      ensures Get(x, y) == v
      ensures forall j, i :: 0 <= j < height && 0 <= i < width && (i, j) != (x, y) ==>
                cells[j][i] == old(cells)[j][i]
    {
      cells := cells[y := cells[y][x := v]];
    }

    /**
     * Fills the grid from a list of rows with `grid[x, y] = g[y][x]`, column by
     * column and each column top to bottom.
     */
    method Load(g: Rows)
      requires Valid() && Shaped(g, width, height)
      modifies this
      ensures Valid() && cells == g
    {
      var x := 0;
      while x < width
        invariant 0 <= x <= width && Valid()
        invariant forall j, i :: 0 <= j < height && 0 <= i < width ==>
                    cells[j][i] == if i < x then g[j][i] else old(cells)[j][i]
      {
        var y := 0;
        while y < height
          invariant 0 <= y <= height && Valid()
          invariant forall j, i :: 0 <= j < height && 0 <= i < width ==>
                      cells[j][i] == if i < x || (i == x && j < y) then g[j][i] else old(cells)[j][i]
        {
          Set(x, y, g[y][x]);
          y := y + 1;
        }
        x := x + 1;
      }
      forall j | 0 <= j < height ensures cells[j] == g[j] {
      }
    }

    /** `len(grid)`: the number of cells iterated over, `width * height`. */
    function Len(): (n: nat)
      reads this
      requires Valid()
      ensures n == width * height
    {
      FlattenLength(cells, width);
      |Flatten(cells)|
    }

    /** `for cell in grid`: every row from the first, each from column 0. */
    method Iterate() returns (s: seq<int>)
      requires Valid()
      ensures s == Flatten(cells)
      ensures |s| == Len()
    {
      s := [];
      var y := 0;
      while y < height
        invariant 0 <= y <= height
        invariant s == Flatten(cells[..y])
      {
        var x := 0;
        while x < width
          invariant 0 <= x <= width
          invariant s == Flatten(cells[..y]) + cells[y][..x]
        {
          s := s + [cells[y][x]];
          x := x + 1;
        }
        assert cells[..y + 1][..y] == cells[..y];
        y := y + 1;
      }
      assert cells[..height] == cells;
    }

    /**
     * `update()`: every cell's next value is computed from the state before the
     * update into a fresh buffer, row by row, which then replaces the state.
     */
    method Update(d: Draws)
      requires Valid() && Drawn(plantingRate, lightningRate, d, width, height)
      modifies this
      ensures Valid()
      ensures cells == Step(old(cells), width, height, d)
    {
      ghost var next := Step(cells, width, height, d);
      var buffer: Rows := [];
      var y := 0;
      while y < height
        invariant 0 <= y <= height
        invariant buffer == next[..y]
      {
        var row: seq<int> := [];
        var x := 0;
        while x < width
          invariant 0 <= x <= width
          invariant row == next[y][..x]
        {
          row := row + [NextCell(cells, width, height, d, x, y)];
          assert next[y][..x + 1] == next[y][..x] + [next[y][x]];
          x := x + 1;
        }
        assert row == next[y];
        assert next[..y + 1] == next[..y] + [next[y]];
        buffer := buffer + [row];
        y := y + 1;
      }
      cells := buffer;
    }
  }
}
