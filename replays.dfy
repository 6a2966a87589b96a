/**
 * The test suite's sequences of calls on a Grid object: cells written one by one,
 * updates, and reads by coordinates or by iteration. The random draws of an update
 * are inputs; with both rates 0 the only possible draw plants nothing and strikes nowhere.
 */
module Replays {
  import opened Neighbourhood
  import opened Automaton
  import opened Layout
  import opened Engine
  import opened Scenarios

  /** The draw of an update at planting rate 0 and lightning rate 0. */
  const Quiet: Draws := Draws({}, None)

  /** Reads every cell back through `grid[x, y]`, column by column and each column top to bottom. */
  method ReadCells(grid: Grid) returns (g: Rows)
    requires grid.Valid()
    ensures g == grid.cells
  {
    g := seq(grid.height, _ => seq(grid.width, _ => EMPTY));
    var x := 0;
    while x < grid.width
      invariant 0 <= x <= grid.width && Shaped(g, grid.width, grid.height)
      invariant forall j, i :: 0 <= j < grid.height && 0 <= i < x ==> g[j][i] == grid.cells[j][i]
    {
      var y := 0;
      while y < grid.height
        invariant 0 <= y <= grid.height && Shaped(g, grid.width, grid.height)
        invariant forall j, i :: 0 <= j < grid.height && 0 <= i < grid.width && (i < x || (i == x && j < y))
                    ==> g[j][i] == grid.cells[j][i]
      {
        g := g[y := g[y][x := grid.Get(x, y)]];
        y := y + 1;
      }
      x := x + 1;
    }
    forall j | 0 <= j < grid.height ensures g[j] == grid.cells[j] {
    }
  }

  /** A grid of 1 row `[TREE, EMPTY, BURNING]` reads 4, 3, 2, 1 and then 0 in its last cell after successive updates. */
  method ReplayBurningAshCycle() returns (states: seq<Rows>)
    ensures states == [[[TREE, EMPTY, 4]], [[TREE, EMPTY, 3]], [[TREE, EMPTY, 2]],
                       [[TREE, EMPTY, 1]], [[TREE, EMPTY, EMPTY]]]
  {
    var start: Rows := [[TREE, EMPTY, BURNING]];
    var grid := new Grid(1, 3, 0.0, 0.0, false, {});
    grid.Load(start);
    ghost var ds: seq<Draws> := [];
    states := [];
    while |states| < 5
      invariant |ds| == |states| <= 5
      invariant grid.Valid() && grid.height == 1 && grid.width == 3
      invariant grid.plantingRate == 0.0 && grid.lightningRate == 0.0
      invariant forall i :: 0 <= i < |ds| ==> ds[i] == Quiet
      invariant grid.cells == Run(start, 3, 1, ds)
      invariant forall k :: 0 <= k < |states| ==> states[k] == [[TREE, EMPTY, BURNING - 1 - k]]
      decreases 5 - |states|
    {
      grid.Update(Quiet);
      RunSnoc(start, 3, 1, ds, Quiet);
      ds := ds + [Quiet];
      BurningAshCycle(ds);
      var read := ReadCells(grid);
      states := states + [read];
    }
  }

  /** The spread scenario on 4 rows of 5 columns, through three updates of the grid. */
  method ReplaySpread() returns (states: seq<Rows>)
    ensures states == [Spread1, Spread2, Spread3]
  {
    var grid := new Grid(4, 5, 0.0, 0.0, false, {});
    grid.Load(Spread0);
    grid.Update(Quiet);
    SpreadFirstStep(Quiet);
    var first := ReadCells(grid);
    grid.Update(Quiet);
    SpreadSecondStep(Quiet);
    var second := ReadCells(grid);
    grid.Update(Quiet);
    SpreadThirdStep(Quiet);
    var third := ReadCells(grid);
    states := [first, second, third];
  }

  /** At planting rate 1 a new, empty grid iterates over trees only after one update. */
  method ReplayAllTrees(lightningRate: real, d: Draws) returns (before: seq<int>, after: seq<int>)
    requires Drawn(1.0, lightningRate, d, 5, 4)
    ensures |before| == |after| == 20
    ensures forall c :: c in before ==> c == EMPTY
    ensures forall c :: c in after ==> c == TREE
  {
    var grid := new Grid(4, 5, 1.0, lightningRate, false, {});
    NewGridEmpty(4, 5, {});
    before := grid.Iterate();
    ghost var start := grid.cells;
    grid.Update(d);
    PlantingRateOne(start, 5, 4, 1.0, lightningRate, d);
    UniformIteration(grid.cells, 5, 4, TREE);
    after := grid.Iterate();
  }

  /** At planting rate 0 and lightning rate 1, an empty grid stays empty after an update. */
  method ReplayLightningOnEmpty(d: Draws) returns (before: seq<int>, after: seq<int>)
    requires Drawn(0.0, 1.0, d, 5, 4)
    ensures forall c :: c in before ==> c == EMPTY
    ensures forall c :: c in after ==> c == EMPTY
  {
    var grid := new Grid(4, 5, 0.0, 1.0, false, {});
    NewGridEmpty(4, 5, {});
    before := grid.Iterate();
    ghost var start := grid.cells;
    grid.Update(d);
    LightningSparesEmpty(start, 5, 4, 1.0, d);
    after := grid.Iterate();
  }

  /** All trees, lightning rate 1: after one update the struck cell is BURNING and every other cell a tree. */
  method ReplayLightningOnTree(d: Draws) returns (after: Rows)
    requires Drawn(0.0, 1.0, d, 5, 4)
    ensures d.strike.Some?
    ensures Shaped(after, 5, 4)
    ensures forall y, x :: 0 <= y < 4 && 0 <= x < 5 ==>
              after[y][x] == if (x, y) == d.strike.value then BURNING else TREE
  {
    var grid := new Grid(4, 5, 0.0, 1.0, false, {});
    var forest := seq(4, _ => seq(5, _ => TREE));
    grid.Load(forest);
    grid.Update(d);
    StrikeOnForest(forest, 5, 4, d);
    after := ReadCells(grid);
  }

  /**
   * All trees, lightning rate 0.5, three updates: while no strike has come the grid
   * stays all trees, and the first strike ignites exactly the cell it hits.
   */
  method ReplayLightningRate(ds: seq<Draws>) returns (states: seq<Rows>)
    requires |ds| == 3 && forall i :: 0 <= i < 3 ==> Drawn(0.0, 0.5, ds[i], 5, 4)
    ensures |states| == 3
    ensures Shaped(states[0], 5, 4) && Shaped(states[1], 5, 4) && Shaped(states[2], 5, 4)
    ensures ds[0].strike == None ==> Uniform(states[0], 5, 4, TREE)
    ensures ds[0].strike == None && ds[1].strike == None ==> Uniform(states[1], 5, 4, TREE)
    ensures ds[0].strike == None && ds[1].strike == None ==>
              forall y, x :: 0 <= y < 4 && 0 <= x < 5 ==>
                states[2][y][x] == if ds[2].strike == Some((x, y)) then BURNING else TREE
  {
    var grid := new Grid(4, 5, 0.0, 0.5, false, {});
    var forest := seq(4, _ => seq(5, _ => TREE));
    grid.Load(forest);
    grid.Update(ds[0]);
    StrikeOnForest(forest, 5, 4, ds[0]);
    var first := ReadCells(grid);
    grid.Update(ds[1]);
    if ds[0].strike == None {
      StrikeOnForest(first, 5, 4, ds[1]);
    }
    var second := ReadCells(grid);
    grid.Update(ds[2]);
    if ds[0].strike == None && ds[1].strike == None {
      StrikeOnForest(second, 5, 4, ds[2]);
    }
    var third := ReadCells(grid);
    states := [first, second, third];
  }
}
