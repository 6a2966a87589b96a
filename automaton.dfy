/**
 * The cell encoding and the synchronous transition of the forest-fire automaton,
 * as pure functions over a snapshot of the rows.
 */
module Automaton {
  import opened Neighbourhood

  /** Bare ground. */
  const EMPTY: int := 0
  /** A tree that is not on fire. */
  const TREE: int := -1
  /** A freshly ignited cell; one step later it is 4, then 3, 2, 1 (ash), then EMPTY. */
  const BURNING: int := 5

  /** The values the engine produces, and the ones the console renderer can draw. */
  predicate IsState(v: int) {
    TREE <= v <= BURNING
  }

  datatype Option<T> = None | Some(value: T)

  /**
   * The outcome of the random draws of one update: the cells whose planting draw
   * succeeded and the cell hit by this step's lightning strike, if any.
   */
  datatype Draws = Draws(planted: set<Coord>, strike: Option<Coord>)

  /** Storage: a list of rows, `g[y][x]` being column x of row y. */
  type Rows = seq<seq<int>>

  predicate Shaped(g: Rows, width: nat, height: nat) {
    |g| == height && forall y :: 0 <= y < |g| ==> |g[y]| == width
  }

  function At(g: Rows, c: Coord): int
    requires 0 <= c.1 < |g| && 0 <= c.0 < |g[c.1]|
  {
    g[c.1][c.0]
  }

  /** A planting draw at rate 0 never succeeds; at rate 1 it succeeds for every cell. */
  predicate PlantingDrawn(plantingRate: real, planted: set<Coord>, width: nat, height: nat) {
    && (plantingRate <= 0.0 ==> planted == {})
    && (plantingRate >= 1.0 ==>
          forall x, y :: 0 <= x < width && 0 <= y < height ==> (x, y) in planted)
  }

  /**
   * Draws a random source can produce at the given rates: at most one strike per
   * step, inside the grid; none at rate 0, always one at rate 1.
   */
  predicate Drawn(plantingRate: real, lightningRate: real, d: Draws, width: nat, height: nat) {
    && PlantingDrawn(plantingRate, d.planted, width, height)
    && (d.strike.Some? ==> InBounds(d.strike.value, width, height))
    && (lightningRate <= 0.0 ==> d.strike == None)
    && (lightningRate >= 1.0 && 0 < width && 0 < height ==> d.strike.Some?)
  }

  /** Whether one of the cells `cs` lies inside `g` and holds BURNING there. */
  function AnyBurning(g: Rows, cs: seq<Coord>): bool {
    if cs == [] then false
    else (0 <= cs[0].1 < |g| && 0 <= cs[0].0 < |g[cs[0].1]| && At(g, cs[0]) == BURNING)
         || AnyBurning(g, cs[1..])
  }

  /** Reference definition: some cell adjacent to `(x, y)` inside the grid is BURNING. */
  ghost predicate Exposed(g: Rows, width: nat, height: nat, x: int, y: int)
    requires Shaped(g, width, height)
  {
    exists c :: InBounds(c, width, height) && Adjacent(c, (x, y)) && At(g, c) == BURNING
  }

  /**
   * The next value of cell `(x, y)`, read from the snapshot `g` only: a burning or
   * ash cell counts down by one, a tree next to a BURNING cell or hit by lightning
   * ignites, an empty cell whose planting draw succeeded grows a tree.
   */
  function NextCell(g: Rows, width: nat, height: nat, d: Draws, x: int, y: int): int
    requires Shaped(g, width, height) && InBounds((x, y), width, height)
  {
    var v := g[y][x];
    if v > EMPTY then v - 1
    else if v == TREE then
      (if AnyBurning(g, Neighbors(x, y, width, height)) || d.strike == Some((x, y))
       then BURNING else TREE)
    else if v == EMPTY then
      (if (x, y) in d.planted then TREE else EMPTY)
    else v
  }

  /** One synchronous step: every cell's next value, all computed from `g`. */
  function Step(g: Rows, width: nat, height: nat, d: Draws): (r: Rows)
    requires Shaped(g, width, height)
    ensures Shaped(r, width, height)
  {
    seq(height, y requires 0 <= y < height =>
      seq(width, x requires 0 <= x < width => NextCell(g, width, height, d, x, y)))
  }

  /** Successive steps, one per element of `ds`. */
  function Run(g: Rows, width: nat, height: nat, ds: seq<Draws>): (r: Rows)
    requires Shaped(g, width, height)
    ensures Shaped(r, width, height)
    decreases |ds|
  {
    if ds == [] then g else Run(Step(g, width, height, ds[0]), width, height, ds[1..])
  }

  /** Running one more step after `ds` is stepping the result of `ds`. */
  lemma {:induction false} RunSnoc(g: Rows, width: nat, height: nat, ds: seq<Draws>, d: Draws)
    requires Shaped(g, width, height)
    ensures Run(g, width, height, ds + [d]) == Step(Run(g, width, height, ds), width, height, d)
    decreases |ds|
  {
    if ds == [] {
      assert (ds + [d])[1..] == [];
    } else {
      assert (ds + [d])[1..] == ds[1..] + [d];
      RunSnoc(Step(g, width, height, ds[0]), width, height, ds[1..], d);
    }
  }

  ghost predicate AllStates(g: Rows, width: nat, height: nat) {
    Shaped(g, width, height)
    && forall y, x :: 0 <= y < height && 0 <= x < width ==> IsState(g[y][x])
  }

  ghost predicate Uniform(g: Rows, width: nat, height: nat, v: int) {
    Shaped(g, width, height)
    && forall y, x :: 0 <= y < height && 0 <= x < width ==> g[y][x] == v
  }

  /** No tree has a BURNING neighbour. */
  ghost predicate Calm(g: Rows, width: nat, height: nat)
    requires Shaped(g, width, height)
  {
    forall y, x :: 0 <= y < height && 0 <= x < width && g[y][x] == TREE ==> !Exposed(g, width, height, x, y)
  }

  lemma {:induction false} AnyBurningSome(g: Rows, cs: seq<Coord>)
    requires forall i :: 0 <= i < |cs| ==> 0 <= cs[i].1 < |g| && 0 <= cs[i].0 < |g[cs[i].1]|
    ensures AnyBurning(g, cs) <==> exists i :: 0 <= i < |cs| && At(g, cs[i]) == BURNING
  {
    if cs != [] {
      AnyBurningSome(g, cs[1..]);
      if exists i :: 0 <= i < |cs| && At(g, cs[i]) == BURNING {
        var i :| 0 <= i < |cs| && At(g, cs[i]) == BURNING;
        if i > 0 {
          assert cs[1..][i - 1] == cs[i];
        }
      }
    }
  }

  /** The scan over `Neighbors` finds a BURNING cell exactly when the cell is exposed. */
  lemma AnyBurningNeighbors(g: Rows, width: nat, height: nat, x: int, y: int)
    requires Shaped(g, width, height)
    ensures AnyBurning(g, Neighbors(x, y, width, height)) <==> Exposed(g, width, height, x, y)
  {
    var ns := Neighbors(x, y, width, height);
    NeighborsSpec(x, y, width, height);
    AnyBurningSome(g, ns);
    if Exposed(g, width, height, x, y) {
      var c :| InBounds(c, width, height) && Adjacent(c, (x, y)) && At(g, c) == BURNING;
      assert c in ns;
      var i :| 0 <= i < |ns| && ns[i] == c;
    }
  }

  /**
   * A tree becomes BURNING exactly when, before the step, a neighbour was BURNING
   * or lightning strikes it; otherwise it stays a tree.
   */
  lemma TreeRule(g: Rows, width: nat, height: nat, d: Draws, x: int, y: int)
    requires Shaped(g, width, height) && InBounds((x, y), width, height) && g[y][x] == TREE
    ensures Step(g, width, height, d)[y][x]
            == if Exposed(g, width, height, x, y) || d.strike == Some((x, y)) then BURNING else TREE
  {
    AnyBurningNeighbors(g, width, height, x, y);
  }

  /** A burning or ash cell counts down by one, whatever the draws. */
  lemma DecayRule(g: Rows, width: nat, height: nat, d: Draws, x: int, y: int)
    requires Shaped(g, width, height) && InBounds((x, y), width, height) && g[y][x] > EMPTY
    ensures Step(g, width, height, d)[y][x] == g[y][x] - 1
  {
  }

  /**
   * Lightning never changes an EMPTY cell: its next value is the same with or without
   * the strike, a tree exactly when its planting draw succeeded.
   */
  lemma LightningSparesEmptyCell(g: Rows, width: nat, height: nat, d: Draws, x: int, y: int)
    requires Shaped(g, width, height) && InBounds((x, y), width, height) && g[y][x] == EMPTY
    ensures Step(g, width, height, d)[y][x] == Step(g, width, height, Draws(d.planted, None))[y][x]
    ensures Step(g, width, height, d)[y][x] == if (x, y) in d.planted then TREE else EMPTY
  {
  }

  /** At planting rate 1 every EMPTY cell becomes a tree, whatever the lightning rate. */
  lemma PlantingRule(g: Rows, width: nat, height: nat, lightningRate: real, d: Draws, x: int, y: int)
    requires Shaped(g, width, height) && InBounds((x, y), width, height) && g[y][x] == EMPTY
    requires Drawn(1.0, lightningRate, d, width, height)
    ensures Step(g, width, height, d)[y][x] == TREE
  {
  }

  /**
   * With both rates 0 a step only cools and spreads fire: a burning or ash cell counts
   * down, a tree with a BURNING neighbour ignites, and every other cell keeps its value.
   */
  lemma QuietStep(g: Rows, width: nat, height: nat, d: Draws, x: int, y: int)
    requires Shaped(g, width, height) && InBounds((x, y), width, height)
    requires Drawn(0.0, 0.0, d, width, height)
    ensures Step(g, width, height, d)[y][x]
            == if g[y][x] > EMPTY then g[y][x] - 1
               else if g[y][x] == TREE && Exposed(g, width, height, x, y) then BURNING
               else g[y][x]
  {
    if g[y][x] == TREE {
      TreeRule(g, width, height, d, x, y);
    }
  }

  /** A cell whose own row and the rows next to it hold no BURNING value has no BURNING neighbour. */
  lemma ColdRowsNotExposed(g: Rows, width: nat, height: nat, x: int, y: int)
    requires Shaped(g, width, height)
    requires forall j :: y - 1 <= j <= y + 1 && 0 <= j < height ==> BURNING !in g[j]
    ensures !Exposed(g, width, height, x, y)
  {
  }

  /** A step keeps every cell among TREE, EMPTY and the burn levels 1..BURNING. */
  lemma StepKeepsStates(g: Rows, width: nat, height: nat, d: Draws)
    requires AllStates(g, width, height)
    ensures AllStates(Step(g, width, height, d), width, height)
  {
  }

  /** Cells lightning ignited: trees with no BURNING neighbour that are BURNING after the step. */
  ghost function StruckTrees(g: Rows, width: nat, height: nat, d: Draws): set<Coord>
    requires Shaped(g, width, height)
  {
    set x, y | 0 <= x < width && 0 <= y < height && g[y][x] == TREE
                 && !Exposed(g, width, height, x, y) && Step(g, width, height, d)[y][x] == BURNING
      :: (x, y)
  }

  /** Lightning ignites at most one tree per step: the one the strike hits. */
  lemma LightningAtMostOne(g: Rows, width: nat, height: nat, d: Draws)
    requires Shaped(g, width, height)
    ensures StruckTrees(g, width, height, d) <= if d.strike.Some? then {d.strike.value} else {}
    ensures |StruckTrees(g, width, height, d)| <= 1
  {
    var s := StruckTrees(g, width, height, d);
    var bound: set<Coord> := if d.strike.Some? then {d.strike.value} else {};
    forall c | c in s ensures c in bound {
      TreeRule(g, width, height, d, c.0, c.1);
    }
    assert s <= bound;
    assert |bound| <= 1;
    SubsetCardinality(s, bound);
  }

  lemma SubsetCardinality<T>(a: set<T>, b: set<T>)
    requires a <= b
    ensures |a| <= |b|
  {
    assert b == a + (b - a);
  }

  /** The BURNING cells of `g`. */
  ghost function BurningCells(g: Rows, width: nat, height: nat): set<Coord>
    requires Shaped(g, width, height)
  {
    set x, y | 0 <= x < width && 0 <= y < height && g[y][x] == BURNING :: (x, y)
  }

  /** With planting rate 1, an all-EMPTY grid is all trees after one step. */
  lemma PlantingRateOne(g: Rows, width: nat, height: nat, plantingRate: real, lightningRate: real, d: Draws)
    requires Uniform(g, width, height, EMPTY)
    requires plantingRate >= 1.0 && Drawn(plantingRate, lightningRate, d, width, height)
    ensures Uniform(Step(g, width, height, d), width, height, TREE)
  {
  }

  /** Lightning never changes an empty cell: with planting rate 0 an all-EMPTY grid stays so. */
  lemma LightningSparesEmpty(g: Rows, width: nat, height: nat, lightningRate: real, d: Draws)
    requires Uniform(g, width, height, EMPTY)
    requires Drawn(0.0, lightningRate, d, width, height)
    ensures Step(g, width, height, d) == g
  {
    var r := Step(g, width, height, d);
    forall y | 0 <= y < height ensures r[y] == g[y] {
    }
  }

  /** On a grid of trees, the struck cell (if any) ignites and every other cell stays a tree. */
  lemma StrikeOnForest(g: Rows, width: nat, height: nat, d: Draws)
    requires Uniform(g, width, height, TREE)
    ensures forall y, x :: 0 <= y < height && 0 <= x < width ==>
              Step(g, width, height, d)[y][x] == if d.strike == Some((x, y)) then BURNING else TREE
  {
    forall y, x | 0 <= y < height && 0 <= x < width
      ensures Step(g, width, height, d)[y][x] == if d.strike == Some((x, y)) then BURNING else TREE
    {
      TreeRule(g, width, height, d, x, y);
    }
  }

  /** With lightning rate 1, a non-empty grid of trees has exactly one BURNING cell after a step. */
  lemma LightningRateOne(g: Rows, width: nat, height: nat, plantingRate: real, d: Draws)
    requires Uniform(g, width, height, TREE) && 0 < width && 0 < height
    requires Drawn(plantingRate, 1.0, d, width, height)
    ensures d.strike.Some?
    ensures BurningCells(Step(g, width, height, d), width, height) == {d.strike.value}
    ensures |BurningCells(Step(g, width, height, d), width, height)| == 1
  {
    StrikeOnForest(g, width, height, d);
  }

  /**
   * With both rates 0 and no tree next to a BURNING cell, every burning or ash cell
   * counts down by one per step until it reaches EMPTY, and every other cell keeps
   * its value.
   */
  lemma {:induction false} QuietRun(g: Rows, width: nat, height: nat, ds: seq<Draws>)
    requires AllStates(g, width, height) && Calm(g, width, height)
    requires forall i :: 0 <= i < |ds| ==> Drawn(0.0, 0.0, ds[i], width, height)
    ensures forall y, x :: 0 <= y < height && 0 <= x < width ==>
              Run(g, width, height, ds)[y][x]
              == if g[y][x] > EMPTY then Max(g[y][x] - |ds|, EMPTY) else g[y][x]
    decreases |ds|
  {
    if ds != [] {
      var g1 := Step(g, width, height, ds[0]);
      forall y, x | 0 <= y < height && 0 <= x < width
        ensures g1[y][x] == if g[y][x] > EMPTY then g[y][x] - 1 else g[y][x]
      {
        QuietStep(g, width, height, ds[0], x, y);
      }
      assert Calm(g1, width, height);
      QuietRun(g1, width, height, ds[1..]);
    }
  }

  function Max(a: int, b: int): int {
    if a < b then b else a
  }
}
