/** The deterministic scenarios of the engine's test suite, as consequences of the transition rules. */
module Scenarios {
  import opened Neighbourhood
  import opened Automaton

  /**
   * One row: a tree, an empty cell and a BURNING cell. With both rates 0 the fire
   * reads 4, 3, 2, 1 and then 0 on successive steps and stays EMPTY; the tree and
   * the empty cell never change.
   */
  lemma BurningAshCycle(ds: seq<Draws>)
    requires forall i :: 0 <= i < |ds| ==> Drawn(0.0, 0.0, ds[i], 3, 1)
    ensures Run([[TREE, EMPTY, BURNING]], 3, 1, ds) == [[TREE, EMPTY, Max(BURNING - |ds|, EMPTY)]]
  {
    var g := [[TREE, EMPTY, BURNING]];
    AshRowCalm();
    QuietRun(g, 3, 1, ds);
    var r := Run(g, 3, 1, ds);
    assert r[0] == [TREE, EMPTY, Max(BURNING - |ds|, EMPTY)];
  }

  /** In that row no tree is next to the fire. */
  lemma AshRowCalm()
    ensures Calm([[TREE, EMPTY, BURNING]], 3, 1)
  {
    assert ColumnScan(1, 0, 0, 3, 1) == [(1, 0)];
    assert Neighbors(0, 0, 3, 1) == [(1, 0)];
    AnyBurningNeighbors([[TREE, EMPTY, BURNING]], 3, 1, 0, 0);
  }

  /**
   * At planting rate 0, a grid of empty cells stays empty for any number of updates,
   * whatever the lightning rate of each update.
   */
  lemma {:induction false} EmptyForestStaysEmpty(g: Rows, width: nat, height: nat,
                                                 lightningRates: seq<real>, ds: seq<Draws>)
    requires Uniform(g, width, height, EMPTY)
    requires |lightningRates| == |ds|
    requires forall i :: 0 <= i < |ds| ==> Drawn(0.0, lightningRates[i], ds[i], width, height)
    ensures Run(g, width, height, ds) == g
    decreases |ds|
  {
    if ds != [] {
      LightningSparesEmpty(g, width, height, lightningRates[0], ds[0]);
      EmptyForestStaysEmpty(g, width, height, lightningRates[1..], ds[1..]);
    }
  }

  // The spread scenario on 4 rows of 5 columns, one grid per step.

  const Spread0: Rows := [[0, 0, 0, 0, 0], [0, -1, 0, 0, 0], [0, 0, -1, -1, 0], [0, 0, 5, 0, 0]]
  const Spread1: Rows := [[0, 0, 0, 0, 0], [0, -1, 0, 0, 0], [0, 0, 5, 5, 0], [0, 0, 4, 0, 0]]
  const Spread2: Rows := [[0, 0, 0, 0, 0], [0, 5, 0, 0, 0], [0, 0, 4, 4, 0], [0, 0, 3, 0, 0]]
  const Spread3: Rows := [[0, 0, 0, 0, 0], [0, 4, 0, 0, 0], [0, 0, 3, 3, 0], [0, 0, 2, 0, 0]]

  /**
   * Fire spreads one ring per step, from the snapshot only: the trees next to the
   * fire at (2, 3) ignite in the first step, while the tree at (1, 1), next to (2, 2)
   * which ignites in that same step, stays a tree.
   */
  lemma SpreadFirstStep(d: Draws)
    requires Drawn(0.0, 0.0, d, 5, 4)
    ensures Step(Spread0, 5, 4, d) == Spread1
  {
    var r := Step(Spread0, 5, 4, d);
    SpreadFirstStepTrees(d);
    assert r[0] == [0, 0, 0, 0, 0];
    assert r[1] == [0, -1, 0, 0, 0];
    assert r[2] == [0, 0, 5, 5, 0];
    assert r[3] == [0, 0, 4, 0, 0];
  }

  /** The rows of the first step that hold trees. */
  lemma SpreadFirstStepTrees(d: Draws)
    requires Drawn(0.0, 0.0, d, 5, 4)
    ensures Step(Spread0, 5, 4, d)[1][1] == TREE
    ensures Step(Spread0, 5, 4, d)[2][2] == BURNING
    ensures Step(Spread0, 5, 4, d)[2][3] == BURNING
  {
    assert Exposed(Spread0, 5, 4, 2, 2) by {
      assert Adjacent((2, 3), (2, 2)) && At(Spread0, (2, 3)) == BURNING;
    }
    assert Exposed(Spread0, 5, 4, 3, 2) by {
      assert Adjacent((2, 3), (3, 2)) && At(Spread0, (2, 3)) == BURNING;
    }
    ColdRowsNotExposed(Spread0, 5, 4, 1, 1);
    QuietStep(Spread0, 5, 4, d, 1, 1);
    QuietStep(Spread0, 5, 4, d, 2, 2);
    QuietStep(Spread0, 5, 4, d, 3, 2);
  }

  /** The tree at (1, 1) ignites one step after its neighbour (2, 2) did; the older fires cool. */
  lemma SpreadSecondStep(d: Draws)
    requires Drawn(0.0, 0.0, d, 5, 4)
    ensures Step(Spread1, 5, 4, d) == Spread2
  {
    assert Exposed(Spread1, 5, 4, 1, 1) by {
      assert Adjacent((2, 2), (1, 1)) && At(Spread1, (2, 2)) == BURNING;
    }
    var r := Step(Spread1, 5, 4, d);
    assert r[0] == [0, 0, 0, 0, 0];
    assert r[1] == [0, 5, 0, 0, 0] by {
      QuietStep(Spread1, 5, 4, d, 1, 1);
    }
    assert r[2] == [0, 0, 4, 4, 0];
    assert r[3] == [0, 0, 3, 0, 0];
  }

  /** With no trees left, every fire cools by one. */
  lemma SpreadThirdStep(d: Draws)
    requires Drawn(0.0, 0.0, d, 5, 4)
    ensures Step(Spread2, 5, 4, d) == Spread3
  {
    var r := Step(Spread2, 5, 4, d);
    assert r[0] == [0, 0, 0, 0, 0];
    assert r[1] == [0, 4, 0, 0, 0];
    assert r[2] == [0, 0, 3, 3, 0];
    assert r[3] == [0, 0, 2, 0, 0];
  }
}
