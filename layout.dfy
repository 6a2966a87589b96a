/**
 * Iteration order of the grid: the cells row by row, each row from column 0 to the
 * last, which is also how the console renderer cuts the flat sequence back into rows.
 */
module Layout {
  import opened Automaton

  /** The cells of `g` in iteration order. */
  function Flatten(g: Rows): seq<int>
  {
    if g == [] then [] else Flatten(g[..|g| - 1]) + g[|g| - 1]
  }

  /** A grid of `height` rows of `width` cells iterates over `height * width` items. */
  lemma {:induction false} FlattenLength(g: Rows, width: nat)
    requires Shaped(g, width, |g|)
    ensures |Flatten(g)| == |g| * width
    decreases |g|
  {
    if g != [] {
      var n := |g| - 1;
      FlattenLength(g[..n], width);
      assert (n + 1) * width == n * width + width;
    }
  }

  /** Row `y`, column `x` is item `y * width + x` of the iteration. */
  lemma {:induction false} FlattenAt(g: Rows, width: nat, y: nat, x: nat)
    requires Shaped(g, width, |g|) && y < |g| && x < width
    ensures y * width + x < |Flatten(g)| && Flatten(g)[y * width + x] == g[y][x]
    decreases |g|
  {
    var n := |g| - 1;
    var init := g[..n];
    FlattenLength(init, width);
    var prefix := Flatten(init);
    assert Flatten(g) == prefix + g[n];
    if y < n {
      FlattenAt(init, width, y, x);
      RowOffsetBelow(y, x, n, width);
    } else {
      assert y * width + x == |prefix| + x;
    }
  }

  /** The cells of a row that is not the last come before the offset of the next rows. */
  lemma RowOffsetBelow(y: nat, x: nat, n: nat, width: nat)
    requires y < n && x < width
    ensures y * width + x < n * width
  {
    assert y * width + x < (y + 1) * width;
    assert (y + 1) * width <= n * width;
  }

  /** Each value of the iteration comes from some row. */
  lemma {:induction false} FlattenMembers(g: Rows, v: int)
    ensures v in Flatten(g) <==> exists y :: 0 <= y < |g| && v in g[y]
    decreases |g|
  {
    if g != [] {
      var n := |g| - 1;
      FlattenMembers(g[..n], v);
      if exists y :: 0 <= y < n && v in g[..n][y] {
        var y :| 0 <= y < n && v in g[..n][y];
        assert v in g[y];
      }
      if exists y :: 0 <= y < |g| && v in g[y] {
        var y :| 0 <= y < |g| && v in g[y];
        if y < n {
          assert v in g[..n][y];
        }
      }
    }
  }

  /**
   * Cutting the iteration into slices of `width` items gives the rows back: slice
   * `y` is items `y * width` up to `(y + 1) * width`.
   */
  lemma {:induction false} FlattenChunks(g: Rows, width: nat, y: nat)
    requires Shaped(g, width, |g|) && y < |g|
    ensures (y + 1) * width <= |Flatten(g)|
    ensures Flatten(g)[y * width .. (y + 1) * width] == g[y]
  {
    FlattenLength(g, width);
    RowOffsetWithin(y, |g|, width);
    var s := Flatten(g)[y * width .. (y + 1) * width];
    forall x | 0 <= x < width ensures s[x] == g[y][x] {
      FlattenAt(g, width, y, x);
      assert s[x] == Flatten(g)[y * width + x];
    }
  }

  lemma RowOffsetWithin(y: nat, n: nat, width: nat)
    requires y < n
    ensures (y + 1) * width <= n * width
  {
  }

  /** Every cell holds `v` exactly when every item of the iteration is `v`. */
  lemma {:induction false} UniformIteration(g: Rows, width: nat, height: nat, v: int)
    requires Shaped(g, width, height)
    ensures Uniform(g, width, height, v) <==> forall c :: c in Flatten(g) ==> c == v
  {
    if Uniform(g, width, height, v) {
      forall c | c in Flatten(g) ensures c == v {
        FlattenMembers(g, c);
        var y :| 0 <= y < |g| && c in g[y];
        var x :| 0 <= x < |g[y]| && g[y][x] == c;
      }
    } else {
      var y, x :| 0 <= y < height && 0 <= x < width && g[y][x] != v;
      FlattenAt(g, width, y, x);
      assert Flatten(g)[y * width + x] in Flatten(g);
    }
  }
}
