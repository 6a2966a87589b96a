/** Coordinates on the forest grid and the clipped Moore neighbourhood of a cell. */
module Neighbourhood {

  /** A cell position: `.0` is the column x, `.1` the row y. */
  type Coord = (int, int)

  predicate InBounds(c: Coord, width: int, height: int) {
    0 <= c.0 < width && 0 <= c.1 < height
  }

  /** `c` is one of the eight cells around `centre` (horizontally, vertically or diagonally). */
  predicate Adjacent(c: Coord, centre: Coord) {
    c != centre && centre.0 - 1 <= c.0 <= centre.0 + 1 && centre.1 - 1 <= c.1 <= centre.1 + 1
  }

  /** x-major order: by column first, then by row within a column. */
  predicate Before(a: Coord, b: Coord) {
    a.0 < b.0 || (a.0 == b.0 && a.1 < b.1)
  }

  predicate XMajorSorted(s: seq<Coord>) {
    forall i, j :: 0 <= i < j < |s| ==> Before(s[i], s[j])
  }

  /** `c` as a one-element list when the scan keeps it: inside the grid and not the centre. */
  function Keep(c: Coord, centre: Coord, width: int, height: int): seq<Coord> {
    if c != centre && InBounds(c, width, height) then [c] else []
  }

  /** The inner loop of the scan: column `i`, rows `y - 1`, `y`, `y + 1`. */
  function ColumnScan(i: int, x: int, y: int, width: int, height: int): seq<Coord> {
    Keep((i, y - 1), (x, y), width, height)
    + Keep((i, y), (x, y), width, height)
    + Keep((i, y + 1), (x, y), width, height)
  }

  /**
   * The neighbours of `(x, y)`: the outer loop runs over the columns `x - 1 .. x + 1`,
   * the inner one over the rows `y - 1 .. y + 1`, skipping the centre and every
   * coordinate outside the grid.
   */
  function Neighbors(x: int, y: int, width: int, height: int): seq<Coord> {
    ColumnScan(x - 1, x, y, width, height)
    + ColumnScan(x, x, y, width, height)
    + ColumnScan(x + 1, x, y, width, height)
  }

  /** `Neighbors` lists only in-bounds neighbours of the centre. */
  lemma NeighborsInBounds(x: int, y: int, width: int, height: int)
    ensures var r := Neighbors(x, y, width, height);
      forall i :: 0 <= i < |r| ==> InBounds(r[i], width, height) && Adjacent(r[i], (x, y))
  {
    var left := ColumnScan(x - 1, x, y, width, height);
    var middle := ColumnScan(x, x, y, width, height);
    var right := ColumnScan(x + 1, x, y, width, height);
    ColumnScanFacts(x - 1, x, y, width, height);
    ColumnScanFacts(x, x, y, width, height);
    ColumnScanFacts(x + 1, x, y, width, height);
    var r := left + middle + right;
    forall i | 0 <= i < |r| ensures InBounds(r[i], width, height) && Adjacent(r[i], (x, y)) {
      if i < |left| {
        assert r[i] == left[i];
      } else if i < |left| + |middle| {
        assert r[i] == middle[i - |left|];
      } else {
        assert r[i] == right[i - |left| - |middle|];
      }
    }
  }

  /** `Neighbors` lists the cells in x-major order. */
  lemma NeighborsSorted(x: int, y: int, width: int, height: int)
    ensures XMajorSorted(Neighbors(x, y, width, height))
  {
    var left := ColumnScan(x - 1, x, y, width, height);
    var middle := ColumnScan(x, x, y, width, height);
    var right := ColumnScan(x + 1, x, y, width, height);
    ColumnScanFacts(x - 1, x, y, width, height);
    ColumnScanFacts(x, x, y, width, height);
    ColumnScanFacts(x + 1, x, y, width, height);
    SortedConcat(left, middle);
    assert forall p, q :: p in left + middle && q in right ==> Before(p, q);
    SortedConcat(left + middle, right);
  }

  /** `Neighbors` lists every in-bounds neighbour of the centre. */
  lemma NeighborsComplete(x: int, y: int, width: int, height: int, c: Coord)
    requires InBounds(c, width, height) && Adjacent(c, (x, y))
    ensures c in Neighbors(x, y, width, height)
  {
    ColumnScanFacts(c.0, x, y, width, height);
    assert c in ColumnScan(c.0, x, y, width, height);
  }

  lemma NeighborsSpec(x: int, y: int, width: int, height: int)
    ensures var r := Neighbors(x, y, width, height);
      && (forall i :: 0 <= i < |r| ==> InBounds(r[i], width, height) && Adjacent(r[i], (x, y)))
      && (forall c :: InBounds(c, width, height) && Adjacent(c, (x, y)) ==> c in r)
      && XMajorSorted(r)
  {
    NeighborsInBounds(x, y, width, height);
    NeighborsSorted(x, y, width, height);
    forall c | InBounds(c, width, height) && Adjacent(c, (x, y))
      ensures c in Neighbors(x, y, width, height)
    {
      NeighborsComplete(x, y, width, height, c);
    }
  }

  /** What one column of the scan yields: cells of column `i` in bounds, not the centre, top to bottom. */
  lemma ColumnScanFacts(i: int, x: int, y: int, width: int, height: int)
    ensures var s := ColumnScan(i, x, y, width, height);
      && (forall k :: 0 <= k < |s| ==> s[k].0 == i && y - 1 <= s[k].1 <= y + 1
                                       && s[k] != (x, y) && InBounds(s[k], width, height))
      && XMajorSorted(s)
      && (forall j :: y - 1 <= j <= y + 1 && (i, j) != (x, y) && InBounds((i, j), width, height)
                      ==> (i, j) in s)
  {
  }

  lemma SortedConcat(a: seq<Coord>, b: seq<Coord>)
    requires XMajorSorted(a) && XMajorSorted(b)
    requires forall p, q :: p in a && q in b ==> Before(p, q)
    ensures XMajorSorted(a + b)
  {
    forall i, j | 0 <= i < j < |a + b| ensures Before((a + b)[i], (a + b)[j]) {
      if j < |a| {
        assert (a + b)[i] == a[i] && (a + b)[j] == a[j];
      } else if i >= |a| {
        assert (a + b)[i] == b[i - |a|] && (a + b)[j] == b[j - |a|];
      } else {
        assert (a + b)[i] == a[i] && (a + b)[j] == b[j - |a|];
        assert a[i] in a && b[j - |a|] in b;
      }
    }
  }

  /** How many of `c - 1`, `c`, `c + 1` lie in `[0, n)`, for `0 <= c < n`. */
  function Span(c: int, n: int): nat {
    (if 0 < c then 1 else 0) + 1 + (if c < n - 1 then 1 else 0)
  }

  lemma ColumnScanLength(i: int, x: int, y: int, width: int, height: int)
    requires 0 <= x < width && 0 <= y < height
    ensures |ColumnScan(i, x, y, width, height)|
            == if 0 <= i < width then Span(y, height) - (if i == x then 1 else 0) else 0
  {
  }

  /** An in-bounds cell has (columns in reach) * (rows in reach) - 1 neighbours. */
  lemma NeighborCount(x: int, y: int, width: int, height: int)
    requires InBounds((x, y), width, height)
    ensures |Neighbors(x, y, width, height)| == Span(x, width) * Span(y, height) - 1
  {
    ColumnScanLength(x - 1, x, y, width, height);
    ColumnScanLength(x, x, y, width, height);
    ColumnScanLength(x + 1, x, y, width, height);
    var sy := Span(y, height);
    assert Span(x, width) * sy
           == (if 0 < x then sy else 0) + sy + (if x < width - 1 then sy else 0);
  }

  predicate IsCorner(x: int, y: int, width: int, height: int) {
    (x == 0 || x == width - 1) && (y == 0 || y == height - 1)
  }

  predicate IsBorder(x: int, y: int, width: int, height: int) {
    x == 0 || x == width - 1 || y == 0 || y == height - 1
  }

  /** On a grid of at least 2 x 2 cells: corners have 3 neighbours, other border cells 5, interior cells 8. */
  lemma NeighborCountByPosition(x: int, y: int, width: int, height: int)
    requires 2 <= width && 2 <= height && InBounds((x, y), width, height)
    ensures IsCorner(x, y, width, height) ==> |Neighbors(x, y, width, height)| == 3
    ensures IsBorder(x, y, width, height) && !IsCorner(x, y, width, height)
            ==> |Neighbors(x, y, width, height)| == 5
    ensures !IsBorder(x, y, width, height) ==> |Neighbors(x, y, width, height)| == 8
  {
    NeighborCount(x, y, width, height);
  }

  /** Two x-major sorted lists holding the same coordinates are the same list. */
  lemma {:induction false} SortedSameElements(a: seq<Coord>, b: seq<Coord>)
    requires XMajorSorted(a) && XMajorSorted(b)
    requires forall c :: c in a <==> c in b
    ensures a == b
  {
    if a != [] {
      assert a[0] in a;
    }
    if b != [] {
      assert b[0] in b;
    }
    if a != [] {
      assert a[0] in b && b[0] in a;
      var k :| 0 <= k < |b| && b[k] == a[0];
      var m :| 0 <= m < |a| && a[m] == b[0];
      assert k == 0 || Before(b[0], a[0]);
      assert m == 0 || Before(a[0], b[0]);
      forall c ensures c in a[1..] <==> c in b[1..] {
        if c in a[1..] {
          var i :| 0 <= i < |a[1..]| && a[1..][i] == c;
          assert Before(a[0], c);
          assert c in b;
        }
        if c in b[1..] {
          var i :| 0 <= i < |b[1..]| && b[1..][i] == c;
          assert Before(b[0], c);
          assert c in a;
        }
      }
      SortedSameElements(a[1..], b[1..]);
    }
  }

  /**
   * The three properties of `Neighbors` pin it down: any list of in-bounds neighbours
   * that holds every in-bounds neighbour and is in x-major order is exactly `Neighbors`.
   */
  lemma NeighborsUnique(x: int, y: int, width: int, height: int, s: seq<Coord>)
    requires forall i :: 0 <= i < |s| ==> InBounds(s[i], width, height) && Adjacent(s[i], (x, y))
    requires forall c :: InBounds(c, width, height) && Adjacent(c, (x, y)) ==> c in s
    requires XMajorSorted(s)
    ensures s == Neighbors(x, y, width, height)
  {
    var r := Neighbors(x, y, width, height);
    NeighborsSpec(x, y, width, height);
    forall c ensures c in s <==> c in r {
      if c in s {
        var i :| 0 <= i < |s| && s[i] == c;
      }
      if c in r {
        var i :| 0 <= i < |r| && r[i] == c;
      }
    }
    SortedSameElements(s, r);
  }

  /** An interior cell has all eight neighbours, column by column, each column top to bottom. */
  lemma InteriorNeighbors(x: int, y: int, width: int, height: int)
    requires 0 < x < width - 1 && 0 < y < height - 1
    ensures Neighbors(x, y, width, height)
            == [(x - 1, y - 1), (x - 1, y), (x - 1, y + 1), (x, y - 1), (x, y + 1),
                (x + 1, y - 1), (x + 1, y), (x + 1, y + 1)]
  {
    assert ColumnScan(x - 1, x, y, width, height) == [(x - 1, y - 1), (x - 1, y), (x - 1, y + 1)];
    assert ColumnScan(x, x, y, width, height) == [(x, y - 1), (x, y + 1)];
    assert ColumnScan(x + 1, x, y, width, height) == [(x + 1, y - 1), (x + 1, y), (x + 1, y + 1)];
  }

  // The neighbour lists of the grid with 4 rows of 5 columns, as the test suite lists them.

  lemma NeighborsOfCornerTopLeft()
    ensures Neighbors(0, 0, 5, 4) == [(0, 1), (1, 0), (1, 1)]
  {
    assert ColumnScan(-1, 0, 0, 5, 4) == [];
    assert ColumnScan(0, 0, 0, 5, 4) == [(0, 1)];
    assert ColumnScan(1, 0, 0, 5, 4) == [(1, 0), (1, 1)];
  }

  lemma NeighborsOfCornerTopRight()
    ensures Neighbors(4, 0, 5, 4) == [(3, 0), (3, 1), (4, 1)]
  {
    assert ColumnScan(3, 4, 0, 5, 4) == [(3, 0), (3, 1)];
    assert ColumnScan(4, 4, 0, 5, 4) == [(4, 1)];
    assert ColumnScan(5, 4, 0, 5, 4) == [];
  }

  lemma NeighborsOfCornerBottomRight()
    ensures Neighbors(4, 3, 5, 4) == [(3, 2), (3, 3), (4, 2)]
  {
    assert ColumnScan(3, 4, 3, 5, 4) == [(3, 2), (3, 3)];
    assert ColumnScan(4, 4, 3, 5, 4) == [(4, 2)];
    assert ColumnScan(5, 4, 3, 5, 4) == [];
  }

  lemma NeighborsOfCornerBottomLeft()
    ensures Neighbors(0, 3, 5, 4) == [(0, 2), (1, 2), (1, 3)]
  {
    assert ColumnScan(-1, 0, 3, 5, 4) == [];
    assert ColumnScan(0, 0, 3, 5, 4) == [(0, 2)];
    assert ColumnScan(1, 0, 3, 5, 4) == [(1, 2), (1, 3)];
  }

  lemma NeighborsOfLeftEdge()
    ensures Neighbors(0, 2, 5, 4) == [(0, 1), (0, 3), (1, 1), (1, 2), (1, 3)]
  {
    assert ColumnScan(-1, 0, 2, 5, 4) == [];
    assert ColumnScan(0, 0, 2, 5, 4) == [(0, 1), (0, 3)];
    assert ColumnScan(1, 0, 2, 5, 4) == [(1, 1), (1, 2), (1, 3)];
  }

  lemma NeighborsOfTopEdge()
    ensures Neighbors(2, 0, 5, 4) == [(1, 0), (1, 1), (2, 1), (3, 0), (3, 1)]
  {
    assert ColumnScan(1, 2, 0, 5, 4) == [(1, 0), (1, 1)];
    assert ColumnScan(2, 2, 0, 5, 4) == [(2, 1)];
    assert ColumnScan(3, 2, 0, 5, 4) == [(3, 0), (3, 1)];
  }

  lemma NeighborsOfCentre()
    ensures Neighbors(1, 2, 5, 4) == [(0, 1), (0, 2), (0, 3), (1, 1), (1, 3), (2, 1), (2, 2), (2, 3)]
  {
    assert ColumnScan(0, 1, 2, 5, 4) == [(0, 1), (0, 2), (0, 3)];
    assert ColumnScan(1, 1, 2, 5, 4) == [(1, 1), (1, 3)];
    assert ColumnScan(2, 1, 2, 5, 4) == [(2, 1), (2, 2), (2, 3)];
  }
}
