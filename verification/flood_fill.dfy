/** Flood fill of a grid of colours.

    `FillWithColor` validates the request, collects the 4-connected region of
    cells that share the seed's colour (`CollectRegion`, a worklist version of
    the recursive neighbour walk) and writes the new colour into every
    collected cell of a copy of the grid.

    The region is specified independently of the traversal: a cell belongs to
    it when a path of orthogonal steps through cells of the seed's colour
    leads to it from the seed (`InRegion`). */
module FloodFill {

  type Grid = seq<seq<int>>

  datatype Point = Point(row: int, column: int)

  /** Largest number of rows a request may have. */
  const MaxRows: nat := 50

  /** Colours must stay below this bound. */
  const ColorLimit: int := 65536

  /** Number of columns as the grid's first row gives it (0 for an empty grid). */
  function Width(g: Grid): nat {
    if |g| == 0 then 0 else |g[0]|
  }

  /** Every row is as long as the first one. */
  predicate Rectangular(g: Grid) {
    forall i :: 0 <= i < |g| ==> |g[i]| == Width(g)
  }

  predicate NonNegative(g: Grid) {
    forall i, j :: 0 <= i < |g| && 0 <= j < |g[i]| ==> g[i][j] >= 0
  }

  /** `p` names an existing cell of `g`. */
  predicate IsCell(g: Grid, p: Point) {
    0 <= p.row < |g| && 0 <= p.column < |g[p.row]|
  }

  function At(g: Grid, p: Point): int
    requires IsCell(g, p)
  {
    g[p.row][p.column]
  }

  /** All cells of `g`. */
  function Cells(g: Grid): (cells: set<Point>)
    ensures forall p :: p in cells <==> IsCell(g, p)
  {
    var cells := set r, c | 0 <= r < |g| && 0 <= c < |g[r]| :: Point(r, c);
    assert forall p :: IsCell(g, p) ==> Point(p.row, p.column) in cells;
    cells
  }

  /** The request the fill accepts; any other request leaves the grid as it is. */
  predicate ValidRequest(g: Grid, row: int, column: int, newColor: int) {
    && |g| != 0
    && |g| <= MaxRows
    && Rectangular(g)
    && NonNegative(g)
    && 0 <= row < |g|
    && 0 <= column < Width(g)
    && newColor < ColorLimit
  }

  /** The four orthogonal neighbours, in the order the traversal examines
      them: left, right, up, down. */
  function Neighbours(p: Point): (area: seq<Point>)
    ensures |area| == 4
  {
    [Point(p.row, p.column - 1), Point(p.row, p.column + 1),
     Point(p.row - 1, p.column), Point(p.row + 1, p.column)]
  }

  /** A walk of orthogonal steps through existing cells that all have the
      colour of the walk's first cell. */
  ghost predicate IsPath(g: Grid, path: seq<Point>) {
    && |path| > 0
    && IsCell(g, path[0])
    && (forall k :: 0 <= k < |path| ==> IsCell(g, path[k]) && At(g, path[k]) == At(g, path[0]))
    && (forall k :: 0 < k < |path| ==> path[k] in Neighbours(path[k - 1]))
  }

  /** `p` lies in the region of `seed`: some path leads from the seed to `p`. */
  ghost predicate InRegion(g: Grid, seed: Point, p: Point) {
    exists path :: IsPath(g, path) && path[0] == seed && path[|path| - 1] == p
  }

  /** Every same-coloured neighbour of `p` is already in `visited`. */
  ghost predicate ClosedAt(g: Grid, visited: set<Point>, p: Point) {
    IsCell(g, p) ==>
      forall q :: q in Neighbours(p) && IsCell(g, q) && At(g, q) == At(g, p) ==> q in visited
  }

  /** The reference result of a fill: for a valid request, every cell of the
      seed's region takes the new colour and every other cell keeps its own;
      an invalid request returns the grid unchanged. */
  ghost function Filled(g: Grid, row: int, column: int, newColor: int): Grid {
    if !ValidRequest(g, row, column, newColor) then g
    else
      seq(|g|, i requires 0 <= i < |g| =>
        seq(|g[i]|, j requires 0 <= j < |g[i]| =>
          if InRegion(g, Point(row, column), Point(i, j)) then newColor else g[i][j]))
  }

  /** The whole fill: validation guard, region traversal, write-back. */
  method FillWithColor(image: Grid, row: int, column: int, newColor: int) returns (r: Grid)
    ensures !ValidRequest(image, row, column, newColor) ==> r == image
    ensures |r| == |image|
    ensures forall i :: 0 <= i < |image| ==> |r[i]| == |image[i]|
    ensures ValidRequest(image, row, column, newColor) ==> r[row][column] == newColor
    ensures ValidRequest(image, row, column, newColor) ==>
      forall i, j :: 0 <= i < |image| && 0 <= j < |image[i]| ==>
        r[i][j] == if InRegion(image, Point(row, column), Point(i, j)) then newColor else image[i][j]
    ensures r == Filled(image, row, column, newColor)
  {
    if !ValidRequest(image, row, column, newColor) {
      return image;
    }
    var seed := Point(row, column);
    var points := CollectRegion(image, seed);
    r := seq(|image|, i requires 0 <= i < |image| =>
      seq(|image[i]|, j requires 0 <= j < |image[i]| =>
        if Point(i, j) in points then newColor else image[i][j]));
    SeedInRegion(image, seed);
    PaintRegionIsFilled(image, row, column, newColor, points, r);
  }

  /** The neighbour walk: starting from the seed, repeatedly take a collected
      cell and collect each in-bounds neighbour that has the same colour and
      was not collected before. The result is exactly the seed's region. */
  method CollectRegion(g: Grid, seed: Point) returns (visited: set<Point>)
    requires Rectangular(g)
    requires IsCell(g, seed)
    ensures forall p :: p in visited <==> IsCell(g, p) && InRegion(g, seed, p)
  {
    SeedInRegion(g, seed);
    visited := {seed};
    var stack := [seed];
    while |stack| > 0
      invariant WithinRegion(g, seed, visited)
      invariant seed in visited
      invariant forall k :: 0 <= k < |stack| ==> stack[k] in visited
      invariant forall p :: p in visited && p !in stack ==> ClosedAt(g, visited, p)
      decreases Cells(g) - visited, |stack|
    {
      var p := stack[|stack| - 1];
      ghost var before := visited;
      ghost var all := stack;
      stack := stack[..|stack| - 1];
      assert forall q :: q in all ==> q in stack || q == p;
      visited, stack := VisitNeighbours(g, seed, p, visited, stack);
      forall q | q in visited && q !in stack && q != p
        ensures ClosedAt(g, visited, q)
      {
        if q in before {
          assert ClosedAt(g, before, q);
        }
      }
    }
    RegionWithinClosedSet(g, seed, visited);
  }

  /** Every collected cell is a cell of the seed's region. */
  ghost predicate WithinRegion(g: Grid, seed: Point, visited: set<Point>) {
    forall p :: p in visited ==> IsCell(g, p) && InRegion(g, seed, p)
  }

  /** One step of the walk: examine the four neighbours of `p` in order and
      collect (and schedule) each in-bounds one that has `p`'s colour and was
      not collected yet. Afterwards every same-coloured neighbour of `p` is
      collected, and the collected set grew or the worklist is unchanged. */
  method VisitNeighbours(g: Grid, seed: Point, p: Point, visited: set<Point>, stack: seq<Point>)
    returns (visited': set<Point>, stack': seq<Point>)
    requires Rectangular(g)
    requires p in visited
    requires WithinRegion(g, seed, visited)
    ensures WithinRegion(g, seed, visited')
    ensures visited <= visited'
    ensures visited' == visited ==> stack' == stack
    ensures visited' == visited || Cells(g) - visited' < Cells(g) - visited
    ensures forall q :: q in stack ==> q in stack'
    ensures forall i :: 0 <= i < |stack'| ==> stack'[i] in visited' || stack'[i] in stack
    ensures forall q :: q in visited' && q !in visited ==> q in stack'
    ensures ClosedAt(g, visited', p)
  {
    visited', stack' := visited, stack;
    var area := Neighbours(p);
    var k := 0;
    while k < 4
      invariant 0 <= k <= 4
      invariant visited <= visited'
      invariant visited' == visited ==> stack' == stack
      invariant visited' == visited || Cells(g) - visited' < Cells(g) - visited
      invariant WithinRegion(g, seed, visited')
      invariant forall q :: q in stack ==> q in stack'
      invariant forall i :: 0 <= i < |stack'| ==> stack'[i] in visited' || stack'[i] in stack
      invariant forall q :: q in visited' && q !in visited ==> q in stack'
      invariant forall i :: 0 <= i < k && IsCell(g, area[i]) && At(g, area[i]) == At(g, p) ==> area[i] in visited'
    {
      var n := area[k];
      if 0 <= n.row < |g| && 0 <= n.column < Width(g)
        && g[n.row][n.column] == g[p.row][p.column] && n !in visited'
      {
        RegionStep(g, seed, p, n);
        visited' := visited' + {n};
        stack' := stack' + [n];
      }
      k := k + 1;
    }
  }

  lemma SeedInRegion(g: Grid, seed: Point)
    requires IsCell(g, seed)
    ensures InRegion(g, seed, seed)
  {
    assert IsPath(g, [seed]);
  }

  /** A same-coloured neighbour of a region cell is in the region. */
  lemma RegionStep(g: Grid, seed: Point, p: Point, n: Point)
    requires InRegion(g, seed, p)
    requires IsCell(g, n) && n in Neighbours(p)
    requires IsCell(g, p) && At(g, n) == At(g, p)
    ensures InRegion(g, seed, n)
  {
    var path :| IsPath(g, path) && path[0] == seed && path[|path| - 1] == p;
    var longer := path + [n];
    assert longer[|longer| - 1] == n;
    assert IsPath(g, longer);
  }

  /** Every cell of a region has the seed's colour. */
  lemma RegionHoldsSeedColor(g: Grid, seed: Point, p: Point)
    requires InRegion(g, seed, p)
    ensures IsCell(g, seed) && IsCell(g, p) && At(g, p) == At(g, seed)
  {

  }

  /** A path that starts inside a set closed under same-coloured steps never leaves it. */
  lemma {:induction false} PathStaysInClosedSet(g: Grid, visited: set<Point>, path: seq<Point>, k: nat)
    requires IsPath(g, path) && path[0] in visited
    requires forall p :: p in visited ==> ClosedAt(g, visited, p)
    requires k < |path|
    ensures path[k] in visited
    decreases k
  {
    if k > 0 {
      PathStaysInClosedSet(g, visited, path, k - 1);
      assert ClosedAt(g, visited, path[k - 1]);
      assert At(g, path[k]) == At(g, path[k - 1]);
    }
  }

  /** The region is contained in every closed set that holds the seed. */
  lemma RegionWithinClosedSet(g: Grid, seed: Point, visited: set<Point>)
    requires seed in visited
    requires forall p :: p in visited ==> ClosedAt(g, visited, p)
    ensures forall p :: InRegion(g, seed, p) ==> p in visited
  {
    forall p | InRegion(g, seed, p)
      ensures p in visited
    {
      var path :| IsPath(g, path) && path[0] == seed && path[|path| - 1] == p;
      PathStaysInClosedSet(g, visited, path, |path| - 1);
    }
  }

  /** Writing the new colour into exactly the collected cells of a copy of
      the grid yields the reference fill. */
  lemma PaintRegionIsFilled(g: Grid, row: int, column: int, newColor: int, points: set<Point>, r: Grid)
    requires ValidRequest(g, row, column, newColor)
    requires forall p :: p in points <==> IsCell(g, p) && InRegion(g, Point(row, column), p)
    requires |r| == |g| && forall i :: 0 <= i < |g| ==> |r[i]| == |g[i]|
    requires forall i, j :: 0 <= i < |g| && 0 <= j < |g[i]| ==>
      r[i][j] == if Point(i, j) in points then newColor else g[i][j]
    ensures r == Filled(g, row, column, newColor)
  {
    var f := Filled(g, row, column, newColor);
    forall i | 0 <= i < |g|
      ensures r[i] == f[i]
    {
      assert forall j :: 0 <= j < |g[i]| ==> r[i][j] == f[i][j];
    }
  }

  /** Filling a region with the colour it already has changes nothing. */
  lemma FilledWithSeedColorIsIdentity(g: Grid, row: int, column: int, newColor: int)
    requires ValidRequest(g, row, column, newColor)
    requires newColor == g[row][column]
    ensures Filled(g, row, column, newColor) == g
  {
    var seed := Point(row, column);
    var f := Filled(g, row, column, newColor);
    forall i | 0 <= i < |g|
      ensures f[i] == g[i]
    {
      forall j | 0 <= j < |g[i]|
        ensures f[i][j] == g[i][j]
      {
        if InRegion(g, seed, Point(i, j)) {
          RegionHoldsSeedColor(g, seed, Point(i, j));
        }
      }
    }
  }

  /** Filling twice with the same seed and colour is the same as filling once. */
  lemma FilledIdempotent(g: Grid, row: int, column: int, newColor: int)
    ensures Filled(Filled(g, row, column, newColor), row, column, newColor)
         == Filled(g, row, column, newColor)
  {
    var f := Filled(g, row, column, newColor);
    if ValidRequest(g, row, column, newColor) && ValidRequest(f, row, column, newColor) {
      SeedInRegion(g, Point(row, column));
      assert f[row][column] == newColor;
      FilledWithSeedColorIsIdentity(f, row, column, newColor);
    }
  }

  /** A one-cell grid takes the new colour. */
  lemma SingleCellExample()
    ensures Filled([[5]], 0, 0, 9) == [[9]]
  {
    var g := [[5]];
    SeedInRegion(g, Point(0, 0));
    var f := Filled(g, 0, 0, 9);
    assert f[0] == [9];
  }

  const ExampleGrid: Grid := [[1, 1, 1], [1, 1, 0], [1, 0, 1]]
  const ExampleRegion: set<Point> :=
    {Point(0, 0), Point(0, 1), Point(0, 2), Point(1, 0), Point(1, 1), Point(2, 0)}

  /** Every same-coloured neighbour of the six connected ones is one of them. */
  lemma ExampleRegionIsClosed()
    ensures forall p :: p in ExampleRegion ==> ClosedAt(ExampleGrid, ExampleRegion, p)
  {

  }

  /** The six connected ones are reachable from the centre. */
  lemma ExampleRegionIsReachable()
    ensures InRegion(ExampleGrid, Point(1, 1), Point(0, 0))
    ensures InRegion(ExampleGrid, Point(1, 1), Point(0, 1))
    ensures InRegion(ExampleGrid, Point(1, 1), Point(0, 2))
    ensures InRegion(ExampleGrid, Point(1, 1), Point(1, 0))
    ensures InRegion(ExampleGrid, Point(1, 1), Point(1, 1))
    ensures InRegion(ExampleGrid, Point(1, 1), Point(2, 0))
  {
    var g, seed := ExampleGrid, Point(1, 1);
    SeedInRegion(g, seed);
    RegionStep(g, seed, seed, Point(1, 0));
    RegionStep(g, seed, seed, Point(0, 1));
    RegionStep(g, seed, Point(1, 0), Point(2, 0));
    RegionStep(g, seed, Point(0, 1), Point(0, 0));
    RegionStep(g, seed, Point(0, 1), Point(0, 2));
  }

  /** The zeros and the isolated one in the corner are outside the seed's region. */
  lemma ExampleOutsideRegion()
    ensures !InRegion(ExampleGrid, Point(1, 1), Point(1, 2))
    ensures !InRegion(ExampleGrid, Point(1, 1), Point(2, 1))
    ensures !InRegion(ExampleGrid, Point(1, 1), Point(2, 2))
  {
    ExampleRegionIsClosed();
    RegionWithinClosedSet(ExampleGrid, Point(1, 1), ExampleRegion);
  }

  /** One cell of the reference fill of a valid request. */
  lemma FilledAt(g: Grid, row: int, column: int, newColor: int, i: int, j: int)
    requires ValidRequest(g, row, column, newColor)
    requires 0 <= i < |g| && 0 <= j < |g[i]|
    ensures |Filled(g, row, column, newColor)| == |g|
    ensures |Filled(g, row, column, newColor)[i]| == |g[i]|
    ensures Filled(g, row, column, newColor)[i][j]
         == if InRegion(g, Point(row, column), Point(i, j)) then newColor else g[i][j]
  {
  }

  lemma ExampleIsValid()
    ensures ValidRequest(ExampleGrid, 1, 1, 2)
  {

  }

  lemma ExampleTopRow()
    ensures |Filled(ExampleGrid, 1, 1, 2)| == 3
    ensures Filled(ExampleGrid, 1, 1, 2)[0] == [2, 2, 2]
  {
    ExampleIsValid();
    ExampleRegionIsReachable();
    FilledAt(ExampleGrid, 1, 1, 2, 0, 0);
    FilledAt(ExampleGrid, 1, 1, 2, 0, 1);
    FilledAt(ExampleGrid, 1, 1, 2, 0, 2);
  }

  lemma ExampleMiddleRow()
    ensures |Filled(ExampleGrid, 1, 1, 2)| == 3
    ensures Filled(ExampleGrid, 1, 1, 2)[1] == [2, 2, 0]
  {
    ExampleIsValid();
    ExampleRegionIsReachable();
    ExampleOutsideRegion();
    FilledAt(ExampleGrid, 1, 1, 2, 1, 0);
    FilledAt(ExampleGrid, 1, 1, 2, 1, 1);
    FilledAt(ExampleGrid, 1, 1, 2, 1, 2);
  }

  lemma ExampleBottomRow()
    ensures |Filled(ExampleGrid, 1, 1, 2)| == 3
    ensures Filled(ExampleGrid, 1, 1, 2)[2] == [2, 0, 1]
  {
    ExampleIsValid();
    ExampleRegionIsReachable();
    ExampleOutsideRegion();
    FilledAt(ExampleGrid, 1, 1, 2, 2, 0);
    FilledAt(ExampleGrid, 1, 1, 2, 2, 1);
    FilledAt(ExampleGrid, 1, 1, 2, 2, 2);
  }

  /** The region of the top-left ones in a 3x3 grid: the connected ones turn
      into twos while the isolated one in the corner keeps its colour. */
  lemma ThreeByThreeExample()
    ensures Filled(ExampleGrid, 1, 1, 2) == [[2, 2, 2], [2, 2, 0], [2, 0, 1]]
  {
    ExampleTopRow();
    ExampleMiddleRow();
    ExampleBottomRow();
  }

}
