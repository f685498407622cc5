/** Geometry of the rhombic Hex grid shared by every engine copy: board
    coordinates, the six neighbour offsets, chains of same-owner stones and
    the border-to-border connection that decides a game. */
module HexGeometry {

  /** A board coordinate. `x` is the row and `y` the column, as in the
      C++ `Point` struct and the `(row, col)` tuples of the Python prototype. */
  datatype Point = Point(x: int, y: int)

  /** A board as a value: `g[x][y]` is the label of cell (x, y). */
  type Grid = seq<seq<int>>

  /** Row offsets `dx[k]` and column offsets `dy[k]` of the six neighbours. */
  const DX: seq<int> := [0, 1, 1, 0, -1, -1]
  const DY: seq<int> := [-1, -1, 0, 1, 1, 0]

  /** The k-th neighbour of `p` (it may lie off the board). */
  function Neighbour(p: Point, k: int): Point
    requires 0 <= k < 6
  {
    Point(p.x + DX[k], p.y + DY[k])
  }

  /** The six displacements between neighbouring hexagons. */
  predicate IsOffset(dx: int, dy: int) {
    || (dx == 0 && dy == -1) || (dx == 1 && dy == -1) || (dx == 1 && dy == 0)
    || (dx == 0 && dy == 1) || (dx == -1 && dy == 1) || (dx == -1 && dy == 0)
  }

  /** Hex adjacency, as a relation independent of the offset tables. */
  predicate Adjacent(a: Point, b: Point) {
    IsOffset(b.x - a.x, b.y - a.y)
  }

  /** Every entry of the offset tables is a hex displacement. */
  lemma NeighbourIsAdjacent(p: Point, k: int)
    requires 0 <= k < 6
    ensures Adjacent(p, Neighbour(p, k))
  {
  }

  /** Conversely every hex neighbour is listed by the tables: the tables
      enumerate exactly the six displacements. */
  lemma AdjacentIsNeighbour(a: Point, b: Point) returns (k: int)
    requires Adjacent(a, b)
    ensures 0 <= k < 6 && b == Neighbour(a, k)
  {
    var dx, dy := b.x - a.x, b.y - a.y;
    k := if dx == 0 && dy == -1 then 0
         else if dx == 1 && dy == -1 then 1
         else if dx == 1 && dy == 0 then 2
         else if dx == 0 && dy == 1 then 3
         else if dx == -1 && dy == 1 then 4
         else 5;
  }

  /** The tables are closed under negation: direction k + 3 (mod 6) undoes
      direction k, so the neighbour relation is symmetric. */
  lemma OffsetsClosedUnderNegation(k: int)
    requires 0 <= k < 6
    ensures DX[(k + 3) % 6] == -DX[k] && DY[(k + 3) % 6] == -DY[k]
  {
  }

  lemma AdjacentSymmetric(a: Point, b: Point)
    ensures Adjacent(a, b) <==> Adjacent(b, a)
  {
  }

  /** A square grid of side n. */
  predicate IsGrid(g: Grid, n: int) {
    |g| == n && forall i :: 0 <= i < n ==> |g[i]| == n
  }

  predicate InRange(n: int, p: Point) {
    0 <= p.x < n && 0 <= p.y < n
  }

  /** Cell p exists in g and holds label v. */
  predicate Owns(g: Grid, v: int, p: Point) {
    0 <= p.x < |g| && 0 <= p.y < |g[p.x]| && g[p.x][p.y] == v
  }

  /** The two borders a player joins: `Rows` joins row 0 to row n-1,
      `Columns` joins column 0 to column n-1. */
  datatype Axis = Rows | Columns

  predicate OnFirst(axis: Axis, p: Point) {
    if axis == Rows then p.x == 0 else p.y == 0
  }

  predicate OnLast(n: int, axis: Axis, p: Point) {
    if axis == Rows then p.x == n - 1 else p.y == n - 1
  }

  /** A non-empty path of v-stones, each hex-adjacent to the next. */
  ghost predicate IsChain(g: Grid, v: int, path: seq<Point>) {
    && |path| > 0
    && (forall i :: 0 <= i < |path| ==> Owns(g, v, path[i]))
    && (forall i :: 0 <= i < |path| - 1 ==> Adjacent(path[i], path[i + 1]))
  }

  /** A chain of v-stones from the first border of `axis` to the last. */
  ghost predicate Crossing(g: Grid, n: int, v: int, axis: Axis, path: seq<Point>) {
    IsChain(g, v, path) && OnFirst(axis, path[0]) && OnLast(n, axis, path[|path| - 1])
  }

  /** The winning condition of Hex: v's stones link the two borders of `axis`. */
  ghost predicate Connects(g: Grid, n: int, v: int, axis: Axis) {
    exists path :: Crossing(g, n, v, axis, path)
  }

  /** Appending an adjacent v-stone extends a chain. */
  lemma ChainExtend(g: Grid, v: int, path: seq<Point>, q: Point)
    requires IsChain(g, v, path) && Owns(g, v, q) && Adjacent(path[|path| - 1], q)
    ensures IsChain(g, v, path + [q])
  {
    var path' := path + [q];
    forall i | 0 <= i < |path'| - 1
      ensures Adjacent(path'[i], path'[i + 1])
    {
      if i < |path| - 1 {
        assert path'[i] == path[i] && path'[i + 1] == path[i + 1];
      }
    }
  }
}
