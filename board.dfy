/** The 11x11 Hex board of the two C++ engines (`Point` and `Board`, which
    both copies define identically): a grid of 0 (empty), 1 and 2, with
    legality, fullness, single-cell placement and the legal-move scan that
    the search and the rollouts repeat. */
module HexBoard {
  import opened HexGeometry

  /** BOARD_SIZE */
  const N: int := 11

  /** `Point::isExceedRange`: the point lies off the board. */
  predicate IsExceedRange(p: Point)
    ensures IsExceedRange(p) <==> !InRange(N, p)
  {
    p.x < 0 || p.x >= N || p.y < 0 || p.y >= N
  }

  /** Board values. */
  predicate IsBoard(g: Grid) {
    IsGrid(g, N)
  }

  /** No cell holds 0. */
  ghost predicate Full(g: Grid)
    requires IsBoard(g)
  {
    forall i, j :: 0 <= i < N && 0 <= j < N ==> g[i][j] != 0
  }

  ghost predicate Legal(g: Grid, p: Point)
    requires IsBoard(g)
  {
    InRange(N, p) && g[p.x][p.y] == 0
  }

  /** The grid with cell p set to v. */
  function Place(g: Grid, p: Point, v: int): (g': Grid)
    requires IsBoard(g) && InRange(N, p)
    ensures IsBoard(g')
  {
    g[p.x := g[p.x][p.y := v]]
  }

  /** Placement writes exactly cell p. */
  lemma PlaceWritesOneCell(g: Grid, p: Point, v: int, i: int, j: int)
    requires IsBoard(g) && InRange(N, p) && 0 <= i < N && 0 <= j < N
    ensures Place(g, p, v)[i][j] == if i == p.x && j == p.y then v else g[i][j]
  {
  }

  /** Two boards with the same cells are the same value. */
  lemma SameCells(g: Grid, h: Grid)
    requires IsBoard(g) && IsBoard(h)
    requires forall i, j :: 0 <= i < N && 0 <= j < N ==> g[i][j] == h[i][j]
    ensures g == h
  {
    forall i | 0 <= i < N ensures g[i] == h[i] {
      assert forall j :: 0 <= j < N ==> g[i][j] == h[i][j];
    }
  }

  /** Row-major position of a cell. */
  function Index(p: Point): int {
    p.x * N + p.y
  }

  /** `Board`: the grid is an 11x11 buffer written in place by `makeMove`. */
  class Board {
    var cells: array2<int>

    ghost predicate Valid()
      reads this
    {
      cells.Length0 == N && cells.Length1 == N
    }

    /** The board's contents as a value. */
    ghost function View(): (g: Grid)
      reads this, cells
      requires Valid()
      ensures IsBoard(g)
      ensures forall i, j :: 0 <= i < N && 0 <= j < N ==> g[i][j] == cells[i, j]
    {
      var a := cells;
      seq(N, i requires 0 <= i < N reads a =>
        seq(N, j requires 0 <= j < N reads a => a[i, j]))
    }

    /** `Board()`: an empty board. */
    constructor ()
      ensures Valid() && fresh(cells)
      ensures forall i, j :: 0 <= i < N && 0 <= j < N ==> View()[i][j] == 0
    {
      cells := new int[N, N]((i, j) => 0);
    }

    /** The implicit copy constructor: a deep, independent copy. */
    constructor Copy(other: Board)
      requires other.Valid()
      ensures Valid() && fresh(cells) && View() == other.View()
    {
      var src := other.cells;
      cells := new int[N, N]((i, j) reads src =>
        if 0 <= i < N && 0 <= j < N then src[i, j] else 0);
      new;
      SameCells(View(), other.View());
    }

    /** `isFull`: scans the rows in order and stops at the first empty cell. */
    method IsFull() returns (full: bool)
      requires Valid()
      ensures full <==> Full(View())
    {
      for i := 0 to N
        invariant forall r, c :: 0 <= r < i && 0 <= c < N ==> cells[r, c] != 0
      {
        for j := 0 to N
          invariant forall c :: 0 <= c < j ==> cells[i, c] != 0
        {
          if cells[i, j] == 0 {
            return false;
          }
        }
      }
      return true;
    }

    /** `isLegalMove`: p is on the board and its cell is empty. */
    predicate IsLegalMove(p: Point)
      reads this, cells
      requires Valid()
      ensures IsLegalMove(p) <==> Legal(View(), p)
    {
      !IsExceedRange(p) && cells[p.x, p.y] == 0
    }

    /** `makeMove`: writes `player` into cell p and nothing else. */
    method MakeMove(p: Point, player: int)
      requires Valid() && InRange(N, p)
      modifies cells
      ensures Valid() && View() == Place(old(View()), p, player)
    {
      ghost var g := View();
      cells[p.x, p.y] := player;
      forall i, j | 0 <= i < N && 0 <= j < N
        ensures View()[i][j] == Place(g, p, player)[i][j]
      {
        PlaceWritesOneCell(g, p, player, i, j);
      }
      SameCells(View(), Place(g, p, player));
    }
  }

  /** Strictly increasing in row-major order: no duplicates, rows in order. */
  predicate RowMajor(moves: seq<Point>) {
    forall a, b :: 0 <= a < b < |moves| ==> Index(moves[a]) < Index(moves[b])
  }

  /** The scan `for i, for j: if isLegalMove(Point(i, j)) push_back` that
      opens `simulate` and every descent step of `HexBot`: it lists exactly
      the legal moves, in row-major order. */
  method LegalMoves(board: Board) returns (moves: seq<Point>)
    requires board.Valid()
    ensures forall p :: p in moves <==> Legal(board.View(), p)
    ensures RowMajor(moves)
  {
    moves := [];
    for i := 0 to N
      invariant forall p :: p in moves <==> Legal(board.View(), p) && p.x < i
      invariant RowMajor(moves)
      invariant forall a :: 0 <= a < |moves| ==> Index(moves[a]) < i * N
    {
      for j := 0 to N
        invariant forall p :: p in moves <==>
          Legal(board.View(), p) && (p.x < i || (p.x == i && p.y < j))
        invariant RowMajor(moves)
        invariant forall a :: 0 <= a < |moves| ==> Index(moves[a]) < i * N + j
      {
        if board.IsLegalMove(Point(i, j)) {
          moves := moves + [Point(i, j)];
        }
      }
    }
  }

  /** The number of empty cells, which every placement on an empty cell
      lowers by one. */
  function EmptyCount(g: Grid): nat
    requires IsBoard(g)
  {
    |set i, j | 0 <= i < N && 0 <= j < N && g[i][j] == 0 :: Point(i, j)|
  }

  /** A board is full exactly when it has no empty cell. */
  lemma FullIffNoEmpty(g: Grid)
    requires IsBoard(g)
    ensures Full(g) <==> EmptyCount(g) == 0
  {
    var empty := set i, j | 0 <= i < N && 0 <= j < N && g[i][j] == 0 :: Point(i, j);
    if !Full(g) {
      var i, j :| 0 <= i < N && 0 <= j < N && g[i][j] == 0;
      assert Point(i, j) in empty;
    } else {
      assert empty == {};
    }
  }

  lemma PlaceShrinksEmpty(g: Grid, p: Point, v: int)
    requires IsBoard(g) && Legal(g, p) && v != 0
    ensures EmptyCount(Place(g, p, v)) == EmptyCount(g) - 1
  {
    var g' := Place(g, p, v);
    var before := set i, j | 0 <= i < N && 0 <= j < N && g[i][j] == 0 :: Point(i, j);
    var after := set i, j | 0 <= i < N && 0 <= j < N && g'[i][j] == 0 :: Point(i, j);
    assert after == before - {p};
  }
}
