/** The win test of the older engine copy, src/hex.cpp: `isWin(board, player)`
    asks whether `player` joins the top and bottom rows, for either player.

    As written it has two defects, both modelled here next to the corrected
    test that the rest of the model uses:
    - the forest has only 121 entries, yet the border sentinels 121..124 are
      passed to `unite` and `find`, so every call indexes past its end;
    - once the forest is large enough for the sentinels, the unions with the
      left and right sentinels still run, and two stones on the first column
      then join the top and bottom sentinels with no chain between them. */
module LegacyWin {
  import opened HexGeometry
  import opened HexBoard
  import opened DisjointSets
  import opened WinOracle
  import opened Wrappers

  /** The size of `vector<int> parent(BOARD_SIZE * BOARD_SIZE, -1)`. */
  const LEGACY_ELEMENTS: int := N * N

  /** A value computed by code whose vector accesses are bounds-checked:
      either the value or the first index that lies outside the vector. */
  datatype Checked<T> = Value(value: T) | OutOfRange(index: int)

  /** `find(x)` with the bounds check the vector does not do. */
  method CheckedFind(ds: DisjointSet, x: int) returns (r: Checked<int>)
    requires ds.Valid()
    modifies ds.parent
    ensures ds.Valid()
    ensures !(0 <= x < ds.parent.Length) ==> r == OutOfRange(x)
    ensures 0 <= x < ds.parent.Length ==> r == Value(Roots(old(ds.parent[..]), ds.rank)[x])
  {
    if !(0 <= x < ds.parent.Length) {
      return OutOfRange(x);
    }
    var root := ds.Find(x);
    return Value(root);
  }

  /** `unite(x, y)` with bounds checks: `find(x)` runs first, then `find(y)`. */
  method CheckedUnite(ds: DisjointSet, x: int, y: int) returns (err: Option<int>)
    requires ds.Valid()
    modifies ds, ds.parent
    ensures ds.Valid() && ds.parent == old(ds.parent)
    ensures err == if !(0 <= x < ds.parent.Length) then Some(x)
                   else if !(0 <= y < ds.parent.Length) then Some(y)
                   else None
    ensures err.None? ==> ds.edges == old(ds.edges) + {(x, y)}
  {
    if !(0 <= x < ds.parent.Length) {
      return Some(x);
    }
    if !(0 <= y < ds.parent.Length) {
      return Some(y);
    }
    ds.Unite(x, y);
    return None;
  }

  /** `isWin(board, player)` exactly as written, over a forest of 121
      entries: it never produces a value. A stone on a border already makes
      its sentinel union fail, and a scan that gets through always fails on
      the final `find(121)`. */
  method LegacyIsWinAsWritten(board: Board, player: int) returns (r: Checked<bool>)
    requires board.Valid()
    ensures r.OutOfRange? && TOP <= r.index < ELEMENTS
  {
    var ds := new DisjointSet(LEGACY_ELEMENTS);
    for i := 0 to N
      invariant ds.Valid() && ds.parent.Length == LEGACY_ELEMENTS && fresh(ds) && fresh(ds.parent)
    {
      for j := 0 to N
        invariant ds.Valid() && ds.parent.Length == LEGACY_ELEMENTS && fresh(ds) && fresh(ds.parent)
      {
        if board.cells[i, j] == player {
          var c := Index(Point(i, j));
          IndexRoundTrip(Point(i, j));
          var err: Option<int> := None;
          if i == 0 {
            err := CheckedUnite(ds, c, TOP);
            if err.Some? {
              return OutOfRange(err.value);
            }
          }
          if i == N - 1 {
            err := CheckedUnite(ds, c, BOTTOM);
            if err.Some? {
              return OutOfRange(err.value);
            }
          }
          if j == 0 {
            err := CheckedUnite(ds, c, LEFT);
            if err.Some? {
              return OutOfRange(err.value);
            }
          }
          if j == N - 1 {
            err := CheckedUnite(ds, c, RIGHT);
            if err.Some? {
              return OutOfRange(err.value);
            }
          }
          for k := 0 to 6
            invariant ds.Valid() && ds.parent.Length == LEGACY_ELEMENTS && fresh(ds) && fresh(ds.parent)
          {
            var x := i + DX[k];
            var y := j + DY[k];
            if x >= 0 && x < N && y >= 0 && y < N && board.cells[x, y] == player {
              // both elements are cells, so neither find runs past the end
              IndexRoundTrip(Point(x, y));
              ds.Unite(c, Index(Point(x, y)));
            }
          }
        }
      }
    }
    var top := CheckedFind(ds, TOP);
    var bottom := CheckedFind(ds, BOTTOM);
    r := CheckedEqual(top, bottom);
  }

  /** `find(121) == find(122)` over checked operands: the first failure wins. */
  function CheckedEqual(a: Checked<int>, b: Checked<int>): (r: Checked<bool>)
    ensures a.OutOfRange? ==> r == OutOfRange(a.index)
    ensures a.Value? && b.OutOfRange? ==> r == OutOfRange(b.index)
    ensures a.Value? && b.Value? ==> r == Value(a.value == b.value)
  {
    match (a, b)
    case (OutOfRange(k), _) => OutOfRange(k)
    case (Value(_), OutOfRange(k)) => OutOfRange(k)
    case (Value(x), Value(y)) => Value(x == y)
  }

  /** A union of the sized variant for player p: with a row sentinel, with a
      column sentinel, or with a same-owner neighbour. */
  ghost predicate SizedLink(g: Grid, p: int, e: Edge) {
    PlayerLink(g, p, TOP, BOTTOM, Rows, e) || PlayerLink(g, p, LEFT, RIGHT, Columns, e)
  }

  /** All four border unions and the neighbour unions of a p-stone at a. */
  ghost predicate SizedDone(g: Grid, E: set<Edge>, a: Point, p: int) {
    StoneDone(g, E, a, p, TOP, BOTTOM, Rows) && StoneDone(g, E, a, p, LEFT, RIGHT, Columns)
  }

  /** The unions of `isWin` for one p-stone with the forest sized for the
      sentinels: rows 0 and 10, then columns 0 and 10, then the neighbours. */
  method LinkStoneSized(ds: DisjointSet, board: Board, a: Point, p: int)
    requires ds.Valid() && ds.parent.Length == ELEMENTS && board.Valid()
    requires InRange(N, a) && Owns(board.View(), p, a)
    modifies ds, ds.parent
    ensures ds.Valid() && ds.parent == old(ds.parent) && old(ds.edges) <= ds.edges
    ensures forall e :: e in ds.edges ==> e in old(ds.edges) || SizedLink(board.View(), p, e)
    ensures SizedDone(board.View(), ds.edges, a, p)
  {
    ghost var g := board.View();
    LinkBorders(ds, board, a, p, TOP, BOTTOM, Rows);
    LinkBorders(ds, board, a, p, LEFT, RIGHT, Columns);
    LinkNeighbours(ds, board, a, p, TOP, BOTTOM, Rows);
    assert NeighboursDone(g, ds.edges, a, p, 6);
  }

  /** Every p-stone before (i, j) in row-major order has had its unions. */
  ghost predicate SizedScanDone(g: Grid, E: set<Edge>, p: int, i: int, j: int) {
    forall a :: InRange(N, a) && Owns(g, p, a) && (a.x < i || (a.x == i && a.y < j)) ==> SizedDone(g, E, a, p)
  }

  lemma SizedScanStep(g: Grid, E: set<Edge>, F: set<Edge>, p: int, i: int, j: int)
    requires SizedScanDone(g, E, p, i, j) && E <= F
    requires Owns(g, p, Point(i, j)) ==> SizedDone(g, F, Point(i, j), p)
    ensures SizedScanDone(g, F, p, i, j + 1)
  {
    forall a | InRange(N, a) && Owns(g, p, a) && (a.x < i || (a.x == i && a.y < j))
      ensures SizedDone(g, F, a, p)
    {
      StoneDoneMono(g, E, F, a, p, TOP, BOTTOM, Rows);
      StoneDoneMono(g, E, F, a, p, LEFT, RIGHT, Columns);
    }
  }

  /** Row i of the sized scan. */
  method LinkRowSized(ds: DisjointSet, board: Board, p: int, i: int)
    requires ds.Valid() && ds.parent.Length == ELEMENTS && board.Valid() && 0 <= i < N
    requires forall e :: e in ds.edges ==> SizedLink(board.View(), p, e)
    requires SizedScanDone(board.View(), ds.edges, p, i, 0)
    modifies ds, ds.parent
    ensures ds.Valid() && ds.parent == old(ds.parent)
    ensures forall e :: e in ds.edges ==> SizedLink(board.View(), p, e)
    ensures SizedScanDone(board.View(), ds.edges, p, i + 1, 0)
  {
    ghost var g := board.View();
    for j := 0 to N
      invariant ds.Valid() && ds.parent == old(ds.parent)
      invariant forall e :: e in ds.edges ==> SizedLink(g, p, e)
      invariant SizedScanDone(g, ds.edges, p, i, j)
    {
      ghost var E0 := ds.edges;
      if board.cells[i, j] == p {
        LinkStoneSized(ds, board, Point(i, j), p);
        assert unchanged(board.cells) && board.View() == g;
      }
      SizedScanStep(g, E0, ds.edges, p, i, j);
    }
    assert SizedScanDone(g, ds.edges, p, i + 1, 0) by {
      assert forall a :: InRange(N, a) && a.x < i + 1 ==> a.x < i || (a.x == i && a.y < N);
    }
  }

  /** `isWin(board, player)` as written, but over a forest that has room for
      the four sentinels. Its answer is whether the unions it performs (all
      of them p-links, every one of them done) join the top sentinel to the
      bottom one; it does not decide whether p's stones cross the board,
      see `LegacyColumnLeak`. */
  method LegacyIsWinSized(board: Board, player: int) returns (r: bool, ghost E: set<Edge>)
    requires board.Valid()
    ensures forall e :: e in E ==> SizedLink(board.View(), player, e)
    ensures forall a :: InRange(N, a) && Owns(board.View(), player, a) ==> SizedDone(board.View(), E, a, player)
    ensures r <==> Reach(E, TOP, BOTTOM)
  {
    ghost var g := board.View();
    var ds := new DisjointSet(ELEMENTS);
    for i := 0 to N
      invariant ds.Valid() && ds.parent.Length == ELEMENTS && fresh(ds) && fresh(ds.parent)
      invariant forall e :: e in ds.edges ==> SizedLink(g, player, e)
      invariant SizedScanDone(g, ds.edges, player, i, 0)
    {
      LinkRowSized(ds, board, player, i);
      assert unchanged(board.cells) && board.View() == g;
    }
    E := ds.edges;
    ghost var L := Roots(ds.parent[..], ds.rank);
    var top := ds.Find(TOP);
    var bottom := ds.Find(BOTTOM);
    r := top == bottom;
    assert top == L[TOP] && bottom == L[BOTTOM];
    assert unchanged(board.cells) && board.View() == g;
  }

  /** A board whose only stones are player 1's at (0, 0) and (10, 0): both on
      column 0, one on each row border, and far apart. */
  function LeakBoard(): (g: Grid)
    ensures IsBoard(g)
    ensures forall a :: InRange(N, a) ==> (Owns(g, 1, a) <==> a == Point(0, 0) || a == Point(N - 1, 0))
  {
    seq(N, i => seq(N, j => if j == 0 && (i == 0 || i == N - 1) then 1 else 0))
  }

  /** On `LeakBoard` every chain of 1-stones that starts at (0, 0) stays there. */
  lemma {:induction false} LeakChainStays(path: seq<Point>, i: int)
    requires IsChain(LeakBoard(), 1, path) && path[0] == Point(0, 0) && 0 <= i < |path|
    ensures path[i] == Point(0, 0)
  {
    var g := LeakBoard();
    if i > 0 {
      LeakChainStays(path, i - 1);
      assert Adjacent(path[i - 1], path[i]);
      assert Owns(g, 1, path[i]);
    }
  }

  /** The sized variant answers true on `LeakBoard` for player 1, through
      (0, 0) - left sentinel - (10, 0), although no chain of 1-stones joins
      row 0 to row 10. */
  lemma LegacyColumnLeak(E: set<Edge>)
    requires forall a :: InRange(N, a) && Owns(LeakBoard(), 1, a) ==> SizedDone(LeakBoard(), E, a, 1)
    ensures Reach(E, TOP, BOTTOM)
    ensures !Connects(LeakBoard(), N, 1, Rows)
  {
    var g := LeakBoard();
    var a, b := Point(0, 0), Point(N - 1, 0);
    assert SizedDone(g, E, a, 1) && SizedDone(g, E, b, 1);
    assert Index(a) == 0 && Index(b) == 110;
    var w := [TOP, 0, LEFT, 110, BOTTOM];
    assert Linked(E, w[0], w[1]) && Linked(E, w[1], w[2]) && Linked(E, w[2], w[3]) && Linked(E, w[3], w[4]);
    assert IsWalk(E, w);
    if Connects(g, N, 1, Rows) {
      var path :| Crossing(g, N, 1, Rows, path);
      assert Owns(g, 1, path[0]);
      LeakChainStays(path, |path| - 1);
    }
  }

  /** The row-border and neighbour unions of a p-stone: what `isWin` for a
      player joining the top and bottom rows has to perform. */
  ghost predicate RowScanDone(g: Grid, E: set<Edge>, p: int, i: int, j: int) {
    forall a :: InRange(N, a) && Owns(g, p, a) && (a.x < i || (a.x == i && a.y < j)) ==>
      StoneDone(g, E, a, p, TOP, BOTTOM, Rows)
  }

  lemma RowScanStep(g: Grid, E: set<Edge>, F: set<Edge>, p: int, i: int, j: int)
    requires RowScanDone(g, E, p, i, j) && E <= F
    requires Owns(g, p, Point(i, j)) ==> StoneDone(g, F, Point(i, j), p, TOP, BOTTOM, Rows)
    ensures RowScanDone(g, F, p, i, j + 1)
  {
    forall a | InRange(N, a) && Owns(g, p, a) && (a.x < i || (a.x == i && a.y < j))
      ensures StoneDone(g, F, a, p, TOP, BOTTOM, Rows)
    {
      StoneDoneMono(g, E, F, a, p, TOP, BOTTOM, Rows);
    }
  }

  /** Row i of the corrected scan. */
  method LinkRowCorrected(ds: DisjointSet, board: Board, p: int, i: int)
    requires ds.Valid() && ds.parent.Length == ELEMENTS && board.Valid() && 0 <= i < N
    requires forall e :: e in ds.edges ==> PlayerLink(board.View(), p, TOP, BOTTOM, Rows, e)
    requires RowScanDone(board.View(), ds.edges, p, i, 0)
    modifies ds, ds.parent
    ensures ds.Valid() && ds.parent == old(ds.parent)
    ensures forall e :: e in ds.edges ==> PlayerLink(board.View(), p, TOP, BOTTOM, Rows, e)
    ensures RowScanDone(board.View(), ds.edges, p, i + 1, 0)
  {
    ghost var g := board.View();
    for j := 0 to N
      invariant ds.Valid() && ds.parent == old(ds.parent)
      invariant forall e :: e in ds.edges ==> PlayerLink(g, p, TOP, BOTTOM, Rows, e)
      invariant RowScanDone(g, ds.edges, p, i, j)
    {
      ghost var E0 := ds.edges;
      if board.cells[i, j] == p {
        LinkStone(ds, board, Point(i, j), p, TOP, BOTTOM, Rows);
        assert unchanged(board.cells) && board.View() == g;
      }
      RowScanStep(g, E0, ds.edges, p, i, j);
    }
    assert RowScanDone(g, ds.edges, p, i + 1, 0) by {
      assert forall a :: InRange(N, a) && a.x < i + 1 ==> a.x < i || (a.x == i && a.y < N);
    }
  }

  /** The corrected `isWin(board, player)`: a forest with room for the row
      sentinels and no column unions. It answers exactly whether player's
      stones join row 0 to row 10. */
  method LegacyIsWin(board: Board, player: int) returns (r: bool)
    requires board.Valid()
    ensures r <==> Connects(board.View(), N, player, Rows)
  {
    ghost var g := board.View();
    var ds := new DisjointSet(ELEMENTS);
    for i := 0 to N
      invariant ds.Valid() && ds.parent.Length == ELEMENTS && fresh(ds) && fresh(ds.parent)
      invariant forall e :: e in ds.edges ==> PlayerLink(g, player, TOP, BOTTOM, Rows, e)
      invariant RowScanDone(g, ds.edges, player, i, 0)
    {
      LinkRowCorrected(ds, board, player, i);
      assert unchanged(board.cells) && board.View() == g;
    }
    ghost var E := ds.edges;
    DoneGivesCovers(g, player, TOP, BOTTOM, Rows, E);
    ReachIffConnects(g, player, TOP, BOTTOM, Rows, E);
    ghost var L := Roots(ds.parent[..], ds.rank);
    var top := ds.Find(TOP);
    var bottom := ds.Find(BOTTOM);
    r := top == bottom;
    assert top == L[TOP] && bottom == L[BOTTOM];
    assert unchanged(board.cells) && board.View() == g;
  }
}
