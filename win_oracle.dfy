/** The union-find win oracle of src/HEX_new.cpp (`find`/`isWin`), and the
    link theory it shares with the older copy in src/hex.cpp.

    Cells are numbered row-major, `i * 11 + j`; the four extra elements
    121..124 stand for the top, bottom, left and right borders. Player 1
    joins the top and bottom borders, player 2 the left and right ones. */
module WinOracle {
  import opened HexGeometry
  import opened HexBoard
  import opened DisjointSets

  /** The border sentinels: BOARD_SIZE * BOARD_SIZE + 0..3. */
  const TOP: int := N * N
  const BOTTOM: int := N * N + 1
  const LEFT: int := N * N + 2
  const RIGHT: int := N * N + 3

  /** Size of the forest `parent.assign(BOARD_SIZE * BOARD_SIZE + 4, -1)`. */
  const ELEMENTS: int := N * N + 4

  /** The cell with row-major number c. */
  function CellOf(c: int): Point {
    Point(c / N, c % N)
  }

  lemma IndexRoundTrip(p: Point)
    requires InRange(N, p)
    ensures 0 <= Index(p) < N * N && CellOf(Index(p)) == p
  {
  }

  lemma CellOfRoundTrip(c: int)
    requires 0 <= c < N * N
    ensures InRange(N, CellOf(c)) && Index(CellOf(c)) == c
  {
  }

  /** Element c is a cell holding a v-stone. */
  ghost predicate IsStone(g: Grid, v: int, c: int) {
    0 <= c < N * N && Owns(g, v, CellOf(c))
  }

  /** A union that the rules allow for player v, whose borders are the
      sentinels s (first border of `axis`) and t (last border): a v-stone
      with an adjacent v-stone, a first-border v-stone with s, or a
      last-border v-stone with t. The stone comes first, as in `unite`. */
  ghost predicate PlayerLink(g: Grid, v: int, s: int, t: int, axis: Axis, e: Edge) {
    && IsStone(g, v, e.0)
    && (|| (e.1 == s && OnFirst(axis, CellOf(e.0)))
        || (e.1 == t && OnLast(N, axis, CellOf(e.0)))
        || (IsStone(g, v, e.1) && Adjacent(CellOf(e.0), CellOf(e.1))))
  }

  ghost predicate Touches(g: Grid, v: int, s: int, t: int, e: Edge) {
    e.0 in {s, t} || e.1 in {s, t} || IsStone(g, v, e.0) || IsStone(g, v, e.1)
  }

  /** Every edge touching v's stones or v's sentinels is one of v's links:
      nothing else can leak into v's component. */
  ghost predicate Closed(g: Grid, v: int, s: int, t: int, axis: Axis, E: set<Edge>) {
    forall e :: e in E && Touches(g, v, s, t, e) ==> PlayerLink(g, v, s, t, axis, e)
  }

  /** Every link of v is present. */
  ghost predicate Covers(g: Grid, v: int, s: int, t: int, axis: Axis, E: set<Edge>) {
    && (forall a :: InRange(N, a) && Owns(g, v, a) && OnFirst(axis, a) ==> (Index(a), s) in E)
    && (forall a :: InRange(N, a) && Owns(g, v, a) && OnLast(N, axis, a) ==> (Index(a), t) in E)
    && (forall a, b :: InRange(N, a) && InRange(N, b) && Owns(g, v, a) && Owns(g, v, b) && Adjacent(a, b)
          ==> Linked(E, Index(a), Index(b)))
  }

  /** The unions `isWin` performs for a v-stone at a: its borders and its
      same-owner neighbours, in the order of the offset tables. */
  ghost predicate StoneDone(g: Grid, E: set<Edge>, a: Point, v: int, s: int, t: int, axis: Axis) {
    && (OnFirst(axis, a) ==> (Index(a), s) in E)
    && (OnLast(N, axis, a) ==> (Index(a), t) in E)
    && (forall k :: 0 <= k < 6 && InRange(N, Neighbour(a, k)) && Owns(g, v, Neighbour(a, k))
          ==> (Index(a), Index(Neighbour(a, k))) in E)
  }

  lemma StoneDoneMono(g: Grid, E: set<Edge>, F: set<Edge>, a: Point, v: int, s: int, t: int, axis: Axis)
    requires StoneDone(g, E, a, v, s, t, axis) && E <= F
    ensures StoneDone(g, F, a, v, s, t, axis)
  {
  }

  /** A crossing chain of v-stones gives a walk s, chain..., t. */
  lemma ConnectsGivesReach(g: Grid, v: int, s: int, t: int, axis: Axis, E: set<Edge>)
    requires IsBoard(g) && Covers(g, v, s, t, axis, E) && Connects(g, N, v, axis)
    ensures Reach(E, s, t)
  {
    var path :| Crossing(g, N, v, axis, path);
    var m := |path|;
    var w := [s] + seq(m, i requires 0 <= i < m => Index(path[i])) + [t];
    assert Owns(g, v, path[0]) && Owns(g, v, path[m - 1]);
    forall i | 0 <= i < |w| - 1
      ensures Linked(E, w[i], w[i + 1])
    {
      if i == 0 {
        assert w[1] == Index(path[0]);
      } else if i == m {
        assert w[i] == Index(path[m - 1]) && w[i + 1] == t;
      } else {
        assert w[i] == Index(path[i - 1]) && w[i + 1] == Index(path[i]);
        assert Owns(g, v, path[i - 1]) && Owns(g, v, path[i]) && Adjacent(path[i - 1], path[i]);
      }
    }
    assert IsWalk(E, w) && w[0] == s && w[|w| - 1] == t;
  }

  /** One step of the walk from s stays among s and v-stones reached by a
      chain from the first border, until it steps onto t. */
  lemma {:induction false} Advance(g: Grid, v: int, s: int, t: int, axis: Axis, E: set<Edge>,
                                    w: seq<int>, i: int, path: seq<Point>)
    requires IsBoard(g) && s != t && !(0 <= s < N * N) && !(0 <= t < N * N)
    requires Closed(g, v, s, t, axis, E)
    requires IsWalk(E, w) && w[|w| - 1] == t && 0 <= i < |w| && w[i] != t
    requires w[i] == s || (IsStone(g, v, w[i]) && IsChain(g, v, path) && OnFirst(axis, path[0])
                           && path[|path| - 1] == CellOf(w[i]))
    ensures Connects(g, N, v, axis)
    decreases |w| - i
  {
    var a, b := w[i], w[i + 1];
    assert Linked(E, a, b);
    var e := if (a, b) in E then (a, b) else (b, a);
    assert e in E && Touches(g, v, s, t, e);
    assert PlayerLink(g, v, s, t, axis, e);
    if a == s {
      // s is no cell, so the edge is (b, s) with b a first-border stone
      assert e == (b, s);
      var p' := [CellOf(b)];
      assert IsChain(g, v, p');
      if b == t {
        assert false;
      }
      Advance(g, v, s, t, axis, E, w, i + 1, p');
    } else if b == t {
      assert e == (a, t) && OnLast(N, axis, CellOf(a));
      assert Crossing(g, N, v, axis, path);
    } else if b == s {
      Advance(g, v, s, t, axis, E, w, i + 1, path);
    } else {
      // b is a v-stone adjacent to a
      assert IsStone(g, v, b) && (Adjacent(CellOf(a), CellOf(b)) || Adjacent(CellOf(b), CellOf(a)));
      AdjacentSymmetric(CellOf(a), CellOf(b));
      ChainExtend(g, v, path, CellOf(b));
      var p' := path + [CellOf(b)];
      assert p'[0] == path[0];
      Advance(g, v, s, t, axis, E, w, i + 1, p');
    }
  }

  /** If s and t share a component and the edges are closed for v, then
      v's stones really do link the two borders. */
  lemma ReachGivesConnects(g: Grid, v: int, s: int, t: int, axis: Axis, E: set<Edge>)
    requires IsBoard(g) && s != t && !(0 <= s < N * N) && !(0 <= t < N * N)
    requires Closed(g, v, s, t, axis, E) && Reach(E, s, t)
    ensures Connects(g, N, v, axis)
  {
    var w :| IsWalk(E, w) && w[0] == s && w[|w| - 1] == t;
    Advance(g, v, s, t, axis, E, w, 0, []);
  }

  /** Closed and covering edge sets decide the connection exactly. */
  lemma ReachIffConnects(g: Grid, v: int, s: int, t: int, axis: Axis, E: set<Edge>)
    requires IsBoard(g) && s != t && !(0 <= s < N * N) && !(0 <= t < N * N)
    requires Closed(g, v, s, t, axis, E) && Covers(g, v, s, t, axis, E)
    ensures Reach(E, s, t) <==> Connects(g, N, v, axis)
  {
    if Reach(E, s, t) {
      ReachGivesConnects(g, v, s, t, axis, E);
    }
    if Connects(g, N, v, axis) {
      ConnectsGivesReach(g, v, s, t, axis, E);
    }
  }

  /** When every stone's unions are done, every link is present. */
  lemma DoneGivesCovers(g: Grid, v: int, s: int, t: int, axis: Axis, E: set<Edge>)
    requires IsBoard(g)
    requires forall a :: InRange(N, a) && Owns(g, v, a) ==> StoneDone(g, E, a, v, s, t, axis)
    ensures Covers(g, v, s, t, axis, E)
  {
    forall a, b | InRange(N, a) && InRange(N, b) && Owns(g, v, a) && Owns(g, v, b) && Adjacent(a, b)
      ensures Linked(E, Index(a), Index(b))
    {
      var k := AdjacentIsNeighbour(a, b);
      assert StoneDone(g, E, a, v, s, t, axis);
    }
  }

  /** The first k neighbour unions of a v-stone at a are done. */
  ghost predicate NeighboursDone(g: Grid, E: set<Edge>, a: Point, v: int, k: int)
    requires k <= 6
  {
    forall k' :: 0 <= k' < k && InRange(N, Neighbour(a, k')) && Owns(g, v, Neighbour(a, k'))
      ==> (Index(a), Index(Neighbour(a, k'))) in E
  }

  lemma NeighboursStep(g: Grid, E: set<Edge>, F: set<Edge>, a: Point, v: int, k: int)
    requires 0 <= k < 6 && NeighboursDone(g, E, a, v, k) && E <= F
    requires InRange(N, Neighbour(a, k)) && Owns(g, v, Neighbour(a, k)) ==>
               (Index(a), Index(Neighbour(a, k))) in F
    ensures NeighboursDone(g, F, a, v, k + 1)
  {
  }

  /** The body of `isWin`'s loops for one v-stone at a: union with the
      first border if a lies on it, with the last border if a lies on it,
      then with each same-owner neighbour in the order of dx/dy. */
  method LinkStone(ds: DisjointSet, board: Board, a: Point, v: int, s: int, t: int, axis: Axis)
    requires ds.Valid() && ds.parent.Length == ELEMENTS && board.Valid()
    requires 0 <= s < ELEMENTS && 0 <= t < ELEMENTS
    requires InRange(N, a) && Owns(board.View(), v, a)
    modifies ds, ds.parent
    ensures ds.Valid() && ds.parent == old(ds.parent) && old(ds.edges) <= ds.edges
    ensures forall e :: e in ds.edges ==> e in old(ds.edges) || PlayerLink(board.View(), v, s, t, axis, e)
    ensures StoneDone(board.View(), ds.edges, a, v, s, t, axis)
  {
    ghost var g := board.View();
    LinkBorders(ds, board, a, v, s, t, axis);
    LinkNeighbours(ds, board, a, v, s, t, axis);
    assert NeighboursDone(g, ds.edges, a, v, 6);
  }

  /** The border unions of a v-stone at a: with s if a lies on the first
      border of `axis`, then with t if it lies on the last. */
  method LinkBorders(ds: DisjointSet, board: Board, a: Point, v: int, s: int, t: int, axis: Axis)
    requires ds.Valid() && ds.parent.Length == ELEMENTS && board.Valid()
    requires 0 <= s < ELEMENTS && 0 <= t < ELEMENTS
    requires InRange(N, a) && Owns(board.View(), v, a)
    modifies ds, ds.parent
    ensures ds.Valid() && ds.parent == old(ds.parent) && old(ds.edges) <= ds.edges
    ensures forall e :: e in ds.edges ==> e in old(ds.edges) || PlayerLink(board.View(), v, s, t, axis, e)
    ensures OnFirst(axis, a) ==> (Index(a), s) in ds.edges
    ensures OnLast(N, axis, a) ==> (Index(a), t) in ds.edges
  {
    ghost var g := board.View();
    var c := Index(a);
    IndexRoundTrip(a);
    assert IsStone(g, v, c);
    if OnFirst(axis, a) {
      assert PlayerLink(g, v, s, t, axis, (c, s));
      ds.Unite(c, s);
    }
    if OnLast(N, axis, a) {
      assert PlayerLink(g, v, s, t, axis, (c, t));
      ds.Unite(c, t);
    }
  }

  /** The neighbour loop of `isWin` for a v-stone at a. */
  method LinkNeighbours(ds: DisjointSet, board: Board, a: Point, v: int, s: int, t: int, axis: Axis)
    requires ds.Valid() && ds.parent.Length == ELEMENTS && board.Valid()
    requires InRange(N, a) && Owns(board.View(), v, a)
    modifies ds, ds.parent
    ensures ds.Valid() && ds.parent == old(ds.parent) && old(ds.edges) <= ds.edges
    ensures forall e :: e in ds.edges ==> e in old(ds.edges) || PlayerLink(board.View(), v, s, t, axis, e)
    ensures NeighboursDone(board.View(), ds.edges, a, v, 6)
  {
    ghost var g := board.View();
    ghost var E0 := ds.edges;
    var c := Index(a);
    IndexRoundTrip(a);
    assert IsStone(g, v, c);
    for k := 0 to 6
      invariant ds.Valid() && ds.parent == old(ds.parent) && E0 <= ds.edges
      invariant forall e :: e in ds.edges ==> e in E0 || PlayerLink(g, v, s, t, axis, e)
      invariant NeighboursDone(g, ds.edges, a, v, k)
    {
      var x := a.x + DX[k];
      var y := a.y + DY[k];
      ghost var E1 := ds.edges;
      var b := Point(x, y);
      assert b == Neighbour(a, k);
      if x >= 0 && x < N && y >= 0 && y < N && board.cells[x, y] == v {
        IndexRoundTrip(b);
        NeighbourIsAdjacent(a, k);
        assert Owns(g, v, b);
        assert PlayerLink(g, v, s, t, axis, (c, Index(b)));
        ds.Unite(c, Index(b));
      } else {
        assert InRange(N, b) ==> g[x][y] == board.cells[x, y];
      }
      NeighboursStep(g, E1, ds.edges, a, v, k);
    }
  }

  /** A union performed by HEX_new's `isWin`. */
  ghost predicate HexLink(g: Grid, e: Edge) {
    PlayerLink(g, 1, TOP, BOTTOM, Rows, e) || PlayerLink(g, 2, LEFT, RIGHT, Columns, e)
  }

  /** The unions `isWin` performs for the cell at a. */
  ghost predicate CellDone(g: Grid, E: set<Edge>, a: Point)
    requires IsBoard(g) && InRange(N, a)
  {
    && (g[a.x][a.y] == 1 ==> StoneDone(g, E, a, 1, TOP, BOTTOM, Rows))
    && (g[a.x][a.y] == 2 ==> StoneDone(g, E, a, 2, LEFT, RIGHT, Columns))
  }

  /** The result `isWin` must report: 1 if player 1's stones join the top
      and bottom borders, otherwise 2 if player 2's join the left and right
      borders, otherwise 0. Player 1 is checked first. */
  ghost function Winner(g: Grid): int
    requires IsBoard(g)
  {
    if Connects(g, N, 1, Rows) then 1
    else if Connects(g, N, 2, Columns) then 2
    else 0
  }

  /** HEX_new's unions leave each player's component closed. */
  lemma HexLinksClosed(g: Grid, E: set<Edge>)
    requires IsBoard(g) && forall e :: e in E ==> HexLink(g, e)
    ensures Closed(g, 1, TOP, BOTTOM, Rows, E)
    ensures Closed(g, 2, LEFT, RIGHT, Columns, E)
  {
  }

  /** Every cell before (i, j) in row-major order has had its unions. */
  ghost predicate ScanDone(g: Grid, E: set<Edge>, i: int, j: int)
    requires IsBoard(g)
  {
    forall a :: InRange(N, a) && (a.x < i || (a.x == i && a.y < j)) ==> CellDone(g, E, a)
  }

  lemma ScanStep(g: Grid, E: set<Edge>, F: set<Edge>, i: int, j: int)
    requires IsBoard(g) && 0 <= i < N && 0 <= j < N
    requires ScanDone(g, E, i, j) && E <= F && CellDone(g, F, Point(i, j))
    ensures ScanDone(g, F, i, j + 1)
  {
    forall a | InRange(N, a) && (a.x < i || (a.x == i && a.y < j))
      ensures CellDone(g, F, a)
    {
      assert CellDone(g, E, a);
      if g[a.x][a.y] == 1 {
        StoneDoneMono(g, E, F, a, 1, TOP, BOTTOM, Rows);
      } else if g[a.x][a.y] == 2 {
        StoneDoneMono(g, E, F, a, 2, LEFT, RIGHT, Columns);
      }
    }
  }

  /** One step of `isWin`'s scan: the unions of the cell at a, if it holds
      a stone. */
  method LinkCell(ds: DisjointSet, board: Board, a: Point)
    requires ds.Valid() && ds.parent.Length == ELEMENTS && board.Valid() && InRange(N, a)
    modifies ds, ds.parent
    ensures ds.Valid() && ds.parent == old(ds.parent) && old(ds.edges) <= ds.edges
    ensures forall e :: e in ds.edges ==> e in old(ds.edges) || HexLink(board.View(), e)
    ensures CellDone(board.View(), ds.edges, a)
  {
    if board.cells[a.x, a.y] == 1 {
      LinkStone(ds, board, a, 1, TOP, BOTTOM, Rows);
    } else if board.cells[a.x, a.y] == 2 {
      LinkStone(ds, board, a, 2, LEFT, RIGHT, Columns);
    }
  }

  /** Once the scan is over, the labels of the sentinels decide the game. */
  lemma SentinelsDecide(g: Grid, E: set<Edge>, L: seq<int>)
    requires IsBoard(g) && |L| == ELEMENTS && Partitions(L, E)
    requires forall e :: e in E ==> HexLink(g, e)
    requires ScanDone(g, E, N, 0)
    ensures L[TOP] == L[BOTTOM] <==> Connects(g, N, 1, Rows)
    ensures L[LEFT] == L[RIGHT] <==> Connects(g, N, 2, Columns)
  {
    HexLinksClosed(g, E);
    DoneGivesCovers(g, 1, TOP, BOTTOM, Rows, E);
    DoneGivesCovers(g, 2, LEFT, RIGHT, Columns, E);
    ReachIffConnects(g, 1, TOP, BOTTOM, Rows, E);
    ReachIffConnects(g, 2, LEFT, RIGHT, Columns, E);
  }

  /** `isWin(board)`: builds a fresh forest, unites every stone with its
      borders and same-owner neighbours, then compares the sentinels. */
  method IsWin(board: Board) returns (winner: int)
    requires board.Valid()
    ensures winner == Winner(board.View())
    ensures winner in {0, 1, 2}
  {
    ghost var g := board.View();
    var ds := new DisjointSet(ELEMENTS);
    for i := 0 to N
      invariant ds.Valid() && ds.parent.Length == ELEMENTS && fresh(ds) && fresh(ds.parent)
      invariant ScanLinked(g, ds.edges, i, 0)
    {
      LinkRow(ds, board, i);
      assert unchanged(board.cells) && board.View() == g;
    }
    SentinelsDecide(g, ds.edges, Roots(ds.parent[..], ds.rank));
    winner := CompareSentinels(ds);
    assert unchanged(board.cells) && board.View() == g;
  }

  /** The unions made so far link same-owner neighbours and borders only,
      and cover every cell before (i, j). */
  ghost predicate ScanLinked(g: Grid, E: set<Edge>, i: int, j: int)
    requires IsBoard(g)
  {
    (forall e :: e in E ==> HexLink(g, e)) && ScanDone(g, E, i, j)
  }

  /** Row i of `isWin`'s scan. */
  method LinkRow(ds: DisjointSet, board: Board, i: int)
    requires ds.Valid() && ds.parent.Length == ELEMENTS && board.Valid() && 0 <= i < N
    requires ScanLinked(board.View(), ds.edges, i, 0)
    modifies ds, ds.parent
    ensures ds.Valid() && ds.parent == old(ds.parent)
    ensures ScanLinked(board.View(), ds.edges, i + 1, 0)
  {
    ghost var g := board.View();
    for j := 0 to N
      invariant ds.Valid() && ds.parent == old(ds.parent)
      invariant forall e :: e in ds.edges ==> HexLink(g, e)
      invariant ScanDone(g, ds.edges, i, j)
    {
      ghost var E0 := ds.edges;
      LinkCell(ds, board, Point(i, j));
      assert unchanged(board.cells) && board.View() == g;
      ScanStep(g, E0, ds.edges, i, j);
    }
    assert ScanDone(g, ds.edges, i + 1, 0) by {
      assert forall a :: InRange(N, a) && a.x < i + 1 ==> a.x < i || (a.x == i && a.y < N);
    }
  }

  /** The end of `isWin`: 1 if the top and bottom sentinels share a root,
      otherwise 2 if the left and right ones do, otherwise 0. */
  method CompareSentinels(ds: DisjointSet) returns (winner: int)
    requires ds.Valid() && ds.parent.Length == ELEMENTS
    modifies ds.parent
    ensures ds.Valid() && winner in {0, 1, 2}
    ensures winner == if ds.Joined(TOP, BOTTOM) then 1 else if ds.Joined(LEFT, RIGHT) then 2 else 0
  {
    ghost var L := Roots(ds.parent[..], ds.rank);
    var top := ds.Find(TOP);
    var bottom := ds.Find(BOTTOM);
    if top == bottom {
      return 1;
    }
    var left := ds.Find(LEFT);
    var right := ds.Find(RIGHT);
    if left == right {
      return 2;
    }
    return 0;
  }
}
