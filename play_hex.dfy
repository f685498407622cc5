/** The game state of the Python prototype `MOCTS.py`: a square board of
    any side, the player to move, the moves it offers and its breadth-first
    win test. The players are 1 and -1; player 1 joins column 0 to the last
    column, player -1 joins row 0 to the last row. */
module PlayHexState {
  import opened HexGeometry

  /** `PlayHex`: `board[r][c]` holds 0 or a player; `current` moves next. */
  datatype PlayHex = PlayHex(board: Grid, current: int, size: int)

  predicate WellFormed(s: PlayHex) {
    s.size >= 0 && IsGrid(s.board, s.size)
  }

  /** `PlayHex(current_player=c, size=n)` without a board: n rows of n empty
      cells. */
  function Initial(size: nat, current: int): (s: PlayHex)
    ensures WellFormed(s) && s.size == size && s.current == current
    ensures forall p :: InRange(size, p) ==> Free(s, p)
  {
    PlayHex(seq(size, _ => seq(size, _ => 0)), current, size)
  }

  /** Cell p is on the board and empty. */
  predicate Free(s: PlayHex, p: Point)
    requires WellFormed(s)
  {
    InRange(s.size, p) && s.board[p.x][p.y] == 0
  }

  /** `perform_move(m)`: a new state whose board is a copy of the old one
      with cell m set to the mover, and the other player to move. */
  function PerformMove(s: PlayHex, m: Point): (t: PlayHex)
    requires WellFormed(s) && InRange(s.size, m)
    ensures WellFormed(t) && t.size == s.size && t.current == -s.current
    ensures t.board[m.x][m.y] == s.current
    ensures forall p :: InRange(s.size, p) && p != m ==> t.board[p.x][p.y] == s.board[p.x][p.y]
  {
    PlayHex(s.board[m.x := s.board[m.x][m.y := s.current]], -s.current, s.size)
  }

  /** All cells of a board of side n. */
  ghost function Cells(n: int): set<Point> {
    set i, j | 0 <= i < n && 0 <= j < n :: Point(i, j)
  }

  lemma InCells(n: int, p: Point)
    requires InRange(n, p)
    ensures p in Cells(n)
  {
    assert p == Point(p.x, p.y);
  }

  /** The empty cells of s. */
  ghost function Empties(s: PlayHex): set<Point>
    requires WellFormed(s)
  {
    set p | p in Cells(s.size) && Free(s, p)
  }

  /** A move by a player (not 0) on an empty cell fills exactly that cell. */
  lemma MoveTakesCell(s: PlayHex, m: Point)
    requires WellFormed(s) && Free(s, m) && s.current != 0
    ensures forall p :: Free(PerformMove(s, m), p) <==> Free(s, p) && p != m
    ensures Empties(PerformMove(s, m)) == Empties(s) - {m}
    ensures |Empties(PerformMove(s, m))| == |Empties(s)| - 1
  {
    InCells(s.size, m);
    assert m in Empties(s);
  }

  /** Row-major order of cells. */
  predicate Before(a: Point, b: Point) {
    a.x < b.x || (a.x == b.x && a.y < b.y)
  }

  /** Strictly increasing in row-major order, hence without duplicates. */
  predicate Ascending(ps: seq<Point>) {
    forall a, b :: 0 <= a < b < |ps| ==> Before(ps[a], ps[b])
  }

  /** The empty cells (i, j) of row i with j0 <= j, left to right. */
  function RowMoves(s: PlayHex, i: int, j0: int): (ps: seq<Point>)
    requires WellFormed(s) && 0 <= i < s.size && 0 <= j0 <= s.size
    ensures forall p :: p in ps <==> Free(s, p) && p.x == i && p.y >= j0
    ensures Ascending(ps)
    decreases s.size - j0
  {
    if j0 == s.size then []
    else
      var rest := RowMoves(s, i, j0 + 1);
      if s.board[i][j0] == 0 then [Point(i, j0)] + rest else rest
  }

  /** The empty cells of rows i0 and below, in row-major order. */
  function MovesFrom(s: PlayHex, i0: int): (ps: seq<Point>)
    requires WellFormed(s) && 0 <= i0 <= s.size
    ensures forall p :: p in ps <==> Free(s, p) && p.x >= i0
    ensures Ascending(ps)
    decreases s.size - i0
  {
    if i0 == s.size then []
    else
      var row, rest := RowMoves(s, i0, 0), MovesFrom(s, i0 + 1);
      assert forall a, b :: 0 <= a < |row| && 0 <= b < |rest| ==> Before(row[a], rest[b]) by {
        forall a, b | 0 <= a < |row| && 0 <= b < |rest| ensures Before(row[a], rest[b]) {
          assert row[a] in row && rest[b] in rest;
        }
      }
      row + rest
  }

  /** `get_available_moves`: every empty cell exactly once, in row-major
      order. */
  function AvailableMoves(s: PlayHex): (ps: seq<Point>)
    requires WellFormed(s)
    ensures forall p :: p in ps <==> Free(s, p)
    ensures Ascending(ps)
  {
    MovesFrom(s, 0)
  }

  /** No cell is listed twice. */
  lemma AvailableDistinct(s: PlayHex)
    requires WellFormed(s)
    ensures forall a, b :: 0 <= a < b < |AvailableMoves(s)| ==> AvailableMoves(s)[a] != AvailableMoves(s)[b]
  {
  }

  /** After a move on an available cell the available moves are the old
      ones without it; the board offers one move fewer. */
  lemma AvailableAfterMove(s: PlayHex, m: Point)
    requires WellFormed(s) && m in AvailableMoves(s) && s.current != 0
    ensures forall p :: p in AvailableMoves(PerformMove(s, m)) <==> p in AvailableMoves(s) && p != m
    ensures |Empties(PerformMove(s, m))| < |Empties(s)|
  {
    MoveTakesCell(s, m);
  }

  /** The borders `is_win(v)` joins: columns for player 1, rows for
      every other value. */
  function AxisOf(v: int): Axis {
    if v == 1 then Columns else Rows
  }

  /** v's stones link v's two borders. */
  ghost predicate Wins(s: PlayHex, v: int) {
    Connects(s.board, s.size, v, AxisOf(v))
  }

  /** `is_terminal`: one of the players has won. */
  ghost predicate Terminal(s: PlayHex) {
    Wins(s, 1) || Wins(s, -1)
  }

  /** The `is_winning` test of a dequeued cell: the far border. */
  function IsWinning(v: int, size: int, p: Point): (r: bool)
    ensures r <==> OnLast(size, AxisOf(v), p)
  {
    if v == 1 then p.y == size - 1 else p.x == size - 1
  }

  /** The `start_positions` of `is_win(v)`: v's stones on its first border,
      scanned from index k on. */
  function BorderFrom(s: PlayHex, v: int, k: int): (ps: seq<Point>)
    requires WellFormed(s) && 0 <= k <= s.size
    ensures forall p :: p in ps <==>
              && Owns(s.board, v, p) && OnFirst(AxisOf(v), p)
              && (if v == 1 then p.x >= k else p.y >= k)
    decreases s.size - k
  {
    if k == s.size then []
    else
      var p := if v == 1 then Point(k, 0) else Point(0, k);
      (if s.board[p.x][p.y] == v then [p] else []) + BorderFrom(s, v, k + 1)
  }

  /** The six `directions` of `is_win`, in the prototype's order. */
  const Directions: seq<(int, int)> := [(-1, 0), (-1, 1), (0, -1), (0, 1), (1, -1), (1, 0)]

  function Step(p: Point, d: int): Point
    requires 0 <= d < 6
  {
    Point(p.x + Directions[d].0, p.y + Directions[d].1)
  }

  /** The directions are exactly the six hex neighbours. */
  lemma StepIsAdjacent(p: Point, d: int)
    requires 0 <= d < 6
    ensures Adjacent(p, Step(p, d))
  {
  }

  lemma AdjacentIsStep(a: Point, b: Point) returns (d: int)
    requires Adjacent(a, b)
    ensures 0 <= d < 6 && b == Step(a, d)
  {
    var dx, dy := b.x - a.x, b.y - a.y;
    d := if dx == -1 && dy == 0 then 0
         else if dx == -1 && dy == 1 then 1
         else if dx == 0 && dy == -1 then 2
         else if dx == 0 && dy == 1 then 3
         else if dx == 1 && dy == -1 then 4
         else 5;
  }

  /** A chain of v-stones from v's first border to q. */
  ghost predicate Witness(s: PlayHex, v: int, path: seq<Point>, q: Point) {
    IsChain(s.board, v, path) && OnFirst(AxisOf(v), path[0]) && path[|path| - 1] == q
  }

  /** The search so far: `visited` holds exactly the cells ever enqueued,
      each once; they are v's stones, each reached from the first border
      along a chain recorded in `how`. */
  ghost predicate Search(s: PlayHex, v: int, visited: set<Point>, enq: seq<Point>, how: map<Point, seq<Point>>) {
    && (forall q :: q in visited <==> q in enq)
    && (forall a, b :: 0 <= a < b < |enq| ==> enq[a] != enq[b])
    && (forall q :: q in visited ==> Owns(s.board, v, q) && q in how && Witness(s, v, how[q], q))
  }

  /** The neighbours of p in the first d directions that hold v are visited. */
  ghost predicate Expanded(s: PlayHex, v: int, p: Point, visited: set<Point>, d: int)
    requires 0 <= d <= 6
  {
    forall e :: 0 <= e < d ==> Owns(s.board, v, Step(p, e)) ==> Step(p, e) in visited
  }

  /** The first `head` cells of the queue have been taken out: none was on
      the far border and all their v-neighbours are visited. */
  ghost predicate Popped(s: PlayHex, v: int, enq: seq<Point>, head: int, visited: set<Point>) {
    && 0 <= head <= |enq|
    && forall i :: 0 <= i < head ==> !IsWinning(v, s.size, enq[i]) && Expanded(s, v, enq[i], visited, 6)
  }

  /** Every v-stone on v's first border is visited. */
  ghost predicate StartsIn(s: PlayHex, v: int, visited: set<Point>) {
    forall p :: Owns(s.board, v, p) && OnFirst(AxisOf(v), p) ==> p in visited
  }

  lemma PoppedGrow(s: PlayHex, v: int, enq: seq<Point>, enq': seq<Point>, head: int, V: set<Point>, V': set<Point>)
    requires Popped(s, v, enq, head, V) && V <= V' && |enq| <= |enq'| && enq'[..|enq|] == enq
    requires head < |enq'| && !IsWinning(v, s.size, enq'[head]) && Expanded(s, v, enq'[head], V', 6)
    ensures Popped(s, v, enq', head + 1, V')
  {
    forall i | 0 <= i < head + 1 ensures !IsWinning(v, s.size, enq'[i]) && Expanded(s, v, enq'[i], V', 6) {
      if i < head {
        assert enq'[i] == enq[i];
      }
    }
  }

  /** A finished search that never met the far border rules out a win:
      every stone of a crossing chain would have been visited. */
  lemma {:induction false} ChainInside(s: PlayHex, v: int, V: set<Point>, enq: seq<Point>, path: seq<Point>, i: int)
    requires WellFormed(s) && StartsIn(s, v, V) && Popped(s, v, enq, |enq|, V)
    requires forall q :: q in V <==> q in enq
    requires IsChain(s.board, v, path) && OnFirst(AxisOf(v), path[0]) && 0 <= i < |path|
    ensures path[i] in V
    decreases i
  {
    if i > 0 {
      ChainInside(s, v, V, enq, path, i - 1);
      var a :| 0 <= a < |enq| && enq[a] == path[i - 1];
      var d := AdjacentIsStep(path[i - 1], path[i]);
      assert Expanded(s, v, enq[a], V, 6);
    }
  }

  lemma NoCrossing(s: PlayHex, v: int, V: set<Point>, enq: seq<Point>)
    requires WellFormed(s) && StartsIn(s, v, V) && Popped(s, v, enq, |enq|, V)
    requires forall q :: q in V <==> q in enq
    ensures !Wins(s, v)
  {
    if Wins(s, v) {
      var path :| Crossing(s.board, s.size, v, AxisOf(v), path);
      var last := |path| - 1;
      ChainInside(s, v, V, enq, path, last);
      assert false;
    }
  }

  /** The state of the search between two dequeues: `queue` is the part of
      the enqueued cells after the first `head`, which were dequeued. */
  ghost predicate Frontier(s: PlayHex, v: int, seen: set<Point>, queue: seq<Point>, enq: seq<Point>,
                           head: int, how: map<Point, seq<Point>>) {
    && WellFormed(s) && Search(s, v, seen, enq, how) && StartsIn(s, v, seen)
    && Popped(s, v, enq, head, seen) && queue == enq[head..] && seen <= Cells(s.size)
  }

  /** `is_win(v)`: a breadth-first search from v's stones on its first
      border through v's stones, answering true on dequeuing a cell of the
      far border. It answers exactly whether v has won; every cell is
      enqueued at most once, and only v's stones are visited. */
  method IsWin(s: PlayHex, v: int) returns (won: bool, ghost visited: set<Point>, ghost enqueued: seq<Point>)
    requires WellFormed(s)
    ensures won <==> Wins(s, v)
    ensures VisitedOnce(s, v, visited, enqueued)
  {
    var seen, queue;
    ghost var how;
    seen, queue, enqueued, how := Seed(s, v);
    ghost var head := 0;
    while queue != []
      invariant Frontier(s, v, seen, queue, enqueued, head, how)
      decreases Cells(s.size) - seen, |queue|
    {
      var found;
      ghost var seen0, queue0, enq0, how0 := seen, queue, enqueued, how;
      found, seen, queue, enqueued, how := Dequeue(s, v, seen, queue, enqueued, head, how);
      if found {
        FrontierVisits(s, v, seen0, queue0, enq0, head, how0);
        return true, seen, enqueued;
      }
      head := head + 1;
    }
    FrontierVisits(s, v, seen, queue, enqueued, head, how);
    NoCrossing(s, v, seen, enqueued);
    return false, seen, enqueued;
  }

  /** What the search state says about the visited cells. */
  lemma FrontierVisits(s: PlayHex, v: int, seen: set<Point>, queue: seq<Point>, enq: seq<Point>,
                       head: int, how: map<Point, seq<Point>>)
    requires Frontier(s, v, seen, queue, enq, head, how)
    ensures VisitedOnce(s, v, seen, enq)
    ensures queue == [] ==> Popped(s, v, enq, |enq|, seen)
  {
  }

  /** Only v's stones are visited, and each visited cell was enqueued
      exactly once. */
  ghost predicate VisitedOnce(s: PlayHex, v: int, visited: set<Point>, enqueued: seq<Point>) {
    && (forall q :: q in visited ==> InRange(s.size, q) && Owns(s.board, v, q))
    && (forall q :: q in visited <==> q in enqueued)
    && (forall a, b :: 0 <= a < b < |enqueued| ==> enqueued[a] != enqueued[b])
  }

  /** The start of `is_win(v)`: each start position not yet visited is
      visited and enqueued. */
  method Seed(s: PlayHex, v: int)
    returns (seen: set<Point>, queue: seq<Point>, ghost enq: seq<Point>, ghost how: map<Point, seq<Point>>)
    requires WellFormed(s)
    ensures Frontier(s, v, seen, queue, enq, 0, how)
  {
    var starts := BorderFrom(s, v, 0);
    seen, queue, enq, how := {}, [], [], map[];
    for k := 0 to |starts|
      invariant Search(s, v, seen, enq, how) && queue == enq && seen <= Cells(s.size)
      invariant forall j :: 0 <= j < k ==> starts[j] in seen
    {
      var pos := starts[k];
      if pos !in seen {
        assert starts[k] in starts;
        InCells(s.size, pos);
        queue := queue + [pos];
        seen := seen + {pos};
        enq := enq + [pos];
        how := how[pos := [pos]];
      }
    }
    assert StartsIn(s, v, seen) by {
      forall p | Owns(s.board, v, p) && OnFirst(AxisOf(v), p) ensures p in seen {
        assert p in starts;
      }
    }
  }

  /** A queued cell on the far border ends a crossing chain. */
  lemma FarBorderWins(s: PlayHex, v: int, seen: set<Point>, queue: seq<Point>, enq: seq<Point>,
                      head: int, how: map<Point, seq<Point>>)
    requires Frontier(s, v, seen, queue, enq, head, how) && queue != [] && IsWinning(v, s.size, queue[0])
    ensures Wins(s, v)
  {
    var p := queue[0];
    assert p == enq[head] && p in seen;
    assert Crossing(s.board, s.size, v, AxisOf(v), how[p]);
  }

  /** One pass of the search loop: dequeue p; answer true if it lies on
      the far border, otherwise visit its neighbours. */
  method Dequeue(s: PlayHex, v: int, seen: set<Point>, queue: seq<Point>, ghost enq: seq<Point>,
                 ghost head: int, ghost how: map<Point, seq<Point>>)
    returns (found: bool, seen': set<Point>, queue': seq<Point>, ghost enq': seq<Point>, ghost how': map<Point, seq<Point>>)
    requires Frontier(s, v, seen, queue, enq, head, how) && queue != []
    ensures found ==> Wins(s, v) && seen' == seen && enq' == enq
    ensures !found ==> Frontier(s, v, seen', queue', enq', head + 1, how')
    ensures !found ==> (Cells(s.size) - seen' < Cells(s.size) - seen) || (seen' == seen && |queue'| < |queue|)
  {
    var p := queue[0];
    if IsWinning(v, s.size, p) {
      FarBorderWins(s, v, seen, queue, enq, head, how);
      return true, seen, queue, enq, how;
    }
    assert p == enq[head] && p in seen;
    found := false;
    seen', queue', enq', how' := Explore(s, v, p, seen, queue[1..], enq, how);
    PoppedGrow(s, v, enq, enq', head, seen, seen');
    QueueShift(enq, enq', head);
    if seen' != seen {
      FewerLeft(s.size, seen, seen');
    }
  }

  /** Dequeuing one cell and enqueuing the new ones keeps the queue the
      undequeued part of the enqueued cells. */
  lemma QueueShift(enq: seq<Point>, enq': seq<Point>, head: int)
    requires 0 <= head < |enq| <= |enq'| && enq'[..|enq|] == enq
    ensures enq'[head + 1..] == enq[head..][1..] + enq'[|enq|..]
  {
    assert enq'[head + 1..] == enq'[head + 1..|enq|] + enq'[|enq|..];
  }

  /** Visiting more cells leaves fewer cells to visit. */
  lemma FewerLeft(n: int, V: set<Point>, V': set<Point>)
    requires V <= V' <= Cells(n) && V' != V
    ensures Cells(n) - V' < Cells(n) - V
  {
    var q :| q in V' && q !in V;
    assert q in Cells(n) - V && q !in Cells(n) - V';
  }

  /** The loop over the six directions from a dequeued cell p: each
      in-range neighbour holding v that was not yet visited is visited,
      enqueued and given p's chain extended by itself. */
  method Explore(s: PlayHex, v: int, p: Point, seen: set<Point>, queue: seq<Point>,
                 ghost enq: seq<Point>, ghost how: map<Point, seq<Point>>)
    returns (seen': set<Point>, queue': seq<Point>, ghost enq': seq<Point>, ghost how': map<Point, seq<Point>>)
    requires WellFormed(s) && Search(s, v, seen, enq, how) && p in seen && seen <= Cells(s.size)
    ensures Search(s, v, seen', enq', how') && Expanded(s, v, p, seen', 6)
    ensures seen <= seen' <= Cells(s.size)
    ensures |enq| <= |enq'| && enq'[..|enq|] == enq && queue' == queue + enq'[|enq|..]
    ensures seen' == seen ==> queue' == queue
  {
    seen', queue', enq', how' := seen, queue, enq, how;
    for d := 0 to 6
      invariant Search(s, v, seen', enq', how') && Expanded(s, v, p, seen', d) && p in seen'
      invariant seen <= seen' <= Cells(s.size)
      invariant |enq| <= |enq'| && enq'[..|enq|] == enq && queue' == queue + enq'[|enq|..]
      invariant seen' == seen ==> enq' == enq
    {
      var q := Step(p, d);
      if 0 <= q.x < s.size && 0 <= q.y < s.size {
        if s.board[q.x][q.y] == v && q !in seen' {
          StepIsAdjacent(p, d);
          ChainExtend(s.board, v, how'[p], q);
          InCells(s.size, q);
          seen' := seen' + {q};
          queue' := queue' + [q];
          enq' := enq' + [q];
          how' := how'[q := how'[p] + [q]];
        }
      }
    }
  }

  /** `is_terminal`: `is_win(1) or is_win(-1)`. */
  method IsTerminal(s: PlayHex) returns (t: bool)
    requires WellFormed(s)
    ensures t <==> Terminal(s)
  {
    ghost var visited, enqueued;
    t, visited, enqueued := IsWin(s, 1);
    if !t {
      t, visited, enqueued := IsWin(s, -1);
    }
  }

  /** A move never gives a win to anyone but the mover: every other
      player's chain on the new board avoids the new stone. */
  lemma MoveKeepsOtherWins(s: PlayHex, m: Point, w: int)
    requires WellFormed(s) && InRange(s.size, m) && w != s.current
    ensures Wins(PerformMove(s, m), w) ==> Wins(s, w)
  {
    var t := PerformMove(s, m);
    if Wins(t, w) {
      var path :| Crossing(t.board, t.size, w, AxisOf(w), path);
      forall i | 0 <= i < |path| ensures Owns(s.board, w, path[i]) {
        assert Owns(t.board, w, path[i]);
      }
      assert Crossing(s.board, s.size, w, AxisOf(w), path);
    }
  }
}
