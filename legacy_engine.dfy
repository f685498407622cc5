/** The search engine of the older copy `src/hex.cpp`: its `simulate`, which
    asks the row-connection test `isWin(board, player)` of the mover, its
    `Node` selection rules and its `HexBot` loop. Its win test is modelled by
    the corrected `LegacyWin.LegacyIsWin`. The tree it grows is a single
    chain: a node gets a child only while it has none, and the descent goes
    on until the board is full, so every playout starts on a full board and
    every backpropagated result is 0. */
module LegacyEngine {
  import opened Wrappers
  import opened HexGeometry
  import opened HexBoard
  import opened SearchTrees
  import opened Playouts
  import opened LegacyWin
  import HexEngine

  /** `isWin(board, p)`: p's stones link row 0 to the last row. */
  ghost predicate RowWin(g: Grid, p: int)
    requires IsBoard(g)
  {
    Connects(g, N, p, Rows)
  }

  /** No board of the playout before the last had a row win of its mover. */
  ghost predicate NoEarlyRowWin(g0: Grid, moves: seq<Point>, first: int)
    requires IsBoard(g0) && LegalPlayout(g0, moves, first)
  {
    forall k :: 0 < k < |moves| ==> !RowWin(Playout(g0, moves[..k], first), MoverAt(first, k - 1))
  }

  /** The playout so far: legal, one empty cell filled per move, and no
      mover has won yet. */
  ghost predicate LegacyReached(g0: Grid, moves: seq<Point>, first: int, cur: Grid) {
    && IsBoard(g0) && LegalPlayout(g0, moves, first) && cur == Playout(g0, moves, first)
    && EmptyCount(cur) == EmptyCount(g0) - |moves|
    && NoEarlyRowWin(g0, moves, first)
    && (|moves| > 0 ==> !RowWin(cur, MoverAt(first, |moves| - 1)))
  }

  /** What this `simulate` promises: its moves are a legal alternating
      playout from g0, at most one per empty cell; a nonzero result is the
      mover of the last move, who has won, and no earlier mover had won; a
      zero result means the board reached is full and nobody won on the
      way. */
  ghost predicate LegacyFinished(g0: Grid, moves: seq<Point>, first: int, winner: int) {
    && IsBoard(g0) && LegalPlayout(g0, moves, first)
    && |moves| <= EmptyCount(g0)
    && NoEarlyRowWin(g0, moves, first)
    && (winner != 0 ==> && |moves| > 0 && winner == MoverAt(first, |moves| - 1)
                        && RowWin(Playout(g0, moves, first), winner))
    && (winner == 0 ==> Full(Playout(g0, moves, first)))
    && (winner == 0 && |moves| > 0 ==> !RowWin(Playout(g0, moves, first), MoverAt(first, |moves| - 1)))
  }

  /** On a full board `simulate` makes no move and returns 0. */
  lemma FullBoardDraws(g0: Grid, moves: seq<Point>, first: int, winner: int)
    requires LegacyFinished(g0, moves, first, winner) && Full(g0)
    ensures winner == 0 && moves == []
  {
    FullIffNoEmpty(g0);
  }

  /** `simulate(board, player)` of `src/hex.cpp`, on its own copy of the
      board. */
  method LegacySimulate(board: Board, player: int) returns (winner: int, ghost moves: seq<Point>)
    requires board.Valid() && player in {1, 2}
    ensures winner in {0, 1, 2} && LegacyFinished(board.View(), moves, player, winner)
  {
    ghost var g0 := board.View();
    var b := new Board.Copy(board);
    var mover := player;
    var done := false;
    winner, moves := 0, [];
    while !done
      invariant b.Valid() && fresh(b.cells) && winner in {0, 1, 2}
      invariant !done ==> LegacyReached(g0, moves, player, b.View()) && mover == MoverAt(player, |moves|)
      invariant done ==> LegacyFinished(g0, moves, player, winner)
      decreases if done then 0 else EmptyCount(b.View()) + 1
    {
      done, winner, moves := LegacyPlayStep(b, g0, moves, player, mover);
      mover := 3 - mover;
    }
  }

  /** One pass of the loop: 0 on a full board, otherwise a random legal
      stone for the mover, and the mover as result if it has won. */
  method LegacyPlayStep(b: Board, ghost g0: Grid, ghost moves: seq<Point>, ghost first: int, mover: int)
    returns (done: bool, winner: int, ghost moves': seq<Point>)
    requires b.Valid() && LegacyReached(g0, moves, first, b.View())
    requires first in {1, 2} && mover == MoverAt(first, |moves|)
    modifies b.cells
    ensures b.Valid() && winner in {0, 1, 2}
    ensures done ==> LegacyFinished(g0, moves', first, winner)
    ensures !done ==> LegacyReached(g0, moves', first, b.View()) && 3 - mover == MoverAt(first, |moves'|)
    ensures !done ==> EmptyCount(b.View()) < EmptyCount(old(b.View()))
  {
    var next := HexEngine.RandomMove(b);
    if next.None? {
      return true, 0, moves;
    }
    var move := next.value;
    HexEngine.PlayMove(b, g0, moves, first, move, mover);
    moves' := moves + [move];
    ghost var cur := b.View();
    var won := LegacyIsWin(b, mover);
    assert b.View() == cur;
    LegacyAfterMove(g0, moves, first, move, won);
    MoverAlternates(first, |moves|);
    if won {
      return true, mover, moves';
    }
    return false, 0, moves';
  }

  /** After a legal move the playout is finished with the mover as winner,
      or goes on. */
  lemma LegacyAfterMove(g0: Grid, moves: seq<Point>, first: int, move: Point, won: bool)
    requires IsBoard(g0) && LegalPlayout(g0, moves, first) && first in {1, 2}
    requires LegacyReached(g0, moves, first, Playout(g0, moves, first))
    requires Legal(Playout(g0, moves, first), move) && LegalPlayout(g0, moves + [move], first)
    requires won <==> RowWin(Playout(g0, moves + [move], first), MoverAt(first, |moves|))
    ensures won ==> LegacyFinished(g0, moves + [move], first, MoverAt(first, |moves|))
    ensures !won ==> LegacyReached(g0, moves + [move], first, Playout(g0, moves + [move], first))
  {
    LegalPlayoutExtend(g0, moves, first, move);
    PlaceShrinksEmpty(Playout(g0, moves, first), move, MoverAt(first, |moves|));
    NoEarlyExtend(g0, moves, first, move);
  }

  /** A move after a board without a row win of its last mover adds no
      early win. */
  lemma NoEarlyExtend(g0: Grid, moves: seq<Point>, first: int, move: Point)
    requires IsBoard(g0) && LegalPlayout(g0, moves, first) && LegalPlayout(g0, moves + [move], first)
    requires NoEarlyRowWin(g0, moves, first)
    requires |moves| > 0 ==> !RowWin(Playout(g0, moves, first), MoverAt(first, |moves| - 1))
    ensures NoEarlyRowWin(g0, moves + [move], first)
  {
    NoEarlyStays(g0, moves, first, move, (g, p) => IsBoard(g) && RowWin(g, p));
    var ms := moves + [move];
    assert forall k :: 0 < k < |ms| ==> IsBoard(Playout(g0, ms[..k], first));
  }

  /** The same for any property `bad` of the boards of a playout and their
      movers: a move after a board without it adds no early board with it. */
  lemma NoEarlyStays(g0: Grid, moves: seq<Point>, first: int, move: Point, bad: (Grid, int) -> bool)
    requires IsBoard(g0) && AllInRange(moves) && AllInRange(moves + [move])
    requires forall k :: 0 < k < |moves| ==> !bad(Playout(g0, moves[..k], first), MoverAt(first, k - 1))
    requires |moves| > 0 ==> !bad(Playout(g0, moves, first), MoverAt(first, |moves| - 1))
    ensures forall k :: 0 < k < |moves| + 1 ==> !bad(Playout(g0, (moves + [move])[..k], first), MoverAt(first, k - 1))
  {
    forall k | 0 < k < |moves| + 1 ensures !bad(Playout(g0, (moves + [move])[..k], first), MoverAt(first, k - 1)) {
      PrefixPlayout(g0, moves, first, move, k);
      if k == |moves| {
        assert moves[..k] == moves;
      }
    }
  }

  /** A prefix of the extended playout is a prefix of the old one. */
  lemma PrefixPlayout(g0: Grid, moves: seq<Point>, first: int, move: Point, k: int)
    requires IsBoard(g0) && AllInRange(moves) && AllInRange(moves + [move]) && 0 <= k <= |moves|
    ensures Playout(g0, (moves + [move])[..k], first) == Playout(g0, moves[..k], first)
  {
    assert (moves + [move])[..k] == moves[..k];
  }

  function Self(p: Ply): Ply {
    p
  }

  /** The board the descent holds while it stands at node i. */
  ghost function LegacyBoardAt(nodes: seq<Node<Ply>>, g0: Grid, i: int): (g: Grid)
    requires Rooted(nodes) && IsBoard(g0) && 0 <= i < |nodes|
    ensures IsBoard(g)
  {
    PathBoard(nodes, Self, g0, i)
  }

  /** A non-root node was made by the other player than its parent, with a
      move legal on its parent's board. */
  ghost predicate LegacyPlyFits(nodes: seq<Node<Ply>>, g0: Grid, i: int)
    requires Rooted(nodes) && IsBoard(g0) && 0 < i < |nodes|
  {
    var p := nodes[i].parent;
    && nodes[i].data.player == 3 - nodes[p].data.player
    && Legal(LegacyBoardAt(nodes, g0, p), nodes[i].data.move)
  }

  /** The shape of this `HexBot`'s tree: a single chain 0, 1, 2, ... in
      which node i + 1 is the only child of node i. */
  ghost predicate Chain<T>(nodes: seq<Node<T>>) {
    && |nodes| > 0
    && (forall i :: 0 < i < |nodes| ==> nodes[i].parent == i - 1)
    && (forall i :: 0 <= i < |nodes| - 1 ==> nodes[i].children == [i + 1])
    && nodes[|nodes| - 1].children == []
  }

  /** The invariant of this `HexBot`'s tree: visit counts add up, the nodes
      form a chain, every move is legal where it is made, movers alternate,
      and every score is 0. */
  ghost predicate LegacyTree(nodes: seq<Node<Ply>>, g0: Grid, first: int) {
    && Counted(nodes) && IsBoard(g0) && Chain(nodes)
    && nodes[0].data == Ply(Point(-1, -1), first)
    && (forall i :: 0 < i < |nodes| ==> LegacyPlyFits(nodes, g0, i))
    && (forall i :: 0 <= i < |nodes| ==> nodes[i].score == 0)
  }

  /** In a chain the nodes a backpropagation from x passes are 0 .. x. */
  lemma {:induction false} ChainAncestors<T>(nodes: seq<Node<T>>, x: int)
    requires Rooted(nodes) && Chain(nodes) && -1 <= x < |nodes|
    ensures forall y :: y in Ancestors(nodes, x) <==> 0 <= y <= x
    decreases x + 1
  {
    if x >= 0 {
      ChainAncestors(nodes, x - 1);
    }
  }

  lemma LegacyChildMove(nodes: seq<Node<Ply>>, g0: Grid, first: int, c: int)
    requires LegacyTree(nodes, g0, first) && 0 < c < |nodes|
    ensures nodes[c].data.player == 3 - nodes[nodes[c].parent].data.player
    ensures Legal(LegacyBoardAt(nodes, g0, nodes[c].parent), nodes[c].data.move)
    ensures LegacyBoardAt(nodes, g0, c) ==
            Place(LegacyBoardAt(nodes, g0, nodes[c].parent), nodes[c].data.move, nodes[c].data.player)
  {
    assert LegacyPlyFits(nodes, g0, c);
  }

  /** Visits that change while links, plies and the zero scores stay keep
      the invariant. */
  lemma LegacyStatistics(n0: seq<Node<Ply>>, n1: seq<Node<Ply>>, g0: Grid, first: int)
    requires LegacyTree(n0, g0, first) && Counted(n1) && SameLinks(n0, n1)
    requires forall i :: 0 <= i < |n0| ==> n1[i].data == n0[i].data && n1[i].score == 0
    ensures LegacyTree(n1, g0, first)
  {
    forall i | 0 < i < |n1| ensures LegacyPlyFits(n1, g0, i) {
      assert LegacyPlyFits(n0, g0, i);
      PathBoardFrame(n0, n1, Self, g0, n0[i].parent);
    }
  }

  /** The payload `addChild(move, 3 - node->player)` creates. */
  function LegacyChild(n: Node<Ply>, m: Point): Ply {
    Ply(m, 3 - n.data.player)
  }

  /** A first child with a legal move keeps the invariant. */
  lemma LegacyGrow(n0: seq<Node<Ply>>, g0: Grid, first: int, i: int, m: Point)
    requires LegacyTree(n0, g0, first) && 0 <= i < |n0| && n0[i].children == []
    requires Legal(LegacyBoardAt(n0, g0, i), m)
    ensures i == |n0| - 1
    ensures LegacyTree(Grown(n0, i, LegacyChild(n0[i], m)), g0, first)
    ensures LegacyBoardAt(Grown(n0, i, LegacyChild(n0[i], m)), g0, |n0|) ==
            Place(LegacyBoardAt(n0, g0, i), m, 3 - n0[i].data.player)
  {
    var n1 := Grown(n0, i, LegacyChild(n0[i], m));
    var c := |n0|;
    GrownCounted(n0, i, LegacyChild(n0[i], m));
    forall j | 0 <= j < c ensures LegacyBoardAt(n1, g0, j) == LegacyBoardAt(n0, g0, j) {
      PathBoardFrame(n0, n1, Self, g0, j);
    }
    forall j | 0 < j < |n1| ensures LegacyPlyFits(n1, g0, j) {
      if j < c {
        assert LegacyPlyFits(n0, g0, j);
      }
    }
  }

  /** `isFullyExpanded` of `src/hex.cpp`: all 121 cells have a child,
      whatever the number of empty cells. */
  predicate LegacyFullyExpanded(n: Node<Ply>) {
    |n.children| == N * N
  }

  /** In this `HexBot`'s tree a node has at most one child, so no node is
      ever fully expanded and the descent never stops for that reason. */
  lemma ChainNeverFullyExpanded(nodes: seq<Node<Ply>>, g0: Grid, first: int, i: int)
    requires LegacyTree(nodes, g0, first) && 0 <= i < |nodes|
    ensures |nodes[i].children| <= 1 && !LegacyFullyExpanded(nodes[i])
  {
    if i < |nodes| - 1 {
      assert nodes[i].children == [i + 1];
    }
  }

  /** The score `selectChild` ranks a child by, the `double` value of
      `winScore / visitCount + sqrt(2 * log(parentVisits) / visitCount)`,
      where `explore(v, pv)` stands for the square-root term of a visited
      child and a parent visited at least once. The infinite and NaN cases
      of the division by zero are written out: an unvisited child is +infinity
      only when its score is positive and its parent was visited more than
      once, and NaN or -infinity, which never compare above -1, otherwise;
      a parent never visited makes the logarithm -infinity and the square
      root NaN. */
  function LegacyUcbKey(explore: (int, int) -> real, parentVisits: int): (key: Node<Ply> -> Score)
    ensures forall c: Node<Ply> :: c.visits == 0 ==>
              (Above(key(c), Finite(-1.0)) <==> c.score > 0 && parentVisits > 1)
    ensures forall c: Node<Ply> :: c.visits != 0 && parentVisits < 1 ==> !Above(key(c), Finite(-1.0))
  {
    (c: Node<Ply>) =>
      if c.visits == 0 then (if c.score > 0 && parentVisits > 1 then PosInf else NegInf)
      else if parentVisits < 1 then NegInf
      else Finite((c.score as real) / (c.visits as real) + explore(c.visits, parentVisits))
  }

  /** `selectChild`: the first child of the largest UCB value above -1, or
      nothing when none exceeds -1. */
  method LegacySelectChild(tree: Tree<Ply>, i: int, explore: (int, int) -> real) returns (r: Option<int>)
    requires tree.Valid() && 0 <= i < |tree.nodes|
    ensures var cs := tree.nodes[i].children;
            var keys := ChildKeys(tree.nodes, cs, LegacyUcbKey(explore, tree.nodes[i].visits));
            && (r.None? <==> forall k :: 0 <= k < |cs| ==> !Above(keys[k], Finite(-1.0)))
            && (r.Some? ==> exists k :: FirstBest(keys, Finite(-1.0), k) && cs[k] == r.value)
  {
    r := tree.BestBy(i, LegacyUcbKey(explore, tree.nodes[i].visits), Finite(-1.0));
  }

  /** The score `bestChild` ranks a child by: its average score, as the
      `double` division gives it (a visited child's quotient; for an
      unvisited one +infinity when its score is positive, and otherwise a
      value, -infinity or NaN, that never compares above -1). */
  function AverageKey(c: Node<Ply>): (r: Score)
    ensures c.visits == 0 ==> (Above(r, Finite(-1.0)) <==> c.score > 0)
    ensures c.visits > 0 && c.score >= 0 ==> Above(r, Finite(-1.0))
  {
    if c.visits == 0 then (if c.score > 0 then PosInf else NegInf)
    else Finite((c.score as real) / (c.visits as real))
  }

  /** `bestChild`: the first child of the largest average score above -1,
      or nothing when none exceeds -1. */
  method LegacyBestChild(tree: Tree<Ply>, i: int) returns (r: Option<int>)
    requires tree.Valid() && 0 <= i < |tree.nodes|
    ensures var cs := tree.nodes[i].children;
            var keys := ChildKeys(tree.nodes, cs, AverageKey);
            && (r.None? <==> forall k :: 0 <= k < |cs| ==> !Above(keys[k], Finite(-1.0)))
            && (r.Some? ==> exists k :: FirstBest(keys, Finite(-1.0), k) && cs[k] == r.value)
  {
    r := tree.BestBy(i, AverageKey, Finite(-1.0));
  }

  /** The expansion branch for a node without children: list the legal
      moves, shuffle them, and add a child for the first legal one (the
      first of the list, since all are legal), with mover
      `3 - node->player`; then play it on the board. A board that is not
      full always has such a move. */
  method LegacyExpand(tree: Tree<Ply>, ghost g0: Grid, ghost first: int, i: int, b: Board) returns (child: int)
    requires LegacyTree(tree.nodes, g0, first) && 0 <= i < |tree.nodes| && tree.nodes[i].children == []
    requires b.Valid() && b.View() == LegacyBoardAt(tree.nodes, g0, i) && !Full(b.View())
    modifies tree, b.cells
    ensures LegacyTree(tree.nodes, g0, first) && b.Valid()
    ensures child == |old(tree.nodes)| && |tree.nodes| == child + 1
    ensures tree.nodes == Grown(old(tree.nodes), i, LegacyChild(old(tree.nodes[i]), tree.nodes[child].data.move))
    ensures b.View() == LegacyBoardAt(tree.nodes, g0, child)
    ensures Legal(old(b.View()), tree.nodes[child].data.move)
    ensures b.View() == Place(old(b.View()), tree.nodes[child].data.move, tree.nodes[child].data.player)
  {
    var legal := LegalMoves(b);
    assert HexEngine.FreeCell(b.View()) in legal;
    assert multiset(legal) == multiset(legal);
    var shuffled: seq<Point> :| multiset(shuffled) == multiset(legal);
    assert legal[0] in multiset(shuffled);
    for k := 0 to |shuffled|
      invariant forall j :: 0 <= j < k ==> !Legal(b.View(), shuffled[j])
    {
      if b.IsLegalMove(shuffled[k]) {
        child := LegacyAddChild(tree, g0, first, i, b, shuffled[k]);
        return;
      }
    }
    assert false;
  }

  /** `node = node->addChild(move, 3 - node->player)` and the move on the
      descent's board. */
  method LegacyAddChild(tree: Tree<Ply>, ghost g0: Grid, ghost first: int, i: int, b: Board, m: Point)
    returns (child: int)
    requires LegacyTree(tree.nodes, g0, first) && 0 <= i < |tree.nodes| && tree.nodes[i].children == []
    requires b.Valid() && b.View() == LegacyBoardAt(tree.nodes, g0, i) && Legal(b.View(), m)
    modifies tree, b.cells
    ensures LegacyTree(tree.nodes, g0, first) && b.Valid()
    ensures child == |old(tree.nodes)| && tree.nodes == Grown(old(tree.nodes), i, LegacyChild(old(tree.nodes[i]), m))
    ensures b.View() == LegacyBoardAt(tree.nodes, g0, child)
    ensures b.View() == Place(old(b.View()), m, 3 - old(tree.nodes[i].data.player))
  {
    LegacyGrow(tree.nodes, g0, first, i, m);
    var mover := 3 - tree.nodes[i].data.player;
    child := tree.AddChild(i, LegacyChild(tree.nodes[i], m));
    b.MakeMove(m, mover);
  }

  /** Every node has been visited `it` times. */
  ghost predicate Visited(nodes: seq<Node<Ply>>, it: int) {
    forall j :: 0 <= j < |nodes| ==> nodes[j].visits == it
  }

  /** What holds between two iterations of `HexBot` after `it` of them: the
      chain invariant, every node visited `it` times, the root alone before
      the first one and, after it, a chain that ends on a full board. */
  ghost predicate Between(nodes: seq<Node<Ply>>, g0: Grid, first: int, it: int) {
    && LegacyTree(nodes, g0, first) && Visited(nodes, it)
    && (it == 0 ==> |nodes| == 1)
    && (it > 0 ==> Full(LegacyBoardAt(nodes, g0, |nodes| - 1)))
  }

  /** The square-root term is never negative. */
  ghost predicate Explores(explore: (int, int) -> real) {
    forall v, pv :: explore(v, pv) >= 0.0
  }

  /** The descent stands at `node` with board g: the chain invariant,
      every node visited `it` times, the descent at the end of the chain in
      the first iteration, and a chain already ending on a full board in the
      later ones. */
  ghost predicate AtNode(nodes: seq<Node<Ply>>, g0: Grid, first: int, it: int, node: int, g: Grid) {
    && LegacyTree(nodes, g0, first) && first in {1, 2} && Visited(nodes, it)
    && 0 <= node < |nodes| && g == LegacyBoardAt(nodes, g0, node)
    && (it == 0 ==> node == |nodes| - 1)
    && (it > 0 ==> Full(LegacyBoardAt(nodes, g0, |nodes| - 1)))
  }

  /** A full board is reached only at the end of the chain. */
  lemma FullAtLeaf(nodes: seq<Node<Ply>>, g0: Grid, first: int, it: int, node: int, g: Grid)
    requires AtNode(nodes, g0, first, it, node, g) && Full(g)
    ensures node == |nodes| - 1
  {
    if node < |nodes| - 1 {
      LegacyChildMove(nodes, g0, first, node + 1);
    }
  }

  /** Each descent starts at the root, on the root board. */
  lemma StartAtRoot(nodes: seq<Node<Ply>>, g0: Grid, first: int, it: int)
    requires Between(nodes, g0, first, it) && first in {1, 2}
    ensures AtNode(nodes, g0, first, it, 0, g0)
  {
  }

  /** The descent of one iteration: from the root, a node without children
      gets one, for the first legal shuffled move, and the descent moves to
      it; a node with a child moves to the child `selectChild` picks. A node
      of the chain has at most one child, so it is never fully expanded and
      the descent ends only on a full board, at the last node of the chain.
      The first iteration builds the whole chain; later ones only follow it,
      and their selection never comes back null, since the child was
      visited and scores 0. */
  method LegacyDescend(tree: Tree<Ply>, ghost g0: Grid, ghost first: int, board: Board,
                       explore: (int, int) -> real, ghost it: nat)
    returns (node: int, b: Board)
    requires Between(tree.nodes, g0, first, it) && first in {1, 2} && Explores(explore)
    requires board.Valid() && board.View() == g0
    modifies tree
    ensures LegacyTree(tree.nodes, g0, first) && Visited(tree.nodes, it) && fresh(b) && b.Valid()
    ensures node == |tree.nodes| - 1 && b.View() == LegacyBoardAt(tree.nodes, g0, node) && Full(b.View())
    ensures it > 0 ==> tree.nodes == old(tree.nodes)
  {
    var full;
    ghost var empty;
    b, full, empty := LegacyStart(tree, g0, first, board, it);
    node := LegacyWalk(tree, g0, first, b, full, explore, it);
  }

  /** The descent loop from the root on the copied board b. */
  method LegacyWalk(tree: Tree<Ply>, ghost g0: Grid, ghost first: int, b: Board, full0: bool,
                    explore: (int, int) -> real, ghost it: nat)
    returns (node: int)
    requires b.Valid() && AtNode(tree.nodes, g0, first, it, 0, b.View()) && (full0 <==> Full(b.View()))
    requires Explores(explore)
    modifies tree, b.cells
    ensures LegacyTree(tree.nodes, g0, first) && Visited(tree.nodes, it) && b.Valid()
    ensures node == |tree.nodes| - 1 && b.View() == LegacyBoardAt(tree.nodes, g0, node) && Full(b.View())
    ensures it > 0 ==> tree.nodes == old(tree.nodes)
  {
    node := 0;
    var full := full0;
    ghost var empty := EmptyCount(b.View());
    while !LegacyFullyExpanded(tree.nodes[node]) && !full
      invariant b.Valid() && empty == EmptyCount(b.View())
      invariant AtNode(tree.nodes, g0, first, it, node, b.View()) && (full <==> Full(b.View()))
      invariant it > 0 ==> tree.nodes == old(tree.nodes)
      decreases empty
    {
      node, full, empty := LegacyDescendStep(tree, g0, first, node, b, explore, it);
    }
    FullAtLeaf(tree.nodes, g0, first, it, node, b.View());
  }

  /** The start of the descent: a copy of the board, standing at the root. */
  method LegacyStart(tree: Tree<Ply>, ghost g0: Grid, ghost first: int, board: Board, ghost it: nat)
    returns (b: Board, full: bool, ghost empty: nat)
    requires Between(tree.nodes, g0, first, it) && first in {1, 2}
    requires board.Valid() && board.View() == g0
    ensures fresh(b) && fresh(b.cells) && b.Valid() && empty == EmptyCount(b.View())
    ensures AtNode(tree.nodes, g0, first, it, 0, b.View()) && (full <==> Full(b.View()))
  {
    b := new Board.Copy(board);
    StartAtRoot(tree.nodes, g0, first, it);
    full := b.IsFull();
    empty := EmptyCount(b.View());
  }

  /** One pass of the descent loop, on a board that is not full, and the
      loop's `isFull` test of the board it leaves. */
  method LegacyDescendStep(tree: Tree<Ply>, ghost g0: Grid, ghost first: int, node: int, b: Board,
                           explore: (int, int) -> real, ghost it: nat)
    returns (next: int, full: bool, ghost empty: nat)
    requires b.Valid() && AtNode(tree.nodes, g0, first, it, node, b.View()) && Explores(explore)
    requires !Full(b.View())
    modifies tree, b.cells
    ensures b.Valid() && AtNode(tree.nodes, g0, first, it, next, b.View())
    ensures empty == EmptyCount(b.View()) && empty < EmptyCount(old(b.View()))
    ensures full <==> Full(b.View())
    ensures it > 0 ==> tree.nodes == old(tree.nodes)
  {
    if tree.nodes[node].children == [] {
      next, full, empty := LegacyGrowStep(tree, g0, first, node, b, it);
    } else {
      next, full, empty := LegacyFollowStep(tree, g0, first, node, b, explore, it);
    }
  }

  /** The branch for a node without children; it is the end of the chain,
      so this happens only in the first iteration. */
  method LegacyGrowStep(tree: Tree<Ply>, ghost g0: Grid, ghost first: int, node: int, b: Board, ghost it: nat)
    returns (next: int, full: bool, ghost empty: nat)
    requires b.Valid() && AtNode(tree.nodes, g0, first, it, node, b.View())
    requires !Full(b.View()) && tree.nodes[node].children == []
    modifies tree, b.cells
    ensures b.Valid() && AtNode(tree.nodes, g0, first, it, next, b.View())
    ensures empty == EmptyCount(b.View()) && empty < EmptyCount(old(b.View()))
    ensures full <==> Full(b.View())
    ensures it == 0
  {
    ghost var g := b.View();
    MoverInRange(tree.nodes, g0, first, node);
    next := LegacyExpand(tree, g0, first, node, b);
    PlaceShrinksEmpty(g, tree.nodes[next].data.move, tree.nodes[next].data.player);
    empty := EmptyCount(b.View());
    full := b.IsFull();
  }

  /** The branch for a node with its child: `selectChild` picks it, as it
      was visited in every earlier iteration and scores 0. */
  method LegacyFollowStep(tree: Tree<Ply>, ghost g0: Grid, ghost first: int, node: int, b: Board,
                          explore: (int, int) -> real, ghost it: nat)
    returns (next: int, full: bool, ghost empty: nat)
    requires b.Valid() && AtNode(tree.nodes, g0, first, it, node, b.View()) && Explores(explore)
    requires tree.nodes[node].children != []
    modifies b.cells
    ensures b.Valid() && AtNode(tree.nodes, g0, first, it, next, b.View())
    ensures empty == EmptyCount(b.View()) && empty < EmptyCount(old(b.View()))
    ensures full <==> Full(b.View())
    ensures next == node + 1 && tree.nodes[next].parent == node
    ensures LegacyPicked(tree.nodes, node, explore, next)
  {
    next := LegacyPick(tree, g0, first, node, explore, it, b.View());
    full, empty := LegacyMoveTo(tree, g0, first, node, next, b, it);
  }

  /** The child's move on the descent's board, which then stands at the
      child. */
  method LegacyMoveTo(tree: Tree<Ply>, ghost g0: Grid, ghost first: int, node: int, next: int, b: Board, ghost it: nat)
    returns (full: bool, ghost empty: nat)
    requires b.Valid() && AtNode(tree.nodes, g0, first, it, node, b.View())
    requires 0 < next < |tree.nodes| && tree.nodes[next].parent == node
    modifies b.cells
    ensures b.Valid() && AtNode(tree.nodes, g0, first, it, next, b.View())
    ensures empty == EmptyCount(b.View()) && empty < EmptyCount(old(b.View()))
    ensures full <==> Full(b.View())
  {
    ghost var g := b.View();
    LegacyChildMove(tree.nodes, g0, first, next);
    MoverInRange(tree.nodes, g0, first, next);
    b.MakeMove(tree.nodes[next].data.move, tree.nodes[next].data.player);
    PlaceShrinksEmpty(g, tree.nodes[next].data.move, tree.nodes[next].data.player);
    empty := EmptyCount(b.View());
    full := b.IsFull();
  }

  /** Child `next` is the first best of node i's children by `selectChild`'s
      key. */
  ghost predicate LegacyPicked(nodes: seq<Node<Ply>>, i: int, explore: (int, int) -> real, next: int)
    requires 0 <= i < |nodes|
  {
    var cs := nodes[i].children;
    exists k :: FirstBest(ChildKeys(nodes, cs, LegacyUcbKey(explore, nodes[i].visits)), Finite(-1.0), k) && cs[k] == next
  }

  /** `selectChild` at a node with its child picks it: it was visited in
      every earlier iteration and scores 0. */
  method LegacyPick(tree: Tree<Ply>, ghost g0: Grid, ghost first: int, node: int, explore: (int, int) -> real,
                    ghost it: nat, ghost g: Grid)
    returns (next: int)
    requires AtNode(tree.nodes, g0, first, it, node, g) && Explores(explore)
    requires tree.nodes[node].children != []
    ensures next == node + 1 && tree.nodes[next].parent == node
    ensures LegacyPicked(tree.nodes, node, explore, next)
  {
    ghost var keys := ChildKeys(tree.nodes, tree.nodes[node].children, LegacyUcbKey(explore, tree.nodes[node].visits));
    assert Above(keys[0], Finite(-1.0));
    var sel := LegacySelectChild(tree, node, explore);
    if sel.None? {
      assert false;
    }
    next := sel.value;
    assert next == node + 1;
  }

  /** Every mover in the tree is a player. */
  lemma {:induction false} MoverInRange(nodes: seq<Node<Ply>>, g0: Grid, first: int, i: int)
    requires LegacyTree(nodes, g0, first) && first in {1, 2} && 0 <= i < |nodes|
    ensures nodes[i].data.player in {1, 2}
    decreases i
  {
    if i > 0 {
      assert LegacyPlyFits(nodes, g0, i);
      MoverInRange(nodes, g0, first, nodes[i].parent);
    }
  }

  /** A backpropagation of 0 over the whole chain reaches the next
      iteration's state. */
  lemma BumpedBetween(n0: seq<Node<Ply>>, n1: seq<Node<Ply>>, g0: Grid, first: int, it: nat)
    requires LegacyTree(n0, g0, first) && Visited(n0, it) && Full(LegacyBoardAt(n0, g0, |n0| - 1))
    requires Counted(n1) && |n1| == |n0| && forall i :: 0 <= i < |n0| ==> n1[i] == Bump(n0[i], 0)
    ensures Between(n1, g0, first, it + 1)
  {
    LegacyStatistics(n0, n1, g0, first);
    PathBoardFrame(n0, n1, Self, g0, |n0| - 1);
  }

  /** One pass of the time loop: descend, play out from the full board
      reached (which returns 0), and update every node of the chain. */
  method LegacyIterate(tree: Tree<Ply>, ghost g0: Grid, ghost first: int, board: Board,
                       explore: (int, int) -> real, ghost it: nat)
    requires Between(tree.nodes, g0, first, it) && Explores(explore) && first in {1, 2}
    requires board.Valid() && board.View() == g0
    modifies tree
    ensures Between(tree.nodes, g0, first, it + 1)
    ensures it > 0 ==> |tree.nodes| == |old(tree.nodes)|
  {
    var node, b := LegacyDescend(tree, g0, first, board, explore, it);
    LegacyPlayAndUpdate(tree, g0, first, node, b, it);
  }

  /** The rest of an iteration: `simulate` from the full board at the end
      of the chain returns 0, and the update walks the whole chain. */
  method LegacyPlayAndUpdate(tree: Tree<Ply>, ghost g0: Grid, ghost first: int, node: int, b: Board, ghost it: nat)
    requires LegacyTree(tree.nodes, g0, first) && Visited(tree.nodes, it) && first in {1, 2}
    requires node == |tree.nodes| - 1 && b.Valid() && b.View() == LegacyBoardAt(tree.nodes, g0, node) && Full(b.View())
    modifies tree
    ensures Between(tree.nodes, g0, first, it + 1) && |tree.nodes| == |old(tree.nodes)|
  {
    MoverInRange(tree.nodes, g0, first, node);
    var winner;
    ghost var moves;
    winner, moves := LegacySimulate(b, 3 - tree.nodes[node].data.player);
    FullBoardDraws(b.View(), moves, 3 - tree.nodes[node].data.player, winner);
    ghost var n0 := tree.nodes;
    ChainAncestors(n0, node);
    tree.Backpropagate(node, winner);
    BumpedBetween(n0, tree.nodes, g0, first, it);
  }

  /** `HexBot(board, player)` of `src/hex.cpp` with `iterations` passes in
      place of the time budget. It returns a move exactly when at least one
      iteration ran and the board is not full: the move of the root's only
      child, the first stone of a legal alternating playout of the whole
      board in which every node was visited `iterations` times and scores
      0; otherwise `bestChild` is null. */
  method LegacyHexBot(board: Board, player: int, iterations: nat, explore: (int, int) -> real)
    returns (r: HexEngine.Outcome, ghost tree: Tree<Ply>)
    requires board.Valid() && player in {1, 2} && Explores(explore)
    ensures r.Move? <==> iterations > 0 && !Full(board.View())
    ensures r.Move? ==> Legal(board.View(), r.p)
    ensures iterations > 0 ==> Between(tree.nodes, board.View(), player, iterations)
    ensures r.Move? ==> |tree.nodes| > 1 && r.p == tree.nodes[1].data.move && tree.nodes[1].data.player == 3 - player
  {
    ghost var g0 := board.View();
    var t := new Tree(Ply(Point(-1, -1), player));
    tree := t;
    assert Between(t.nodes, g0, player, 0);
    var it := 0;
    while it < iterations
      invariant fresh(t) && tree == t && 0 <= it <= iterations && Between(t.nodes, g0, player, it)
    {
      LegacyIterate(t, g0, player, board, explore, it);
      it := it + 1;
    }
    ghost var n := t.nodes;
    if |n| > 1 {
      LegacyChildMove(n, g0, player, 1);
      assert ChildKeys(n, n[0].children, AverageKey)[0] == Finite(0.0);
    }
    var best := LegacyBestChild(t, 0);
    if best.None? {
      return HexEngine.NullDereference, t;
    }
    assert best.value == 1;
    r := HexEngine.Move(t.nodes[best.value].data.move);
  }
}
