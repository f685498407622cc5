/** The search engine of `src/HEX_new.cpp`: the random playout `simulate`,
    the node operations of `Node` and the iterations of `HexBot`, over the
    arena of `SearchTrees`. The five-second wall-clock budget becomes an
    iteration count, `shuffle` becomes a nondeterministic permutation, and
    the floating-point UCB formula of visited children becomes a
    caller-supplied function of a child's score, its visits and its
    parent's visits. */
module HexEngine {
  import opened Wrappers
  import opened HexGeometry
  import opened HexBoard
  import opened WinOracle
  import opened SearchTrees
  import opened Playouts

  /** Every intermediate board of the playout, after the first move and
      before the last, has no winner. */
  ghost predicate NoEarlyWinner(g: Grid, moves: seq<Point>, first: int)
    requires IsBoard(g) && LegalPlayout(g, moves, first)
  {
    forall k :: 0 < k < |moves| ==> Winner(Playout(g, moves[..k], first)) == 0
  }

  /** `simulate(board, player)`: on its own copy of the board, place a random
      legal stone for the mover, stop with the winner as soon as `isWin`
      reports one, and otherwise hand over to `3 - player`; a full board
      gives 0. The moves it made are returned as ghost output: they form a
      legal alternating playout from `player`, at most one per empty cell,
      the result is the winner of the board they reach, and no earlier
      board of the playout had a winner. */
  method Simulate(board: Board, player: int) returns (winner: int, ghost moves: seq<Point>)
    requires board.Valid() && player in {1, 2}
    ensures winner in {0, 1, 2} && Finished(board.View(), moves, player, winner)
  {
    ghost var g0 := board.View();
    var b := new Board.Copy(board);
    var mover := player;
    var done := false;
    winner, moves := 0, [];
    while !done
      invariant b.Valid() && fresh(b.cells) && winner in {0, 1, 2}
      invariant !done ==> Reached(g0, moves, player, b.View()) && mover == MoverAt(player, |moves|)
      invariant done ==> Finished(g0, moves, player, winner)
      decreases if done then 0 else EmptyCount(b.View()) + 1
    {
      done, winner, moves := PlayStep(b, g0, moves, player, mover);
      mover := 3 - mover;
    }
  }

  /** The head of each pass of `simulate`'s loop: nothing when `isFull`
      holds, otherwise `legalMoves[0]` after the legal moves are listed and
      shuffled, which is any legal move. The `legalMoves.empty()` exit is
      not reached, since a board that is not full has a legal move. */
  method RandomMove(b: Board) returns (next: Option<Point>)
    requires b.Valid()
    ensures next.None? <==> Full(b.View())
    ensures next.Some? ==> Legal(b.View(), next.value)
  {
    var full := b.IsFull();
    if full {
      return None;
    }
    var legal := LegalMoves(b);
    assert FreeCell(b.View()) in legal;
    var move :| move in legal;
    next := Some(move);
  }

  /** The playout so far: `moves` is a legal alternating playout from g0
      that reached `cur`, each move filled one empty cell, and no board after
      a move had a winner. */
  ghost predicate Reached(g0: Grid, moves: seq<Point>, first: int, cur: Grid) {
    && IsBoard(g0) && LegalPlayout(g0, moves, first) && cur == Playout(g0, moves, first)
    && EmptyCount(cur) == EmptyCount(g0) - |moves|
    && NoEarlyWinner(g0, moves, first)
    && (|moves| > 0 ==> Winner(cur) == 0)
  }

  /** What `simulate` promises of a finished playout: its moves are a legal
      alternating playout from g0, at most one per empty cell, no board
      before the last had a winner, a nonzero result is the winner of the
      board reached, and a zero result means that board is full and, if any
      move was made, has no winner. */
  ghost predicate Finished(g0: Grid, moves: seq<Point>, first: int, winner: int) {
    && IsBoard(g0) && LegalPlayout(g0, moves, first)
    && |moves| <= EmptyCount(g0)
    && NoEarlyWinner(g0, moves, first)
    && (winner != 0 ==> |moves| > 0 && winner == Winner(Playout(g0, moves, first)))
    && (winner == 0 ==> Full(Playout(g0, moves, first)))
    && (winner == 0 && |moves| > 0 ==> Winner(Playout(g0, moves, first)) == 0)
  }

  /** One pass of `simulate`'s loop: stop with 0 on a full board, otherwise
      place a random legal stone and stop with the winner if there is one. */
  method PlayStep(b: Board, ghost g0: Grid, ghost moves: seq<Point>, ghost first: int, mover: int)
    returns (done: bool, winner: int, ghost moves': seq<Point>)
    requires b.Valid() && Reached(g0, moves, first, b.View())
    requires first in {1, 2} && mover == MoverAt(first, |moves|)
    modifies b.cells
    ensures b.Valid() && winner in {0, 1, 2}
    ensures done ==> Finished(g0, moves', first, winner)
    ensures !done ==> Reached(g0, moves', first, b.View()) && 3 - mover == MoverAt(first, |moves'|)
    ensures !done ==> EmptyCount(b.View()) < EmptyCount(old(b.View()))
  {
    var next := RandomMove(b);
    if next.None? {
      return true, 0, moves;
    }
    var move := next.value;
    PlayMove(b, g0, moves, first, move, mover);
    moves' := moves + [move];
    ghost var cur := b.View();
    winner := IsWin(b);
    assert b.View() == cur;
    AfterMove(g0, moves, first, move, winner);
    MoverAlternates(first, |moves|);
    done := winner != 0;
  }

  /** After a legal move, the playout either has a winner and is finished
      or goes on with no winner. */
  lemma AfterMove(g0: Grid, moves: seq<Point>, first: int, move: Point, w: int)
    requires IsBoard(g0) && LegalPlayout(g0, moves, first) && first in {1, 2}
    requires Reached(g0, moves, first, Playout(g0, moves, first))
    requires Legal(Playout(g0, moves, first), move) && LegalPlayout(g0, moves + [move], first)
    requires w == Winner(Playout(g0, moves + [move], first))
    ensures w != 0 ==> Finished(g0, moves + [move], first, w)
    ensures w == 0 ==> Reached(g0, moves + [move], first, Playout(g0, moves + [move], first))
  {
    NoEarlyWinnerExtend(g0, moves, first, move);
    PlaceShrinksEmpty(Playout(g0, moves, first), move, MoverAt(first, |moves|));
    LegalPlayoutExtend(g0, moves, first, move);
  }

  /** One move of the playout, on the playout's own board. */
  method PlayMove(b: Board, ghost g0: Grid, ghost moves: seq<Point>, ghost first: int, move: Point, mover: int)
    requires b.Valid() && IsBoard(g0) && LegalPlayout(g0, moves, first)
    requires b.View() == Playout(g0, moves, first) && Legal(b.View(), move)
    requires mover == MoverAt(first, |moves|) && mover != 0
    modifies b.cells
    ensures b.Valid() && LegalPlayout(g0, moves + [move], first)
    ensures b.View() == Playout(g0, moves + [move], first)
    ensures EmptyCount(b.View()) == EmptyCount(old(b.View())) - 1
  {
    LegalPlayoutExtend(g0, moves, first, move);
    PlaceShrinksEmpty(b.View(), move, mover);
    b.MakeMove(move, mover);
  }

  /** A playout whose current board has no winner stays free of early
      winners when it is extended. */
  lemma NoEarlyWinnerExtend(g: Grid, moves: seq<Point>, first: int, m: Point)
    requires IsBoard(g) && LegalPlayout(g, moves, first) && NoEarlyWinner(g, moves, first)
    requires Legal(Playout(g, moves, first), m)
    requires |moves| > 0 ==> Winner(Playout(g, moves, first)) == 0
    ensures LegalPlayout(g, moves + [m], first) && NoEarlyWinner(g, moves + [m], first)
  {
    LegalPlayoutExtend(g, moves, first, m);
    var ms := moves + [m];
    forall k | 0 < k < |ms| ensures Winner(Playout(g, ms[..k], first)) == 0 {
      if k < |moves| {
        assert ms[..k] == moves[..k];
      } else {
        assert ms[..k] == moves;
      }
    }
  }

  /** An empty cell of a board that is not full. */
  ghost function FreeCell(g: Grid): (p: Point)
    requires IsBoard(g) && !Full(g)
    ensures Legal(g, p)
  {
    var i, j :| 0 <= i < N && 0 <= j < N && g[i][j] == 0; Point(i, j)
  }

  /** The payload of a `Node`: the move that leads to it and its mover, and
      `legalMoves`, the snapshot of legal moves that expansion draws from. */
  datatype Info = Info(ply: Ply, legalMoves: seq<Point>)

  function InfoPly(d: Info): Ply {
    d.ply
  }

  /** The board the descent holds in `boardCopy` while it stands at node i. */
  ghost function BoardAt(nodes: seq<Node<Info>>, g0: Grid, i: int): (g: Grid)
    requires Rooted(nodes) && IsBoard(g0) && 0 <= i < |nodes|
    ensures IsBoard(g)
  {
    PathBoard(nodes, InfoPly, g0, i)
  }

  /** The move of node c (none for a position outside the arena). */
  function MoveOf(nodes: seq<Node<Info>>, c: int): Point {
    if 0 <= c < |nodes| then nodes[c].data.ply.move else Point(-1, -1)
  }

  /** The moves of node i's children, in the order they were added. */
  function ChildMoves(nodes: seq<Node<Info>>, i: int): (ms: seq<Point>)
    requires 0 <= i < |nodes|
    ensures |ms| == |nodes[i].children|
    ensures forall k :: 0 <= k < |ms| ==> ms[k] == MoveOf(nodes, nodes[i].children[k])
  {
    seq(|nodes[i].children|, k requires 0 <= k < |nodes[i].children| => MoveOf(nodes, nodes[i].children[k]))
  }

  predicate Distinct(ms: seq<Point>) {
    forall a, b :: 0 <= a < b < |ms| ==> ms[a] != ms[b]
  }

  /** A non-root node was made by the other player than its parent, with a
      move from its parent's snapshot. */
  ghost predicate PlyFits(nodes: seq<Node<Info>>, i: int)
    requires Rooted(nodes) && 0 < i < |nodes|
  {
    var p := nodes[i].parent;
    && nodes[i].data.ply.player == 3 - nodes[p].data.ply.player
    && nodes[i].data.ply.move in nodes[p].data.legalMoves
  }

  /** Every move of node i's snapshot is legal on the board reached at i. */
  ghost predicate SnapshotFits(nodes: seq<Node<Info>>, g0: Grid, i: int)
    requires Rooted(nodes) && IsBoard(g0) && 0 <= i < |nodes|
  {
    forall m :: m in nodes[i].data.legalMoves ==> Legal(BoardAt(nodes, g0, i), m)
  }

  /** The invariant of `HexBot`'s tree over the root board g0, whose root
      (move (-1, -1)) belongs to `first`: visit counts add up, every move is
      legal where it is made, movers alternate, and no two children of a
      node share a move. */
  ghost predicate SearchTree(nodes: seq<Node<Info>>, g0: Grid, first: int) {
    && Counted(nodes) && IsBoard(g0)
    && nodes[0].data.ply == Ply(Point(-1, -1), first)
    && (forall i :: 0 < i < |nodes| ==> PlyFits(nodes, i))
    && (forall i :: 0 <= i < |nodes| ==> SnapshotFits(nodes, g0, i))
    && (forall i :: 0 <= i < |nodes| ==> Distinct(ChildMoves(nodes, i)))
  }

  /** A child's move is legal on its parent's board and leads to its own. */
  lemma ChildMove(nodes: seq<Node<Info>>, g0: Grid, first: int, c: int)
    requires SearchTree(nodes, g0, first) && 0 < c < |nodes|
    ensures Legal(BoardAt(nodes, g0, nodes[c].parent), nodes[c].data.ply.move)
    ensures BoardAt(nodes, g0, c) ==
            Place(BoardAt(nodes, g0, nodes[c].parent), nodes[c].data.ply.move, nodes[c].data.ply.player)
  {
    assert PlyFits(nodes, c);
    assert SnapshotFits(nodes, g0, nodes[c].parent);
  }

  /** Changing statistics only keeps the invariant. */
  lemma StatisticsKeepSearchTree(n0: seq<Node<Info>>, n1: seq<Node<Info>>, g0: Grid, first: int)
    requires SearchTree(n0, g0, first) && Counted(n1) && SameLinks(n0, n1)
    requires forall i :: 0 <= i < |n0| ==> n1[i].data == n0[i].data
    ensures SearchTree(n1, g0, first)
  {
    forall i | 0 <= i < |n1| ensures SnapshotFits(n1, g0, i) && Distinct(ChildMoves(n1, i)) {
      PathBoardFrame(n0, n1, InfoPly, g0, i);
      assert SnapshotFits(n0, g0, i);
      assert ChildMoves(n1, i) == ChildMoves(n0, i);
    }
    forall i | 0 < i < |n1| ensures PlyFits(n1, i) {
      assert PlyFits(n0, i);
    }
  }

  /** Node i with snapshot L: the invariant survives when L keeps every
      move of the old snapshot and holds only moves legal at i. */
  lemma SnapshotKeepsSearchTree(n0: seq<Node<Info>>, g0: Grid, first: int, i: int, L: seq<Point>)
    requires SearchTree(n0, g0, first) && 0 <= i < |n0|
    requires forall m :: m in n0[i].data.legalMoves ==> m in L
    requires forall m :: m in L ==> Legal(BoardAt(n0, g0, i), m)
    ensures SearchTree(n0[i := n0[i].(data := n0[i].data.(legalMoves := L))], g0, first)
    ensures BoardAt(n0[i := n0[i].(data := n0[i].data.(legalMoves := L))], g0, i) == BoardAt(n0, g0, i)
  {
    var n1 := n0[i := n0[i].(data := n0[i].data.(legalMoves := L))];
    SameVisitsCounted(n0, n1);
    PathBoardFrame(n0, n1, InfoPly, g0, i);
    forall j | 0 <= j < |n1| ensures SnapshotFits(n1, g0, j) && Distinct(ChildMoves(n1, j)) {
      PathBoardFrame(n0, n1, InfoPly, g0, j);
      assert SnapshotFits(n0, g0, j);
      assert ChildMoves(n1, j) == ChildMoves(n0, j);
    }
    forall j | 0 < j < |n1| ensures PlyFits(n1, j) {
      assert PlyFits(n0, j);
    }
  }

  /** The payload `addChild(move, 3 - node->player)` creates. */
  function NewChild(n: Node<Info>, m: Point): Info {
    Info(Ply(m, 3 - n.data.ply.player), [])
  }

  /** Adding a child under i with a snapshot move no child of i has yet
      keeps the invariant, and the new node's board is i's board with that
      move placed. */
  lemma GrowKeepsSearchTree(n0: seq<Node<Info>>, g0: Grid, first: int, i: int, m: Point)
    requires SearchTree(n0, g0, first) && 0 <= i < |n0|
    requires m in n0[i].data.legalMoves && m !in ChildMoves(n0, i) && InRange(N, m)
    ensures SearchTree(Grown(n0, i, NewChild(n0[i], m)), g0, first)
    ensures BoardAt(Grown(n0, i, NewChild(n0[i], m)), g0, |n0|) ==
            Place(BoardAt(n0, g0, i), m, 3 - n0[i].data.ply.player)
  {
    var n1 := Grown(n0, i, NewChild(n0[i], m));
    var c := |n0|;
    GrownCounted(n0, i, NewChild(n0[i], m));
    ChildrenIn(n0, i);
    assert SnapshotFits(n0, g0, i);
    forall j | 0 <= j < c ensures BoardAt(n1, g0, j) == BoardAt(n0, g0, j) {
      PathBoardFrame(n0, n1, InfoPly, g0, j);
    }
    forall j | 0 <= j < |n1| ensures SnapshotFits(n1, g0, j) {
      if j < c {
        assert SnapshotFits(n0, g0, j);
      }
    }
    forall j | 0 < j < |n1| ensures PlyFits(n1, j) {
      if j < c {
        assert PlyFits(n0, j);
      }
    }
    forall j | 0 <= j < |n1| ensures Distinct(ChildMoves(n1, j)) {
      if j < c {
        ChildrenIn(n0, j);
        if j == i {
          assert ChildMoves(n1, j) == ChildMoves(n0, j) + [m];
        } else {
          assert ChildMoves(n1, j) == ChildMoves(n0, j);
        }
      }
    }
  }

  /** `isFullyExpanded`: as many children as snapshot moves. */
  predicate IsFullyExpanded(n: Node<Info>) {
    |n.children| == |n.data.legalMoves|
  }

  /** The children of a node carry distinct moves of its snapshot, so a node
      never has more children than snapshot moves. A snapshot taken from
      `legalMoves` lists each move once, and then the count decides
      coverage: a node is fully expanded exactly when every snapshot move
      has a child, and the expansion finds a move otherwise. */
  lemma FullyExpandedCovers(nodes: seq<Node<Info>>, g0: Grid, first: int, i: int)
    requires SearchTree(nodes, g0, first) && 0 <= i < |nodes|
    ensures |nodes[i].children| <= |nodes[i].data.legalMoves|
    ensures Distinct(nodes[i].data.legalMoves) ==>
              (IsFullyExpanded(nodes[i]) <==> forall m :: m in nodes[i].data.legalMoves ==> m in ChildMoves(nodes, i))
  {
    var cm := ChildMoves(nodes, i);
    var L := nodes[i].data.legalMoves;
    var A := set m | m in cm;
    var B := set m | m in L;
    ChildrenIn(nodes, i);
    forall m | m in A ensures m in B {
      var k :| 0 <= k < |cm| && cm[k] == m;
      assert PlyFits(nodes, nodes[i].children[k]);
    }
    assert Distinct(cm);
    DistinctCard(cm);
    CardAtMost(L);
    assert B == A + (B - A) && A * (B - A) == {};
    if Distinct(L) {
      DistinctCard(L);
      if IsFullyExpanded(nodes[i]) {
        assert B - A == {};
        forall m | m in L ensures m in cm {
          assert m in B;
        }
      }
      if forall m :: m in L ==> m in cm {
        assert B <= A;
      }
    }
  }

  /** A list without repetitions has as many elements as its set. */
  lemma {:induction false} DistinctCard(ms: seq<Point>)
    requires Distinct(ms)
    ensures |set m | m in ms| == |ms|
  {
    if ms != [] {
      var init := ms[..|ms| - 1];
      assert Distinct(init);
      DistinctCard(init);
      assert (set m | m in ms) == (set m | m in init) + {ms[|ms| - 1]};
    }
  }

  /** A list has at least as many elements as its set. */
  lemma {:induction false} CardAtMost(ms: seq<Point>)
    ensures |set m | m in ms| <= |ms|
  {
    if ms != [] {
      var init := ms[..|ms| - 1];
      CardAtMost(init);
      assert (set m | m in ms) == (set m | m in init) + {ms[|ms| - 1]};
    }
  }

  /** `selectChild`: starting from a best score of -1, keep each child whose
      score is strictly larger. The result is the first child of the largest
      score above -1, and nothing when no score exceeds -1; an unvisited
      child is chosen over every visited one, the first unvisited child if
      there is one. */
  method SelectChild(tree: Tree<Info>, i: int, ucb: (int, int, int) -> real) returns (r: Option<int>)
    requires tree.Valid() && 0 <= i < |tree.nodes|
    ensures var cs := tree.nodes[i].children;
            var keys := ChildKeys(tree.nodes, cs, UcbKey<Info>(ucb, tree.nodes[i].visits));
            && (r.None? <==> forall k :: 0 <= k < |cs| ==> !Above(keys[k], Finite(-1.0)))
            && (r.Some? ==> exists k :: FirstBest(keys, Finite(-1.0), k) && cs[k] == r.value)
    ensures var cs := tree.nodes[i].children;
            forall u :: 0 <= u < |cs| && VisitsOf(tree.nodes, cs[u]) == 0 ==>
              exists k :: && 0 <= k <= u && r == Some(cs[k]) && VisitsOf(tree.nodes, cs[k]) == 0
                          && forall j :: 0 <= j < k ==> VisitsOf(tree.nodes, cs[j]) != 0
  {
    var key := UcbKey<Info>(ucb, tree.nodes[i].visits);
    r := tree.BestBy(i, key, Finite(-1.0));
    var cs := tree.nodes[i].children;
    ghost var keys := ChildKeys(tree.nodes, cs, key);
    ChildrenIn(tree.nodes, i);
    forall u | 0 <= u < |cs| && VisitsOf(tree.nodes, cs[u]) == 0
      ensures exists k :: && 0 <= k <= u && r == Some(cs[k]) && VisitsOf(tree.nodes, cs[k]) == 0
                          && forall j :: 0 <= j < k ==> VisitsOf(tree.nodes, cs[j]) != 0
    {
      assert Above(keys[u], Finite(-1.0));
      ghost var k :| FirstBest(keys, Finite(-1.0), k) && cs[k] == r.value;
      InfiniteFirst(keys, Finite(-1.0), k, u);
    }
  }

  /** `selectChild`'s answer r at node i: nothing exactly when no child's
      key exceeds -1, and otherwise the first child of the largest key. */
  ghost predicate Selected(nodes: seq<Node<Info>>, i: int, ucb: (int, int, int) -> real, r: Option<int>)
    requires 0 <= i < |nodes|
  {
    var cs := nodes[i].children;
    var keys := ChildKeys(nodes, cs, UcbKey<Info>(ucb, nodes[i].visits));
    && (r.None? <==> forall k :: 0 <= k < |cs| ==> !Above(keys[k], Finite(-1.0)))
    && (r.Some? ==> exists k :: FirstBest(keys, Finite(-1.0), k) && cs[k] == r.value)
  }

  /** The inner search of the expansion: does a child of i carry move m? */
  method HasChildMove(tree: Tree<Info>, i: int, m: Point) returns (found: bool)
    requires tree.Valid() && 0 <= i < |tree.nodes|
    ensures found <==> m in ChildMoves(tree.nodes, i)
  {
    var cs := tree.nodes[i].children;
    ChildrenIn(tree.nodes, i);
    ghost var ms := ChildMoves(tree.nodes, i);
    found := false;
    for k := 0 to |cs|
      invariant !found && forall j :: 0 <= j < k ==> ms[j] != m
    {
      if tree.nodes[cs[k]].data.ply.move == m {
        found := true;
        break;
      }
    }
  }

  /** `if (node->legalMoves.empty()) node->legalMoves = legalMoves;`: the
      snapshot is taken once, from the legal moves of the node's board. */
  method FillSnapshot(tree: Tree<Info>, ghost g0: Grid, ghost first: int, i: int, legal: seq<Point>)
    requires SearchTree(tree.nodes, g0, first) && 0 <= i < |tree.nodes|
    requires forall m :: m in legal ==> Legal(BoardAt(tree.nodes, g0, i), m)
    modifies tree
    ensures SearchTree(tree.nodes, g0, first)
    ensures old(tree.nodes[i].data.legalMoves) == [] ==>
              tree.nodes == old(tree.nodes)[i := old(tree.nodes)[i].(data := old(tree.nodes)[i].data.(legalMoves := legal))]
    ensures old(tree.nodes[i].data.legalMoves) != [] ==> tree.nodes == old(tree.nodes)
    ensures BoardAt(tree.nodes, g0, i) == BoardAt(old(tree.nodes), g0, i)
    ensures DescentKept(old(tree.nodes), tree.nodes) && |tree.nodes| == |old(tree.nodes)|
    ensures Untouched(old(tree.nodes), tree.nodes, i)
  {
    if tree.nodes[i].data.legalMoves == [] {
      SnapshotKeepsSearchTree(tree.nodes, g0, first, i, legal);
      tree.SetData(i, tree.nodes[i].data.(legalMoves := legal));
    }
  }

  /** The expansion branch: shuffle node i's snapshot in place, then add a
      child for the first snapshot move no child of i carries yet, with mover
      `3 - node->player`, play it on the board and stand at the new child.
      When every snapshot move already has a child, nothing is added and the
      descent stays at i. */
  method Expand(tree: Tree<Info>, ghost g0: Grid, ghost first: int, i: int, b: Board) returns (child: int)
    requires SearchTree(tree.nodes, g0, first) && 0 <= i < |tree.nodes|
    requires b.Valid() && b.View() == BoardAt(tree.nodes, g0, i)
    modifies tree, b.cells
    ensures SearchTree(tree.nodes, g0, first) && b.Valid()
    ensures 0 <= child < |tree.nodes| && b.View() == BoardAt(tree.nodes, g0, child)
    ensures tree.nodes[0].visits == old(tree.nodes[0].visits) && tree.nodes[0].score == old(tree.nodes[0].score)
    ensures |tree.nodes| >= |old(tree.nodes)|
    ensures multiset(tree.nodes[i].data.legalMoves) == multiset(old(tree.nodes[i].data.legalMoves))
    ensures child == i ==> forall m :: m in old(tree.nodes[i].data.legalMoves) ==> m in old(ChildMoves(tree.nodes, i))
    ensures child != i ==>
              && child == |old(tree.nodes)| && tree.nodes[child].parent == i
              && tree.nodes[child].data == NewChild(old(tree.nodes[i]), tree.nodes[child].data.ply.move)
              && exists k :: FirstUnexpanded(tree.nodes[i].data.legalMoves, old(ChildMoves(tree.nodes, i)), k)
                             && tree.nodes[i].data.legalMoves[k] == tree.nodes[child].data.ply.move
    ensures var n1 := Reshuffled(old(tree.nodes), i, tree.nodes[i].data.legalMoves);
            && (child == i ==> tree.nodes == n1)
            && (child != i ==> tree.nodes == Grown(n1, i, NewChild(old(tree.nodes[i]), tree.nodes[child].data.ply.move)))
    ensures DescentKept(old(tree.nodes), tree.nodes) && (|tree.nodes| > |old(tree.nodes)| <==> child != i)
    ensures Untouched(old(tree.nodes), tree.nodes, i)
  {
    ghost var n0 := tree.nodes;
    ghost var view := b.View();
    ShuffleSnapshot(tree, g0, first, i);
    var shuffled := tree.nodes[i].data.legalMoves;
    ghost var n1 := tree.nodes;
    assert b.View() == view == BoardAt(n1, g0, i);
    assert ChildMoves(n1, i) == ChildMoves(n0, i);
    child := i;
    for k := 0 to |shuffled|
      invariant tree.nodes == n1 && b.View() == view
      invariant forall j :: 0 <= j < k ==> shuffled[j] in ChildMoves(n1, i)
    {
      var found := HasChildMove(tree, i, shuffled[k]);
      if !found {
        child := AddUnexpanded(tree, g0, first, i, b, shuffled[k]);
        assert FirstUnexpanded(shuffled, ChildMoves(n0, i), k);
        return;
      }
    }
  }

  /** The arena with node i's snapshot replaced by S. */
  function Reshuffled(nodes: seq<Node<Info>>, i: int, S: seq<Point>): seq<Node<Info>>
    requires 0 <= i < |nodes|
  {
    nodes[i := nodes[i].(data := nodes[i].data.(legalMoves := S))]
  }

  /** `shuffle(node->legalMoves...)`: the snapshot of node i is replaced by
      any permutation of itself. */
  method ShuffleSnapshot(tree: Tree<Info>, ghost g0: Grid, ghost first: int, i: int)
    requires SearchTree(tree.nodes, g0, first) && 0 <= i < |tree.nodes|
    modifies tree
    ensures SearchTree(tree.nodes, g0, first)
    ensures exists S :: && multiset(S) == multiset(old(tree.nodes[i].data.legalMoves))
                        && tree.nodes == old(tree.nodes)[i := old(tree.nodes)[i].(data := old(tree.nodes)[i].data.(legalMoves := S))]
    ensures forall m :: m in tree.nodes[i].data.legalMoves <==> m in old(tree.nodes[i].data.legalMoves)
    ensures BoardAt(tree.nodes, g0, i) == BoardAt(old(tree.nodes), g0, i)
  {
    var snapshot := tree.nodes[i].data.legalMoves;
    assert multiset(snapshot) == multiset(snapshot);
    var shuffled :| multiset(shuffled) == multiset(snapshot);
    forall m | m in shuffled ensures m in snapshot {
      assert m in multiset(shuffled);
    }
    forall m | m in snapshot ensures m in shuffled {
      assert m in multiset(snapshot);
    }
    assert SnapshotFits(tree.nodes, g0, i);
    SnapshotKeepsSearchTree(tree.nodes, g0, first, i, shuffled);
    tree.SetData(i, tree.nodes[i].data.(legalMoves := shuffled));
  }

  /** `addChild(move, 3 - node->player)` for a snapshot move no child
      carries, followed by the move on the descent's board. */
  method AddUnexpanded(tree: Tree<Info>, ghost g0: Grid, ghost first: int, i: int, b: Board, m: Point)
    returns (child: int)
    requires SearchTree(tree.nodes, g0, first) && 0 <= i < |tree.nodes|
    requires b.Valid() && b.View() == BoardAt(tree.nodes, g0, i)
    requires m in tree.nodes[i].data.legalMoves && m !in ChildMoves(tree.nodes, i)
    modifies tree, b.cells
    ensures SearchTree(tree.nodes, g0, first) && b.Valid()
    ensures child == |old(tree.nodes)| && tree.nodes == Grown(old(tree.nodes), i, NewChild(old(tree.nodes[i]), m))
    ensures b.View() == BoardAt(tree.nodes, g0, child)
  {
    assert SnapshotFits(tree.nodes, g0, i);
    GrowKeepsSearchTree(tree.nodes, g0, first, i, m);
    var mover := 3 - tree.nodes[i].data.ply.player;
    child := tree.AddChild(i, NewChild(tree.nodes[i], m));
    b.MakeMove(m, mover);
  }

  /** Position k of the snapshot holds the first move not in `done`. */
  predicate FirstUnexpanded(snapshot: seq<Point>, done: seq<Point>, k: int) {
    && 0 <= k < |snapshot| && snapshot[k] !in done
    && forall j :: 0 <= j < k ==> snapshot[j] in done
  }

  /** The selection branch of the descent: `node = node->selectChild()`
      followed by the child's move on the board; nothing when no child is
      selected. */
  method Follow(tree: Tree<Info>, ghost g0: Grid, ghost first: int, i: int, b: Board, ucb: (int, int, int) -> real)
    returns (next: Option<int>)
    requires SearchTree(tree.nodes, g0, first) && 0 <= i < |tree.nodes|
    requires b.Valid() && b.View() == BoardAt(tree.nodes, g0, i)
    modifies b.cells
    ensures b.Valid()
    ensures next.None? ==> b.View() == old(b.View())
    ensures next.Some? ==> && i < next.value < |tree.nodes| && tree.nodes[next.value].parent == i
                           && b.View() == BoardAt(tree.nodes, g0, next.value)
    ensures Selected(tree.nodes, i, ucb, next)
  {
    next := SelectChild(tree, i, ucb);
    if next.Some? {
      var c := next.value;
      ChildrenIn(tree.nodes, i);
      ChildMove(tree.nodes, g0, first, c);
      b.MakeMove(tree.nodes[c].data.ply.move, tree.nodes[c].data.ply.player);
    }
  }

  /** The descent of one `HexBot` iteration, from the root on a copy of the
      board: list the legal moves and stop when there are none; take the
      node's snapshot if it has none; when the node is fully expanded (or
      the board full) follow `selectChild`, and otherwise expand once and
      stop. A null `selectChild` would be dereferenced: `crashed`. On a
      full root board the descent stops at the root at once. */
  method Descend(tree: Tree<Info>, ghost g0: Grid, ghost first: int, board: Board, ucb: (int, int, int) -> real)
    returns (node: int, b: Board, crashed: bool, ghost path: seq<int>)
    requires SearchTree(tree.nodes, g0, first) && board.Valid() && board.View() == g0
    modifies tree
    ensures SearchTree(tree.nodes, g0, first) && fresh(b) && b.Valid()
    ensures 0 <= node < |tree.nodes| && b.View() == BoardAt(tree.nodes, g0, node)
    ensures tree.nodes[0].visits == old(tree.nodes[0].visits) && tree.nodes[0].score == old(tree.nodes[0].score)
    ensures Full(g0) ==> tree.nodes == old(tree.nodes) && node == 0 && !crashed
    ensures DescentKept(old(tree.nodes), tree.nodes)
    ensures |tree.nodes| > |old(tree.nodes)| ==> node == |old(tree.nodes)|
    ensures DescentBy(old(tree.nodes), tree.nodes, g0, ucb, path, node, crashed)
  {
    node := 0;
    b := new Board.Copy(board);
    crashed := false;
    path := [0];
    var stop := false;
    while !stop
      invariant SearchTree(tree.nodes, g0, first)
      invariant fresh(b) && fresh(b.cells) && b.Valid()
      invariant 0 <= node < |tree.nodes| && b.View() == BoardAt(tree.nodes, g0, node)
      invariant tree.nodes[0].visits == old(tree.nodes[0].visits) && tree.nodes[0].score == old(tree.nodes[0].score)
      invariant Full(g0) ==> tree.nodes == old(tree.nodes) && node == 0 && !crashed
      invariant DescentKept(old(tree.nodes), tree.nodes)
      invariant |tree.nodes| > |old(tree.nodes)| ==> stop && node == |old(tree.nodes)|
      invariant DescentBy(old(tree.nodes), tree.nodes, g0, ucb, path, node, crashed)
      invariant !stop ==> !crashed
      decreases if stop then 0 else 1, |tree.nodes| - node
    {
      ghost var n0 := tree.nodes;
      ghost var at := node;
      node, stop, crashed := DescendStep(tree, g0, first, node, b, ucb);
      path := StepKeepsDescent(old(tree.nodes), n0, tree.nodes, g0, first, ucb, path, at, node, stop, crashed);
    }
  }

  /** What a descent may change in the arena: at most one node is added,
      and every old node keeps its statistics, its parent, its move and
      mover, and its children, with at most one appended. Only snapshots
      are rewritten. */
  ghost predicate DescentKept(n0: seq<Node<Info>>, n1: seq<Node<Info>>) {
    && |n0| <= |n1| <= |n0| + 1
    && forall i :: 0 <= i < |n0| ==>
         && n1[i].visits == n0[i].visits && n1[i].score == n0[i].score
         && n1[i].parent == n0[i].parent && n1[i].data.ply == n0[i].data.ply
         && (n1[i].children == n0[i].children || (|n1| > |n0| && n1[i].children == n0[i].children + [|n0|]))
  }

  /** A descent step that adds no node followed by one that may. */
  lemma DescentKeptTrans(n0: seq<Node<Info>>, n1: seq<Node<Info>>, n2: seq<Node<Info>>)
    requires DescentKept(n0, n1) && |n1| == |n0| && DescentKept(n1, n2)
    ensures DescentKept(n0, n2)
  {
  }

  /** Every old node other than x is as it was. */
  ghost predicate Untouched(n0: seq<Node<Info>>, n1: seq<Node<Info>>, x: int) {
    && |n0| <= |n1|
    && forall j :: 0 <= j < |n0| && j != x ==> n1[j] == n0[j]
  }

  /** A descent leaves the boards of the old nodes as they were. */
  lemma KeptBoard(n0: seq<Node<Info>>, n1: seq<Node<Info>>, g0: Grid, i: int)
    requires Rooted(n0) && Rooted(n1) && IsBoard(g0) && DescentKept(n0, n1) && 0 <= i < |n0|
    ensures BoardAt(n1, g0, i) == BoardAt(n0, g0, i)
  {
    PathBoardFrame(n0, n1, InfoPly, g0, i);
  }

  /** The selection walk of a descent: it starts at the root, its nodes
      come in increasing order, and every step goes from a node that is
      fully expanded, or whose board is full, to `selectChild`'s pick
      there. */
  ghost predicate SelectionWalk(nodes: seq<Node<Info>>, g0: Grid, ucb: (int, int, int) -> real, path: seq<int>)
    requires Rooted(nodes) && IsBoard(g0)
  {
    && |path| > 0 && path[0] == 0
    && (forall k :: 0 <= k < |path| ==> 0 <= path[k] < |nodes|)
    && (forall a, b :: 0 <= a < b < |path| ==> path[a] < path[b])
    && forall k :: 0 <= k < |path| - 1 ==> SelectionStep(nodes, g0, ucb, path[k], path[k + 1])
  }

  /** A step of the walk from i to j: i is fully expanded or on a full
      board, and j is `selectChild`'s pick there. */
  ghost predicate SelectionStep(nodes: seq<Node<Info>>, g0: Grid, ucb: (int, int, int) -> real, i: int, j: int)
    requires Rooted(nodes) && IsBoard(g0) && 0 <= i < |nodes|
  {
    && (IsFullyExpanded(nodes[i]) || Full(BoardAt(nodes, g0, i)))
    && Selected(nodes, i, ucb, Some(j))
  }

  /** How a descent from n0 that left n1 ended, after the selection walk
      `path`: at the walk's last node, unless it added a node; an added node
      is a child of the walk's last node, whose board was not full and
      which had fewer children than snapshot moves; and a crash is a null
      selection at the walk's last node, which has children and is fully
      expanded or on a full board. */
  ghost predicate DescentBy(n0: seq<Node<Info>>, n1: seq<Node<Info>>, g0: Grid, ucb: (int, int, int) -> real,
                            path: seq<int>, node: int, crashed: bool)
    requires Rooted(n1) && IsBoard(g0)
  {
    && SelectionWalk(n1, g0, ucb, path)
    && var last := path[|path| - 1];
    && (|n1| == |n0| ==> node == last)
    && (|n1| > |n0| ==>
          && node == |n0| && node < |n1| && n1[node].parent == last && !crashed && last < |n0|
          && !Full(BoardAt(n1, g0, last)) && |n0[last].children| < |n1[last].data.legalMoves|)
    && (crashed ==>
          && (IsFullyExpanded(n1[last]) || Full(BoardAt(n1, g0, last)))
          && n1[last].children != [] && Selected(n1, last, ucb, None))
  }

  /** A descent step at the walk's last node x keeps the walk: the nodes
      before x are untouched, and the children they chose among keep their
      statistics. */
  lemma WalkKept(n0: seq<Node<Info>>, n1: seq<Node<Info>>, g0: Grid, first: int, ucb: (int, int, int) -> real, path: seq<int>)
    requires SearchTree(n0, g0, first) && Rooted(n1)
    requires SelectionWalk(n0, g0, ucb, path)
    requires DescentKept(n0, n1) && Untouched(n0, n1, path[|path| - 1])
    ensures SelectionWalk(n1, g0, ucb, path)
  {
    forall k | 0 <= k < |path| - 1 ensures SelectionStep(n1, g0, ucb, path[k], path[k + 1]) {
      var i := path[k];
      assert SelectionStep(n0, g0, ucb, i, path[k + 1]);
      assert i < path[|path| - 1];
      assert n1[i] == n0[i];
      KeptBoard(n0, n1, g0, i);
      var cs := n0[i].children;
      var key := UcbKey<Info>(ucb, n0[i].visits);
      ChildrenIn(n0, i);
      assert ChildKeys(n1, cs, key) == ChildKeys(n0, cs, key) by {
        forall c | 0 <= c < |cs| ensures ChildKeys(n1, cs, key)[c] == ChildKeys(n0, cs, key)[c] {
          assert key(n1[cs[c]]) == key(n0[cs[c]]);
        }
      }
    }
  }

  /** One pass of the descent loop from `node` in n0, leaving n1 and
      standing at `next`. Only node `node` changes among the old nodes. A
      pass that goes on follows `selectChild`'s pick, a child of the node,
      and happens only at a node that is fully expanded or on a full board.
      A crash is a null selection there, at a node with children. An added
      node is a child of the node, whose board was not full and which had
      fewer children than snapshot moves; it ends the descent. Any other
      stop stays at the node. */
  ghost predicate Stepped(n0: seq<Node<Info>>, n1: seq<Node<Info>>, g0: Grid, ucb: (int, int, int) -> real,
                          node: int, next: int, stop: bool, crashed: bool)
    requires Rooted(n1) && IsBoard(g0)
  {
    && DescentKept(n0, n1) && Untouched(n0, n1, node)
    && 0 <= node < |n0| && 0 <= next < |n1|
    && (!stop ==>
          && !crashed && |n1| == |n0| && node < next && n1[next].parent == node
          && (IsFullyExpanded(n1[node]) || Full(BoardAt(n1, g0, node)))
          && Selected(n1, node, ucb, Some(next)))
    && (stop && |n1| == |n0| ==> next == node)
    && (crashed ==>
          && stop && (IsFullyExpanded(n1[node]) || Full(BoardAt(n1, g0, node)))
          && n1[node].children != [] && Selected(n1, node, ucb, None))
    && (|n1| > |n0| ==>
          && stop && !crashed && next == |n0| && n1[next].parent == node
          && !Full(BoardAt(n1, g0, node)) && |n0[node].children| < |n1[node].data.legalMoves|)
  }

  /** A pass of the descent loop carries the descent's account on: the walk
      is kept, and grows by the pass's pick when the descent goes on. */
  lemma StepKeepsDescent(n00: seq<Node<Info>>, n0: seq<Node<Info>>, n1: seq<Node<Info>>, g0: Grid, first: int,
                         ucb: (int, int, int) -> real, path: seq<int>, node: int, next: int, stop: bool, crashed: bool)
    returns (path': seq<int>)
    requires SearchTree(n0, g0, first) && SearchTree(n1, g0, first)
    requires DescentBy(n00, n0, g0, ucb, path, node, false) && |n0| == |n00| && DescentKept(n00, n0)
    requires Stepped(n0, n1, g0, ucb, node, next, stop, crashed)
    ensures DescentBy(n00, n1, g0, ucb, path', next, crashed)
    ensures path' == if stop then path else path + [next]
  {
    WalkKept(n0, n1, g0, first, ucb, path);
    if stop {
      path' := path;
    } else {
      assert SelectionStep(n1, g0, ucb, node, next);
      WalkExtend(n1, g0, ucb, path, next);
      path' := path + [next];
    }
  }

  /** A selection step from the walk's last node extends the walk. */
  lemma WalkExtend(nodes: seq<Node<Info>>, g0: Grid, ucb: (int, int, int) -> real, path: seq<int>, next: int)
    requires Rooted(nodes) && IsBoard(g0) && SelectionWalk(nodes, g0, ucb, path)
    requires path[|path| - 1] < next < |nodes|
    requires SelectionStep(nodes, g0, ucb, path[|path| - 1], next)
    ensures SelectionWalk(nodes, g0, ucb, path + [next])
  {
    var p := path + [next];
    forall k | 0 <= k < |p| - 1 ensures SelectionStep(nodes, g0, ucb, p[k], p[k + 1]) {
      if k < |path| - 1 {
        assert p[k] == path[k] && p[k + 1] == path[k + 1];
      }
    }
    forall a, b | 0 <= a < b < |p| ensures p[a] < p[b] {
      if b < |path| {
        assert p[a] == path[a] && p[b] == path[b];
      } else {
        assert path[a] <= path[|path| - 1];
      }
    }
  }

  /** One pass of the descent loop from `node`; `stop` for its `break`s and
      for the dereference of a null selection. */
  method DescendStep(tree: Tree<Info>, ghost g0: Grid, ghost first: int, node: int, b: Board, ucb: (int, int, int) -> real)
    returns (next: int, stop: bool, crashed: bool)
    requires SearchTree(tree.nodes, g0, first) && 0 <= node < |tree.nodes|
    requires b.Valid() && b.View() == BoardAt(tree.nodes, g0, node)
    modifies tree, b.cells
    ensures SearchTree(tree.nodes, g0, first) && b.Valid()
    ensures 0 <= next < |tree.nodes| && b.View() == BoardAt(tree.nodes, g0, next)
    ensures tree.nodes[0].visits == old(tree.nodes[0].visits) && tree.nodes[0].score == old(tree.nodes[0].score)
    ensures Full(g0) && node == 0 ==> stop && !crashed && next == 0 && tree.nodes == old(tree.nodes)
    ensures Stepped(old(tree.nodes), tree.nodes, g0, ucb, node, next, stop, crashed)
  {
    next, stop, crashed := node, true, false;
    var legal := LegalMoves(b);
    if legal == [] {
      return;
    }
    assert legal[0] in legal;
    ghost var n0 := tree.nodes;
    FillSnapshot(tree, g0, first, node, legal);
    var full := b.IsFull();
    if IsFullyExpanded(tree.nodes[node]) || full {
      next, stop, crashed := FollowPass(tree, g0, first, node, b, ucb);
    } else {
      next := ExpandPass(tree, g0, first, node, b, n0, ucb);
    }
  }

  /** The selection branch of a pass, at a fully expanded node or on a full
      board: stop at a childless node, crash on a null selection, and
      otherwise go on to the pick. */
  method FollowPass(tree: Tree<Info>, ghost g0: Grid, ghost first: int, node: int, b: Board, ucb: (int, int, int) -> real)
    returns (next: int, stop: bool, crashed: bool)
    requires SearchTree(tree.nodes, g0, first) && 0 <= node < |tree.nodes|
    requires b.Valid() && b.View() == BoardAt(tree.nodes, g0, node)
    requires IsFullyExpanded(tree.nodes[node]) || Full(b.View())
    modifies b.cells
    ensures b.Valid() && 0 <= next < |tree.nodes| && b.View() == BoardAt(tree.nodes, g0, next)
    ensures Stepped(tree.nodes, tree.nodes, g0, ucb, node, next, stop, crashed)
  {
    next, stop, crashed := node, true, false;
    if tree.nodes[node].children == [] {
      return;
    }
    var sel := Follow(tree, g0, first, node, b, ucb);
    if sel.None? {
      crashed := true;
      return;
    }
    next, stop := sel.value, false;
  }

  /** The expansion branch of a pass, at a node that is not fully expanded
      on a board that is not full; n0 is the arena before the snapshot was
      taken. */
  method ExpandPass(tree: Tree<Info>, ghost g0: Grid, ghost first: int, node: int, b: Board,
                    ghost n0: seq<Node<Info>>, ghost ucb: (int, int, int) -> real)
    returns (next: int)
    requires SearchTree(tree.nodes, g0, first) && 0 <= node < |tree.nodes|
    requires b.Valid() && b.View() == BoardAt(tree.nodes, g0, node)
    requires !IsFullyExpanded(tree.nodes[node]) && !Full(b.View())
    requires DescentKept(n0, tree.nodes) && Untouched(n0, tree.nodes, node) && |tree.nodes| == |n0|
    modifies tree, b.cells
    ensures SearchTree(tree.nodes, g0, first) && b.Valid()
    ensures 0 <= next < |tree.nodes| && b.View() == BoardAt(tree.nodes, g0, next)
    ensures tree.nodes[0].visits == old(tree.nodes[0].visits) && tree.nodes[0].score == old(tree.nodes[0].score)
    ensures Stepped(n0, tree.nodes, g0, ucb, node, next, true, false)
  {
    ghost var n1 := tree.nodes;
    FullyExpandedCovers(n1, g0, first, node);
    next := Expand(tree, g0, first, node, b);
    DescentKeptTrans(n0, n1, tree.nodes);
    KeptBoard(n1, tree.nodes, g0, node);
    assert |tree.nodes[node].data.legalMoves| == |multiset(n1[node].data.legalMoves)|;
  }

  /** The result a winner contributes: +1 for player 1, -1 for player 2. */
  function ResultOf(winner: int): (r: int)
    ensures r in {-1, 0, 1}
    ensures (r == 1 <==> winner == 1) && (r == -1 <==> winner == 2)
  {
    if winner == 1 then 1 else if winner == 2 then -1 else 0
  }

  /** Every mover in the tree is 1 or 2. */
  lemma {:induction false} MoverInRange(nodes: seq<Node<Info>>, g0: Grid, first: int, i: int)
    requires SearchTree(nodes, g0, first) && first in {1, 2} && 0 <= i < |nodes|
    ensures nodes[i].data.ply.player in {1, 2}
    decreases i
  {
    if i > 0 {
      assert PlyFits(nodes, i);
      MoverInRange(nodes, g0, first, nodes[i].parent);
    }
  }

  /** One iteration of `HexBot`'s loop: descend, play out from the reached
      board with the node's opponent to move, and add the winner's result
      and a visit to every node from the reached one up to the root. Beside
      `crashed` it returns the node the descent reached, and as ghost
      results the winner, the arena the descent left and the moves of the
      playout. */
  method Iterate(tree: Tree<Info>, ghost g0: Grid, ghost first: int, board: Board, ucb: (int, int, int) -> real)
    returns (crashed: bool, node: int, ghost winner: int, ghost n1: seq<Node<Info>>, ghost moves: seq<Point>,
             ghost path: seq<int>)
    requires SearchTree(tree.nodes, g0, first) && first in {1, 2} && board.Valid() && board.View() == g0
    modifies tree
    ensures SearchTree(tree.nodes, g0, first)
    ensures SearchTree(n1, g0, first) && DescentKept(old(tree.nodes), n1) && 0 <= node < |n1|
    ensures |n1| > |old(tree.nodes)| ==> node == |old(tree.nodes)|
    ensures DescentBy(old(tree.nodes), n1, g0, ucb, path, node, crashed)
    ensures crashed ==> tree.nodes == n1
    ensures !crashed ==> PlayedOut(n1, tree.nodes, g0, first, node, moves, winner)
    ensures !crashed ==> && tree.nodes[0].visits == old(tree.nodes[0].visits) + 1
                         && tree.nodes[0].score == old(tree.nodes[0].score) + ResultOf(winner)
    ensures Full(g0) ==> !crashed && tree.nodes[0].children == old(tree.nodes[0].children)
  {
    var b;
    node, b, crashed, path := Descend(tree, g0, first, board, ucb);
    n1 := tree.nodes;
    winner, moves := 0, [];
    if crashed {
      return;
    }
    winner, moves := PlayAndUpdate(tree, g0, first, node, b, n1);
  }

  /** What an iteration that does not crash does after the descent reached
      `node` in n1: `simulate` finished the playout `moves` from the node's
      board with the node's opponent to move and result `winner`, and n2 is
      n1 with a visit and that winner's result added to exactly the nodes
      from `node` up to the root. */
  ghost predicate PlayedOut(n1: seq<Node<Info>>, n2: seq<Node<Info>>, g0: Grid, first: int, node: int,
                            moves: seq<Point>, winner: int) {
    && SearchTree(n1, g0, first) && 0 <= node < |n1| && winner in {0, 1, 2}
    && Finished(BoardAt(n1, g0, node), moves, 3 - n1[node].data.ply.player, winner)
    && |n2| == |n1|
    && forall i :: 0 <= i < |n1| ==>
         n2[i] == if i in Ancestors(n1, node) then Bump(n1[i], ResultOf(winner)) else n1[i]
  }

  /** The second half of an iteration, from the node the descent reached:
      `simulate` from its board with its opponent to move, then the
      winner's result and a visit for every node from it up to the root. */
  method PlayAndUpdate(tree: Tree<Info>, ghost g0: Grid, ghost first: int, node: int, b: Board, ghost n1: seq<Node<Info>>)
    returns (winner: int, ghost moves: seq<Point>)
    requires SearchTree(tree.nodes, g0, first) && first in {1, 2} && 0 <= node < |tree.nodes|
    requires b.Valid() && b.View() == BoardAt(tree.nodes, g0, node) && n1 == tree.nodes
    modifies tree
    ensures SearchTree(tree.nodes, g0, first)
    ensures PlayedOut(n1, tree.nodes, g0, first, node, moves, winner)
    ensures tree.nodes[0] == Bump(n1[0], ResultOf(winner))
  {
    RootIsAncestor(n1, node);
    MoverInRange(n1, g0, first, node);
    var mover := 3 - tree.nodes[node].data.ply.player;
    winner, moves := Simulate(b, mover);
    ghost var g := BoardAt(n1, g0, node);
    assert Finished(g, moves, 3 - n1[node].data.ply.player, winner);
    tree.Backpropagate(node, ResultOf(winner));
    BumpKeepsSearchTree(n1, tree.nodes, g0, first, node, ResultOf(winner));
  }

  /** Bumping the statistics of the nodes from x up to the root keeps the
      search-tree invariant. */
  lemma BumpKeepsSearchTree(n1: seq<Node<Info>>, n2: seq<Node<Info>>, g0: Grid, first: int, x: int, r: int)
    requires SearchTree(n1, g0, first) && Counted(n2) && 0 <= x < |n1| && |n2| == |n1|
    requires forall i :: 0 <= i < |n1| ==> n2[i] == if i in Ancestors(n1, x) then Bump(n1[i], r) else n1[i]
    ensures SearchTree(n2, g0, first)
  {
    assert SameLinks(n1, n2);
    StatisticsKeepSearchTree(n1, n2, g0, first);
  }

  /** What `HexBot` returns: the chosen move, or the null `bestChild` or
      `selectChild` result that the code dereferences. */
  datatype Outcome = Move(p: Point) | NullDereference

  /** `HexBot(board, player)` with `iterations` passes in place of the
      time budget. A returned move is legal on the board, and it is the move
      of the root's first most visited child after `iterations` visits of
      the root. No iteration, or a full board, leaves the root childless and
      `bestChild` null. */
  method HexBot(board: Board, player: int, iterations: nat, ucb: (int, int, int) -> real)
    returns (r: Outcome, ghost tree: Tree<Info>)
    requires board.Valid() && player in {1, 2}
    ensures r.Move? ==> Legal(board.View(), r.p)
    ensures iterations == 0 || Full(board.View()) ==> r == NullDereference
    ensures r.Move? ==> && SearchTree(tree.nodes, board.View(), player) && tree.nodes[0].visits == iterations
                        && exists k :: FirstMostVisited(tree.nodes, 0, k) && MoveOf(tree.nodes, tree.nodes[0].children[k]) == r.p
  {
    ghost var g0 := board.View();
    var t := new Tree(Info(Ply(Point(-1, -1), player), []));
    tree := t;
    var it := 0;
    while it < iterations
      invariant fresh(t) && tree == t && SearchTree(t.nodes, g0, player)
      invariant 0 <= it <= iterations && t.nodes[0].visits == it
      invariant it == 0 || Full(g0) ==> t.nodes[0].children == []
    {
      var crashed;
      var reached;
      ghost var w, descended, played, walk;
      crashed, reached, w, descended, played, walk := Iterate(t, g0, player, board, ucb);
      if crashed {
        return NullDereference, t;
      }
      it := it + 1;
    }
    var best := BestChild(t, 0);
    if best.None? {
      return NullDereference, t;
    }
    ChildrenIn(t.nodes, 0);
    ChildMove(t.nodes, g0, player, best.value);
    r := Move(t.nodes[best.value].data.ply.move);
  }
}
