/** The Monte Carlo tree search of the Python prototype `MOCTS.py`: a tree
    of game states grown by `select`, `expand`, `simulate` and
    `backpropagate`, and `mcts_decision`, which answers the move of the
    root's most visited child. The random choices are left open (any
    choice the `random` module could make is allowed) and the UCT value of
    a visited child is a parameter. */
module Mocts {
  import opened Wrappers
  import opened HexGeometry
  import opened SearchTrees
  import opened PlayHexState

  /** What an `MCTSNode` holds beside its statistics: its game state and
      the move that led to it (`None` at the root). */
  datatype PyInfo = PyInfo(state: PlayHex, move: Option<Point>)

  /** One of the two players is to move. */
  predicate Turn(s: PlayHex) {
    s.current == 1 || s.current == -1
  }

  /** Non-root node i holds its parent's state after its own move, a move
      that was available in the parent's state. */
  ghost predicate MoveFits(nodes: seq<Node<PyInfo>>, i: int)
    requires Rooted(nodes) && 0 < i < |nodes|
  {
    var s := nodes[nodes[i].parent].data.state;
    && WellFormed(s)
    && nodes[i].data.move.Some?
    && Free(s, nodes[i].data.move.value)
    && nodes[i].data.state == PerformMove(s, nodes[i].data.move.value)
  }

  /** The invariant of the Python tree: the visit counts add up, every node
      holds a proper state with a player to move, the root has no move,
      every other node is its parent's state after an available move, and
      every `win_count` lies between 0 and the node's visits (each
      backpropagation adds 0 or 1). */
  ghost predicate PyTree(nodes: seq<Node<PyInfo>>) {
    && Counted(nodes)
    && nodes[0].data.move == None
    && (forall i :: 0 <= i < |nodes| ==> WellFormed(nodes[i].data.state) && Turn(nodes[i].data.state))
    && (forall i :: 0 <= i < |nodes| ==> 0 <= nodes[i].score <= nodes[i].visits)
    && (forall i :: 0 < i < |nodes| ==> MoveFits(nodes, i))
  }

  /** Adding the child for an available move keeps the invariant. */
  lemma PyGrow(n0: seq<Node<PyInfo>>, i: int, m: Point)
    requires PyTree(n0) && 0 <= i < |n0| && Free(n0[i].data.state, m)
    ensures PyTree(Grown(n0, i, PyInfo(PerformMove(n0[i].data.state, m), Some(m))))
  {
    var d := PyInfo(PerformMove(n0[i].data.state, m), Some(m));
    GrownCounted(n0, i, d);
    var n1 := Grown(n0, i, d);
    forall j | 0 < j < |n1| ensures MoveFits(n1, j) {
      if j < |n0| {
        assert MoveFits(n0, j);
      }
    }
  }

  /** Changing only statistics keeps the invariant, when the visit counts
      still add up and the scores stay between 0 and the visits. */
  lemma PyTreeStatistics(n0: seq<Node<PyInfo>>, n1: seq<Node<PyInfo>>)
    requires PyTree(n0) && Counted(n1) && |n1| == |n0|
    requires forall i :: 0 <= i < |n0| ==> n1[i].data == n0[i].data && n1[i].parent == n0[i].parent
    requires forall i :: 0 <= i < |n1| ==> 0 <= n1[i].score <= n1[i].visits
    ensures PyTree(n1)
  {
    forall j | 0 < j < |n1| ensures MoveFits(n1, j) {
      assert MoveFits(n0, j);
    }
  }

  /** n1 is n0 after the first k children for the available moves of node
      i's state were added, in the order of `get_available_moves`. */
  ghost predicate Expansion(n0: seq<Node<PyInfo>>, n1: seq<Node<PyInfo>>, i: int, k: int) {
    && 0 <= i < |n0|
    && WellFormed(n0[i].data.state)
    && 0 <= k <= |AvailableMoves(n0[i].data.state)|
    && var s := n0[i].data.state;
       var moves := AvailableMoves(s);
       var c := |n0|;
       && |n1| == c + k
       && n1[i] == n0[i].(children := n0[i].children + seq(k, j => c + j))
       && (forall j :: 0 <= j < c && j != i ==> n1[j] == n0[j])
       && (forall j :: 0 <= j < k ==> n1[c + j] == Node(PyInfo(PerformMove(s, moves[j]), Some(moves[j])), 0, 0, i, []))
  }

  /** `expand(node)`: one new unvisited child for every available move of
      node i's state, in the order the moves are listed, each holding the
      state after its move; nothing else changes. */
  method Expand(tree: Tree<PyInfo>, i: int)
    requires PyTree(tree.nodes) && 0 <= i < |tree.nodes|
    modifies tree
    ensures PyTree(tree.nodes)
    ensures Expansion(old(tree.nodes), tree.nodes, i, |AvailableMoves(old(tree.nodes[i].data.state))|)
  {
    ghost var n0 := tree.nodes;
    var s := tree.nodes[i].data.state;
    var moves := AvailableMoves(s);
    for k := 0 to |moves|
      invariant PyTree(tree.nodes) && Expansion(n0, tree.nodes, i, k)
    {
      var m := moves[k];
      PyGrow(tree.nodes, i, m);
      var c := tree.AddChild(i, PyInfo(PerformMove(s, m), Some(m)));
      assert seq(k + 1, j => |n0| + j) == seq(k, j => |n0| + j) + [c];
    }
  }

  /** `best_uct`: starting from a best score of -infinity, keep each child
      whose score is strictly larger, an unvisited child scoring
      +infinity. Every score beats -infinity, so a node with children always
      gets one: the first child of the largest score, which is the first
      unvisited child when there is one. */
  method BestUct(tree: Tree<PyInfo>, i: int, uct: (int, int, int) -> real) returns (r: Option<int>)
    requires tree.Valid() && 0 <= i < |tree.nodes|
    ensures r.None? <==> tree.nodes[i].children == []
    ensures var cs := tree.nodes[i].children;
            r.Some? ==> exists k :: FirstBest(ChildKeys(tree.nodes, cs, UcbKey<PyInfo>(uct, tree.nodes[i].visits)), NegInf, k)
                                    && cs[k] == r.value
    ensures var cs := tree.nodes[i].children;
            forall u :: 0 <= u < |cs| && VisitsOf(tree.nodes, cs[u]) == 0 ==>
              exists k :: && 0 <= k <= u && r == Some(cs[k]) && VisitsOf(tree.nodes, cs[k]) == 0
                          && forall j :: 0 <= j < k ==> VisitsOf(tree.nodes, cs[j]) != 0
  {
    var key := UcbKey<PyInfo>(uct, tree.nodes[i].visits);
    r := tree.BestBy(i, key, NegInf);
    var cs := tree.nodes[i].children;
    ghost var keys := ChildKeys(tree.nodes, cs, key);
    ChildrenIn(tree.nodes, i);
    if cs != [] {
      assert Above(keys[0], NegInf);
    }
    forall u | 0 <= u < |cs| && VisitsOf(tree.nodes, cs[u]) == 0
      ensures exists k :: && 0 <= k <= u && r == Some(cs[k]) && VisitsOf(tree.nodes, cs[k]) == 0
                          && forall j :: 0 <= j < k ==> VisitsOf(tree.nodes, cs[j]) != 0
    {
      ghost var k :| FirstBest(keys, NegInf, k) && cs[k] == r.value;
      InfiniteFirst(keys, NegInf, k, u);
    }
  }

  /** c is the child `best_uct` picks at node i. */
  ghost predicate UctStep(nodes: seq<Node<PyInfo>>, uct: (int, int, int) -> real, i: int, c: int)
    requires 0 <= i < |nodes|
  {
    var cs := nodes[i].children;
    exists k :: FirstBest(ChildKeys(nodes, cs, UcbKey<PyInfo>(uct, nodes[i].visits)), NegInf, k) && cs[k] == c
  }

  /** A walk from the root in which every step is `best_uct`'s pick. */
  ghost predicate UctPath(nodes: seq<Node<PyInfo>>, uct: (int, int, int) -> real, path: seq<int>) {
    && |path| > 0 && path[0] == 0
    && (forall k :: 0 <= k < |path| ==> 0 <= path[k] < |nodes|)
    && (forall k :: 0 <= k < |path| - 1 ==> UctStep(nodes, uct, path[k], path[k + 1]))
  }

  /** `select(root)`: follow `best_uct` down from the root while the node
      has children. It ends at a node without children, reached by
      `best_uct`'s picks. */
  method Select(tree: Tree<PyInfo>, uct: (int, int, int) -> real) returns (leaf: int, ghost path: seq<int>)
    requires tree.Valid()
    ensures 0 <= leaf < |tree.nodes| && tree.nodes[leaf].children == []
    ensures UctPath(tree.nodes, uct, path) && path[|path| - 1] == leaf
    ensures tree.nodes[0].children == [] ==> leaf == 0
  {
    leaf := 0;
    path := [0];
    while tree.nodes[leaf].children != []
      invariant 0 <= leaf < |tree.nodes|
      invariant UctPath(tree.nodes, uct, path) && path[|path| - 1] == leaf
      invariant tree.nodes[0].children == [] ==> leaf == 0
      decreases |tree.nodes| - leaf
    {
      var next := BestUct(tree, leaf, uct);
      ChildrenIn(tree.nodes, leaf);
      assert tree.nodes[next.value].parent == leaf;
      path := path + [next.value];
      leaf := next.value;
    }
  }

  /** A game continued from trail[0]: state k+1 is state k after move k,
      which was available in state k. */
  ghost predicate Trail(trail: seq<PlayHex>, moves: seq<Point>) {
    && |trail| == |moves| + 1
    && (forall k :: 0 <= k < |trail| ==> WellFormed(trail[k]) && Turn(trail[k]))
    && (forall k :: 0 <= k < |moves| ==> Free(trail[k], moves[k]) && trail[k + 1] == PerformMove(trail[k], moves[k]))
  }

  /** No state of the trail before the last one is over. */
  ghost predicate Undecided(trail: seq<PlayHex>) {
    forall k :: 0 <= k < |trail| - 1 ==> !Terminal(trail[k])
  }

  /** A state that is not over and offers no move. By the Hex theorem no
      full board is undecided, but `is_win` is all the prototype relies on. */
  ghost predicate Stalemate(s: PlayHex) {
    WellFormed(s) && !Terminal(s) && AvailableMoves(s) == []
  }

  /** The loop of `simulate`: while the state is not over, play any of
      its available moves. `random.choice` of no moves raises, which is
      `None`, at a stalemate. */
  method RandomPlayout(s: PlayHex) returns (r: Option<PlayHex>, ghost trail: seq<PlayHex>, ghost moves: seq<Point>)
    requires WellFormed(s) && Turn(s)
    ensures Trail(trail, moves) && trail[0] == s && Undecided(trail)
    ensures r.Some? ==> r.value == trail[|trail| - 1] && Terminal(r.value)
    ensures r.None? ==> Stalemate(trail[|trail| - 1])
    ensures Stalemate(s) ==> r.None?
    ensures Terminal(s) ==> r.Some?
  {
    var cur := s;
    trail, moves := [s], [];
    var over := IsTerminal(cur);
    while !over
      invariant WellFormed(cur) && Turn(cur) && (over <==> Terminal(cur))
      invariant Trail(trail, moves) && trail[0] == s && trail[|trail| - 1] == cur && Undecided(trail)
      invariant |trail| > 1 ==> !Stalemate(s)
      decreases |Empties(cur)|
    {
      var avail := AvailableMoves(cur);
      if avail == [] {
        return None, trail, moves;
      }
      assert avail[0] in avail;
      var m :| m in avail;
      AvailableAfterMove(cur, m);
      TrailExtend(trail, moves, m);
      cur := PerformMove(cur, m);
      trail, moves := trail + [cur], moves + [m];
      over := IsTerminal(cur);
    }
    r := Some(cur);
  }

  /** An available move of the last state, from a state that is not over,
      continues the trail. */
  lemma TrailExtend(trail: seq<PlayHex>, moves: seq<Point>, m: Point)
    requires Trail(trail, moves) && Undecided(trail) && !Terminal(trail[|trail| - 1])
    requires Free(trail[|trail| - 1], m)
    ensures var t := trail + [PerformMove(trail[|trail| - 1], m)];
            Trail(t, moves + [m]) && Undecided(t) && t[0] == trail[0]
  {
  }

  /** A playout that made at least one move ended with the last mover's
      win: the player to move in the final state, `current_player`, has
      not won, and the other player has. */
  lemma LastMoverWon(trail: seq<PlayHex>, moves: seq<Point>)
    requires Trail(trail, moves) && Undecided(trail) && |moves| > 0 && Terminal(trail[|trail| - 1])
    ensures var t := trail[|trail| - 1]; !Wins(t, t.current) && Wins(t, -t.current)
  {
    var k := |moves| - 1;
    var t := trail[k + 1];
    MoveKeepsOtherWins(trail[k], moves[k], t.current);
  }

  /** `simulate` as written: after the playout it asks whether
      `current_player` has won, which is the player who did NOT make the
      last move. From a state that is not over every playout therefore
      scores 0; only a state that is already over when the simulation
      starts can score 1. */
  method SimulateAsWritten(s: PlayHex) returns (r: Option<int>, ghost trail: seq<PlayHex>, ghost moves: seq<Point>)
    requires WellFormed(s) && Turn(s)
    ensures Trail(trail, moves) && trail[0] == s && Undecided(trail)
    ensures r.None? <==> Stalemate(trail[|trail| - 1])
    ensures r.Some? ==> Terminal(trail[|trail| - 1])
    ensures r.Some? && !Terminal(s) ==> r == Some(0)
    ensures r.Some? && Terminal(s) ==> (r == Some(1) <==> s.current == -1 && Wins(s, -1))
  {
    var end;
    end, trail, moves := RandomPlayout(s);
    if end.None? {
      return None, trail, moves;
    }
    var t := end.value;
    if !Terminal(s) {
      LastMoverWon(trail, moves);
    }
    var won, visited, enqueued := IsWin(t, t.current);
    if won {
      r := Some(if t.current == -1 then 1 else 0);
    } else {
      r := Some(0);
    }
  }

  /** `simulate` as its comment says it should be (the win belongs to the
      previous player): after the playout it asks whether the last mover,
      `-current_player`, has won, and scores 1 when that is player 1. From
      a state that is not over the result is 1 exactly when player 1 won
      the playout and 0 exactly when player -1 did; from a state already
      over it is 1 exactly when player 1 has won with player -1 to move. */
  method Simulate(s: PlayHex) returns (r: Option<int>, ghost trail: seq<PlayHex>, ghost moves: seq<Point>)
    requires WellFormed(s) && Turn(s)
    ensures Trail(trail, moves) && trail[0] == s && Undecided(trail)
    ensures r.None? <==> Stalemate(trail[|trail| - 1])
    ensures r.Some? ==> Terminal(trail[|trail| - 1]) && (r == Some(0) || r == Some(1))
    ensures Terminal(s) ==> r.Some?
    ensures r.Some? && Terminal(s) ==> (r == Some(1) <==> s.current == -1 && Wins(s, 1))
    ensures r.Some? && !Terminal(s) ==>
              (r == Some(1) <==> Wins(trail[|trail| - 1], 1)) && (r == Some(0) <==> Wins(trail[|trail| - 1], -1))
  {
    var end;
    end, trail, moves := RandomPlayout(s);
    if end.None? {
      return None, trail, moves;
    }
    var t := end.value;
    if !Terminal(s) {
      LastMoverWon(trail, moves);
    }
    var won, visited, enqueued := IsWin(t, -t.current);
    if won {
      r := Some(if t.current == -1 then 1 else 0);
    } else {
      r := Some(0);
    }
  }

  /** Nobody has won on a board without stones. */
  lemma NoStoneNoWin(s: PlayHex, v: int)
    requires WellFormed(s) && v != 0
    requires forall p :: InRange(s.size, p) ==> Free(s, p)
    ensures !Wins(s, v)
  {
    forall path | |path| > 0 ensures !Crossing(s.board, s.size, v, AxisOf(v), path) {
      if InRange(s.size, path[0]) {
        assert Free(s, path[0]);
      }
    }
  }

  /** The input that shows the difference: on a board of one cell with
      player 1 to move nothing is over yet, the only move is (0, 0), and it
      wins for player 1. `SimulateAsWritten` scores that playout 0 by its
      contract, `Simulate` scores it 1. */
  lemma OneCellPlayout()
    ensures WellFormed(Initial(1, 1)) && Turn(Initial(1, 1))
    ensures !Terminal(Initial(1, 1))
    ensures AvailableMoves(Initial(1, 1)) == [Point(0, 0)]
    ensures Wins(PerformMove(Initial(1, 1), Point(0, 0)), 1)
  {
    var s := Initial(1, 1);
    NoStoneNoWin(s, 1);
    NoStoneNoWin(s, -1);
    var ms := AvailableMoves(s);
    assert Point(0, 0) in ms;
    assert |ms| == 1 by {
      forall k | 0 <= k < |ms| ensures ms[k] == Point(0, 0) {
        assert Free(s, ms[k]);
      }
      if |ms| > 1 {
        assert false;
      }
    }
    var t := PerformMove(s, Point(0, 0));
    assert Crossing(t.board, t.size, 1, AxisOf(1), [Point(0, 0)]);
  }

  /** The corrected `simulate` scored the playout `trail` (moves `moves`)
      from s with r: the playout ends in a state that is over, r is 0 or 1;
      from a state that was not over r is 1 exactly when player 1 won the
      playout and 0 exactly when player -1 did, and from a state already
      over r is 1 exactly when player 1 has won with player -1 to move. */
  ghost predicate Scored(s: PlayHex, trail: seq<PlayHex>, moves: seq<Point>, r: int) {
    && Trail(trail, moves) && trail[0] == s && Undecided(trail)
    && Terminal(trail[|trail| - 1]) && (r == 0 || r == 1)
    && (Terminal(s) ==> (r == 1 <==> s.current == -1 && Wins(s, 1)))
    && (!Terminal(s) ==> (r == 1 <==> Wins(trail[|trail| - 1], 1)) && (r == 0 <==> Wins(trail[|trail| - 1], -1)))
  }

  /** One round of `mcts_decision`: grow the tree, play out from the node
      it answers with the corrected `simulate`, and backpropagate the
      result. `false` when the playout met a state with no moves, where
      `random.choice` raises. Beside it come the node played out from and
      its score, and as ghost results the selection walk `path`, the `leaf`
      it reached, the arena `grown` after the expansion and the playout. In a completed
      round every node from `node` up to the root gains a visit and the
      playout's score, alternated with the distance from `node`. */
  method Iterate(tree: Tree<PyInfo>, uct: (int, int, int) -> real)
    returns (ok: bool, node: int, result: int, ghost path: seq<int>, ghost stuck: PlayHex, ghost leaf: int,
             ghost grown: seq<Node<PyInfo>>, ghost trail: seq<PlayHex>, ghost moves: seq<Point>)
    requires PyTree(tree.nodes)
    modifies tree
    ensures PyTree(tree.nodes) && |tree.nodes| >= |old(tree.nodes)|
    ensures UctPath(old(tree.nodes), uct, path) && path[|path| - 1] == leaf
    ensures PyTree(grown) && Grew(old(tree.nodes), grown, leaf, node)
    ensures !ok ==> tree.nodes == grown && Stalemate(stuck)
    ensures ok ==> Scored(grown[node].data.state, trail, moves, result) && AlternatedFrom(grown, tree.nodes, node, result)
    ensures tree.nodes[0].data == old(tree.nodes[0].data)
    ensures old(tree.nodes[0].children) != [] ==> tree.nodes[0].children == old(tree.nodes[0].children)
    ensures old(tree.nodes[0].children) == [] ==>
              (tree.nodes[0].children == [] <==> Terminal(tree.nodes[0].data.state) || AvailableMoves(tree.nodes[0].data.state) == [])
    ensures ok ==> tree.nodes[0].visits == old(tree.nodes[0].visits) + 1
    ensures old(tree.nodes[0].children) == [] && Stalemate(tree.nodes[0].data.state) ==> !ok
    ensures old(tree.nodes[0].children) == [] && Terminal(tree.nodes[0].data.state) ==> ok
  {
    node, path, leaf := Grow(tree, uct);
    grown := tree.nodes;
    var r;
    r, trail, moves := Simulate(tree.nodes[node].data.state);
    if r.None? {
      return false, node, 0, path, trail[|trail| - 1], leaf, grown, trail, moves;
    }
    result := r.value;
    Backpropagate(tree, node, result);
    ok, stuck := true, grown[0].data.state;
  }

  /** `backpropagate(node, result)` on the Python tree: every node from
      `node` up to the root gains a visit and `result` or `1 - result`,
      alternately; the invariant is kept, nothing else changes, and the root
      gains a visit. */
  method Backpropagate(tree: Tree<PyInfo>, node: int, result: int)
    requires PyTree(tree.nodes) && 0 <= node < |tree.nodes| && (result == 0 || result == 1)
    modifies tree
    ensures PyTree(tree.nodes) && AlternatedFrom(old(tree.nodes), tree.nodes, node, result)
    ensures tree.nodes[0].visits == old(tree.nodes[0].visits) + 1
  {
    ghost var n0 := tree.nodes;
    tree.BackpropagateAlternating(node, result);
    Backpropagated(n0, tree.nodes, node, result);
  }

  /** The first half of a round, from n0 to n1: `leaf` is a node of n0
      without children. When its state is over nothing changes and the
      round answers the leaf; otherwise the leaf is expanded as `expand`
      does, and the round answers one of its new children, or the leaf
      itself when it got none. */
  ghost predicate Grew(n0: seq<Node<PyInfo>>, n1: seq<Node<PyInfo>>, leaf: int, node: int) {
    && 0 <= leaf < |n0| && n0[leaf].children == [] && 0 <= node < |n1|
    && WellFormed(n0[leaf].data.state)
    && var s := n0[leaf].data.state;
       && (Terminal(s) ==> n1 == n0 && node == leaf)
       && (!Terminal(s) ==>
             && Expansion(n0, n1, leaf, |AvailableMoves(s)|)
             && (n1[leaf].children == [] ==> node == leaf)
             && (n1[leaf].children != [] ==> node in n1[leaf].children))
  }

  /** The first half of a round: select a leaf; unless its state is over,
      expand it and answer any one of its new children (`random.choice`),
      or the leaf itself when it got none. */
  method Grow(tree: Tree<PyInfo>, uct: (int, int, int) -> real) returns (node: int, ghost path: seq<int>, ghost leaf: int)
    requires PyTree(tree.nodes)
    modifies tree
    ensures PyTree(tree.nodes) && |tree.nodes| >= |old(tree.nodes)| && 0 <= node < |tree.nodes|
    ensures UctPath(old(tree.nodes), uct, path) && path[|path| - 1] == leaf
    ensures Grew(old(tree.nodes), tree.nodes, leaf, node)
    ensures tree.nodes[0].data == old(tree.nodes[0].data) && tree.nodes[0].visits == old(tree.nodes[0].visits)
    ensures old(tree.nodes[0].children) != [] ==> tree.nodes[0].children == old(tree.nodes[0].children)
    ensures old(tree.nodes[0].children) == [] ==>
              (tree.nodes[0].children == [] <==> Terminal(tree.nodes[0].data.state) || AvailableMoves(tree.nodes[0].data.state) == [])
    ensures old(tree.nodes[0].children) == [] && tree.nodes[0].children == [] ==> node == 0
  {
    var l;
    l, path := Select(tree, uct);
    leaf := l;
    node := l;
    var over := IsTerminal(tree.nodes[l].data.state);
    if !over {
      ghost var n0 := tree.nodes;
      Expand(tree, l);
      assert |tree.nodes[l].children| == |AvailableMoves(n0[l].data.state)|;
      var cs := tree.nodes[l].children;
      if cs != [] {
        ChildrenIn(tree.nodes, l);
        assert cs[0] in cs;
        node :| node in cs;
      }
    }
  }

  /** The tree after the Python backpropagation from leaf with a result of
      0 or 1 still satisfies the invariant, and its root has one more
      visit. */
  lemma Backpropagated(n0: seq<Node<PyInfo>>, n1: seq<Node<PyInfo>>, leaf: int, result: int)
    requires PyTree(n0) && Counted(n1) && 0 <= leaf < |n0| && (result == 0 || result == 1)
    requires AlternatedFrom(n0, n1, leaf, result)
    ensures PyTree(n1)
    ensures n1[0] == Bump(n0[0], AlternateAt(n0, leaf, 0, result))
  {
    RootIsAncestor(n0, leaf);
    forall i | 0 <= i < |n1| ensures 0 <= n1[i].score <= n1[i].visits {
      AlternateStaysBinary(result, Depth(n0, leaf) - Depth(n0, i));
    }
    PyTreeStatistics(n0, n1);
  }

  /** What `mcts_decision` ends in: the move of the chosen child, or one of
      the two exceptions the prototype can raise: `max` of no children, and
      `random.choice` of no moves in a playout. */
  datatype Decision = Play(move: Point) | NoChildren | NoMoves

  /** `mcts_decision(state, simulations)`: a tree rooted at `state`, grown
      by `simulations` rounds, answering the move of the root's first most
      visited child. A decision is a move available in `state`, taken
      after exactly `simulations` rounds; the root has no children, and
      `max` raises, exactly when there were no rounds or `state` is already
      over; the only other failure is a playout reaching a state that is
      not over and has no moves. */
  method MctsDecision(state: PlayHex, simulations: int, uct: (int, int, int) -> real)
    returns (d: Decision, ghost tree: Tree<PyInfo>, ghost stuck: PlayHex)
    requires WellFormed(state) && Turn(state)
    ensures d.Play? ==> d.move in AvailableMoves(state)
    ensures d.Play? ==> && PyTree(tree.nodes) && tree.nodes[0].data.state == state
                        && tree.nodes[0].visits == simulations
                        && exists k :: && FirstMostVisited(tree.nodes, 0, k)
                                       && var c := tree.nodes[0].children[k];
                                          0 < c < |tree.nodes| && tree.nodes[c].data.move == Some(d.move)
    ensures d.NoChildren? <==> simulations <= 0 || Terminal(state)
    ensures d.NoMoves? ==> Stalemate(stuck)
    ensures Stalemate(state) && simulations > 0 ==> d.NoMoves?
  {
    var t := new Tree(PyInfo(state, None));
    tree, stuck := t, state;
    var i := 0;
    while i < simulations
      invariant PyTree(t.nodes) && t.nodes[0].data == PyInfo(state, None)
      invariant 0 <= i && (i <= simulations || i == 0) && t.nodes[0].visits == i
      invariant i == 0 ==> t.nodes[0].children == []
      invariant i > 0 ==> (t.nodes[0].children == [] <==> Terminal(state)) && !Stalemate(state)
      modifies t
    {
      var ok, node, result;
      ghost var path, leaf, grown, trail, moves;
      ok, node, result, path, stuck, leaf, grown, trail, moves := Iterate(t, uct);
      if !ok {
        return NoMoves, t, stuck;
      }
      i := i + 1;
    }
    var best := BestChild(t, 0);
    if best.None? {
      return NoChildren, t, stuck;
    }
    var c := best.value;
    ChildrenIn(t.nodes, 0);
    assert MoveFits(t.nodes, c);
    d := Play(t.nodes[c].data.move.value);
  }
}
