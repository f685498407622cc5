/** Sequences of moves on the 11x11 board: the random playouts of the two
    C++ `simulate` loops and the path of moves from the root of a search
    tree to one of its nodes. */
module Playouts {
  import opened HexGeometry
  import opened HexBoard
  import opened SearchTrees

  /** A move and the stone value written by it (`Node::move`, `Node::player`). */
  datatype Ply = Ply(move: Point, player: int)

  /** The mover of the k-th move when `first` opens and every move is
      followed by `player = 3 - player`. */
  function MoverAt(first: int, k: int): (p: int)
    ensures first in {1, 2} ==> p in {1, 2}
  {
    if k % 2 == 0 then first else 3 - first
  }

  /** The next mover is the other player. */
  lemma MoverAlternates(first: int, k: int)
    requires k >= 0
    ensures MoverAt(first, k + 1) == 3 - MoverAt(first, k)
  {
  }

  predicate AllInRange(moves: seq<Point>) {
    forall k :: 0 <= k < |moves| ==> InRange(N, moves[k])
  }

  /** The board after `moves`, made alternately from `first`. */
  ghost function Playout(g: Grid, moves: seq<Point>, first: int): (h: Grid)
    requires IsBoard(g) && AllInRange(moves)
    ensures IsBoard(h)
    decreases |moves|
  {
    if moves == [] then g
    else
      var m := |moves| - 1;
      Place(Playout(g, moves[..m], first), moves[m], MoverAt(first, m))
  }

  /** Every move of the sequence is legal when it is made. */
  ghost predicate LegalPlayout(g: Grid, moves: seq<Point>, first: int)
    requires IsBoard(g)
  {
    && AllInRange(moves)
    && forall k :: 0 <= k < |moves| ==> Legal(Playout(g, moves[..k], first), moves[k])
  }

  /** A legal move extends a legal playout by one placement. */
  lemma LegalPlayoutExtend(g: Grid, moves: seq<Point>, first: int, m: Point)
    requires IsBoard(g) && LegalPlayout(g, moves, first) && Legal(Playout(g, moves, first), m)
    ensures LegalPlayout(g, moves + [m], first)
    ensures Playout(g, moves + [m], first) == Place(Playout(g, moves, first), m, MoverAt(first, |moves|))
  {
    var ms := moves + [m];
    assert ms[..|moves|] == moves;
    forall k | 0 <= k < |ms| ensures Legal(Playout(g, ms[..k], first), ms[k]) {
      if k < |moves| {
        assert ms[..k] == moves[..k];
      }
    }
  }

  /** The board reached at node i of a search tree whose plies are read by
      `ply`: the root board g0 with the plies from the root down to i placed
      in order (a ply off the board, such as the root's (-1, -1), places
      nothing). */
  ghost function PathBoard<T>(nodes: seq<Node<T>>, ply: T -> Ply, g0: Grid, i: int): (g: Grid)
    requires Rooted(nodes) && IsBoard(g0) && 0 <= i < |nodes|
    ensures IsBoard(g)
    decreases i
  {
    if i == 0 then g0
    else
      var above := PathBoard(nodes, ply, g0, nodes[i].parent);
      var p := ply(nodes[i].data);
      if InRange(N, p.move) then Place(above, p.move, p.player) else above
  }

  /** Two arenas that agree on the links and plies of the nodes up to i
      reach the same board at i. */
  lemma {:induction false} PathBoardFrame<T>(n0: seq<Node<T>>, n1: seq<Node<T>>, ply: T -> Ply, g0: Grid, i: int)
    requires Rooted(n0) && Rooted(n1) && IsBoard(g0) && 0 <= i < |n0| && i < |n1|
    requires forall j :: 0 <= j <= i ==> n1[j].parent == n0[j].parent && ply(n1[j].data) == ply(n0[j].data)
    ensures PathBoard(n1, ply, g0, i) == PathBoard(n0, ply, g0, i)
    decreases i
  {
    if i > 0 {
      PathBoardFrame(n0, n1, ply, g0, n0[i].parent);
    }
  }
}
