/** The Monte Carlo search tree that all three engine copies grow: nodes with
    a visit count, an accumulated score, a parent link and an ordered list of
    children. The C++ copies link `Node` objects by pointer and the Python
    prototype links `MCTSNode` objects by reference; here the nodes live in
    an arena and refer to each other by index, the root at index 0 and every
    node after its parent. What each engine stores beside the statistics
    (move, mover, legal-move snapshot, game state) is the payload `T`. */
module SearchTrees {
  import opened Wrappers

  /** One node: payload, `visitCount`/`visits`, `winScore`/`win_count`,
      the parent's index (-1 for the root) and the children's indices in the
      order they were added. Scores are sums of small integers, so they are
      kept exact. */
  datatype Node<T> = Node(data: T, visits: int, score: int, parent: int, children: seq<int>)

  /** The root is node 0; every other node comes after its parent. */
  predicate Rooted<T>(nodes: seq<Node<T>>) {
    && |nodes| > 0
    && nodes[0].parent == -1
    && forall i :: 0 < i < |nodes| ==> 0 <= nodes[i].parent < i
  }

  /** x and the nodes above it up to the root: the nodes a backpropagation
      from x passes (empty for x == -1). */
  ghost function Ancestors<T>(nodes: seq<Node<T>>, x: int): (A: set<int>)
    requires Rooted(nodes) && -1 <= x < |nodes|
    ensures forall y :: y in A ==> 0 <= y <= x
    decreases x + 1
  {
    if x < 0 then {} else {x} + Ancestors(nodes, nodes[x].parent)
  }

  /** The number of nodes from x up to and including the root. */
  ghost function Depth<T>(nodes: seq<Node<T>>, x: int): nat
    requires Rooted(nodes) && -1 <= x < |nodes|
    decreases x + 1
  {
    if x < 0 then 0 else 1 + Depth(nodes, nodes[x].parent)
  }

  /** The k-th child of i exists and names i as its parent. */
  predicate ChildOf<T>(nodes: seq<Node<T>>, i: int, k: int)
    requires 0 <= i < |nodes| && 0 <= k < |nodes[i].children|
  {
    var c := nodes[i].children[k];
    0 < c < |nodes| && nodes[c].parent == i
  }

  /** Non-root node c is listed among its parent's children. */
  predicate Listed<T>(nodes: seq<Node<T>>, c: int)
    requires Rooted(nodes) && 0 < c < |nodes|
  {
    c in nodes[nodes[c].parent].children
  }

  /** Children and parent links agree: every listed child names its parent,
      no child is listed twice, and every non-root node is listed by its
      parent. */
  predicate Shaped<T>(nodes: seq<Node<T>>) {
    && Rooted(nodes)
    && (forall i, k :: 0 <= i < |nodes| && 0 <= k < |nodes[i].children| ==> ChildOf(nodes, i, k))
    && (forall i, a, b :: 0 <= i < |nodes| && 0 <= a < b < |nodes[i].children| ==>
          nodes[i].children[a] != nodes[i].children[b])
    && (forall c :: 0 < c < |nodes| ==> Listed(nodes, c))
  }

  /** The visits of the listed nodes, added up (an index outside the arena,
      which a shaped arena never lists, adds nothing). */
  function ChildVisits<T>(nodes: seq<Node<T>>, cs: seq<int>): int {
    if cs == [] then 0
    else
      var c := cs[|cs| - 1];
      ChildVisits(nodes, cs[..|cs| - 1]) + (if 0 <= c < |nodes| then nodes[c].visits else 0)
  }

  /** Node i has been visited at least as often as all its children
      together: each visit of a child passed through i. */
  predicate CountedAt<T>(nodes: seq<Node<T>>, i: int)
    requires Shaped(nodes) && 0 <= i < |nodes|
  {
    0 <= ChildVisits(nodes, nodes[i].children) <= nodes[i].visits
  }

  /** The visit-count invariant, at every node. */
  predicate Counted<T>(nodes: seq<Node<T>>) {
    Shaped(nodes) && forall i :: 0 <= i < |nodes| ==> CountedAt(nodes, i)
  }

  /** `update(result)`: one more visit and `result` more score. */
  function Bump<T>(n: Node<T>, result: int): Node<T> {
    n.(visits := n.visits + 1, score := n.score + result)
  }

  /** The result the Python prototype adds at distance d above the leaf:
      `result` itself, then `1 - result`, alternately. */
  function Alternate(result: int, d: int): int {
    if d % 2 == 0 then result else 1 - result
  }

  /** One step further up flips the result. */
  lemma AlternateStep(result: int, d: int)
    ensures Alternate(result, d + 1) == 1 - Alternate(result, d)
  {
  }

  lemma AlternateStaysBinary(result: int, d: int)
    requires result == 0 || result == 1
    ensures Alternate(result, d) == 0 || Alternate(result, d) == 1
  {
  }

  /** The root is above every node. */
  lemma {:induction false} RootIsAncestor<T>(nodes: seq<Node<T>>, x: int)
    requires Rooted(nodes) && 0 <= x < |nodes|
    ensures 0 in Ancestors(nodes, x)
    decreases x
  {
    if x > 0 {
      RootIsAncestor(nodes, nodes[x].parent);
    }
  }

  /** The ancestors of an ancestor are ancestors. */
  lemma {:induction false} AncestorsClosed<T>(nodes: seq<Node<T>>, x: int, y: int)
    requires Rooted(nodes) && -1 <= x < |nodes| && y in Ancestors(nodes, x)
    ensures Ancestors(nodes, nodes[y].parent) <= Ancestors(nodes, x)
    decreases x + 1
  {
    if y != x {
      AncestorsClosed(nodes, nodes[x].parent, y);
    }
  }

  /** Two ancestors of x with the same parent are the same node. */
  lemma {:induction false} OneChildOnPath<T>(nodes: seq<Node<T>>, x: int, c1: int, c2: int)
    requires Rooted(nodes) && -1 <= x < |nodes|
    requires c1 in Ancestors(nodes, x) && c2 in Ancestors(nodes, x)
    requires nodes[c1].parent == nodes[c2].parent
    ensures c1 == c2
    decreases x + 1
  {
    // if only one of them is x, the other lies below x's parent
    if c1 != x && c2 != x {
      OneChildOnPath(nodes, nodes[x].parent, c1, c2);
    }
  }

  /** Every ancestor of x other than x has a child among the ancestors. */
  lemma {:induction false} ChildOnPath<T>(nodes: seq<Node<T>>, x: int, i: int) returns (c: int)
    requires Rooted(nodes) && -1 <= x < |nodes| && i in Ancestors(nodes, x) && i != x
    ensures c in Ancestors(nodes, x) && 0 < c < |nodes| && nodes[c].parent == i
    decreases x + 1
  {
    var p := nodes[x].parent;
    if i == p {
      c := x;
    } else {
      c := ChildOnPath(nodes, p, i);
    }
  }

  /** The number of positions of cs that hold a member of P. */
  function CountIn(cs: seq<int>, P: set<int>): nat {
    if cs == [] then 0 else CountIn(cs[..|cs| - 1], P) + (if cs[|cs| - 1] in P then 1 else 0)
  }

  lemma {:induction false} CountInNone(cs: seq<int>, P: set<int>)
    requires forall k :: 0 <= k < |cs| ==> cs[k] !in P
    ensures CountIn(cs, P) == 0
  {
    if cs != [] {
      CountInNone(cs[..|cs| - 1], P);
    }
  }

  lemma {:induction false} CountInOne(cs: seq<int>, P: set<int>, k: int)
    requires 0 <= k < |cs| && cs[k] in P
    requires forall j :: 0 <= j < |cs| && j != k ==> cs[j] !in P
    ensures CountIn(cs, P) == 1
  {
    var m := |cs| - 1;
    if k == m {
      CountInNone(cs[..m], P);
    } else {
      CountInOne(cs[..m], P, k);
    }
  }

  /** Raising the visits of the members of P by one raises a sum of visits
      by the number of listed members of P. */
  lemma {:induction false} ChildVisitsShift<T>(n0: seq<Node<T>>, n1: seq<Node<T>>, cs: seq<int>, P: set<int>)
    requires forall k :: 0 <= k < |cs| ==> 0 <= cs[k] < |n0| && cs[k] < |n1|
    requires forall k :: 0 <= k < |cs| ==>
               n1[cs[k]].visits == n0[cs[k]].visits + (if cs[k] in P then 1 else 0)
    ensures ChildVisits(n1, cs) == ChildVisits(n0, cs) + CountIn(cs, P)
  {
    if cs != [] {
      ChildVisitsShift(n0, n1, cs[..|cs| - 1], P);
    }
  }

  /** n1 is n0 with one more visit on every ancestor of leaf and any change
      of score; nothing else differs. */
  ghost predicate VisitedAlong<T>(n0: seq<Node<T>>, n1: seq<Node<T>>, leaf: int)
    requires Rooted(n0) && 0 <= leaf < |n0|
  {
    && |n1| == |n0|
    && forall i :: 0 <= i < |n0| ==>
         && n1[i].data == n0[i].data && n1[i].parent == n0[i].parent && n1[i].children == n0[i].children
         && n1[i].visits == n0[i].visits + (if i in Ancestors(n0, leaf) then 1 else 0)
  }

  /** The result the Python walk adds at ancestor i of the leaf. */
  ghost function AlternateAt<T>(n0: seq<Node<T>>, leaf: int, i: int, result: int): int
    requires Rooted(n0) && 0 <= leaf < |n0| && 0 <= i < |n0|
  {
    Alternate(result, Depth(n0, leaf) - Depth(n0, i))
  }

  /** The Python walk has reached cur: the ancestors of the leaf below cur
      hold their alternating update, every other node is as before. */
  ghost predicate AlternatedBelow<T>(n0: seq<Node<T>>, n1: seq<Node<T>>, leaf: int, cur: int, result: int)
    requires Rooted(n0) && 0 <= leaf < |n0| && -1 <= cur < |n0|
  {
    && |n1| == |n0|
    && forall i :: 0 <= i < |n0| ==>
         n1[i] == if i in Ancestors(n0, leaf) && i !in Ancestors(n0, cur)
                  then Bump(n0[i], AlternateAt(n0, leaf, i, result))
                  else n0[i]
  }

  /** n1 is n0 after the whole Python walk from leaf: each node from the
      leaf up to the root got a visit and the result alternated for its
      distance from the leaf; every other node is as before. */
  ghost predicate AlternatedFrom<T>(n0: seq<Node<T>>, n1: seq<Node<T>>, leaf: int, result: int)
    requires Rooted(n0) && 0 <= leaf < |n0|
  {
    && |n1| == |n0|
    && forall i :: 0 <= i < |n0| ==>
         n1[i] == if i in Ancestors(n0, leaf) then Bump(n0[i], AlternateAt(n0, leaf, i, result)) else n0[i]
  }

  /** One step of the Python walk. */
  lemma AlternatedStep<T>(n0: seq<Node<T>>, n1: seq<Node<T>>, leaf: int, cur: int, result: int)
    requires Rooted(n0) && 0 <= leaf < |n0| && 0 <= cur < |n0| && cur in Ancestors(n0, leaf)
    requires AlternatedBelow(n0, n1, leaf, cur, result)
    ensures AlternatedBelow(n0, n1[cur := Bump(n1[cur], AlternateAt(n0, leaf, cur, result))],
                            leaf, n0[cur].parent, result)
  {
    assert cur !in Ancestors(n0, n0[cur].parent);
    AncestorsClosed(n0, leaf, cur);
  }

  /** Backpropagation keeps the visit-count invariant: the node it starts
      from gains a visit and no visited child, every node above gains a visit
      and exactly one visited child, and every other node is untouched. */
  lemma VisitsKeepCounted<T>(n0: seq<Node<T>>, n1: seq<Node<T>>, leaf: int)
    requires Counted(n0) && 0 <= leaf < |n0| && VisitedAlong(n0, n1, leaf)
    ensures Counted(n1)
  {
    var P := Ancestors(n0, leaf);
    SameLinksShaped(n0, n1);
    forall i | 0 <= i < |n1| ensures CountedAt(n1, i) {
      assert CountedAt(n0, i);
      var cs := n0[i].children;
      ChildrenIn(n0, i);
      ChildVisitsShift(n0, n1, cs, P);
      if i !in P {
        forall k | 0 <= k < |cs| ensures cs[k] !in P {
          if cs[k] in P {
            AncestorsClosed(n0, leaf, cs[k]);
          }
        }
        CountInNone(cs, P);
      } else if i == leaf {
        CountInNone(cs, P);
      } else {
        var c := ChildOnPath(n0, leaf, i);
        assert Listed(n0, c);
        var k :| 0 <= k < |cs| && cs[k] == c;
        forall j | 0 <= j < |cs| && j != k ensures cs[j] !in P {
          if cs[j] in P {
            OneChildOnPath(n0, leaf, c, cs[j]);
          }
        }
        CountInOne(cs, P, k);
      }
    }
  }

  /** Every node keeps its parent and its children. */
  ghost predicate SameLinks<T>(n0: seq<Node<T>>, n1: seq<Node<T>>) {
    && |n1| == |n0|
    && forall i :: 0 <= i < |n0| ==> n1[i].parent == n0[i].parent && n1[i].children == n0[i].children
  }

  lemma SameLinksShaped<T>(n0: seq<Node<T>>, n1: seq<Node<T>>)
    requires Shaped(n0) && SameLinks(n0, n1)
    ensures Shaped(n1)
  {
    forall i, k | 0 <= i < |n1| && 0 <= k < |n1[i].children| ensures ChildOf(n1, i, k) {
      assert ChildOf(n0, i, k);
    }
    forall c | 0 < c < |n1| ensures Listed(n1, c) {
      assert Listed(n0, c);
    }
  }

  /** The children of i are later nodes that name i as their parent. */
  lemma ChildrenIn<T>(nodes: seq<Node<T>>, i: int)
    requires Shaped(nodes) && 0 <= i < |nodes|
    ensures forall k :: 0 <= k < |nodes[i].children| ==>
              0 < nodes[i].children[k] < |nodes| && nodes[nodes[i].children[k]].parent == i
  {
    forall k | 0 <= k < |nodes[i].children|
      ensures 0 < nodes[i].children[k] < |nodes| && nodes[nodes[i].children[k]].parent == i
    {
      assert ChildOf(nodes, i, k);
    }
  }

  /** Replacing payloads and scores while keeping links and visits keeps
      the visit-count invariant. */
  lemma SameVisitsCounted<T>(n0: seq<Node<T>>, n1: seq<Node<T>>)
    requires Counted(n0) && SameLinks(n0, n1)
    requires forall i :: 0 <= i < |n0| ==> n1[i].visits == n0[i].visits
    ensures Counted(n1)
  {
    SameLinksShaped(n0, n1);
    forall i | 0 <= i < |n1| ensures CountedAt(n1, i) {
      assert CountedAt(n0, i);
      ChildrenIn(n0, i);
      ChildVisitsFrame(n0, n1, n0[i].children);
    }
  }

  /** The arena after a new leaf with payload d is added under i. */
  function Grown<T>(nodes: seq<Node<T>>, i: int, d: T): seq<Node<T>>
    requires 0 <= i < |nodes|
  {
    nodes[i := nodes[i].(children := nodes[i].children + [|nodes|])] + [Node(d, 0, 0, i, [])]
  }

  /** Adding an unvisited leaf keeps the visit-count invariant. */
  lemma GrownCounted<T>(n0: seq<Node<T>>, i: int, d: T)
    requires Counted(n0) && 0 <= i < |n0|
    ensures Counted(Grown(n0, i, d))
  {
    var n1 := Grown(n0, i, d);
    var c := |n0|;
    ChildrenIn(n0, i);
    forall j, k | 0 <= j < |n1| && 0 <= k < |n1[j].children| ensures ChildOf(n1, j, k) {
      if j < c && k < |n0[j].children| {
        assert ChildOf(n0, j, k);
      }
    }
    forall x | 0 < x < |n1| ensures Listed(n1, x) {
      if x < c {
        assert Listed(n0, x);
      }
    }
    forall j | 0 <= j < |n1| ensures CountedAt(n1, j) {
      if j < c {
        assert CountedAt(n0, j);
        var cs := n0[j].children;
        ChildrenIn(n0, j);
        ChildVisitsFrame(n0, n1, cs);
        if j == i {
          assert n1[j].children[..|cs|] == cs;
        }
      }
    }
  }

  /** Sums of visits only see the visits of the listed nodes. */
  lemma {:induction false} ChildVisitsFrame<T>(n0: seq<Node<T>>, n1: seq<Node<T>>, cs: seq<int>)
    requires forall k :: 0 <= k < |cs| ==> 0 <= cs[k] < |n0| && cs[k] < |n1| && n1[cs[k]].visits == n0[cs[k]].visits
    ensures ChildVisits(n1, cs) == ChildVisits(n0, cs)
  {
    if cs != [] {
      ChildVisitsFrame(n0, n1, cs[..|cs| - 1]);
    }
  }

  /** An abstract selection score: the C++ `double` UCB values and visit
      counts, with the infinities the sources use. */
  datatype Score = NegInf | Finite(r: real) | PosInf

  /** `a > b` on scores. */
  predicate Above(a: Score, b: Score) {
    match (a, b)
    case (PosInf, PosInf) => false
    case (PosInf, _) => true
    case (Finite(x), Finite(y)) => x > y
    case (Finite(_), NegInf) => true
    case _ => false
  }

  /** `Above` is a strict total order. */
  lemma AboveOrder(a: Score, b: Score, c: Score)
    ensures !Above(a, a)
    ensures Above(a, b) ==> !Above(b, a)
    ensures Above(a, b) && Above(b, c) ==> Above(a, c)
    ensures !Above(a, b) && !Above(b, a) ==> a == b
  {
  }

  /** Position k holds the largest score, it beats `floor`, and no earlier
      position holds as large a score: what a scan keeping the first strict
      improvement over `floor` selects. */
  predicate FirstBest(keys: seq<Score>, floor: Score, k: int) {
    && 0 <= k < |keys|
    && Above(keys[k], floor)
    && (forall j :: 0 <= j < |keys| ==> !Above(keys[j], keys[k]))
    && (forall j :: 0 <= j < k ==> Above(keys[k], keys[j]))
  }

  /** The selection is determined: at most one position is the first best. */
  lemma FirstBestUnique(keys: seq<Score>, floor: Score, k1: int, k2: int)
    requires FirstBest(keys, floor, k1) && FirstBest(keys, floor, k2)
    ensures k1 == k2
  {
  }

  /** An infinite score (an unvisited child) is preferred to every finite
      one: the first infinite position is selected when there is one. */
  lemma InfiniteFirst(keys: seq<Score>, floor: Score, k: int, u: int)
    requires FirstBest(keys, floor, k) && 0 <= u < |keys| && keys[u] == PosInf
    ensures keys[k] == PosInf && k <= u
    ensures forall j :: 0 <= j < k ==> keys[j] != PosInf
  {
  }

  /** Ties go to the earliest position. */
  lemma TiesGoFirst(keys: seq<Score>, floor: Score, k: int, j: int)
    requires FirstBest(keys, floor, k) && 0 <= j < |keys| && keys[j] == keys[k]
    ensures k <= j
  {
  }

  /** The scores of a node's children under `key`, in child order. */
  function ChildKeys<T>(nodes: seq<Node<T>>, cs: seq<int>, key: Node<T> -> Score): (keys: seq<Score>)
    ensures |keys| == |cs|
    ensures forall k :: 0 <= k < |cs| && 0 <= cs[k] < |nodes| ==> keys[k] == key(nodes[cs[k]])
  {
    seq(|cs|, k requires 0 <= k < |cs| => if 0 <= cs[k] < |nodes| then key(nodes[cs[k]]) else NegInf)
  }

  /** The arena. */
  class Tree<T> {
    var nodes: seq<Node<T>>

    ghost predicate Valid()
      reads this
    {
      Counted(nodes)
    }

    /** `new Node(move, player, nullptr)` / `MCTSNode(state)`: a lone root. */
    constructor (root: T)
      ensures Valid() && nodes == [Node(root, 0, 0, -1, [])]
    {
      nodes := [Node(root, 0, 0, -1, [])];
    }

    /** `addChild` / `children.append(MCTSNode(..., node, ...))`: a new
        leaf after all existing nodes, listed last among i's children. */
    method AddChild(i: int, d: T) returns (c: int)
      requires Valid() && 0 <= i < |nodes|
      modifies this
      ensures Valid() && c == |old(nodes)| && nodes == Grown(old(nodes), i, d)
    {
      GrownCounted(nodes, i, d);
      c := |nodes|;
      nodes := nodes[i := nodes[i].(children := nodes[i].children + [c])] + [Node(d, 0, 0, i, [])];
    }

    /** Replaces the payload of node i; the statistics and links stay. */
    method SetData(i: int, d: T)
      requires Valid() && 0 <= i < |nodes|
      modifies this
      ensures Valid() && nodes == old(nodes)[i := old(nodes)[i].(data := d)]
    {
      SameVisitsCounted(nodes, nodes[i := nodes[i].(data := d)]);
      nodes := nodes[i := nodes[i].(data := d)];
    }

    /** `update(result)` on node i. On its own it may leave i's parent with
        fewer visits than its children; `Backpropagate` restores that. */
    method Update(i: int, result: int)
      requires 0 <= i < |nodes|
      modifies this
      ensures nodes == old(nodes)[i := Bump(old(nodes)[i], result)]
    {
      nodes := nodes[i := Bump(nodes[i], result)];
    }

    /** The C++ backpropagation `while (node) { node->update(result);
        node = node->parent; }`: every node from the leaf up to the root gets
        one more visit and the same result. */
    method Backpropagate(leaf: int, result: int)
      requires Valid() && 0 <= leaf < |nodes|
      modifies this
      ensures Valid() && |nodes| == |old(nodes)|
      ensures forall i :: 0 <= i < |nodes| ==>
                nodes[i] == if i in Ancestors(old(nodes), leaf) then Bump(old(nodes)[i], result) else old(nodes)[i]
    {
      ghost var n0 := nodes;
      var cur := leaf;
      while cur != -1
        invariant -1 <= cur < |n0| && |nodes| == |n0|
        invariant cur >= 0 ==> cur in Ancestors(n0, leaf)
        invariant forall i :: 0 <= i < |n0| ==>
                    nodes[i] == if i in Ancestors(n0, leaf) && i !in Ancestors(n0, cur) then Bump(n0[i], result) else n0[i]
        decreases cur + 1
      {
        assert cur !in Ancestors(n0, n0[cur].parent);
        AncestorsClosed(n0, leaf, cur);
        Update(cur, result);
        cur := nodes[cur].parent;
      }
      VisitsKeepCounted(n0, nodes, leaf);
    }

    /** The Python `backpropagate`: the same walk, but the result flips to
        `1 - result` at each step up. */
    method BackpropagateAlternating(leaf: int, result: int)
      requires Valid() && 0 <= leaf < |nodes|
      modifies this
      ensures Valid() && AlternatedFrom(old(nodes), nodes, leaf, result)
    {
      ghost var n0 := nodes;
      var cur := leaf;
      var r := result;
      while cur != -1
        invariant -1 <= cur < |n0|
        invariant cur >= 0 ==> cur in Ancestors(n0, leaf) && r == AlternateAt(n0, leaf, cur, result)
        invariant AlternatedBelow(n0, nodes, leaf, cur, result)
        decreases cur + 1
      {
        AlternatedStep(n0, nodes, leaf, cur, result);
        if n0[cur].parent != -1 {
          AncestorsClosed(n0, leaf, cur);
          AlternateStep(result, Depth(n0, leaf) - Depth(n0, cur));
        }
        Update(cur, r);
        cur := nodes[cur].parent;
        r := 1 - r;
      }
      assert VisitedAlong(n0, nodes, leaf);
      VisitsKeepCounted(n0, nodes, leaf);
    }

    /** The selection loop shared by `selectChild`, `bestChild` and
        `best_uct`: start from `floor` with no selection, and take each child
        whose score is strictly above the best so far. It selects nothing
        exactly when no child beats `floor`, and otherwise the first child of
        the largest score. */
    method BestBy(i: int, key: Node<T> -> Score, floor: Score) returns (r: Option<int>)
      requires Valid() && 0 <= i < |nodes|
      ensures var keys := ChildKeys(nodes, nodes[i].children, key);
              && (r.None? <==> forall k :: 0 <= k < |keys| ==> !Above(keys[k], floor))
              && (r.Some? ==> exists k :: FirstBest(keys, floor, k) && nodes[i].children[k] == r.value)
    {
      var cs := nodes[i].children;
      ChildrenIn(nodes, i);
      ghost var keys := ChildKeys(nodes, cs, key);
      var best := floor;
      r := None;
      ghost var pos := 0;
      for k := 0 to |cs|
        invariant r.None? ==> best == floor && forall j :: 0 <= j < k ==> !Above(keys[j], floor)
        invariant r.Some? ==> && 0 <= pos < k && cs[pos] == r.value && best == keys[pos]
                              && Above(best, floor)
                              && (forall j :: 0 <= j < k ==> !Above(keys[j], best))
                              && (forall j :: 0 <= j < pos ==> Above(best, keys[j]))
      {
        var s := key(nodes[cs[k]]);
        if Above(s, best) {
          forall j | 0 <= j < k ensures !Above(keys[j], s) && Above(s, keys[j]) {
            AboveOrder(s, best, keys[j]);
            AboveOrder(keys[j], best, s);
            AboveOrder(best, keys[j], s);
          }
          AboveOrder(s, best, floor);
          best := s;
          r := Some(cs[k]);
          pos := k;
        } else if r.Some? {
          forall j | 0 <= j < pos ensures Above(best, keys[j]) {
          }
        }
      }
      if r.Some? {
        assert FirstBest(keys, floor, pos);
      }
    }
  }

  /** The score the UCB selections (`selectChild` of `src/HEX_new.cpp`,
      `best_uct` of the Python prototype) rank a child by: +infinity while
      the child is unvisited, otherwise its UCB value from its score, its
      visits and its parent's visits. */
  function UcbKey<T>(ucb: (int, int, int) -> real, parentVisits: int): Node<T> -> Score {
    (c: Node<T>) => if c.visits == 0 then PosInf else Finite(ucb(c.score, c.visits, parentVisits))
  }

  /** The visits of node c (none for a position outside the arena). */
  function VisitsOf<T>(nodes: seq<Node<T>>, c: int): int {
    if 0 <= c < |nodes| then nodes[c].visits else 0
  }

  /** Child k of node i is the first of the most visited children. */
  predicate FirstMostVisited<T>(nodes: seq<Node<T>>, i: int, k: int)
    requires 0 <= i < |nodes|
  {
    var cs := nodes[i].children;
    && 0 <= k < |cs|
    && (forall j :: 0 <= j < |cs| ==> VisitsOf(nodes, cs[j]) <= VisitsOf(nodes, cs[k]))
    && (forall j :: 0 <= j < k ==> VisitsOf(nodes, cs[j]) < VisitsOf(nodes, cs[k]))
  }

  /** The score the most-visited choice ranks a child by. */
  function VisitKey<T>(c: Node<T>): Score {
    Finite(c.visits as real)
  }

  /** The final choice of the most visited child (`bestChild` of
      `src/HEX_new.cpp`, `max(root.children, key=...)` of the Python
      prototype): starting from a best score of -1, keep each child with
      strictly more visits. Visit counts are never negative, so the result
      is nothing exactly when there are no children, and otherwise the
      first most visited child. */
  method BestChild<T>(tree: Tree<T>, i: int) returns (r: Option<int>)
    requires tree.Valid() && 0 <= i < |tree.nodes|
    ensures r.None? <==> tree.nodes[i].children == []
    ensures r.Some? ==> exists k :: FirstMostVisited(tree.nodes, i, k) && tree.nodes[i].children[k] == r.value
  {
    r := tree.BestBy(i, VisitKey, Finite(-1.0));
    var cs := tree.nodes[i].children;
    ghost var keys := ChildKeys(tree.nodes, cs, VisitKey);
    ChildrenIn(tree.nodes, i);
    forall k | 0 <= k < |cs| ensures keys[k] == Finite(VisitsOf(tree.nodes, cs[k]) as real) && VisitsOf(tree.nodes, cs[k]) >= 0 {
      assert CountedAt(tree.nodes, cs[k]);
    }
    if cs != [] {
      assert Above(keys[0], Finite(-1.0));
    }
    if r.Some? {
      ghost var k :| FirstBest(keys, Finite(-1.0), k) && cs[k] == r.value;
      assert FirstMostVisited(tree.nodes, i, k);
    }
  }
}
