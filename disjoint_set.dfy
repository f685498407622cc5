/** The disjoint-set forest behind the win oracles: a `parent` vector in
    which -1 marks a root, `find` with path compression and `unite` that
    hangs one root under the other. The model proves that two elements have
    the same root exactly when the edges united so far connect them. */
module DisjointSets {

  /** An undirected edge, recorded as the pair passed to `unite`. */
  type Edge = (int, int)

  predicate Linked(E: set<Edge>, a: int, b: int) {
    (a, b) in E || (b, a) in E
  }

  /** A walk along the edges of E. */
  ghost predicate IsWalk(E: set<Edge>, w: seq<int>) {
    |w| > 0 && forall i :: 0 <= i < |w| - 1 ==> Linked(E, w[i], w[i + 1])
  }

  /** a and b are in the same connected component of the graph E. */
  ghost predicate Reach(E: set<Edge>, a: int, b: int) {
    exists w :: IsWalk(E, w) && w[0] == a && w[|w| - 1] == b
  }

  lemma ReachRefl(E: set<Edge>, a: int)
    ensures Reach(E, a, a)
  {
    assert IsWalk(E, [a]);
  }

  lemma ReachEdge(E: set<Edge>, a: int, b: int)
    requires Linked(E, a, b)
    ensures Reach(E, a, b)
  {
    assert IsWalk(E, [a, b]);
  }

  lemma ReachSym(E: set<Edge>, a: int, b: int)
    requires Reach(E, a, b)
    ensures Reach(E, b, a)
  {
    var w :| IsWalk(E, w) && w[0] == a && w[|w| - 1] == b;
    var r := seq(|w|, i requires 0 <= i < |w| => w[|w| - 1 - i]);
    forall i | 0 <= i < |r| - 1
      ensures Linked(E, r[i], r[i + 1])
    {
      assert Linked(E, w[|w| - 2 - i], w[|w| - 1 - i]);
    }
    assert IsWalk(E, r) && r[0] == b && r[|r| - 1] == a;
  }

  lemma ReachTrans(E: set<Edge>, a: int, b: int, c: int)
    requires Reach(E, a, b) && Reach(E, b, c)
    ensures Reach(E, a, c)
  {
    var w1 :| IsWalk(E, w1) && w1[0] == a && w1[|w1| - 1] == b;
    var w2 :| IsWalk(E, w2) && w2[0] == b && w2[|w2| - 1] == c;
    var w := w1 + w2[1..];
    forall i | 0 <= i < |w| - 1
      ensures Linked(E, w[i], w[i + 1])
    {
      if i < |w1| - 1 {
        assert w[i] == w1[i] && w[i + 1] == w1[i + 1];
      } else {
        var j := i - |w1| + 1;
        assert w[i] == w2[j] && w[i + 1] == w2[j + 1];
      }
    }
    assert IsWalk(E, w) && w[0] == a && w[|w| - 1] == c;
  }

  lemma ReachMono(E: set<Edge>, F: set<Edge>, a: int, b: int)
    requires E <= F && Reach(E, a, b)
    ensures Reach(F, a, b)
  {
    var w :| IsWalk(E, w) && w[0] == a && w[|w| - 1] == b;
    assert IsWalk(F, w);
  }

  /** With no edges, every element is alone in its component. */
  lemma {:induction false} ReachEmpty(a: int, b: int)
    requires Reach({}, a, b)
    ensures a == b
  {
    var w :| IsWalk({}, w) && w[0] == a && w[|w| - 1] == b;
    assert |w| > 1 ==> Linked({}, w[0], w[1]);
    assert |w| == 1;
  }

  /** A labelling that agrees on the two ends of every edge is constant
      along every walk. */
  lemma {:induction false} WalkKeepsLabel(E: set<Edge>, L: seq<int>, w: seq<int>)
    requires forall e :: e in E ==> 0 <= e.0 < |L| && 0 <= e.1 < |L| && L[e.0] == L[e.1]
    requires IsWalk(E, w) && 0 <= w[0] < |L|
    ensures 0 <= w[|w| - 1] < |L| && L[w[|w| - 1]] == L[w[0]]
    decreases |w|
  {
    if |w| > 1 {
      var u := w[..|w| - 1];
      assert IsWalk(E, u) by {
        forall i | 0 <= i < |u| - 1 ensures Linked(E, u[i], u[i + 1]) {
          assert u[i] == w[i] && u[i + 1] == w[i + 1];
        }
      }
      WalkKeepsLabel(E, L, u);
      assert Linked(E, w[|w| - 2], w[|w| - 1]);
    }
  }

  /** Components of the edge set E, as given by the labelling L. */
  ghost predicate Partitions(L: seq<int>, E: set<Edge>) {
    forall x, y :: 0 <= x < |L| && 0 <= y < |L| ==> (L[x] == L[y] <==> Reach(E, x, y))
  }

  ghost predicate EdgesWithin(E: set<Edge>, n: int) {
    forall e :: e in E ==> 0 <= e.0 < n && 0 <= e.1 < n
  }

  /** Adding the edge (x, y) merges the components of x and y: relabelling
      every element labelled like x with y's label yields the components of
      the enlarged edge set. */
  lemma MergeLabels(L: seq<int>, E: set<Edge>, x: int, y: int, L': seq<int>)
    requires 0 <= x < |L| && 0 <= y < |L| && |L'| == |L|
    requires EdgesWithin(E, |L|) && Partitions(L, E)
    requires forall z :: 0 <= z < |L| ==> L'[z] == if L[z] == L[x] then L[y] else L[z]
    ensures Partitions(L', E + {(x, y)})
  {
    var E' := E + {(x, y)};
    forall z, w | 0 <= z < |L| && 0 <= w < |L|
      ensures L'[z] == L'[w] <==> Reach(E', z, w)
    {
      if L'[z] == L'[w] {
        if L[z] == L[w] {
          ReachMono(E, E', z, w);
        } else if L[z] == L[x] {
          assert L[w] == L[y];
          ReachSym(E, x, z);
          ReachMono(E, E', z, x);
          ReachEdge(E', x, y);
          ReachMono(E, E', y, w);
          ReachTrans(E', z, x, y);
          ReachTrans(E', z, y, w);
        } else {
          assert L[w] == L[x] && L[z] == L[y];
          ReachSym(E, x, w);
          ReachMono(E, E', w, x);
          ReachEdge(E', x, y);
          ReachMono(E, E', y, z);
          ReachTrans(E', w, x, y);
          ReachTrans(E', w, y, z);
          ReachSym(E', w, z);
        }
      }
      if Reach(E', z, w) {
        forall e | e in E'
          ensures 0 <= e.0 < |L'| && 0 <= e.1 < |L'| && L'[e.0] == L'[e.1]
        {
          if e != (x, y) {
            assert Reach(E, e.0, e.1) by { ReachEdge(E, e.0, e.1); }
          }
        }
        var walk :| IsWalk(E', walk) && walk[0] == z && walk[|walk| - 1] == w;
        WalkKeepsLabel(E', L', walk);
      }
    }
  }

  /** A forest over indices 0..|p|-1: each parent is -1 or an index of
      strictly larger rank, so following parents always ends at a root. */
  ghost predicate Forest(p: seq<int>, rank: seq<nat>) {
    && |rank| == |p|
    && forall i :: 0 <= i < |p| ==> p[i] == -1 || (0 <= p[i] < |p| && rank[i] < rank[p[i]])
  }

  function MaxOf(s: seq<nat>): (m: nat)
    ensures forall i :: 0 <= i < |s| ==> s[i] <= m
    ensures |s| > 0 ==> exists i :: 0 <= i < |s| && s[i] == m
  {
    if |s| == 0 then 0
    else
      var t := MaxOf(s[1..]);
      assert forall i :: 1 <= i < |s| ==> s[i] == s[1..][i - 1];
      if s[0] >= t then s[0] else t
  }

  /** The root `find` reaches from x. */
  ghost function Root(p: seq<int>, rank: seq<nat>, x: int): (r: int)
    requires Forest(p, rank) && 0 <= x < |p|
    ensures 0 <= r < |p| && p[r] == -1 && rank[x] <= rank[r]
    ensures p[x] != -1 ==> rank[x] < rank[r] && r == Root(p, rank, p[x])
    decreases MaxOf(rank) - rank[x]
  {
    if p[x] == -1 then x else Root(p, rank, p[x])
  }

  ghost function Roots(p: seq<int>, rank: seq<nat>): (L: seq<int>)
    requires Forest(p, rank)
    ensures |L| == |p| && forall x :: 0 <= x < |p| ==> L[x] == Root(p, rank, x)
  {
    seq(|p|, x requires 0 <= x < |p| => Root(p, rank, x))
  }

  /** Path compression: pointing x straight at its root changes no root. */
  lemma {:induction false} CompressKeepsRoot(p: seq<int>, rank: seq<nat>, x: int, y: int)
    requires Forest(p, rank) && 0 <= x < |p| && p[x] != -1 && 0 <= y < |p|
    ensures Forest(p[x := Root(p, rank, x)], rank)
    ensures Root(p[x := Root(p, rank, x)], rank, y) == Root(p, rank, y)
    decreases MaxOf(rank) - rank[y]
  {
    var r := Root(p, rank, x);
    var q := p[x := r];
    assert Forest(q, rank);
    if y != x && p[y] != -1 {
      CompressKeepsRoot(p, rank, x, p[y]);
    }
  }

  lemma CompressKeepsRoots(p: seq<int>, rank: seq<nat>, x: int)
    requires Forest(p, rank) && 0 <= x < |p| && p[x] != -1
    ensures Forest(p[x := Root(p, rank, x)], rank)
    ensures Roots(p[x := Root(p, rank, x)], rank) == Roots(p, rank)
  {
    CompressKeepsRoot(p, rank, x, x);
    forall y | 0 <= y < |p|
      ensures Root(p[x := Root(p, rank, x)], rank, y) == Root(p, rank, y)
    {
      CompressKeepsRoot(p, rank, x, y);
    }
  }

  /** The ranks after hanging root rx under root ry. */
  function Relink(rank: seq<nat>, rx: int, ry: int): seq<nat>
    requires 0 <= rx < |rank| && 0 <= ry < |rank|
  {
    rank[ry := if rank[ry] > rank[rx] then rank[ry] else rank[rx] + 1]
  }

  /** Hanging root rx under root ry sends every element of rx's tree to ry
      and leaves every other root alone. */
  lemma {:induction false} LinkRedirects(p: seq<int>, rank: seq<nat>, rx: int, ry: int, z: int)
    requires Forest(p, rank) && 0 <= rx < |p| && 0 <= ry < |p| && rx != ry
    requires p[rx] == -1 && p[ry] == -1 && 0 <= z < |p|
    ensures Forest(p[rx := ry], Relink(rank, rx, ry))
    ensures Root(p[rx := ry], Relink(rank, rx, ry), z)
            == if Root(p, rank, z) == rx then ry else Root(p, rank, z)
    decreases MaxOf(rank) - rank[z]
  {
    var q, rank' := p[rx := ry], Relink(rank, rx, ry);
    assert Forest(q, rank') by {
      forall i | 0 <= i < |q|
        ensures q[i] == -1 || (0 <= q[i] < |q| && rank'[i] < rank'[q[i]])
      {
        if i != rx && q[i] != -1 {
          assert q[i] == p[i] && rank'[i] == rank[i] && rank[p[i]] <= rank'[p[i]];
        }
      }
    }
    if z != rx && p[z] != -1 {
      LinkRedirects(p, rank, rx, ry, p[z]);
    }
  }

  lemma LinkRedirectsAll(p: seq<int>, rank: seq<nat>, rx: int, ry: int)
    requires Forest(p, rank) && 0 <= rx < |p| && 0 <= ry < |p| && rx != ry
    requires p[rx] == -1 && p[ry] == -1
    ensures Forest(p[rx := ry], Relink(rank, rx, ry))
    ensures forall z :: 0 <= z < |p| ==>
      Roots(p[rx := ry], Relink(rank, rx, ry))[z]
        == if Roots(p, rank)[z] == rx then ry else Roots(p, rank)[z]
  {
    LinkRedirects(p, rank, rx, ry, rx);
    forall z | 0 <= z < |p|
      ensures Root(p[rx := ry], Relink(rank, rx, ry), z)
              == if Root(p, rank, z) == rx then ry else Root(p, rank, z)
    {
      LinkRedirects(p, rank, rx, ry, z);
    }
  }

  /** The `parent` vector with its `find` and `unite`. The ghost fields give
      the ranks that witness acyclicity and the edges united so far. */
  class DisjointSet {
    var parent: array<int>
    ghost var rank: seq<nat>
    ghost var edges: set<Edge>

    ghost predicate Valid()
      reads this, parent
    {
      && Forest(parent[..], rank)
      && EdgesWithin(edges, parent.Length)
      && Partitions(Roots(parent[..], rank), edges)
    }

    /** `parent.assign(n, -1)`: n singleton sets. */
    constructor (n: nat)
      ensures Valid() && fresh(parent) && parent.Length == n && edges == {}
      ensures forall x :: 0 <= x < n ==> parent[x] == -1
    {
      parent := new int[n](_ => -1);
      rank := seq(n, _ => 0);
      edges := {};
      new;
      forall x, y | 0 <= x < n && 0 <= y < n && Reach({}, x, y)
        ensures x == y
      {
        ReachEmpty(x, y);
      }
      forall x | 0 <= x < n ensures Roots(parent[..], rank)[x] == x {
        assert parent[..][x] == -1;
      }
      forall x | 0 <= x < n ensures Reach({}, x, x) {
        ReachRefl({}, x);
      }
    }

    /** Two elements are joined when the united edges connect them. */
    ghost predicate Joined(x: int, y: int)
      reads this, parent
    {
      Reach(edges, x, y)
    }

    /** `find(x)`: returns x's root and points every element on the way
        directly at it. No element changes set. */
    method Find(x: int) returns (r: int)
      requires Valid() && 0 <= x < parent.Length
      modifies parent
      ensures Valid()
      ensures r == Roots(old(parent[..]), rank)[x]
      ensures Roots(parent[..], rank) == Roots(old(parent[..]), rank)
      decreases MaxOf(rank) - rank[x]
    {
      if parent[x] == -1 {
        r := x;
        return;
      }
      ghost var p0 := parent[..];
      r := Find(parent[x]);
      ghost var p1 := parent[..];
      assert Root(p1, rank, x) == r;
      assert p1[x] != -1;
      CompressKeepsRoots(p1, rank, x);
      parent[x] := r;
      assert parent[..] == p1[x := r];
    }

    /** `unite(x, y)`: afterwards x and y are in one set, and the sets are
        exactly the components of the edges united so far. */
    method Unite(x: int, y: int)
      requires Valid() && 0 <= x < parent.Length && 0 <= y < parent.Length
      modifies this, parent
      ensures Valid() && parent == old(parent) && edges == old(edges) + {(x, y)}
      ensures Joined(x, y)
    {
      ghost var L0 := Roots(parent[..], rank);
      var rootX := Find(x);
      var rootY := Find(y);
      ghost var p := parent[..];
      if rootX != rootY {
        LinkRedirectsAll(p, rank, rootX, rootY);
        parent[rootX] := rootY;
        assert parent[..] == p[rootX := rootY];
        rank := Relink(rank, rootX, rootY);
      }
      MergeLabels(L0, edges, x, y, Roots(parent[..], rank));
      edges := edges + {(x, y)};
      ReachEdge(edges, x, y);
    }
  }
}
