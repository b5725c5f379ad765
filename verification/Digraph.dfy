/**
  Finite directed graphs given by adjacency lists, with reachability along one or
  more edges. The gate graph, the package graph and the project-reference graph are
  all values of this type; a listed node without a key of its own is a leaf. A set closed
  under the edges contains all that is reachable from it, and listing every node after
  its successors rules out cycles.
 */
module Digraph {
  import opened Sequences

  type Graph<!N(==)> = map<N, seq<N>>

  ghost predicate Edge<N>(g: Graph<N>, a: N, b: N) {
    a in g && b in g[a]
  }

  ghost predicate IsWalk<N>(g: Graph<N>, walk: seq<N>) {
    forall i, j :: 0 <= i < j < |walk| && j == i + 1 ==> Edge(g, walk[i], walk[j])
  }

  ghost predicate WalkFromTo<N>(g: Graph<N>, walk: seq<N>, a: N, b: N) {
    |walk| >= 1 && walk[0] == a && walk[|walk| - 1] == b && IsWalk(g, walk)
  }

  /** `b` can be reached from `a` along at least one edge. */
  ghost predicate Reaches<N(!new)>(g: Graph<N>, a: N, b: N) {
    exists walk: seq<N> :: |walk| >= 2 && WalkFromTo(g, walk, a, b)
  }

  ghost predicate Acyclic<N(!new)>(g: Graph<N>) {
    forall a :: !Reaches(g, a, a)
  }

  /** Every listed edge ends at a node of the graph. */
  ghost predicate Closed<N>(g: Graph<N>) {
    forall a, b :: a in g && b in g[a] ==> b in g
  }

  lemma EdgeReaches<N(!new)>(g: Graph<N>, a: N, b: N)
    requires Edge(g, a, b)
    ensures Reaches(g, a, b)
  {
    var walk := [a, b];
    assert |walk| >= 2 && WalkFromTo(g, walk, a, b);
  }

  lemma ReachesTransitive<N(!new)>(g: Graph<N>, a: N, b: N, c: N)
    requires Reaches(g, a, b) && Reaches(g, b, c)
    ensures Reaches(g, a, c)
  {
    var p :| |p| >= 2 && WalkFromTo(g, p, a, b);
    var q :| |q| >= 2 && WalkFromTo(g, q, b, c);
    assert |p + q[1..]| >= 2;
  }

  /** A walk of two or more nodes splits into its first edge and the rest. */
  lemma ReachesFirstEdge<N(!new)>(g: Graph<N>, a: N, c: N) returns (b: N)
    requires Reaches(g, a, c)
    ensures Edge(g, a, b) && (b == c || Reaches(g, b, c))
  {
    var p :| |p| >= 2 && WalkFromTo(g, p, a, c);
    b := p[1];
    assert Edge(g, p[0], p[1]);
    if |p| > 2 {
      var q := p[1..];
      assert |q| >= 2 && WalkFromTo(g, q, b, c);
    }
  }

  /** A set closed under edges contains everything reachable from its members. */
  lemma ClosedSetContainsReachable<N(!new)>(g: Graph<N>, s: iset<N>, a: N, b: N)
    requires forall x, y :: x in s && Edge(g, x, y) ==> y in s
    requires a in s && Reaches(g, a, b)
    ensures b in s
  {
    var p :| |p| >= 2 && WalkFromTo(g, p, a, b);
    WalkStaysInside(g, s, p, |p| - 1);
  }

  lemma {:induction false} WalkStaysInside<N(!new)>(g: Graph<N>, s: iset<N>, p: seq<N>, k: nat)
    requires forall x, y :: x in s && Edge(g, x, y) ==> y in s
    requires k < |p| && IsWalk(g, p) && p[0] in s
    ensures p[k] in s
  {
    if k > 0 {
      WalkStaysInside(g, s, p, k - 1);
      assert Edge(g, p[k - 1], p[k]);
    }
  }

  /** The keys reachable from `a`; its size is a measure that falls along every edge of an acyclic graph. */
  ghost function Below<N(!new)>(g: Graph<N>, a: N): set<N> {
    set d | d in g && Reaches(g, a, d)
  }

  ghost function Rank<N(!new)>(g: Graph<N>, a: N): nat {
    |Below(g, a)|
  }

  lemma RankDecreases<N(!new)>(g: Graph<N>, a: N, b: N)
    requires Acyclic(g) && Reaches(g, a, b) && b in g
    ensures Rank(g, b) < Rank(g, a)
  {
    forall d | d in Below(g, b) ensures d in Below(g, a) {
      ReachesTransitive(g, a, b, d);
    }
    assert b in Below(g, a) && b !in Below(g, b);
    SubsetSize(Below(g, b), Below(g, a));
  }

  /** Well-founded descent: a nonempty set of nodes of an acyclic graph has a member with no edge into the set. */
  lemma MinimalMember<N(!new)>(g: Graph<N>, s: set<N>) returns (m: N)
    requires Acyclic(g) && s != {} && s <= g.Keys
    ensures m in s && forall d :: d in g[m] ==> d !in s
  {
    m :| m in s;
    while exists d :: d in g[m] && d in s
      invariant m in s
      decreases Rank(g, m)
    {
      var d :| d in g[m] && d in s;
      EdgeReaches(g, m, d);
      RankDecreases(g, m, d);
      m := d;
    }
  }

  // ---- topological orders ----

  /** Every dependency of a listed node that is itself a key is listed before it. */
  ghost predicate DependenciesFirst<N>(g: Graph<N>, order: seq<N>) {
    forall i, d {:trigger Edge(g, order[i], d)} :: 0 <= i < |order| && Edge(g, order[i], d) && d in g ==>
      d in order[..i]
  }

  lemma {:induction false} WalkDescendsOrder<N(!new)>(g: Graph<N>, order: seq<N>, walk: seq<N>, k: nat)
      returns (i: nat, j: nat)
    requires DependenciesFirst(g, order)
    requires 1 <= k < |walk| && IsWalk(g, walk) && walk[0] in order && walk[k] in g
    ensures j < i < |order| && order[i] == walk[0] && order[j] == walk[k]
    decreases k
  {
    if k == 1 {
      i :| 0 <= i < |order| && order[i] == walk[0];
      assert Edge(g, walk[0], walk[1]);
      j :| 0 <= j < i && order[..i][j] == walk[1];
    } else {
      assert Edge(g, walk[k - 1], walk[k]);
      var m: nat;
      i, m := WalkDescendsOrder(g, order, walk, k - 1);
      j :| 0 <= j < m && order[..m][j] == walk[k];
    }
  }

  /** Nodes listed after all their dependencies lie on no cycle. */
  lemma OrderedNodesOnNoCycle<N(!new)>(g: Graph<N>, order: seq<N>, a: N)
    requires DependenciesFirst(g, order) && Distinct(order) && a in order
    ensures !Reaches(g, a, a)
  {
    if Reaches(g, a, a) {
      var b := ReachesFirstEdge(g, a, a);
      var walk :| |walk| >= 2 && WalkFromTo(g, walk, a, a);
      var i, j := WalkDescendsOrder(g, order, walk, |walk| - 1);
      assert false;
    }
  }

  /** A dependencies-first order of all the keys exists only for closed acyclic graphs. */
  lemma OrderedImpliesAcyclic<N(!new)>(g: Graph<N>, order: seq<N>)
    requires Distinct(order) && DependenciesFirst(g, order)
    requires forall a :: a in g ==> a in order
    ensures Acyclic(g)
  {
    forall a ensures !Reaches(g, a, a) {
      if Reaches(g, a, a) {
        var b := ReachesFirstEdge(g, a, a);
        OrderedNodesOnNoCycle(g, order, a);
      }
    }
  }
}
