/**
  The stack-and-visited traversal shared by the project-reference tools. Nodes outside the graph
  may be listed and pushed; they are never visited. A finished traversal has visited exactly the
  nodes that can be reached from its roots.
 */
module Worklist {
  import opened Digraph

  ghost predicate FromRoots<N(!new)>(g: Graph<N>, roots: seq<N>, n: N) {
    n in roots || exists r :: r in roots && Reaches(g, r, n)
  }

  ghost predicate ReachesConfig<N(!new)>(g: Graph<N>, roots: seq<N>, n: N) {
    n in g && FromRoots(g, roots, n)
  }

  /** Between two steps: everything seen comes from the roots, and no edge of a visited node is forgotten. */
  ghost predicate Frontier<N(!new)>(g: Graph<N>, roots: seq<N>, visited: set<N>, pending: seq<N>) {
    && visited <= g.Keys
    && (forall n :: n in visited || n in pending ==> FromRoots(g, roots, n))
    && (forall r :: r in roots ==> r in visited || r in pending || r !in g)
    && (forall n, d :: n in visited && Edge(g, n, d) ==> d in visited || d in pending || d !in g)
  }

  lemma StepFromRoots<N(!new)>(g: Graph<N>, roots: seq<N>, n: N, d: N)
    requires FromRoots(g, roots, n) && Edge(g, n, d)
    ensures FromRoots(g, roots, d)
  {
    EdgeReaches(g, n, d);
    if n !in roots {
      var r :| r in roots && Reaches(g, r, n);
      ReachesTransitive(g, r, n, d);
    }
  }

  /** Popping a node already visited, or outside the graph. */
  lemma Skip<N(!new)>(g: Graph<N>, roots: seq<N>, visited: set<N>, pending: seq<N>)
    requires Frontier(g, roots, visited, pending) && pending != []
    requires pending[|pending| - 1] in visited || pending[|pending| - 1] !in g
    ensures Frontier(g, roots, visited, pending[..|pending| - 1])
  {
    assert pending == pending[..|pending| - 1] + [pending[|pending| - 1]];
  }

  /** Popping a new node and pushing its successors. */
  lemma Visit<N(!new)>(g: Graph<N>, roots: seq<N>, visited: set<N>, pending: seq<N>, pushed: seq<N>)
    requires Frontier(g, roots, visited, pending) && pending != []
    requires var n := pending[|pending| - 1]; n in g && forall d :: d in pushed <==> d in g[n]
    ensures Frontier(g, roots, visited + {pending[|pending| - 1]}, pending[..|pending| - 1] + pushed)
  {
    var n := pending[|pending| - 1];
    assert pending == pending[..|pending| - 1] + [n];
    forall d | d in pushed ensures FromRoots(g, roots, d) {
      assert Edge(g, n, d);
      StepFromRoots(g, roots, n, d);
    }
  }

  /** When the stack is empty, the visited nodes are the reachable ones. */
  lemma Done<N(!new)>(g: Graph<N>, roots: seq<N>, visited: set<N>)
    requires Frontier(g, roots, visited, [])
    ensures forall n :: n in visited <==> ReachesConfig(g, roots, n)
  {
    forall n | ReachesConfig(g, roots, n) ensures n in visited {
      if n !in roots {
        var r :| r in roots && Reaches(g, r, n);
        var first := ReachesFirstEdge(g, r, n);
        ReachedVisited(g, visited, r, n);
      }
    }
  }

  lemma ReachedVisited<N(!new)>(g: Graph<N>, visited: set<N>, r: N, n: N)
    requires forall a, d :: a in visited && Edge(g, a, d) ==> d in visited || d !in g
    requires r in visited && Reaches(g, r, n)
    ensures n in visited || n !in g
  {
    var closed := iset a | a in visited || a !in g;
    ClosedSetContainsReachable(g, closed, r, n);
  }
}
