/**
  Checking that project references never enter the wrong leaf of a project split into Host and
  Client configs. The traversal does not follow a violating reference, yet reports one exactly
  when some reachable reference is wrong.
 */
module ReferenceFaces {
  import opened Wrappers
  import opened Digraph
  import opened Sequences
  import opened Worklist

  datatype Face = Host | Client

  /** A config as read: the config it extends locally, and its references resolved to configs. */
  datatype Config<N> = Config(extended: Option<N>, references: seq<N>)

  /**
    The workspace: its existing configs, the face some of them have by their own path, the split
    project a config path lies in, and the two leaves of a split project.
   */
  datatype Workspace<!N(==)> = Workspace(
    configs: map<N, Config<N>>,
    named: N -> Option<Face>,
    splitRoot: N -> Option<N>,
    leaf: (N, Face) -> N)

  // ---- faces ----

  /** The face of an existing config: its own, or that of the config it extends. */
  function FaceOf<N>(w: Workspace<N>, path: N, seen: set<N>): Option<Face>
    requires path in w.configs
    decreases w.configs.Keys - seen
  {
    if w.named(path).Some? then w.named(path)
    else if path in seen then None
    else
      var parent := w.configs[path].extended;
      if parent.None? || parent.value !in w.configs then None
      else FaceOf(w, parent.value, seen + {path})
  }

  /** A chain of extended configs, none repeated, whose last one alone has a face of its own. */
  ghost predicate IsChain<N>(w: Workspace<N>, chain: seq<N>, face: Face) {
    && chain != [] && Distinct(chain)
    && (forall i :: 0 <= i < |chain| ==> chain[i] in w.configs)
    && (forall i :: 0 <= i < |chain| - 1 ==> w.named(chain[i]).None?)
    && (forall i, j :: 0 <= i < j < |chain| && j == i + 1 ==> w.configs[chain[i]].extended == Some(chain[j]))
    && w.named(chain[|chain| - 1]) == Some(face)
  }

  lemma {:induction false} ChainGivesFace<N>(w: Workspace<N>, chain: seq<N>, face: Face, seen: set<N>)
    requires IsChain(w, chain, face) && forall i :: 0 <= i < |chain| ==> chain[i] !in seen
    ensures FaceOf(w, chain[0], seen) == Some(face)
    decreases |chain|
  {
    if |chain| > 1 {
      assert w.configs[chain[0]].extended == Some(chain[1]);
      ChainGivesFace(w, chain[1..], face, seen + {chain[0]});
    }
  }

  lemma {:induction false} FaceGivesChain<N>(w: Workspace<N>, path: N, seen: set<N>) returns (chain: seq<N>)
    requires path in w.configs && FaceOf(w, path, seen).Some? && (path in seen ==> w.named(path).Some?)
    ensures IsChain(w, chain, FaceOf(w, path, seen).value) && chain[0] == path
    ensures forall i :: 0 <= i < |chain| && w.named(chain[i]).None? ==> chain[i] !in seen
    decreases w.configs.Keys - seen
  {
    if w.named(path).Some? {
      chain := [path];
    } else {
      var rest := FaceGivesChain(w, w.configs[path].extended.value, seen + {path});
      chain := [path] + rest;
    }
  }

  /** A config has a face exactly when a chain of extended configs leads to one named after it. */
  lemma FaceIffChain<N(!new)>(w: Workspace<N>, path: N, face: Face)
    requires path in w.configs
    ensures FaceOf(w, path, {}) == Some(face) <==> exists chain :: IsChain(w, chain, face) && chain[0] == path
  {
    if FaceOf(w, path, {}) == Some(face) {
      var chain := FaceGivesChain(w, path, {});
    }
    forall chain | IsChain(w, chain, face) && chain[0] == path ensures FaceOf(w, path, {}) == Some(face) {
      ChainGivesFace(w, chain, face, {});
    }
  }

  // ---- the check ----

  /** A reference into a split project from a config with no face, or with one whose leaf is another. */
  datatype Violation<N> = Violation(from: N, to: N, expected: Option<N>)

  /** A reference may enter a split project only at the leaf of the referring config's face. */
  function Objection<N(==)>(w: Workspace<N>, from: N, to: N): Option<Violation<N>>
    requires from in w.configs
  {
    var split := w.splitRoot(to);
    if split.None? then None
    else
      var face := FaceOf(w, from, {});
      if face.None? then Some(Violation(from, to, None))
      else
        var expected := w.leaf(split.value, face.value);
        if to != expected then Some(Violation(from, to, Some(expected))) else None
  }

  ghost predicate HasFace<N(!new)>(w: Workspace<N>, path: N, face: Face) {
    exists chain :: IsChain(w, chain, face) && chain[0] == path
  }

  /** The wrong references, said over the chains of extended configs. */
  ghost predicate IsViolation<N(!new)>(w: Workspace<N>, v: Violation<N>) {
    && v.from in w.configs && v.to in w.configs[v.from].references
    && w.splitRoot(v.to).Some?
    && (v.expected.None? ==> forall face :: !HasFace(w, v.from, face))
    && v.expected != Some(v.to)
    && (v.expected.Some? ==>
          exists face :: HasFace(w, v.from, face) && v.expected.value == w.leaf(w.splitRoot(v.to).value, face))
  }

  lemma ObjectionIff<N(!new)>(w: Workspace<N>, from: N, to: N, v: Violation<N>)
    requires from in w.configs && to in w.configs[from].references
    ensures Objection(w, from, to) == Some(v) <==> v.from == from && v.to == to && IsViolation(w, v)
  {
    forall face ensures HasFace(w, from, face) <==> FaceOf(w, from, {}) == Some(face) { FaceIffChain(w, from, face); }
  }

  function Followed<N(!new,==)>(w: Workspace<N>, from: N, references: seq<N>): (r: seq<N>)
    requires from in w.configs
    ensures forall d :: d in r <==> d in references && Objection(w, from, d).None?
  {
    if references == [] then []
    else
      var front, last := references[..|references| - 1], references[|references| - 1];
      assert references == front + [last];
      Followed(w, from, front) + (if Objection(w, from, last).None? then [last] else [])
  }

  /** The references the traversal follows. */
  ghost function FollowedGraph<N(!new)>(w: Workspace<N>): Graph<N> {
    map c | c in w.configs :: Followed(w, c, w.configs[c].references)
  }

  /** Every reference. */
  ghost function ReferenceGraph<N(!new)>(w: Workspace<N>): Graph<N> {
    map c | c in w.configs :: w.configs[c].references
  }

  /** The traversal follows exactly the references that are not wrong. */
  lemma FollowedIff<N(!new)>(w: Workspace<N>, from: N, to: N)
    ensures Edge(FollowedGraph(w), from, to) <==>
      Edge(ReferenceGraph(w), from, to) && forall v: Violation<N> :: v.from == from && v.to == to ==> !IsViolation(w, v)
  {
    if Edge(ReferenceGraph(w), from, to) {
      forall v ensures Objection(w, from, to) == Some(v) <==> v.from == from && v.to == to && IsViolation(w, v) {
        ObjectionIff(w, from, to, v);
      }
    }
  }

  /** The references of one config: those to follow, and a violation for each of the others. */
  method CheckReferences<N(!new,==)>(w: Workspace<N>, config: N) returns (pushed: seq<N>, violations: seq<Violation<N>>)
    requires config in w.configs
    ensures pushed == Followed(w, config, w.configs[config].references)
    ensures forall v :: v in violations <==> v.from == config && IsViolation(w, v)
  {
    pushed, violations := [], [];
    var references := w.configs[config].references;
    for i := 0 to |references|
      invariant pushed == Followed(w, config, references[..i])
      invariant forall v :: v in violations <==>
        v.from == config && v.to in references[..i] && Objection(w, config, v.to) == Some(v)
    {
      assert references[..i + 1][..i] == references[..i];
      var objection := Objection(w, config, references[i]);
      if objection.None? {
        pushed := pushed + [references[i]];
      } else {
        violations := violations + [objection.value];
      }
    }
    assert references[..|references|] == references;
    forall v: Violation<N> | v.to in references
      ensures Objection(w, config, v.to) == Some(v) <==> v.from == config && IsViolation(w, v)
    {
      ObjectionIff(w, config, v.to, v);
    }
  }

  method CollectViolations<N(!new,==)>(w: Workspace<N>, roots: seq<N>) returns (violations: seq<Violation<N>>)
    ensures forall v :: v in violations <==> ReachesConfig(FollowedGraph(w), roots, v.from) && IsViolation(w, v)
  {
    ghost var g := FollowedGraph(w);
    violations := [];
    var pending := roots;
    var visited: set<N> := {};
    while pending != []
      invariant Frontier(g, roots, visited, pending)
      invariant forall v :: v in violations <==> v.from in visited && IsViolation(w, v)
      decreases w.configs.Keys - visited, |pending|
    {
      var config := pending[|pending| - 1];
      if config in visited || config !in w.configs {
        Skip(g, roots, visited, pending);
        pending := pending[..|pending| - 1];
      } else {
        var pushed, found := CheckReferences(w, config);
        Visit(g, roots, visited, pending, pushed);
        pending := pending[..|pending| - 1] + pushed;
        visited := visited + {config};
        violations := violations + found;
      }
    }
    Done(g, roots, visited);
  }

  /**
    Following only allowed references loses nothing: either all reachable references are allowed, or
    a wrong one is met.
   */
  lemma NoViolationIff<N(!new)>(w: Workspace<N>, roots: seq<N>)
    ensures (forall v: Violation<N> :: ReachesConfig(FollowedGraph(w), roots, v.from) ==> !IsViolation(w, v)) <==>
      (forall v: Violation<N> :: ReachesConfig(ReferenceGraph(w), roots, v.from) ==> !IsViolation(w, v))
  {
    var followed, all := FollowedGraph(w), ReferenceGraph(w);
    forall n | ReachesConfig(followed, roots, n)
      ensures ReachesConfig(all, roots, n) { FollowedReachesAll(w, roots, n); }
    if forall v: Violation<N> :: ReachesConfig(followed, roots, v.from) ==> !IsViolation(w, v) {
      forall n | ReachesConfig(all, roots, n) ensures ReachesConfig(followed, roots, n) {
        AllReachesFollowed(w, roots, n);
      }
    }
  }

  lemma FollowedReachesAll<N(!new)>(w: Workspace<N>, roots: seq<N>, n: N)
    requires ReachesConfig(FollowedGraph(w), roots, n)
    ensures ReachesConfig(ReferenceGraph(w), roots, n)
  {
    var followed, all := FollowedGraph(w), ReferenceGraph(w);
    var reached := iset a | FromRoots(all, roots, a);
    forall x, y | x in reached && Edge(followed, x, y) ensures y in reached {
      FollowedIff(w, x, y);
      StepFromRoots(all, roots, x, y);
    }
    if n !in roots {
      var r :| r in roots && Reaches(followed, r, n);
      ClosedSetContainsReachable(followed, reached, r, n);
    }
  }

  lemma AllReachesFollowed<N(!new)>(w: Workspace<N>, roots: seq<N>, n: N)
    requires forall v: Violation<N> :: ReachesConfig(FollowedGraph(w), roots, v.from) ==> !IsViolation(w, v)
    requires ReachesConfig(ReferenceGraph(w), roots, n)
    ensures ReachesConfig(FollowedGraph(w), roots, n)
  {
    var followed, all := FollowedGraph(w), ReferenceGraph(w);
    var reached := iset a | FromRoots(followed, roots, a);
    forall x, y | x in reached && Edge(all, x, y) ensures y in reached {
      assert ReachesConfig(followed, roots, x);
      FollowedIff(w, x, y);
      StepFromRoots(followed, roots, x, y);
    }
    if n !in roots {
      var r :| r in roots && Reaches(all, r, n);
      ClosedSetContainsReachable(all, reached, r, n);
    }
  }
}
