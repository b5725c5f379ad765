/**
  Validation of an aggregate's dependency graph: ids are unique, every need names a
  gate of the aggregate, and a three-colour depth-first search finds no cycle.
 */
module GateGraph {
  import opened Wrappers
  import opened Digraph
  import opened Sequences

  datatype Gate = Gate(id: string, needs: seq<string>, allowFailure: bool)

  datatype GraphError =
    | NoGates
    | DuplicateId(id: string)
    | UnknownDependency(gate: string, dependency: string)
    | DependencyCycle(path: seq<string>)

  /** The `byId` map of the search; a later gate with the same id replaces an earlier one. */
  function NeedsGraph(gates: seq<Gate>): (g: Graph<string>)
    ensures forall id :: id in g <==> exists i :: 0 <= i < |gates| && gates[i].id == id
    ensures DistinctIds(gates) ==> forall i :: 0 <= i < |gates| ==> g[gates[i].id] == gates[i].needs
  {
    if gates == [] then map[]
    else
      var last := gates[|gates| - 1];
      var init := gates[..|gates| - 1];
      assert gates == init + [last];
      NeedsGraph(init)[last.id := last.needs]
  }

  predicate DistinctIds(gates: seq<Gate>) {
    forall i, j :: 0 <= i < j < |gates| ==> gates[i].id != gates[j].id
  }

  ghost predicate ValidGateGraph(gates: seq<Gate>) {
    && gates != []
    && DistinctIds(gates)
    && Closed(NeedsGraph(gates))
    && Acyclic(NeedsGraph(gates))
  }

  /** A closed walk: consecutive ids are needs edges and the first id is the last. */
  ghost predicate IsCycle<N>(g: Graph<N>, walk: seq<N>) {
    |walk| >= 2 && WalkFromTo(g, walk, walk[0], walk[0])
  }

  lemma CycleRefutesAcyclic<N(!new)>(g: Graph<N>, walk: seq<N>)
    requires IsCycle(g, walk)
    ensures !Acyclic(g)
  {
    assert Reaches(g, walk[0], walk[0]);
  }

  /** The grey nodes form the current walk, and `active` holds each one's position on it. */
  ghost predicate GreyWalk<N>(g: Graph<N>, path: seq<N>, active: map<N, nat>) {
    && active.Keys <= g.Keys
    && (forall id {:trigger id in path} :: id in active ==> id in path)
    && (forall i :: 0 <= i < |path| ==> path[i] in active && active[path[i]] == i)
    && IsWalk(g, path)
  }

  /** The black nodes were finished in an order that lists dependencies first. */
  ghost predicate BlackOrder<N>(g: Graph<N>, complete: set<N>, finished: seq<N>) {
    && (forall id {:trigger id in finished} :: id in complete ==> id in finished)
    && (forall i :: 0 <= i < |finished| ==> finished[i] in complete)
    && Distinct(finished)
    && DependenciesFirst(g, finished)
  }

  ghost predicate MayEnter<N>(g: Graph<N>, path: seq<N>, id: N) {
    path != [] ==> Edge(g, path[|path| - 1], id)
  }

  lemma PushKeepsWalk<N>(g: Graph<N>, path: seq<N>, id: N)
    requires IsWalk(g, path) && MayEnter(g, path, id)
    ensures IsWalk(g, path + [id])
  {
  }

  lemma PushKeepsGrey<N>(g: Graph<N>, path: seq<N>, active: map<N, nat>, id: N)
    requires GreyWalk(g, path, active) && MayEnter(g, path, id) && id in g && id !in active
    ensures GreyWalk(g, path + [id], active[id := |path|])
  {
    var pushed, grey := path + [id], active[id := |path|];
    PushKeepsWalk(g, path, id);
    assert forall x :: x in grey ==> x in pushed;
    assert forall i :: 0 <= i < |pushed| ==> pushed[i] in grey && grey[pushed[i]] == i;
  }

  lemma FinishKeepsBlack<N>(g: Graph<N>, complete: set<N>, finished: seq<N>, id: N)
    requires BlackOrder(g, complete, finished) && id in g && id !in complete
    requires forall d :: d in g[id] && d in g ==> d in complete
    ensures BlackOrder(g, complete + {id}, finished + [id])
  {
    var order := finished + [id];
    forall i, d | 0 <= i < |order| && Edge(g, order[i], d) && d in g
      ensures d in order[..i]
    {
      assert order[..i] == finished[..i];
    }
  }

  /** The grey walk from a revisited node, closed by that node, is a cycle. */
  lemma RevisitClosesCycle<N>(g: Graph<N>, path: seq<N>, active: map<N, nat>, id: N)
    requires GreyWalk(g, path, active) && id in active && MayEnter(g, path, id)
    ensures active[id] < |path| && IsCycle(g, path[active[id]..] + [id])
  {
    assert id in path;
    var start := active[id];
    var walk := path[start..] + [id];
    forall i, j | 0 <= i < j < |walk| && j == i + 1 ensures Edge(g, walk[i], walk[j]) {
      if j < |walk| - 1 { assert Edge(g, path[start + i], path[start + j]); }
    }
  }

  /** The search's mutable state: `complete` is black, `active` is grey with its position in `path`. */
  class CycleFinder {
    const byId: Graph<string>
    var complete: set<string>
    var active: map<string, nat>
    var path: seq<string>
    ghost var finished: seq<string>

    ghost predicate Valid()
      reads this
    {
      GreyWalk(byId, path, active) && BlackOrder(byId, complete, finished) && complete !! active.Keys
    }

    constructor (byId: Graph<string>)
      ensures Valid() && this.byId == byId && path == [] && active == map[]
    {
      this.byId := byId;
      complete, active, path, finished := {}, map[], [], [];
    }

    method Visit(id: string) returns (cycle: Option<seq<string>>)
      requires Valid() && MayEnter(byId, path, id)
      modifies this
      ensures cycle.Some? ==> IsCycle(byId, cycle.value)
      ensures cycle.None? ==> Valid() && path == old(path) && active == old(active)
      ensures cycle.None? ==> old(complete) <= complete && (id in byId ==> id in complete)
      decreases byId.Keys - active.Keys
    {
      if id in complete { return None; }
      if id in active {
        RevisitClosesCycle(byId, path, active, id);
        return Some(path[active[id]..] + [id]);
      }
      if id !in byId { return None; }

      var needs := byId[id];
      PushKeepsGrey(byId, path, active, id);
      active := active[id := |path|];
      path := path + [id];
      for k := 0 to |needs|
        invariant Valid() && id !in complete
        invariant path == old(path) + [id] && active == old(active)[id := |old(path)|]
        invariant old(complete) <= complete
        invariant forall j :: 0 <= j < k && needs[j] in byId ==> needs[j] in complete
      {
        assert id in byId.Keys - old(active).Keys && id !in byId.Keys - active.Keys;
        cycle := Visit(needs[k]);
        if cycle.Some? { return; }
      }
      path := path[..|path| - 1];
      active := active - {id};
      assert path == old(path) && active == old(active);
      FinishKeepsBlack(byId, complete, finished, id);
      complete := complete + {id};
      finished := finished + [id];
      return None;
    }
  }

  /** `undefined` exactly on acyclic graphs; otherwise a closed walk along needs edges. */
  method FindDependencyCycle(gates: seq<Gate>) returns (cycle: Option<seq<string>>)
    ensures cycle.None? <==> Acyclic(NeedsGraph(gates))
    ensures cycle.Some? ==> IsCycle(NeedsGraph(gates), cycle.value)
  {
    var finder := new CycleFinder(NeedsGraph(gates));
    for k := 0 to |gates|
      invariant finder.Valid() && finder.path == [] && finder.byId == NeedsGraph(gates)
      invariant forall j :: 0 <= j < k ==> gates[j].id in finder.complete
    {
      cycle := finder.Visit(gates[k].id);
      if cycle.Some? {
        CycleRefutesAcyclic(NeedsGraph(gates), cycle.value);
        return;
      }
    }
    OrderedImpliesAcyclic(finder.byId, finder.finished);
    return None;
  }

  method CollectIds(gates: seq<Gate>) returns (ids: set<string>, duplicate: Option<nat>)
    ensures duplicate.None? ==> DistinctIds(gates)
    ensures duplicate.None? ==> forall id :: id in ids <==> id in NeedsGraph(gates)
    ensures duplicate.Some? ==> duplicate.value < |gates| && IsFirstDuplicate(gates, duplicate.value)
  {
    ids := {};
    for k := 0 to |gates|
      invariant DistinctIds(gates[..k])
      invariant forall id :: id in ids ==> exists i :: 0 <= i < k && gates[i].id == id
      invariant forall i :: 0 <= i < k ==> gates[i].id in ids
    {
      if gates[k].id in ids { return ids, Some(k); }
      ids := ids + {gates[k].id};
    }
    assert gates[..|gates|] == gates;
    return ids, None;
  }

  /** Gate `j` repeats an earlier id, and no gate before it does. */
  ghost predicate IsFirstDuplicate(gates: seq<Gate>, j: nat)
    requires j < |gates|
  {
    DistinctIds(gates[..j]) && exists i :: 0 <= i < j && gates[i].id == gates[j].id
  }

  ghost predicate ErrorDescribes(gates: seq<Gate>, error: GraphError) {
    var g := NeedsGraph(gates);
    match error
    case NoGates => gates == []
    case DuplicateId(id) => exists j :: 0 <= j < |gates| && gates[j].id == id && IsFirstDuplicate(gates, j)
    case UnknownDependency(id, need) => DistinctIds(gates) && Edge(g, id, need) && need !in g
    case DependencyCycle(path) => DistinctIds(gates) && Closed(g) && IsCycle(g, path)
  }

  lemma ErrorRefutesValid(gates: seq<Gate>, error: GraphError)
    requires ErrorDescribes(gates, error)
    ensures !ValidGateGraph(gates)
  {
    match error {
      case DuplicateId(id) =>
        var j :| 0 <= j < |gates| && gates[j].id == id && IsFirstDuplicate(gates, j);
      case DependencyCycle(path) => CycleRefutesAcyclic(NeedsGraph(gates), path);
      case _ =>
    }
  }

  /** The checks in the order the runner makes them; the error names the first check that fails. */
  method ValidateGateGraph(gates: seq<Gate>) returns (error: Option<GraphError>)
    ensures error.None? <==> ValidGateGraph(gates)
    ensures error.Some? ==> ErrorDescribes(gates, error.value)
  {
    if |gates| == 0 { return Some(NoGates); }
    var ids, duplicate := CollectIds(gates);
    if duplicate.Some? {
      error := Some(DuplicateId(gates[duplicate.value].id));
      ErrorRefutesValid(gates, error.value);
      return;
    }
    ghost var g := NeedsGraph(gates);
    for k := 0 to |gates|
      invariant forall i, m :: 0 <= i < k && 0 <= m < |gates[i].needs| ==> gates[i].needs[m] in ids
    {
      for n := 0 to |gates[k].needs|
        invariant forall m :: 0 <= m < n ==> gates[k].needs[m] in ids
      {
        if gates[k].needs[n] !in ids {
          error := Some(UnknownDependency(gates[k].id, gates[k].needs[n]));
          assert Edge(g, gates[k].id, gates[k].needs[n]);
          ErrorRefutesValid(gates, error.value);
          return;
        }
      }
    }
    assert Closed(g) by {
      forall a, b | a in g && b in g[a] ensures b in g {
        var i :| 0 <= i < |gates| && gates[i].id == a;
        assert g[gates[i].id] == gates[i].needs;
      }
    }
    var cycle := FindDependencyCycle(gates);
    if cycle.Some? {
      error := Some(DependencyCycle(cycle.value));
      ErrorRefutesValid(gates, error.value);
      return;
    }
    return None;
  }
}
