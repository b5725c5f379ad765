/**
  The runner itself: the loop that fills slots in aggregate order, waits for whichever
  child settles first, and finally drains the gates that can never become ready. Every
  action it takes is a step of the scheduler's state machine.
 */
module GateRunner {
  import opened Wrappers
  import opened Digraph
  import opened Sequences
  import opened GateGraph
  import opened GateScheduler

  const MAX_SAFE_INTEGER: int := 0x1F_FFFF_FFFF_FFFF

  datatype GateResult = GateResult(gate: Gate, status: Status)

  datatype RunError =
    | InvalidGraph(graphError: GraphError)
    | InvalidConcurrency
    | Stalled
    | MissingResult(id: string)

  /** Among the gates that could be started or skipped now, the first of the aggregate is. */
  ghost predicate TakesFirst(p: Plan, s: State, e: Event) {
    forall i, j :: 0 <= i < j < |p.gates| ==>
      (e == Start(p.gates[j].id) ==> !Enabled(p, s, Start(p.gates[i].id)))
      && (e == Skip(p.gates[j].id) ==> !Enabled(p, s, Skip(p.gates[i].id)))
  }

  /** Every step of the log took the first gate it could. */
  ghost predicate InOrder(p: Plan, log: seq<Event>)
    requires Legal(p, log)
  {
    log == [] || (InOrder(p, log[..|log| - 1]) && TakesFirst(p, After(p, log[..|log| - 1]), log[|log| - 1]))
  }

  /** Appending an enabled step to a legal log is one application of the machine. */
  lemma ExtendLog(p: Plan, log: seq<Event>, e: Event)
    requires Legal(p, log) && Enabled(p, After(p, log), e)
    requires InOrder(p, log) && TakesFirst(p, After(p, log), e)
    ensures Legal(p, log + [e]) && After(p, log + [e]) == Apply(p, After(p, log), e) && InOrder(p, log + [e])
  {
    assert (log + [e])[..|log|] == log;
  }

  lemma GateOfId(gates: seq<Gate>, id: string) returns (i: nat)
    requires DistinctIds(gates) && id in NeedsGraph(gates)
    ensures i < |gates| && gates[i].id == id && NeedsGraph(gates)[id] == gates[i].needs
  {
    i :| 0 <= i < |gates| && gates[i].id == id;
  }

  function PendingStates(gates: seq<Gate>): map<string, Status> {
    map gate | gate in gates :: gate.id := Pending
  }

  /** `gates.filter` of the gates still pending. */
  function PendingGates(gates: seq<Gate>, states: map<string, Status>): seq<Gate> {
    if gates == [] then []
    else if gates[0].id in states && states[gates[0].id] == Pending then
      [gates[0]] + PendingGates(gates[1..], states)
    else PendingGates(gates[1..], states)
  }

  /** `pending.filter` of the gates other than one. */
  function Others(gates: seq<Gate>, gate: Gate): seq<Gate> {
    if gates == [] then []
    else if gates[0] == gate then Others(gates[1..], gate)
    else [gates[0]] + Others(gates[1..], gate)
  }

  lemma {:induction false} PendingMembers(gates: seq<Gate>, states: map<string, Status>, gate: Gate)
    ensures gate in PendingGates(gates, states) <==>
      gate in gates && gate.id in states && states[gate.id] == Pending
  {
    if gates != [] { PendingMembers(gates[1..], states, gate); }
  }

  /** The pending gates keep the order of the aggregate. */
  lemma {:induction false} PendingKeepsOrder(gates: seq<Gate>, states: map<string, Status>, i: nat, j: nat, k: nat)
      returns (m: nat)
    requires DistinctIds(gates) && i < j < |gates| && k < |PendingGates(gates, states)|
    requires PendingGates(gates, states)[k].id == gates[j].id
    requires gates[i].id in states && states[gates[i].id] == Pending
    ensures m < k && PendingGates(gates, states)[m] == gates[i]
  {
    var rest := gates[1..];
    var first := gates[0].id in states && states[gates[0].id] == Pending;
    if i > 0 {
      m := PendingKeepsOrder(rest, states, i - 1, j - 1, if first then k - 1 else k);
      m := if first then m + 1 else m;
    } else {
      m := 0;
    }
  }

  /** Skipping a pending gate removes it, and only it, from the pending list. */
  lemma {:induction false} SkipShrinksPending(gates: seq<Gate>, states: map<string, Status>, gate: Gate)
    requires DistinctIds(gates) && gate in PendingGates(gates, states)
    ensures Others(PendingGates(gates, states), gate) == PendingGates(gates, states[gate.id := Skipped])
    ensures |Others(PendingGates(gates, states), gate)| < |PendingGates(gates, states)|
  {
    PendingMembers(gates, states, gate);
    var rest := gates[1..];
    if gates[0] == gate {
      forall other | other in rest ensures other.id != gate.id { }
      NothingElseChanges(rest, states, gate);
    } else {
      PendingMembers(rest, states, gate);
      assert gates[0].id != gate.id;
      SkipShrinksPending(rest, states, gate);
    }
  }

  lemma {:induction false} NothingElseChanges(gates: seq<Gate>, states: map<string, Status>, gate: Gate)
    requires forall other :: other in gates ==> other.id != gate.id
    ensures Others(PendingGates(gates, states), gate) == PendingGates(gates, states)
    ensures PendingGates(gates, states[gate.id := Skipped]) == PendingGates(gates, states)
  {
    if gates != [] {
      assert gates[0] in gates;
      NothingElseChanges(gates[1..], states, gate);
    }
  }

  class Runner {
    const plan: Plan
    var states: map<string, Status>
    var results: map<string, Status>
    var running: seq<string>
    ghost var settled: seq<string>
    ghost var log: seq<Event>

    ghost predicate Valid()
      reads this
    {
      && plan.Valid()
      && Legal(plan, log) && InOrder(plan, log)
      && After(plan, log) == View()
      && (forall id {:trigger id in results} {:trigger id in settled} :: id in results <==> id in settled)
      && (forall id :: id in results ==> id in states && results[id] == states[id])
    }

    ghost function View(): State
      reads this
    {
      State(states, running, settled)
    }

    /** Steps still possible; every action of the loop spends at least one. */
    ghost function Fuel(): int
      reads this
    {
      2 * |plan.gates| - |log|
    }

    constructor (plan: Plan)
      requires plan.Valid()
      ensures Valid() && this.plan == plan && log == []
    {
      this.plan := plan;
      states := PendingStates(plan.gates);
      results, running := map[], [];
      settled, log := [], [];
      new;
    }

    /** `gates.find` over the ready condition. */
    method FindReady() returns (ready: Option<string>)
      requires Valid()
      ensures ready.Some? ==>
        Ready(plan, View(), ready.value) && TakesFirst(plan, View(), Start(ready.value))
      ensures ready.None? ==> forall id :: !Ready(plan, View(), id)
    {
      for k := 0 to |plan.gates|
        invariant NoneReady(k)
      {
        ReadyAt(k);
        var gate := plan.gates[k];
        if states[gate.id] == Pending && AllPassed(states, gate.needs) {
          FirstFound(k);
          return Some(gate.id);
        }
        OneMore(k);
      }
      NothingReady();
      return None;
    }

    ghost predicate NoneReady(k: nat)
      requires k <= |plan.gates|
      reads this
    {
      forall j :: 0 <= j < k ==> !Ready(plan, View(), plan.gates[j].id)
    }

    lemma OneMore(k: nat)
      requires k < |plan.gates| && NoneReady(k) && !Ready(plan, View(), plan.gates[k].id)
      ensures NoneReady(k + 1)
    {
    }

    lemma ReadyAt(k: nat)
      requires Valid() && k < |plan.gates|
      ensures var gate := plan.gates[k];
        && gate.id in states
        && (Ready(plan, View(), gate.id) <==> states[gate.id] == Pending && AllPassed(states, gate.needs))
    {
      RunInvariant(plan, log);
      assert plan.gates[k].id in plan.Needs() && plan.Needs()[plan.gates[k].id] == plan.gates[k].needs;
    }

    lemma NothingReady()
      requires Valid() && NoneReady(|plan.gates|)
      ensures forall id :: !Ready(plan, View(), id)
    {
      forall id | id in plan.Needs() ensures !Ready(plan, View(), id) {
        var i := GateOfId(plan.gates, id);
      }
    }

    lemma FirstFound(k: nat)
      requires Valid() && k < |plan.gates| && NoneReady(k)
      ensures TakesFirst(plan, View(), Start(plan.gates[k].id))
    {
    }

    /** A gate that may start has not been reported yet. */
    lemma ReadyIsUnreported(id: string)
      requires Valid() && Ready(plan, View(), id)
      ensures id !in results
    {
      RunInvariant(plan, log);
      assert id in settled <==> Terminal(View(), id);
    }

    method StartGate(id: string)
      requires Valid() && Enabled(plan, View(), Start(id)) && TakesFirst(plan, View(), Start(id))
      modifies this
      ensures Valid() && log == old(log) + [Start(id)] && Fuel() < old(Fuel())
    {
      ReadyIsUnreported(id);
      ExtendLog(plan, log, Start(id));
      states := states[id := Running];
      running := running + [id];
      log := log + [Start(id)];
    }

    method SettleSlot(slot: nat, status: Outcome)
      requires Valid() && Enabled(plan, View(), Settle(slot)) && status == plan.outcome(running[slot])
      modifies this
      ensures Valid() && log == old(log) + [Settle(slot)] && Fuel() < old(Fuel())
    {
      ExtendLog(plan, log, Settle(slot));
      var id := running[slot];
      running := RemoveAt(running, slot);
      states := states[id := status];
      results := results[id := status];
      settled := settled + [id];
      log := log + [Settle(slot)];
    }

    method SkipGate(id: string)
      requires Valid() && Enabled(plan, View(), Skip(id)) && TakesFirst(plan, View(), Skip(id))
      modifies this
      ensures Valid() && log == old(log) + [Skip(id)] && running == old(running)
      ensures states == old(states)[id := Skipped] && settled == old(settled) + [id]
    {
      ExtendLog(plan, log, Skip(id));
      states := states[id := Skipped];
      results := results[id := Skipped];
      settled := settled + [id];
      log := log + [Skip(id)];
    }

    method FillSlots() returns (madeProgress: bool)
      requires Valid()
      modifies this
      ensures Valid() && !CanStart(plan, View())
      ensures madeProgress ==> Fuel() < old(Fuel())
      ensures !madeProgress ==> log == old(log)
    {
      madeProgress := false;
      while |running| < plan.maxActive
        invariant Valid()
        invariant madeProgress ==> Fuel() < old(Fuel())
        invariant !madeProgress ==> log == old(log)
        decreases Fuel()
      {
        RunsAreBounded(plan, log);
        var ready := FindReady();
        if ready.None? { break; }
        StartGate(ready.value);
        madeProgress := true;
        RunsAreBounded(plan, log);
      }
    }

    /** `Promise.race`: any running child may be the one that settles first. */
    method AwaitOne()
      requires Valid() && running != [] && !CanStart(plan, View())
      modifies this
      ensures Valid() && Fuel() < old(Fuel())
      ensures exists slot: nat :: slot < |old(running)| && log == old(log) + [Settle(slot)]
    {
      var slot: nat :| 0 <= slot < |running|;
      SettleSlot(slot, plan.outcome(running[slot]));
    }

    ghost predicate FirstBlocked(pending: seq<Gate>, k: nat)
      requires k < |pending|
      reads this
    {
      Blocked(states, pending[k].needs) && forall i :: 0 <= i < k ==> !Blocked(states, pending[i].needs)
    }

    /** The first blocked gate of the pending list is the first of the aggregate that can be skipped. */
    lemma SkipsFirst(pending: seq<Gate>, k: nat)
      requires Valid() && k < |pending| && pending == PendingGates(plan.gates, states) && FirstBlocked(pending, k)
      ensures TakesFirst(plan, View(), Skip(pending[k].id))
    {
      forall i, j | 0 <= i < j < |plan.gates| && plan.gates[j].id == pending[k].id
        ensures !Enabled(plan, View(), Skip(plan.gates[i].id))
      {
        if Enabled(plan, View(), Skip(plan.gates[i].id)) {
          PendingMembers(plan.gates, states, pending[k]);
          var g := GateOfId(plan.gates, plan.gates[i].id);
          var m := PendingKeepsOrder(plan.gates, states, i, j, k);
        }
      }
    }

    method FindBlocked(pending: seq<Gate>) returns (found: Option<Gate>)
      ensures found.Some? ==> exists k :: 0 <= k < |pending| && pending[k] == found.value && FirstBlocked(pending, k)
      ensures found.None? ==> forall gate :: gate in pending ==> !Blocked(states, gate.needs)
    {
      for k := 0 to |pending|
        invariant forall i :: 0 <= i < k ==> !Blocked(states, pending[i].needs)
      {
        if Blocked(states, pending[k].needs) { return Some(pending[k]); }
      }
      return None;
    }

    /** Why the drain never stalls: nothing runs and nothing is ready, so some pending gate is blocked. */
    lemma SomePendingBlocked(pending: seq<Gate>)
      requires Valid() && running == [] && !CanStart(plan, View())
      requires pending == PendingGates(plan.gates, states) && pending != []
      ensures exists gate :: gate in pending && Blocked(states, gate.needs)
    {
      RunInvariant(plan, log);
      PendingMembers(plan.gates, states, pending[0]);
      var e := StallFree(plan, View(), pending[0].id);
      assert e.Skip?;
      var i := GateOfId(plan.gates, e.id);
      PendingMembers(plan.gates, states, plan.gates[i]);
    }

    lemma SkipMakesNothingReady(before: State, id: string)
      requires plan.Valid() && before.running == [] && !CanStart(plan, before)
      ensures !CanStart(plan, State(before.states[id := Skipped], [], before.settled + [id]))
    {
      var after := State(before.states[id := Skipped], [], before.settled + [id]);
      forall x ensures Ready(plan, after, x) ==> Ready(plan, before, x) { }
    }

    /** One skip; `None` stands for the throw at the stalled branch. */
    method SkipFirst(pending: seq<Gate>) returns (rest: Option<seq<Gate>>)
      requires Valid() && running == [] && !CanStart(plan, View())
      requires pending == PendingGates(plan.gates, states) && pending != []
      modifies this
      ensures Valid() && running == [] && !CanStart(plan, View())
      ensures rest.Some? && rest.value == PendingGates(plan.gates, states) && |rest.value| < |pending|
    {
      SomePendingBlocked(pending);
      var found := FindBlocked(pending);
      if found.None? { return None; }
      var gate := found.value;
      CanBeSkipped(pending, gate);
      SkipShrinksPending(plan.gates, states, gate);
      SkipGate(gate.id);
      return Some(Others(pending, gate));
    }

    /** The first blocked gate of the pending list can be skipped, and is the first of the aggregate that can. */
    lemma CanBeSkipped(pending: seq<Gate>, gate: Gate)
      requires Valid() && running == [] && !CanStart(plan, View()) && pending == PendingGates(plan.gates, states)
      requires exists k :: 0 <= k < |pending| && pending[k] == gate && FirstBlocked(pending, k)
      ensures Enabled(plan, View(), Skip(gate.id)) && TakesFirst(plan, View(), Skip(gate.id))
      ensures !CanStart(plan, State(states[gate.id := Skipped], [], settled + [gate.id])) && gate in pending
    {
      var k :| 0 <= k < |pending| && pending[k] == gate && FirstBlocked(pending, k);
      SkipsFirst(pending, k);
      PendingMembers(plan.gates, states, gate);
      RunInvariant(plan, log);
      SkipMakesNothingReady(View(), gate.id);
    }

    /** The final loop; `false` stands for the throw at its stalled branch. */
    method DrainSkipped() returns (ok: bool)
      requires Valid() && running == [] && !CanStart(plan, View())
      modifies this
      ensures ok && Valid() && Terminated(plan, log)
    {
      var pending := PendingGates(plan.gates, states);
      while pending != []
        invariant Valid() && running == [] && !CanStart(plan, View())
        invariant pending == PendingGates(plan.gates, states)
        decreases |pending|
      {
        var rest := SkipFirst(pending);
        if rest.None? { return false; }
        pending := rest.value;
      }
      NothingLeftToDo();
      return true;
    }

    lemma NothingLeftToDo()
      requires Valid() && running == [] && !CanStart(plan, View()) && PendingGates(plan.gates, states) == []
      ensures Terminated(plan, log)
    {
      forall e ensures !Enabled(plan, View(), e) {
        if e.Skip? && Enabled(plan, View(), e) {
          var i := GateOfId(plan.gates, e.id);
          PendingMembers(plan.gates, states, plan.gates[i]);
        }
      }
    }

    /** The scheduling loop, from the first start to the last skip. */
    method Schedule() returns (ok: bool)
      requires Valid()
      modifies this
      ensures ok && Valid() && Terminated(plan, log)
    {
      while true
        invariant Valid()
        decreases Fuel()
      {
        RunsAreBounded(plan, log);
        var madeProgress := FillSlots();
        if |running| == 0 {
          ok := DrainSkipped();
          return;
        }
        if !madeProgress {
          AwaitOne();
        }
        RunsAreBounded(plan, log);
      }
    }

    lemma ResultsAreVerdicts()
      requires Valid() && Terminated(plan, log)
      ensures forall id :: id in plan.Needs() ==> id in results && results[id] == Verdict(plan, id)
    {
      TerminatedRunsReachVerdict(plan, log);
      assert After(plan, log) == View();
      forall id | id in plan.Needs() ensures id in results && results[id] == Verdict(plan, id) {
        assert id in settled;
      }
    }

    method Report() returns (r: Result<seq<GateResult>, RunError>)
      requires Valid() && Terminated(plan, log)
      ensures r.Ok? && IsReport(plan, r.value)
    {
      ResultsAreVerdicts();
      r := Collect(plan, results);
    }
  }

  /** `gates.map` over the results; a missing one is the runner's last throw. */
  method Collect(p: Plan, results: map<string, Status>) returns (r: Result<seq<GateResult>, RunError>)
    requires p.Valid() && forall id :: id in p.Needs() ==> id in results && results[id] == Verdict(p, id)
    ensures r.Ok? && IsReport(p, r.value)
  {
    var ordered: seq<GateResult> := [];
    for k := 0 to |p.gates|
      invariant |ordered| == k
      invariant forall i :: 0 <= i < k ==> ordered[i] == GateResult(p.gates[i], Verdict(p, p.gates[i].id))
    {
      var gate := p.gates[k];
      assert gate.id in p.Needs();
      if gate.id !in results { return Err(MissingResult(gate.id)); }
      ordered := ordered + [GateResult(gate, results[gate.id])];
    }
    return Ok(ordered);
  }

  /** One result per gate in aggregate order, each with its reference verdict. */
  ghost predicate IsReport(p: Plan, results: seq<GateResult>) {
    && |results| == |p.gates|
    && forall i :: 0 <= i < |results| ==> results[i] == GateResult(p.gates[i], Verdict(p, p.gates[i].id))
  }

  /** Results in aggregate order, or the reason nothing was started; the runner's two internal throws never happen. */
  method RunGates(gates: seq<Gate>, maxActive: int, outcome: string -> Outcome)
      returns (r: Result<seq<GateResult>, RunError>)
    ensures r.Ok? <==> ValidGateGraph(gates) && 1 <= maxActive <= MAX_SAFE_INTEGER
    ensures r.Ok? ==> IsReport(Plan(gates, maxActive, outcome), r.value)
    ensures r.Err? && r.error.InvalidGraph? ==> ErrorDescribes(gates, r.error.graphError)
    ensures r.Err? && !r.error.InvalidGraph? ==> r.error == InvalidConcurrency && ValidGateGraph(gates)
  {
    var error := ValidateGateGraph(gates);
    if error.Some? {
      ErrorRefutesValid(gates, error.value);
      return Err(InvalidGraph(error.value));
    }
    if !(1 <= maxActive <= MAX_SAFE_INTEGER) { return Err(InvalidConcurrency); }

    var runner := new Runner(Plan(gates, maxActive, outcome));
    var ok := runner.Schedule();
    if !ok { return Err(Stalled); }
    r := runner.Report();
  }

  /** The aggregate's exit status. */
  function ExitCode(results: seq<GateResult>): int {
    if exists i :: 0 <= i < |results| && !results[i].gate.allowFailure
        && (results[i].status == Failed || results[i].status == Skipped)
    then 1 else 0
  }

  /**
    The exit code is zero exactly when every blocking gate and everything it transitively
    needs passes; a non-blocking gate counts as soon as a blocking one needs it.
   */
  lemma ExitZeroIffBlockingGatesPass(p: Plan, results: seq<GateResult>)
    requires p.Valid() && IsReport(p, results)
    ensures ExitCode(results) == 0 <==>
      forall i :: 0 <= i < |p.gates| && !p.gates[i].allowFailure ==>
        p.outcome(p.gates[i].id) == Passed
        && forall d :: Reaches(p.Needs(), p.gates[i].id, d) ==> p.outcome(d) == Passed
  {
    assert forall i :: 0 <= i < |results| ==> results[i].gate == p.gates[i];
    forall i | 0 <= i < |p.gates|
      ensures Verdict(p, p.gates[i].id) == Passed <==>
        p.outcome(p.gates[i].id) == Passed && Clear(p, p.gates[i].id)
    { }
  }
}
