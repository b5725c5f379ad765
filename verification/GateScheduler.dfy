/**
  The gate scheduler as a state machine. Every run ends in the same statuses, given by a verdict
  that mentions only outcomes of gates and their transitive needs.
 */
module GateScheduler {
  import opened Digraph
  import opened Sequences
  import opened GateGraph

  datatype Status = Pending | Running | Passed | Failed | Skipped

  /** What an executor may report. */
  type Outcome = s: Status | s != Pending && s != Running witness Passed

  datatype Plan = Plan(gates: seq<Gate>, maxActive: int, outcome: string -> Outcome) {
    ghost function Needs(): Graph<string> { NeedsGraph(gates) }

    ghost predicate Valid() { ValidGateGraph(gates) && 1 <= maxActive }
  }

  /** `settled` lists the gates in the order the observer was told about them. */
  datatype State = State(states: map<string, Status>, running: seq<string>, settled: seq<string>)

  datatype Event = Start(id: string) | Settle(slot: nat) | Skip(id: string)

  // ---- steps ----

  ghost function Initial(p: Plan): State {
    State(map id | id in p.Needs() :: Pending, [], [])
  }

  predicate AllPassed(states: map<string, Status>, needs: seq<string>) {
    forall d :: d in needs ==> d in states && states[d] == Passed
  }

  predicate Blocked(states: map<string, Status>, needs: seq<string>) {
    exists d :: d in needs && d in states && (states[d] == Failed || states[d] == Skipped)
  }

  ghost predicate Ready(p: Plan, s: State, id: string) {
    id in p.Needs() && id in s.states && s.states[id] == Pending && AllPassed(s.states, p.Needs()[id])
  }

  ghost predicate CanStart(p: Plan, s: State) {
    |s.running| < p.maxActive && exists id :: Ready(p, s, id)
  }

  ghost predicate Enabled(p: Plan, s: State, e: Event) {
    match e
    case Start(id) => |s.running| < p.maxActive && Ready(p, s, id)
    case Settle(slot) => slot < |s.running| && !CanStart(p, s)
    case Skip(id) =>
      && s.running == [] && !CanStart(p, s)
      && id in p.Needs() && id in s.states && s.states[id] == Pending && Blocked(s.states, p.Needs()[id])
  }

  ghost function Apply(p: Plan, s: State, e: Event): State
    requires Enabled(p, s, e)
  {
    match e
    case Start(id) => s.(states := s.states[id := Running], running := s.running + [id])
    case Settle(slot) =>
      var id := s.running[slot];
      State(s.states[id := p.outcome(id)], RemoveAt(s.running, slot), s.settled + [id])
    case Skip(id) => s.(states := s.states[id := Skipped], settled := s.settled + [id])
  }

  /** `log` is a sequence of enabled steps from the initial state. */
  ghost predicate Legal(p: Plan, log: seq<Event>)
    decreases |log|, 0
  {
    log != [] ==> Legal(p, log[..|log| - 1]) && Enabled(p, After(p, log[..|log| - 1]), log[|log| - 1])
  }

  ghost function After(p: Plan, log: seq<Event>): State
    requires Legal(p, log)
    decreases |log|, 1
  {
    if log == [] then Initial(p) else Apply(p, After(p, log[..|log| - 1]), log[|log| - 1])
  }

  ghost predicate Terminated(p: Plan, log: seq<Event>) {
    Legal(p, log) && forall e :: !Enabled(p, After(p, log), e)
  }

  // ---- the reference verdict ----

  /** Every transitive need would pass on its own. */
  ghost predicate Clear(p: Plan, id: string) {
    forall d :: Reaches(p.Needs(), id, d) ==> p.outcome(d) == Passed
  }

  ghost function Verdict(p: Plan, id: string): Status {
    if Clear(p, id) then p.outcome(id) else Skipped
  }

  lemma ClearFromNeeds(p: Plan, id: string)
    requires id in p.Needs() && forall d :: d in p.Needs()[id] ==> Verdict(p, d) == Passed
    ensures Clear(p, id)
  {
    forall x | Reaches(p.Needs(), id, x) ensures p.outcome(x) == Passed {
      var d := ReachesFirstEdge(p.Needs(), id, x);
      assert Verdict(p, d) == Passed;
    }
  }

  lemma NotClearFromNeed(p: Plan, id: string, d: string)
    requires Edge(p.Needs(), id, d) && Verdict(p, d) != Passed
    ensures !Clear(p, id)
  {
    EdgeReaches(p.Needs(), id, d);
    if Clear(p, id) {
      forall x | Reaches(p.Needs(), d, x) ensures p.outcome(x) == Passed {
        ReachesTransitive(p.Needs(), id, d, x);
      }
    }
  }

  // ---- the invariant ----

  ghost predicate Terminal(s: State, id: string) {
    id in s.states && s.states[id] != Pending && s.states[id] != Running
  }

  /** `running` and `settled` list exactly the running and the terminal gates, each once. */
  ghost predicate Bookkeeping(p: Plan, s: State) {
    && s.states.Keys == p.Needs().Keys
    && Distinct(s.running) && Distinct(s.settled)
    && (forall id {:trigger id in s.running} :: id in s.running <==> id in s.states && s.states[id] == Running)
    && (forall id {:trigger id in s.settled} :: id in s.settled <==> Terminal(s, id))
  }

  ghost predicate Judged(p: Plan, s: State) {
    && (forall id :: id in s.states && s.states[id] == Running ==> Clear(p, id))
    && (forall id :: Terminal(s, id) ==> s.states[id] == Verdict(p, id))
  }

  ghost predicate Inv(p: Plan, s: State) {
    Bookkeeping(p, s) && |s.running| <= p.maxActive && Judged(p, s)
  }

  lemma StartKeepsBookkeeping(p: Plan, s: State, id: string)
    requires Bookkeeping(p, s) && Enabled(p, s, Start(id))
    ensures Bookkeeping(p, Apply(p, s, Start(id)))
  {
    assert id !in s.running;
    var s' := Apply(p, s, Start(id));
    forall x ensures x in s'.running <==> x in s'.states && s'.states[x] == Running {
      assert x in s'.running <==> x in s.running || x == id;
    }
    forall x ensures x in s'.settled <==> Terminal(s', x) {
      assert x in s.settled <==> Terminal(s, x);
    }
  }

  lemma SettleKeepsBookkeeping(p: Plan, s: State, slot: nat)
    requires Bookkeeping(p, s) && Enabled(p, s, Settle(slot))
    ensures Bookkeeping(p, Apply(p, s, Settle(slot)))
  {
    var id := s.running[slot];
    assert id in s.running && id !in s.settled;
    var s' := Apply(p, s, Settle(slot));
    forall x ensures x in s'.running <==> x in s'.states && s'.states[x] == Running {
      assert x in s.running <==> x in s.states && s.states[x] == Running;
    }
    forall x ensures x in s'.settled <==> Terminal(s', x) {
      assert x in s'.settled <==> x in s.settled || x == id;
    }
  }

  lemma SkipKeepsBookkeeping(p: Plan, s: State, id: string)
    requires Bookkeeping(p, s) && Enabled(p, s, Skip(id))
    ensures Bookkeeping(p, Apply(p, s, Skip(id)))
  {
    assert id !in s.settled;
    var s' := Apply(p, s, Skip(id));
    forall x ensures x in s'.settled <==> Terminal(s', x) {
      assert x in s'.settled <==> x in s.settled || x == id;
    }
    forall x ensures x in s'.running <==> x in s'.states && s'.states[x] == Running {
      assert x in s.running <==> x in s.states && s.states[x] == Running;
    }
  }

  lemma SkippedIsNotClear(p: Plan, s: State, id: string)
    requires Judged(p, s) && Enabled(p, s, Skip(id))
    ensures !Clear(p, id)
  {
    var d :| d in p.Needs()[id] && d in s.states && (s.states[d] == Failed || s.states[d] == Skipped);
    assert Terminal(s, d);
    NotClearFromNeed(p, id, d);
  }

  lemma StepKeepsJudged(p: Plan, s: State, e: Event)
    requires Bookkeeping(p, s) && Judged(p, s) && Enabled(p, s, e)
    ensures Judged(p, Apply(p, s, e))
  {
    match e {
      case Start(id) =>
        forall d | d in p.Needs()[id] ensures Verdict(p, d) == Passed { assert Terminal(s, d); }
        ClearFromNeeds(p, id);
      case Settle(slot) =>
        assert s.running[slot] in s.running;
      case Skip(id) => SkippedIsNotClear(p, s, id);
    }
  }

  lemma StepKeepsInv(p: Plan, s: State, e: Event)
    requires Inv(p, s) && Enabled(p, s, e)
    ensures Inv(p, Apply(p, s, e))
  {
    StepKeepsJudged(p, s, e);
    match e {
      case Start(id) => StartKeepsBookkeeping(p, s, id);
      case Settle(slot) => SettleKeepsBookkeeping(p, s, slot);
      case Skip(id) => SkipKeepsBookkeeping(p, s, id);
    }
  }

  /** Safety of every reachable state: bounded concurrency, and nothing runs before all its needs would pass. */
  lemma {:induction false} RunInvariant(p: Plan, log: seq<Event>)
    requires 1 <= p.maxActive && Legal(p, log)
    ensures Inv(p, After(p, log))
    decreases |log|
  {
    if log != [] {
      RunInvariant(p, log[..|log| - 1]);
      StepKeepsInv(p, After(p, log[..|log| - 1]), log[|log| - 1]);
    }
  }

  lemma {:induction false} PrefixLegal(p: Plan, log: seq<Event>, k: nat)
    requires Legal(p, log) && k <= |log|
    ensures Legal(p, log[..k])
    decreases |log|
  {
    if k < |log| {
      PrefixLegal(p, log[..|log| - 1], k);
      assert log[..|log| - 1][..k] == log[..k];
    } else {
      assert log[..k] == log;
    }
  }

  // ---- stall freedom and termination ----

  /** On a validated graph some step is enabled until every gate has a result. */
  lemma StallFree(p: Plan, s: State, open: string) returns (e: Event)
    requires p.Valid() && Inv(p, s)
    requires open in s.states && !Terminal(s, open)
    ensures Enabled(p, s, e)
  {
    if CanStart(p, s) {
      var id :| Ready(p, s, id);
      return Start(id);
    }
    if s.running != [] {
      return Settle(0);
    }
    var g := p.Needs();
    var pending := set id | id in s.states && s.states[id] == Pending;
    assert open !in s.running;
    assert open in pending;
    var id := MinimalMember(g, pending);
    forall d | d in g[id] ensures Terminal(s, d) {
      assert d in g && d !in pending && d !in s.running;
    }
    assert !Ready(p, s, id);
    return Skip(id);
  }

  lemma {:induction false} DistinctFits<N>(s: seq<N>, bound: set<N>)
    requires Distinct(s) && forall x :: x in s ==> x in bound
    ensures |s| <= |bound|
  {
    if s != [] {
      var last := s[|s| - 1];
      var init := s[..|s| - 1];
      assert last !in init;
      DistinctFits(init, bound - {last});
    }
  }

  lemma {:induction false} KeysFit(gates: seq<Gate>)
    ensures |NeedsGraph(gates).Keys| <= |gates|
  {
    if gates != [] {
      var init := gates[..|gates| - 1];
      var last := gates[|gates| - 1];
      KeysFit(init);
      assert NeedsGraph(gates).Keys == NeedsGraph(init).Keys + {last.id};
    }
  }

  lemma OpenAndSettledFit(p: Plan, s: State)
    requires Bookkeeping(p, s)
    ensures |s.running| + |s.settled| <= |p.gates|
  {
    var all := s.running + s.settled;
    forall i, j | 0 <= i < j < |all| ensures all[i] != all[j] {
      if i < |s.running| <= j {
        assert s.running[i] in s.running && s.settled[j - |s.running|] in s.settled;
      }
    }
    forall x | x in all ensures x in p.Needs().Keys {
      assert x in s.running || x in s.settled;
    }
    DistinctFits(all, p.Needs().Keys);
    KeysFit(p.gates);
  }

  lemma {:induction false} LogCountsSteps(p: Plan, log: seq<Event>)
    requires Legal(p, log)
    ensures |log| <= 2 * |After(p, log).settled| + |After(p, log).running|
    decreases |log|
  {
    if log != [] { LogCountsSteps(p, log[..|log| - 1]); }
  }

  /** No run has more than two steps for each gate. */
  lemma RunsAreBounded(p: Plan, log: seq<Event>)
    requires 1 <= p.maxActive && Legal(p, log)
    ensures |log| <= 2 * |p.gates|
  {
    RunInvariant(p, log);
    LogCountsSteps(p, log);
    OpenAndSettledFit(p, After(p, log));
  }

  // ---- schedule independence ----

  /** A run that cannot continue has reported every gate exactly once, with its reference verdict. */
  lemma TerminatedRunsReachVerdict(p: Plan, log: seq<Event>)
    requires p.Valid() && Terminated(p, log)
    ensures After(p, log).states == map id | id in p.Needs() :: Verdict(p, id)
    ensures Distinct(After(p, log).settled)
    ensures forall id :: id in After(p, log).settled <==> id in p.Needs()
  {
    RunInvariant(p, log);
    var s := After(p, log);
    forall id | id in p.Needs() ensures Terminal(s, id) {
      if !Terminal(s, id) {
        var e := StallFree(p, s, id);
      }
    }
    forall id ensures id in s.settled <==> id in p.Needs() {
      assert id in s.settled <==> Terminal(s, id);
    }
  }

  /** Interleaving and concurrency bound do not matter: both runs end in the same statuses. */
  lemma ScheduleIndependence(p: Plan, q: Plan, left: seq<Event>, right: seq<Event>)
    requires p.Valid() && q.Valid() && p.gates == q.gates && p.outcome == q.outcome
    requires Terminated(p, left) && Terminated(q, right)
    ensures After(p, left).states == After(q, right).states
  {
    TerminatedRunsReachVerdict(p, left);
    TerminatedRunsReachVerdict(q, right);
    SameVerdicts(p, q);
    assert p.Needs().Keys == q.Needs().Keys;
  }

  lemma SameVerdicts(p: Plan, q: Plan)
    requires p.Valid() && q.Valid() && p.gates == q.gates && p.outcome == q.outcome
    ensures p.Needs() == q.Needs() && forall id :: Verdict(p, id) == Verdict(q, id)
  {
  }

  lemma LastStep(p: Plan, log: seq<Event>, e: Event)
    requires 1 <= p.maxActive && Legal(p, log) && log != []
    ensures var init, last := log[..|log| - 1], log[|log| - 1];
      && Legal(p, init) && Inv(p, After(p, init)) && Enabled(p, After(p, init), last)
      && After(p, log) == Apply(p, After(p, init), last)
      && (e in log <==> e in init || e == last)
  {
    var init, last := log[..|log| - 1], log[|log| - 1];
    assert log == init + [last];
    RunInvariant(p, init);
  }

  lemma {:induction false} StartedIsClear(p: Plan, log: seq<Event>, id: string)
    requires 1 <= p.maxActive && Legal(p, log) && Start(id) in log
    ensures Clear(p, id) && id in After(p, log).states && After(p, log).states[id] != Pending
    decreases |log|
  {
    LastStep(p, log, Start(id));
    var init, last := log[..|log| - 1], log[|log| - 1];
    if last == Start(id) {
      RunInvariant(p, log);
    } else {
      StartedIsClear(p, init, id);
    }
  }

  lemma {:induction false} ClearIsStarted(p: Plan, log: seq<Event>, id: string)
    requires 1 <= p.maxActive && Legal(p, log)
    requires id in After(p, log).states && After(p, log).states[id] != Pending && Clear(p, id)
    ensures Start(id) in log
    decreases |log|
  {
    if log != [] {
      LastStep(p, log, Start(id));
      var init, last := log[..|log| - 1], log[|log| - 1];
      var s := After(p, init);
      match last {
        case Settle(slot) => assert s.running[slot] in s.running;
        case Start(x) =>
        case Skip(x) => SkippedIsNotClear(p, s, x);
      }
      if last != Start(id) { ClearIsStarted(p, init, id); }
    }
  }

  /** A gate is executed exactly when all its transitive needs pass. */
  lemma ExecutedIffClear(p: Plan, log: seq<Event>, id: string)
    requires p.Valid() && Terminated(p, log) && id in p.Needs()
    ensures Start(id) in log <==> forall d :: Reaches(p.Needs(), id, d) ==> p.outcome(d) == Passed
  {
    TerminatedRunsReachVerdict(p, log);
    RunInvariant(p, log);
    assert Terminal(After(p, log), id);
    if Start(id) in log { StartedIsClear(p, log, id); }
    if Clear(p, id) { ClearIsStarted(p, log, id); }
  }

  /** No gate is started twice. */
  lemma StartedOnce(p: Plan, log: seq<Event>, i: nat, j: nat)
    requires 1 <= p.maxActive && Legal(p, log) && i < j < |log| && log[i].Start? && log[j].Start?
    ensures log[i].id != log[j].id
  {
    PrefixLegal(p, log, j + 1);
    var prefix := log[..j + 1];
    assert prefix[..j] == log[..j] && log[..j][i] == log[i];
    StartedIsClear(p, log[..j], log[i].id);
  }

  /** A started gate's needs have passed, and stay so: nothing that has finished changes any more. */
  lemma {:induction false} StartedAfterItsNeeds(p: Plan, log: seq<Event>, id: string)
    requires 1 <= p.maxActive && Legal(p, log) && Start(id) in log
    ensures id in p.Needs() && AllPassed(After(p, log).states, p.Needs()[id])
    decreases |log|
  {
    LastStep(p, log, Start(id));
    var init, last := log[..|log| - 1], log[|log| - 1];
    var s := After(p, init);
    if last != Start(id) { StartedAfterItsNeeds(p, init, id); }
    match last {
      case Settle(slot) => assert s.running[slot] in s.running;
      case Start(x) =>
      case Skip(x) =>
    }
  }

  /** Behind every gate that is not clear stands one that runs and does not pass. */
  lemma UnclearHasFailure(p: Plan, id: string) returns (d: string)
    requires p.Valid() && !Clear(p, id)
    ensures d in p.Needs() && Reaches(p.Needs(), id, d) && p.outcome(d) != Passed && Clear(p, d)
  {
    var g := p.Needs();
    d :| Reaches(g, id, d) && p.outcome(d) != Passed;
    ReachesIntoGraph(g, id, d);
    while !Clear(p, d)
      invariant d in g && Reaches(g, id, d) && p.outcome(d) != Passed
      decreases Rank(g, d)
    {
      var e :| Reaches(g, d, e) && p.outcome(e) != Passed;
      ReachesIntoGraph(g, d, e);
      RankDecreases(g, d, e);
      ReachesTransitive(g, id, d, e);
      d := e;
    }
  }

  lemma ReachesIntoGraph(g: Graph<string>, a: string, b: string)
    requires Closed(g) && Reaches(g, a, b)
    ensures b in g
  {
    var walk :| |walk| >= 2 && WalkFromTo(g, walk, a, b);
    assert Edge(g, walk[|walk| - 2], walk[|walk| - 1]);
  }

  /** Unless executors report skips themselves, a gate is skipped exactly when one of its transitive needs failed. */
  lemma SkippedIffNeedFailed(p: Plan, log: seq<Event>, id: string)
    requires p.Valid() && Terminated(p, log) && id in p.Needs()
    requires forall d :: d in p.Needs() ==> p.outcome(d) != Skipped
    ensures id in After(p, log).states
    ensures var states := After(p, log).states;
      states[id] == Skipped <==> exists d :: Reaches(p.Needs(), id, d) && d in states && states[d] == Failed
  {
    TerminatedRunsReachVerdict(p, log);
    if !Clear(p, id) {
      var d := UnclearHasFailure(p, id);
      assert Verdict(p, d) == Failed;
    }
  }
}
