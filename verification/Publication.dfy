/**
  Publishing a release bundle to a registry whose reads lag its writes: a read may answer from any
  past state of the store. A run can be cut short after any command and started again; no other
  writer touches the packages meanwhile.
 */
module Publication {
  import opened Wrappers

  const RELEASE_ENTRY_PACKAGE := "@huiliyi37/oh-my-tianshu"
  const LATEST_DIST_TAG := "latest"
  const REPLICATION_WINDOW_MS := 15 * 60_000
  const BACKOFF_MS := 30_000

  datatype Package = Package(name: string, integrity: string)

  datatype Manifest = Manifest(version: string, distTag: string, packages: seq<Package>)

  /** Integrity by (package, version) and version by (package, dist-tag). */
  datatype Store = Store(integrities: map<(string, string), string>, tags: map<(string, string), string>)

  datatype Reply = Value(value: string) | Absent | CommandFailed

  datatype PublishReply = Published | AlreadyExists | PublishFailed

  datatype PublicationError =
    | Interrupted
    | DifferentIntegrity(name: string)
    | WrongTag(name: string, tag: string)
    | NotVisible(names: seq<string>)

  datatype Outcome = Done | Stopped(error: PublicationError)

  // ---- what a store holds ----

  predicate HasIntegrity(m: Manifest, pkg: Package, s: Store) {
    (pkg.name, m.version) in s.integrities && s.integrities[(pkg.name, m.version)] == pkg.integrity
  }

  predicate HasTag(m: Manifest, name: string, tag: string, s: Store) {
    (name, tag) in s.tags && s.tags[(name, tag)] == m.version
  }

  predicate Settled(m: Manifest, pkg: Package, s: Store) {
    HasIntegrity(m, pkg, s) && HasTag(m, pkg.name, m.distTag, s)
  }

  predicate Complete(m: Manifest, s: Store) {
    forall pkg :: pkg in m.packages ==> Settled(m, pkg, s)
  }

  /** Checked when a bundle is created and when it is loaded. */
  ghost predicate DistinctNames(m: Manifest) {
    forall i, j :: 0 <= i < j < |m.packages| ==> m.packages[i].name != m.packages[j].name
  }

  // ---- what a run may do to the store ----

  predicate PublishStep(m: Manifest, pkg: Package, a: Store, b: Store) {
    && (pkg.name, m.version) !in a.integrities
    && b == Store(a.integrities[(pkg.name, m.version) := pkg.integrity], a.tags[(pkg.name, m.distTag) := m.version])
  }

  predicate TagStep(m: Manifest, name: string, tag: string, a: Store, b: Store) {
    (name, m.version) in a.integrities && b == a.(tags := a.tags[(name, tag) := m.version])
  }

  /** The loop has come to package `k`: those before it are settled, in this run or an earlier one. */
  ghost predicate Reached(m: Manifest, k: nat, a: Store) {
    k < |m.packages| && forall j :: 0 <= j < k ==> Settled(m, m.packages[j], a)
  }

  ghost predicate LoopStep(m: Manifest, k: nat, a: Store, b: Store) {
    Reached(m, k, a)
    && (PublishStep(m, m.packages[k], a, b)
        || (HasIntegrity(m, m.packages[k], a) && TagStep(m, m.packages[k].name, m.distTag, a, b)))
  }

  lemma LoopStepSettles(m: Manifest, k: nat, a: Store, b: Store)
    requires LoopStep(m, k, a, b)
    ensures Settled(m, m.packages[k], b)
    ensures forall name, tag :: HasTag(m, name, tag, b) && !HasTag(m, name, tag, a) ==>
      name == m.packages[k].name && tag == m.distTag
  {
  }

  /** Moving the entry package's `latest` is a step of its own, taken only on a complete store. */
  ghost predicate Step(m: Manifest, a: Store, b: Store) {
    (exists k: nat :: LoopStep(m, k, a, b))
    || (Complete(m, a) && TagStep(m, RELEASE_ENTRY_PACKAGE, LATEST_DIST_TAG, a, b))
  }

  ghost predicate Lawful(m: Manifest, history: seq<Store>) {
    history != [] && forall i, j :: 0 <= i < j < |history| && j == i + 1 ==> Step(m, history[i], history[j])
  }

  // ---- facts about lawful histories ----

  /** Once true, a published integrity and a tag at this version stay true: what a lagging read saw holds now. */
  lemma {:induction false} FactsPersist(m: Manifest, history: seq<Store>, i: nat, j: nat, name: string, tag: string)
    requires Lawful(m, history) && i <= j < |history|
    ensures (name, m.version) in history[i].integrities ==>
      (name, m.version) in history[j].integrities
      && history[j].integrities[(name, m.version)] == history[i].integrities[(name, m.version)]
    ensures HasTag(m, name, tag, history[i]) ==> HasTag(m, name, tag, history[j])
    decreases j
  {
    if i < j {
      FactsPersist(m, history, i, j - 1, name, tag);
      assert Step(m, history[j - 1], history[j]);
    }
  }

  /** A tag at another version has been there from the start: the runs move tags to this version only. */
  lemma {:induction false} OtherTagsAreOld(m: Manifest, history: seq<Store>, j: nat, name: string, tag: string)
    requires Lawful(m, history) && j < |history|
    requires (name, tag) in history[j].tags && history[j].tags[(name, tag)] != m.version
    ensures (name, tag) in history[0].tags && history[0].tags[(name, tag)] == history[j].tags[(name, tag)]
    decreases j
  {
    if j > 0 {
      assert Step(m, history[j - 1], history[j]);
      OtherTagsAreOld(m, history, j - 1, name, tag);
    }
  }

  lemma SettledPersists(m: Manifest, history: seq<Store>, i: nat, j: nat)
    requires Lawful(m, history) && i <= j < |history|
    ensures forall pkg :: Settled(m, pkg, history[i]) ==> Settled(m, pkg, history[j])
  {
    forall pkg | Settled(m, pkg, history[i]) ensures Settled(m, pkg, history[j]) {
      FactsPersist(m, history, i, j, pkg.name, m.distTag);
    }
  }

  /** A version that appeared since some moment was published by a run, so it is the manifest's, with its tag. */
  lemma {:induction false} NewVersionsAreSettled(m: Manifest, history: seq<Store>, i: nat, j: nat, pkg: Package)
    requires Lawful(m, history) && DistinctNames(m) && pkg in m.packages && i <= j < |history|
    requires (pkg.name, m.version) !in history[i].integrities && (pkg.name, m.version) in history[j].integrities
    ensures Settled(m, pkg, history[j])
    decreases j
  {
    var a, b := history[j - 1], history[j];
    assert Step(m, a, b);
    if (pkg.name, m.version) in a.integrities {
      NewVersionsAreSettled(m, history, i, j - 1, pkg);
      SettledPersists(m, history, j - 1, j);
    } else {
      var k: nat :| LoopStep(m, k, a, b);
      var at :| 0 <= at < |m.packages| && m.packages[at] == pkg;
      assert m.packages[k].name == pkg.name;
      assert k == at;
    }
  }

  lemma AppendKeepsLawful(m: Manifest, before: seq<Store>, after: seq<Store>)
    requires Lawful(m, before) && before <= after && |after| == |before| + 1
    requires Step(m, before[|before| - 1], after[|before|])
    ensures Lawful(m, after)
  {
    forall i, j | 0 <= i < j < |after| && j == i + 1 ensures Step(m, after[i], after[j]) {
      if j < |before| { assert Step(m, before[i], before[j]); }
    }
  }

  // ---- `latest` moves last ----

  /** `latest` of the entry package points at this version only on complete stores. */
  ghost predicate LatestMovesLast(m: Manifest) {
    forall history, j ::
      Lawful(m, history) && !HasTag(m, RELEASE_ENTRY_PACKAGE, LATEST_DIST_TAG, history[0])
      && 0 <= j < |history| && HasTag(m, RELEASE_ENTRY_PACKAGE, LATEST_DIST_TAG, history[j])
      ==> Complete(m, history[j])
  }

  /** No other package follows the entry package in the bundle. */
  ghost predicate EntryIsLast(m: Manifest) {
    forall k :: 0 <= k < |m.packages| && m.packages[k].name == RELEASE_ENTRY_PACKAGE ==> k == |m.packages| - 1
  }

  lemma {:induction false} LatestWaitsForCompletion(m: Manifest, history: seq<Store>, j: nat)
    requires m.distTag != LATEST_DIST_TAG || EntryIsLast(m)
    requires Lawful(m, history) && j < |history|
    requires !HasTag(m, RELEASE_ENTRY_PACKAGE, LATEST_DIST_TAG, history[0])
    requires HasTag(m, RELEASE_ENTRY_PACKAGE, LATEST_DIST_TAG, history[j])
    ensures Complete(m, history[j])
    decreases j
  {
    var a, b := history[j - 1], history[j];
    assert Step(m, a, b);
    SettledPersists(m, history, j - 1, j);
    if HasTag(m, RELEASE_ENTRY_PACKAGE, LATEST_DIST_TAG, a) {
      LatestWaitsForCompletion(m, history, j - 1);
    } else if !Complete(m, a) {
      var k: nat :| LoopStep(m, k, a, b);
      LoopStepSettles(m, k, a, b);
      assert m.packages[k].name == RELEASE_ENTRY_PACKAGE && m.distTag == LATEST_DIST_TAG;
    }
  }

  /** An empty registry after the loop published the first `k` packages of a bundle. */
  function Fresh(m: Manifest, k: nat): Store
    requires k <= |m.packages|
  {
    if k == 0 then Store(map[], map[])
    else
      var s, pkg := Fresh(m, k - 1), m.packages[k - 1];
      Store(s.integrities[(pkg.name, m.version) := pkg.integrity], s.tags[(pkg.name, m.distTag) := m.version])
  }

  lemma {:induction false} FreshHoldsPublished(m: Manifest, k: nat)
    requires DistinctNames(m) && k <= |m.packages|
    ensures forall j :: 0 <= j < k ==> Settled(m, m.packages[j], Fresh(m, k))
    ensures forall j :: k <= j < |m.packages| ==> (m.packages[j].name, m.version) !in Fresh(m, k).integrities
  {
    if k > 0 { FreshHoldsPublished(m, k - 1); }
  }

  /** One run on an empty registry, cut off after `count` packages: the loop publishes them in order. */
  lemma FreshRun(m: Manifest, count: nat) returns (history: seq<Store>)
    requires DistinctNames(m) && count <= |m.packages|
    ensures Lawful(m, history) && |history| == count + 1 && history[count] == Fresh(m, count)
    ensures history[0] == Store(map[], map[])
    ensures forall k :: 0 <= k < count ==>
      Reached(m, k, history[k]) && PublishStep(m, m.packages[k], history[k], history[k + 1])
  {
    history := seq(count + 1, k requires 0 <= k <= count => Fresh(m, k));
    forall k | 0 <= k < count
      ensures Reached(m, k, history[k]) && PublishStep(m, m.packages[k], history[k], history[k + 1])
      ensures Step(m, history[k], history[k + 1])
    {
      FreshHoldsPublished(m, k);
      assert LoopStep(m, k, history[k], history[k + 1]);
    }
  }

  /** A stable run cut off after the entry package, when others follow it: `latest` is exposed too early. */
  lemma EarlyLatest(m: Manifest, k: nat) returns (history: seq<Store>)
    requires DistinctNames(m) && m.distTag == LATEST_DIST_TAG
    requires k < |m.packages| - 1 && m.packages[k].name == RELEASE_ENTRY_PACKAGE
    ensures Lawful(m, history) && |history| == k + 2 && history[0] == Store(map[], map[])
    ensures forall i :: 0 <= i <= k ==>
      Reached(m, i, history[i]) && PublishStep(m, m.packages[i], history[i], history[i + 1])
    ensures HasTag(m, RELEASE_ENTRY_PACKAGE, LATEST_DIST_TAG, history[k + 1]) && !Complete(m, history[k + 1])
  {
    history := FreshRun(m, k + 1);
    FreshHoldsPublished(m, k + 1);
    var next := m.packages[k + 1];
    assert !Settled(m, next, history[k + 1]) && next in m.packages;
  }

  /**
    Exactly when `latest` moves last, over all histories of crashed and resumed runs: when the
    bundle's own dist-tag is another one, or the loop publishes the entry package last. A stable
    release that lists it earlier exposes it under `latest` before the others exist.
   */
  lemma LatestMovesLastIff(m: Manifest)
    requires DistinctNames(m)
    ensures LatestMovesLast(m) <==> m.distTag != LATEST_DIST_TAG || EntryIsLast(m)
  {
    if m.distTag != LATEST_DIST_TAG || EntryIsLast(m) {
      forall history, j | Lawful(m, history) && !HasTag(m, RELEASE_ENTRY_PACKAGE, LATEST_DIST_TAG, history[0])
          && 0 <= j < |history| && HasTag(m, RELEASE_ENTRY_PACKAGE, LATEST_DIST_TAG, history[j])
        ensures Complete(m, history[j])
      {
        LatestWaitsForCompletion(m, history, j);
      }
    } else {
      var k :| 0 <= k < |m.packages| - 1 && m.packages[k].name == RELEASE_ENTRY_PACKAGE;
      var history := EarlyLatest(m, k);
      assert HasTag(m, RELEASE_ENTRY_PACKAGE, LATEST_DIST_TAG, history[k + 1]);
    }
  }

  // ---- real and stale mismatches ----

  predicate OtherContent(m: Manifest, pkg: Package, s: Store) {
    (pkg.name, m.version) in s.integrities && s.integrities[(pkg.name, m.version)] != pkg.integrity
  }

  predicate AtOtherVersion(m: Manifest, pkg: Package, s: Store) {
    (pkg.name, m.distTag) in s.tags && s.tags[(pkg.name, m.distTag)] != m.version
  }

  /**
    A read answers from any past store. Every report of a wrong tag is a real mismatch exactly when
    the tag pointed nowhere else before the first run, or has not been moved yet.
   */
  lemma WrongTagIsRealIff(m: Manifest, history: seq<Store>, pkg: Package)
    requires Lawful(m, history)
    ensures var now := history[|history| - 1];
      (forall k :: 0 <= k < |history| && AtOtherVersion(m, pkg, history[k]) ==> AtOtherVersion(m, pkg, now)) <==>
      !AtOtherVersion(m, pkg, history[0]) || !HasTag(m, pkg.name, m.distTag, now)
  {
    var last := |history| - 1;
    forall k | 0 <= k < |history| && AtOtherVersion(m, pkg, history[k]) ensures AtOtherVersion(m, pkg, history[0]) {
      OtherTagsAreOld(m, history, k, pkg.name, m.distTag);
    }
    if AtOtherVersion(m, pkg, history[0]) { TagsStay(m, history, last, pkg.name, m.distTag); }
  }

  /** Such a report can be stale: a bundle's first run over a tag at another version moves it, and a replica lags. */
  lemma StaleTagIsReported(m: Manifest, older: string) returns (history: seq<Store>)
    requires DistinctNames(m) && m.packages != [] && older != m.version
    ensures Lawful(m, history) && |history| == 2
    ensures AtOtherVersion(m, m.packages[0], history[0]) && history[0].tags[(m.packages[0].name, m.distTag)] == older
    ensures Settled(m, m.packages[0], history[1])
  {
    var pkg := m.packages[0];
    var before := Store(map[], map[(pkg.name, m.distTag) := older]);
    var after := Store(map[(pkg.name, m.version) := pkg.integrity], map[(pkg.name, m.distTag) := m.version]);
    assert before.integrities[(pkg.name, m.version) := pkg.integrity] == after.integrities;
    assert before.tags[(pkg.name, m.distTag) := m.version] == after.tags;
    assert LoopStep(m, 0, before, after);
    history := [before, after];
  }

  lemma {:induction false} TagsStay(m: Manifest, history: seq<Store>, j: nat, name: string, tag: string)
    requires Lawful(m, history) && j < |history| && (name, tag) in history[0].tags
    ensures (name, tag) in history[j].tags
  {
    if j > 0 {
      TagsStay(m, history, j - 1, name, tag);
      assert Step(m, history[j - 1], history[j]);
    }
  }

  // ---- the registry ----

  /** A command and how it was answered; the first prompt covers ping, identity check and confirmation. */
  datatype Command =
    | Prompted(ok: bool)
    | Viewed(name: string, reply: Reply)
    | Listed(name: string, tag: string, reply: Reply)
    | PublishTried(name: string, published: PublishReply)
    | TagTried(name: string, tag: string, ok: bool)

  predicate Failed(c: Command) {
    match c
    case Prompted(ok) => !ok
    case Viewed(_, reply) => reply.CommandFailed?
    case Listed(_, _, reply) => reply.CommandFailed?
    case PublishTried(_, published) => published.PublishFailed?
    case TagTried(_, _, ok) => !ok
  }

  ghost predicate NoneFailed(commands: seq<Command>) {
    forall i :: 0 <= i < |commands| ==> !Failed(commands[i])
  }

  /** A read found the version or the tag of the package absent. */
  ghost predicate NotSeen(commands: seq<Command>, name: string) {
    exists i :: 0 <= i < |commands| && FoundAbsent(commands[i], name)
  }

  predicate FoundAbsent(c: Command, name: string) {
    (c.Viewed? || c.Listed?) && c.name == name && c.reply.Absent?
  }

  class Registry {
    /** Every state the authoritative store has been in; the last is the current one. */
    var history: seq<Store>
    ghost var trace: seq<Command>

    ghost predicate Valid()
      reads this
    {
      history != []
    }

    function Current(): Store
      requires history != []
      reads this
    {
      history[|history| - 1]
    }

    /** A replica answers from some past moment. */
    method ViewIntegrity(name: string, version: string) returns (r: Reply)
      requires Valid()
      modifies this`trace
      ensures trace == old(trace) + [Viewed(name, r)]
      ensures r.Value? ==> exists k :: 0 <= k < |history| && (name, version) in history[k].integrities
                                       && history[k].integrities[(name, version)] == r.value
      ensures r.Absent? ==> exists k :: 0 <= k < |history| && (name, version) !in history[k].integrities
    {
      var k :| 0 <= k < |history|;
      if * {
        r := CommandFailed;
      } else if (name, version) in history[k].integrities {
        r := Value(history[k].integrities[(name, version)]);
      } else {
        r := Absent;
      }
      trace := trace + [Viewed(name, r)];
      assert r.Value? ==>
        (name, version) in history[k].integrities && history[k].integrities[(name, version)] == r.value;
      assert r.Absent? ==> (name, version) !in history[k].integrities;
    }

    method ListDistTag(name: string, tag: string) returns (r: Reply)
      requires Valid()
      modifies this`trace
      ensures trace == old(trace) + [Listed(name, tag, r)]
      ensures r.Value? ==> exists k :: 0 <= k < |history| && (name, tag) in history[k].tags
                                       && history[k].tags[(name, tag)] == r.value
    {
      var k :| 0 <= k < |history|;
      if * {
        r := CommandFailed;
      } else if (name, tag) in history[k].tags {
        r := Value(history[k].tags[(name, tag)]);
      } else {
        r := Absent;
      }
      trace := trace + [Listed(name, tag, r)];
      assert r.Value? ==> (name, tag) in history[k].tags && history[k].tags[(name, tag)] == r.value;
    }

    /** The write path sees the current store; a failed command may or may not have taken effect. */
    method Publish(m: Manifest, pkg: Package) returns (r: PublishReply)
      requires Valid()
      modifies this
      ensures Valid()
      ensures history == old(history)
        || (|history| == |old(history)| + 1 && old(history) <= history
            && PublishStep(m, pkg, old(Current()), Current()))
      ensures trace == old(trace) + [PublishTried(pkg.name, r)]
      ensures r.Published? ==> history != old(history)
      ensures r.AlreadyExists? ==> history == old(history) && (pkg.name, m.version) in Current().integrities
    {
      var s := Current();
      if * {
        r := PublishFailed;
      } else if (pkg.name, m.version) in s.integrities {
        r := AlreadyExists;
      } else {
        history := history +
          [Store(s.integrities[(pkg.name, m.version) := pkg.integrity], s.tags[(pkg.name, m.distTag) := m.version])];
        r := Published;
        if * { r := PublishFailed; }
      }
      trace := trace + [PublishTried(pkg.name, r)];
    }

    method AddDistTag(m: Manifest, name: string, tag: string) returns (ok: bool)
      requires Valid()
      modifies this
      ensures Valid()
      ensures history == old(history)
        || (|history| == |old(history)| + 1 && old(history) <= history
            && TagStep(m, name, tag, old(Current()), Current()))
      ensures trace == old(trace) + [TagTried(name, tag, ok)]
      ensures ok ==> history != old(history)
    {
      var s := Current();
      ok := false;
      if (name, m.version) in s.integrities {
        if * {
          history := history + [s.(tags := s.tags[(name, tag) := m.version])];
          if * { ok := true; }
        }
      }
      trace := trace + [TagTried(name, tag, ok)];
    }
  }

  datatype PackageCheck = Visible | NotYet | Broken(error: PublicationError)

  // ---- the publisher ----

  class RegistryPublication {
    const m: Manifest
    const registry: Registry
    var clock: int

    /** The commands sent since a moment at which `before` had been. */
    ghost function Sent(before: seq<Command>): seq<Command>
      requires |before| <= |registry.trace|
      reads registry
    {
      registry.trace[|before|..]
    }

    ghost predicate Valid()
      reads this, registry
    {
      registry.Valid() && DistinctNames(m) && Lawful(m, registry.history)
    }

    constructor (m: Manifest, registry: Registry, now: int)
      requires registry.Valid() && DistinctNames(m) && Lawful(m, registry.history)
      ensures Valid() && this.m == m && this.registry == registry
    {
      this.m, this.registry, clock := m, registry, now;
    }

    /** A visible integrity is the current one: versions are immutable. */
    method RemoteIntegrity(name: string) returns (r: Reply)
      requires Valid()
      modifies registry`trace
      ensures registry.trace == old(registry.trace) + [Viewed(name, r)]
      ensures r.Value? ==> (name, m.version) in registry.Current().integrities
                           && registry.Current().integrities[(name, m.version)] == r.value
      ensures r.Absent? ==> (name, m.version) !in registry.history[0].integrities
    {
      r := registry.ViewIntegrity(name, m.version);
      if r.Value? {
        ghost var k :| 0 <= k < |registry.history| && (name, m.version) in registry.history[k].integrities
                       && registry.history[k].integrities[(name, m.version)] == r.value;
        FactsPersist(m, registry.history, k, |registry.history| - 1, name, m.distTag);
      }
      if r.Absent? {
        ghost var k :| 0 <= k < |registry.history| && (name, m.version) !in registry.history[k].integrities;
        FactsPersist(m, registry.history, 0, k, name, m.distTag);
      }
    }

    /** A tag seen at this version is still there; a tag seen elsewhere was there before the first run. */
    method RemoteDistTag(name: string, tag: string) returns (r: Reply)
      requires Valid()
      modifies registry`trace
      ensures registry.trace == old(registry.trace) + [Listed(name, tag, r)]
      ensures r == Value(m.version) ==> HasTag(m, name, tag, registry.Current())
      ensures r.Value? && r.value != m.version ==>
        (name, tag) in registry.history[0].tags && registry.history[0].tags[(name, tag)] == r.value
    {
      r := registry.ListDistTag(name, tag);
      if r.Value? {
        ghost var k :| 0 <= k < |registry.history| && (name, tag) in registry.history[k].tags
                       && registry.history[k].tags[(name, tag)] == r.value;
        FactsPersist(m, registry.history, k, |registry.history| - 1, name, tag);
        if r.value != m.version { OtherTagsAreOld(m, registry.history, k, name, tag); }
      }
    }

    ghost predicate MayTag(k: nat, name: string, tag: string)
      requires registry.Valid()
      reads this, registry
    {
      Reached(m, k, registry.Current()) && HasIntegrity(m, m.packages[k], registry.Current())
      && m.packages[k].name == name && tag == m.distTag
    }

    /** The tags a run may move: that of the package it has come to, and the entry's `latest` on a complete store. */
    ghost predicate MayMove(name: string, tag: string)
      requires registry.Valid()
      reads this, registry
    {
      || (exists k: nat :: MayTag(k, name, tag))
      || (name == RELEASE_ENTRY_PACKAGE && tag == LATEST_DIST_TAG && Complete(m, registry.Current()))
    }

    method EnsureDistTag(name: string, tag: string) returns (o: Outcome)
      requires Valid() && MayMove(name, tag)
      modifies registry
      ensures Valid() && old(registry.history) <= registry.history
      ensures o.Done? ==> HasTag(m, name, tag, registry.Current())
      ensures o.Stopped? ==> o.error.Interrupted?
      ensures old(registry.trace) <= registry.trace
      ensures var sent := Sent(old(registry.trace));
        && (o.Done? <==> NoneFailed(sent))
        && sent != [] && sent[0].Listed? && sent[0].name == name && sent[0].tag == tag
        && (if sent[0].reply == Value(m.version) || sent[0].reply.CommandFailed?
            then |sent| == 1 && registry.history == old(registry.history)
            else |sent| == 2 && sent[1].TagTried? && sent[1].name == name && sent[1].tag == tag)
    {
      var seen := RemoteDistTag(name, tag);
      SentOne(old(registry.trace), Listed(name, tag, seen), registry.trace);
      if seen == CommandFailed { return Stopped(Interrupted); }
      if seen == Value(m.version) { return Done; }
      ghost var before, sent := registry.history, registry.trace;
      var ok := registry.AddDistTag(m, name, tag);
      SentOne(sent, TagTried(name, tag, ok), registry.trace);
      SentJoins(old(registry.trace), sent, registry.trace);
      if registry.history != before {
        assert Step(m, before[|before| - 1], registry.Current()) by {
          if k: nat :| old(MayTag(k, name, tag)) { assert LoopStep(m, k, before[|before| - 1], registry.Current()); }
        }
        AppendKeepsLawful(m, before, registry.history);
      }
      return if ok then Done else Stopped(Interrupted);
    }

    /** Package `k` of the publishing loop, which has settled those before it. */
    method PublishPackage(k: nat) returns (o: Outcome)
      requires Valid() && Reached(m, k, registry.Current())
      modifies registry
      ensures Valid() && old(registry.history) <= registry.history
      ensures o.Done? ==> Settled(m, m.packages[k], registry.Current())
      ensures o.Stopped? ==> o.error.Interrupted? || RealMismatch(o.error)
      ensures old(registry.trace) <= registry.trace
      ensures o == Stopped(Interrupted) <==> !NoneFailed(Sent(old(registry.trace)))
      ensures var sent := Sent(old(registry.trace));
        && sent != [] && sent[0].Viewed? && sent[0].name == m.packages[k].name
        && (sent[0].reply.Absent? ==> |sent| == 2 && sent[1].PublishTried? && sent[1].name == m.packages[k].name)
        && (sent[0].reply.Value? && sent[0].reply.value == m.packages[k].integrity ==>
            |sent| >= 2 && sent[1].Listed? && sent[1].name == m.packages[k].name && sent[1].tag == m.distTag)
        && (sent[0].reply.Value? && sent[0].reply.value != m.packages[k].integrity ==> |sent| == 1 && o.Stopped?)
    {
      var pkg := m.packages[k];
      var existing := RemoteIntegrity(pkg.name);
      SentOne(old(registry.trace), Viewed(pkg.name, existing), registry.trace);
      if existing.CommandFailed? { return Stopped(Interrupted); }
      if existing.Absent? {
        ghost var before, sent := registry.history, registry.trace;
        var r := registry.Publish(m, pkg);
        SentOne(sent, PublishTried(pkg.name, r), registry.trace);
        SentJoins(old(registry.trace), sent, registry.trace);
        if registry.history != before {
          assert LoopStep(m, k, before[|before| - 1], registry.Current());
          AppendKeepsLawful(m, before, registry.history);
        }
        if r.PublishFailed? { return Stopped(Interrupted); }
        NewVersionsAreSettled(m, registry.history, 0, |registry.history| - 1, pkg);
        return Done;
      }
      if existing.value != pkg.integrity { return Stopped(DifferentIntegrity(pkg.name)); }
      assert MayTag(k, pkg.name, m.distTag);
      ghost var sent := registry.trace;
      o := EnsureDistTag(pkg.name, m.distTag);
      SentJoins(old(registry.trace), sent, registry.trace);
      FactsPersist(m, registry.history, |old(registry.history)| - 1, |registry.history| - 1, pkg.name, m.distTag);
    }

    /** The store really has other content under this version. */
    ghost predicate RealMismatch(error: PublicationError)
      requires registry.Valid()
      reads this, registry
    {
      error.DifferentIntegrity?
      && exists pkg :: pkg in m.packages && pkg.name == error.name && OtherContent(m, pkg, registry.Current())
    }

    /** The tag was elsewhere before the first run; whether it still is, the reader cannot tell. */
    ghost predicate OldTag(error: PublicationError)
      requires registry.Valid()
      reads this, registry
    {
      error.WrongTag? && error.tag == m.distTag
      && exists pkg :: pkg in m.packages && pkg.name == error.name && AtOtherVersion(m, pkg, registry.history[0])
    }

    /** None of these commands has shown the package at this version; a shown tag comes after a shown integrity. */
    ghost predicate NeverShown(sent: seq<Command>, name: string) {
      Listed(name, m.distTag, Value(m.version)) !in sent
    }

    lemma ShownByOne(start: seq<Command>, before: seq<Command>, now: seq<Command>, pkg: Package, check: PackageCheck)
      requires start <= before <= now && Read(pkg, now[|before|..], check)
      ensures forall name :: name != pkg.name || check.NotYet? ==>
        (NeverShown(now[|start|..], name) <==> NeverShown(before[|start|..], name))
    {
      assert now[|start|..] == before[|start|..] + now[|before|..];
    }

    /** What the reads of one package mean. */
    ghost predicate Read(pkg: Package, sent: seq<Command>, check: PackageCheck) {
      && 1 <= |sent| <= 2 && sent[0].Viewed? && sent[0].name == pkg.name
      && (|sent| == 2 <==> sent[0].reply == Value(pkg.integrity))
      && (|sent| == 2 ==> sent[1].Listed? && sent[1].name == pkg.name && sent[1].tag == m.distTag)
      && (check == Broken(Interrupted) <==> !NoneFailed(sent))
      && (check.NotYet? <==> NotSeen(sent, pkg.name))
      && (check.Visible? <==>
            sent == [Viewed(pkg.name, Value(pkg.integrity)), Listed(pkg.name, m.distTag, Value(m.version))])
    }

    /**
      A package not visible yet is told from a failed command and from a mismatch. A stop for another
      integrity is a real mismatch; a stop for a wrong tag may be a stale one.
     */
    method VerifyRemotePackage(pkg: Package) returns (check: PackageCheck)
      requires Valid() && pkg in m.packages
      modifies registry`trace
      ensures old(registry.trace) <= registry.trace && Read(pkg, Sent(old(registry.trace)), check)
      ensures check.Visible? ==> Settled(m, pkg, registry.Current())
      ensures check.Broken? ==> check.error.Interrupted? || RealMismatch(check.error) || OldTag(check.error)
    {
      var integrity := RemoteIntegrity(pkg.name);
      if integrity.CommandFailed? { return Broken(Interrupted); }
      if integrity.Absent? { return NotYet; }
      if integrity.value != pkg.integrity { return Broken(DifferentIntegrity(pkg.name)); }
      var tag := RemoteDistTag(pkg.name, m.distTag);
      if tag.CommandFailed? { return Broken(Interrupted); }
      if tag.Absent? { return NotYet; }
      if tag.value != m.version { return Broken(WrongTag(pkg.name, m.distTag)); }
      return Visible;
    }

    /** Packages of the bundle, each once, that nothing has shown since `start` had been sent. */
    ghost predicate StillDue(start: seq<Command>, now: seq<Command>, pending: seq<Package>) {
      && start <= now && (forall pkg :: pkg in pending ==> pkg in m.packages)
      && (forall i, j :: 0 <= i < j < |pending| ==> pending[i].name != pending[j].name)
      && (forall i :: 0 <= i < |pending| ==> NeverShown(now[|start|..], pending[i].name))
    }

    /** Within a pass: the packages not yet asked for, and those that were not visible. */
    ghost predicate Passing(start: seq<Command>, pass: seq<Command>, pending: seq<Package>, k: nat,
        notVisible: seq<Package>)
      requires registry.Valid() && k <= |pending|
      reads this, registry
    {
      && start <= pass <= registry.trace && NoneFailed(Sent(pass))
      && StillDue(start, registry.trace, notVisible + pending[k..])
      && (forall j :: 0 <= j < k && pending[j] !in notVisible ==> Settled(m, pending[j], registry.Current()))
      && (forall pkg :: pkg in notVisible ==> pkg in pending && NotSeen(Sent(pass), pkg.name))
    }

    /** One package of a pass. */
    method CheckNext(ghost start: seq<Command>, ghost pass: seq<Command>, pending: seq<Package>, k: nat,
        seen: seq<Package>) returns (notVisible: seq<Package>, failure: Option<PublicationError>)
      requires Valid() && k < |pending| && Passing(start, pass, pending, k, seen)
      modifies registry`trace
      ensures pass <= registry.trace && (failure == Some(Interrupted) <==> !NoneFailed(Sent(pass)))
      ensures failure.None? ==> Passing(start, pass, pending, k + 1, notVisible)
      ensures failure.Some? ==> failure.value.Interrupted? || RealMismatch(failure.value) || OldTag(failure.value)
    {
      ghost var before := registry.trace;
      assert (seen + pending[k..])[|seen|] == pending[k];
      var check := VerifyRemotePackage(pending[k]);
      SentJoins(pass, before, registry.trace);
      DueAfter(start, before, registry.trace, seen, pending[k..], check);
      assert pending[k..][1..] == pending[k + 1..];
      match check {
        case Visible => return seen, None;
        case NotYet => return seen + [pending[k]], None;
        case Broken(error) => return [], Some(error);
      }
    }

    lemma DueAfter(start: seq<Command>, before: seq<Command>, now: seq<Command>, seen: seq<Package>,
        rest: seq<Package>, check: PackageCheck)
      requires rest != [] && start <= before <= now && Read(rest[0], now[|before|..], check)
      requires StillDue(start, before, seen + rest)
      ensures StillDue(start, now, seen + rest[1..])
      ensures check.NotYet? ==> StillDue(start, now, seen + [rest[0]] + rest[1..])
    {
      var all, fewer := seen + rest, seen + rest[1..];
      ShownByOne(start, before, now, rest[0], check);
      assert all[|seen|] == rest[0];
      assert forall i :: 0 <= i < |fewer| ==> fewer[i] == all[if i < |seen| then i else i + 1];
      assert seen + [rest[0]] + rest[1..] == all;
    }

    /** One pass over the packages not yet seen. */
    method CheckPending(ghost start: seq<Command>, pending: seq<Package>)
        returns (notVisible: seq<Package>, failure: Option<PublicationError>)
      requires Valid() && StillDue(start, registry.trace, pending)
      modifies this`clock, registry`trace
      ensures clock >= old(clock) && old(registry.trace) <= registry.trace
      ensures failure == Some(Interrupted) <==> !NoneFailed(Sent(old(registry.trace)))
      ensures failure.None? ==> StillDue(start, registry.trace, notVisible)
      ensures failure.None? ==>
        forall pkg :: pkg in pending && pkg !in notVisible ==> Settled(m, pkg, registry.Current())
      ensures failure.Some? ==> failure.value.Interrupted? || RealMismatch(failure.value) || OldTag(failure.value)
      ensures failure.None? ==>
        forall pkg :: pkg in notVisible ==> pkg in pending && NotSeen(Sent(old(registry.trace)), pkg.name)
    {
      notVisible := [];
      PassStarts(start, pending);
      for k := 0 to |pending|
        invariant clock >= old(clock) && Passing(start, old(registry.trace), pending, k, notVisible)
      {
        var elapsed :| elapsed >= 0;
        clock := clock + elapsed;
        notVisible, failure := CheckNext(start, old(registry.trace), pending, k, notVisible);
        if failure.Some? { return; }
      }
      PassEnds(start, old(registry.trace), pending, notVisible);
      return notVisible, None;
    }

    lemma PassStarts(start: seq<Command>, pending: seq<Package>)
      requires registry.Valid() && StillDue(start, registry.trace, pending)
      ensures Passing(start, registry.trace, pending, 0, [])
    {
      assert [] + pending[0..] == pending;
    }

    lemma PassEnds(start: seq<Command>, pass: seq<Command>, pending: seq<Package>, notVisible: seq<Package>)
      requires registry.Valid() && Passing(start, pass, pending, |pending|, notVisible)
      ensures StillDue(start, registry.trace, notVisible)
      ensures forall pkg :: pkg in pending && pkg !in notVisible ==> Settled(m, pkg, registry.Current())
      ensures forall pkg :: pkg in notVisible ==> pkg in pending && NotSeen(Sent(pass), pkg.name)
    {
      assert notVisible + pending[|pending|..] == notVisible;
    }

    /**
      Retry until every package is visible; the window and the backoff bound the number of passes. A package
      once shown is not asked for again. Without a failed command it ends with a complete store, a mismatch,
      or, after the window, packages that nothing has shown and that were read as absent.
     */
    method VerifyRemote() returns (o: Outcome, ghost passes: nat)
      requires Valid()
      modifies this`clock, registry`trace
      ensures old(registry.trace) <= registry.trace
      ensures o.Done? ==> Complete(m, registry.Current())
      ensures passes <= 31
      ensures o == Stopped(Interrupted) <==> !NoneFailed(Sent(old(registry.trace)))
      ensures o.Stopped? ==>
        o.error.Interrupted? || o.error.NotVisible? || RealMismatch(o.error) || OldTag(o.error)
      ensures o.Stopped? && o.error.NotVisible? ==> clock >= old(clock) + REPLICATION_WINDOW_MS
      ensures o.Stopped? && o.error.NotVisible? ==>
        o.error.names != [] && forall name :: name in o.error.names ==>
          NotSeen(Sent(old(registry.trace)), name) && NeverShown(Sent(old(registry.trace)), name)
    {
      var deadline := clock + REPLICATION_WINDOW_MS;
      var pending := m.packages;
      passes := 1;
      while true
        invariant old(registry.trace) <= registry.trace && NoneFailed(Sent(old(registry.trace)))
        invariant StillDue(old(registry.trace), registry.trace, pending)
        invariant forall pkg :: pkg in m.packages && pkg !in pending ==> Settled(m, pkg, registry.Current())
        invariant clock >= old(clock) + BACKOFF_MS * (passes - 1)
        invariant 1 <= passes <= 31
        decreases deadline - clock
      {
        ghost var before := registry.trace;
        var notVisible, failure := CheckPending(old(registry.trace), pending);
        SentJoins(old(registry.trace), before, registry.trace);
        if failure.Some? { return Stopped(failure.value), passes; }
        if notVisible == [] { return Done, passes; }
        if clock >= deadline {
          return Stopped(NotVisible(seq(|notVisible|, i requires 0 <= i < |notVisible| => notVisible[i].name))), passes;
        }
        var overshoot :| overshoot >= 0;
        clock := clock + BACKOFF_MS + overshoot;
        pending := notVisible;
        passes := passes + 1;
      }
    }

    method VerifyReleaseEntryDistTag() returns (o: Outcome, ghost reply: Reply)
      requires Valid()
      modifies registry`trace
      ensures o.Stopped? ==> !o.error.DifferentIntegrity? && !o.error.NotVisible?
      ensures o.Done? ==> HasTag(m, RELEASE_ENTRY_PACKAGE, LATEST_DIST_TAG, registry.Current())
      ensures registry.trace == old(registry.trace) + [Listed(RELEASE_ENTRY_PACKAGE, LATEST_DIST_TAG, reply)]
      ensures (o.Done? <==> reply == Value(m.version)) && (o == Stopped(Interrupted) <==> reply.CommandFailed?)
    {
      var tag := RemoteDistTag(RELEASE_ENTRY_PACKAGE, LATEST_DIST_TAG);
      reply := tag;
      if tag == Value(m.version) { return Done, reply; }
      o := Stopped(if tag.CommandFailed? then Interrupted else WrongTag(RELEASE_ENTRY_PACKAGE, LATEST_DIST_TAG));
    }

    /**
      One run. However it ends, the history it leaves is lawful, so a later run may start from
      it; a run that returns normally leaves every package at its manifest integrity and tag,
      and the entry package's `latest` at this version. A run is interrupted exactly by a failed
      command. One that stops for a wrong tag or for packages not visible has in fact completed the
      store, and one that stops for another integrity has met it.
     */
    method Publish() returns (o: Outcome)
      requires Valid()
      modifies registry, this`clock
      ensures Valid() && old(registry.history) <= registry.history && old(registry.trace) <= registry.trace
      ensures o.Done? ==> Complete(m, registry.Current())
      ensures o.Done? ==> HasTag(m, RELEASE_ENTRY_PACKAGE, LATEST_DIST_TAG, registry.Current())
      ensures o == Stopped(Interrupted) <==> !NoneFailed(Sent(old(registry.trace)))
      ensures o.Stopped? && (o.error.WrongTag? || o.error.NotVisible?) ==> Complete(m, registry.Current())
      ensures o.Stopped? && o.error.DifferentIntegrity? ==> RealMismatch(o.error)
      ensures o.Stopped? && o.error.NotVisible? ==> clock >= old(clock) + REPLICATION_WINDOW_MS
    {
      var ready := Prompt();
      SentOne(old(registry.trace), Prompted(ready), registry.trace);
      if !ready { return Stopped(Interrupted); }
      for k := 0 to |m.packages|
        invariant Valid() && old(registry.history) <= registry.history && old(registry.trace) <= registry.trace
        invariant NoneFailed(Sent(old(registry.trace))) && clock == old(clock)
        invariant forall j :: 0 <= j < k ==> Settled(m, m.packages[j], registry.Current())
      {
        ghost var before, sent := |registry.history| - 1, registry.trace;
        o := PublishPackage(k);
        SentJoins(old(registry.trace), sent, registry.trace);
        if o.Stopped? { return; }
        SettledPersists(m, registry.history, before, |registry.history| - 1);
      }
      ghost var passes, published := 0, registry.trace;
      o, passes := VerifyRemote();
      SentJoins(old(registry.trace), published, registry.trace);
      if o.Stopped? { return; }
      ghost var verified, checked := |registry.history| - 1, registry.trace;
      o := EnsureDistTag(RELEASE_ENTRY_PACKAGE, LATEST_DIST_TAG);
      SentJoins(old(registry.trace), checked, registry.trace);
      SettledPersists(m, registry.history, verified, |registry.history| - 1);
      if o.Stopped? { return; }
      ghost var moved, reply := registry.trace, Absent;
      o, reply := VerifyReleaseEntryDistTag();
      SentOne(moved, Listed(RELEASE_ENTRY_PACKAGE, LATEST_DIST_TAG, reply), registry.trace);
      SentJoins(old(registry.trace), moved, registry.trace);
    }

    /** Ping, identity check and confirmation. */
    method Prompt() returns (ok: bool)
      modifies registry`trace
      ensures registry.trace == old(registry.trace) + [Prompted(ok)]
    {
      ok := true;
      if * { ok := false; }
      registry.trace := registry.trace + [Prompted(ok)];
    }

    /** The stand-alone check: it changes nothing and vouches for the same facts. */
    method Verify() returns (o: Outcome)
      requires Valid()
      modifies this`clock, registry`trace
      ensures old(registry.trace) <= registry.trace
      ensures o.Done? ==> Complete(m, registry.Current())
      ensures o.Done? ==> HasTag(m, RELEASE_ENTRY_PACKAGE, LATEST_DIST_TAG, registry.Current())
      ensures o == Stopped(Interrupted) <==> !NoneFailed(Sent(old(registry.trace)))
      ensures o.Stopped? && o.error.NotVisible? ==> clock >= old(clock) + REPLICATION_WINDOW_MS
    {
      var ready := Prompt();
      SentOne(old(registry.trace), Prompted(ready), registry.trace);
      if !ready { return Stopped(Interrupted); }
      ghost var passes, asked := 0, registry.trace;
      o, passes := VerifyRemote();
      SentJoins(old(registry.trace), asked, registry.trace);
      if o.Stopped? { return; }
      ghost var checked, reply := registry.trace, Absent;
      o, reply := VerifyReleaseEntryDistTag();
      SentOne(checked, Listed(RELEASE_ENTRY_PACKAGE, LATEST_DIST_TAG, reply), registry.trace);
      SentJoins(old(registry.trace), checked, registry.trace);
    }
  }

  lemma SentOne(start: seq<Command>, c: Command, now: seq<Command>)
    requires now == start + [c]
    ensures now[|start|..] == [c] && (NoneFailed(now[|start|..]) <==> !Failed(c))
  {
    assert now[|start|..][0] == c;
  }

  /** What was sent since the start is what was sent before some moment and after it. */
  lemma SentJoins(start: seq<Command>, middle: seq<Command>, now: seq<Command>)
    requires start <= middle <= now
    ensures NoneFailed(now[|start|..]) <==> NoneFailed(middle[|start|..]) && NoneFailed(now[|middle|..])
    ensures forall name :: NotSeen(middle[|start|..], name) || NotSeen(now[|middle|..], name) ==>
      NotSeen(now[|start|..], name)
  {
    var all, first, second := now[|start|..], middle[|start|..], now[|middle|..];
    assert all == first + second;
    assert forall i :: 0 <= i < |first| ==> all[i] == first[i];
    assert forall i :: 0 <= i < |second| ==> all[|first| + i] == second[i];
  }
}
