/**
  Resolving the pairing records left unmerged by a Git merge, as one batch: every record is either
  resolved or reported, and reported ones stay as they were.
 */
module ConflictBatch {
  import opened Wrappers
  import opened PairingRecords
  import L = Lines
  import LineEndings

  // ---- what the batch is given ----

  datatype Stage = Ancestor | Current | Other

  datatype UnmergedEntry = UnmergedEntry(objectId: string, stage: Stage, path: string)

  datatype Stages = Stages(ancestor: Option<string>, current: Option<string>, other: Option<string>)

  /**
    Git and the Markdown parser, as far as the batch consults them: blob hashes, the default
    three-way text merge of a labelled file (`None` for conflicts or failure), whether both
    documents use that merge, whether a merged pair keeps its structure and switcher links,
    and whether a record path lies in the bilingual corpus.
   */
  datatype Git = Git(
    hash: string -> string,
    merge: (string, string, string, string) -> Option<string>,
    usesDefaultMerge: PairPaths -> bool,
    keepsStructure: (PairPaths, string, string) -> bool,
    inScope: string -> bool)

  datatype Reason =
    | IncompleteStages | UnreadableBlob | EditedSidecar | OutOfScope | NotARecordPath | CustomMerge | InvalidRecord
    | OwnerConflict | StructureDiverged | StagedMismatch | UnstagedContent | UnreadableFile

  datatype Owners = Owners(source: string, zh: string)

  datatype Composed = Composed(paths: PairPaths, owners: Owners)

  // ---- one record ----

  function ReadBlob(git: Git, objects: map<string, string>, id: string): Result<string, Reason> {
    if id in objects && git.hash(objects[id]) == id then Ok(objects[id]) else Err(UnreadableBlob)
  }

  function LoadOwners(git: Git, objects: map<string, string>, content: string, paths: PairPaths)
      : Result<Owners, Reason> {
    var record := Parse(content, paths);
    if record.None? then Err(InvalidRecord)
    else
      var source := ReadBlob(git, objects, record.value.sourceHash);
      var zh := ReadBlob(git, objects, record.value.zhHash);
      if source.Err? || zh.Err? then Err(UnreadableBlob) else Ok(Owners(source.value, zh.value))
  }

  /** The clean merge of a pair named by three records. */
  function Compose(git: Git, objects: map<string, string>, meta: string, ancestor: string, current: string,
      other: string)
    : Result<Composed, Reason>
  {
    var named := PathsOfMeta(meta);
    if !git.inScope(meta) then Err(OutOfScope)
    else if named.None? then Err(NotARecordPath)
    else if !git.usesDefaultMerge(named.value) then Err(CustomMerge)
    else
      var paths := named.value;
      var a := LoadOwners(git, objects, ancestor, paths);
      var c := LoadOwners(git, objects, current, paths);
      var o := LoadOwners(git, objects, other, paths);
      if a.Err? then Err(a.error) else if c.Err? then Err(c.error) else if o.Err? then Err(o.error)
      else
        var source := git.merge(paths.source, a.value.source, c.value.source, o.value.source);
        var zh := git.merge(paths.zh, a.value.zh, c.value.zh, o.value.zh);
        if source.None? || zh.None? then Err(OwnerConflict)
        else if !git.keepsStructure(paths, source.value, zh.value) then Err(StructureDiverged)
        else Ok(Composed(paths, Owners(source.value, zh.value)))
  }

  predicate Contains(text: string, part: string) {
    part <= text || (text != "" && Contains(text[1..], part))
  }

  predicate ContainsEntries(text: string, record: string) {
    var lines := L.Split(LineEndings.Normalize(record));
    forall i :: 0 <= i < |lines| && !IsComment(lines[i]) ==> Contains(text, lines[i])
  }

  /** The record on disk is one side, the clean merge, or an unedited conflict of both sides. */
  predicate Unedited(git: Git, meta: string, text: string, ancestor: string, current: string, other: string) {
    || text == current || text == other || git.merge(meta, ancestor, current, other) == Some(text)
    || (Contains(text, "<<<<<<<") && Contains(text, "=======") && Contains(text, ">>>>>>>")
        && ContainsEntries(text, current) && ContainsEntries(text, other))
  }

  /** The pair, if one record is mechanically composable. */
  function ComposeStages(git: Git, objects: map<string, string>, worktree: map<string, string>, meta: string,
      stages: Stages)
    : Result<Composed, Reason>
  {
    if stages.ancestor.None? || stages.current.None? || stages.other.None? then Err(IncompleteStages)
    else
      var a := ReadBlob(git, objects, stages.ancestor.value);
      var c := ReadBlob(git, objects, stages.current.value);
      var o := ReadBlob(git, objects, stages.other.value);
      if a.Err? || c.Err? || o.Err? then Err(UnreadableBlob)
      else if meta !in worktree then Err(UnreadableFile)
      else if !Unedited(git, meta, worktree[meta], a.value, c.value, o.value) then Err(EditedSidecar)
      else Compose(git, objects, meta, a.value, c.value, o.value)
  }

  predicate StagedAs(git: Git, index: map<string, string>, pair: Composed) {
    && pair.paths.source in index && index[pair.paths.source] == git.hash(pair.owners.source)
    && pair.paths.zh in index && index[pair.paths.zh] == git.hash(pair.owners.zh)
  }

  predicate OnDiskAs(git: Git, worktree: map<string, string>, pair: Composed) {
    && pair.paths.source in worktree && git.hash(worktree[pair.paths.source]) == git.hash(pair.owners.source)
    && pair.paths.zh in worktree && git.hash(worktree[pair.paths.zh]) == git.hash(pair.owners.zh)
  }

  /** What one pass of the loop decides about a record. */
  function Decide(git: Git, objects: map<string, string>, index: map<string, string>, worktree: map<string, string>,
      meta: string, stages: Stages): Result<Composed, Reason>
  {
    var pair := ComposeStages(git, objects, worktree, meta, stages);
    if pair.Err? then pair
    else if !StagedAs(git, index, pair.value) then Err(StagedMismatch)
    else if !OnDiskAs(git, worktree, pair.value) then Err(UnstagedContent)
    else pair
  }

  ghost predicate Grows(a: map<string, string>, b: map<string, string>) {
    forall id :: id in a ==> id in b && b[id] == a[id]
  }

  lemma LoadOwnersMonotone(git: Git, a: map<string, string>, b: map<string, string>, content: string, paths: PairPaths)
    requires Grows(a, b) && LoadOwners(git, a, content, paths).Ok?
    ensures LoadOwners(git, b, content, paths) == LoadOwners(git, a, content, paths)
  {
  }

  lemma ComposeMonotone(git: Git, a: map<string, string>, b: map<string, string>, meta: string, ancestor: string,
      current: string, other: string)
    requires Grows(a, b) && Compose(git, a, meta, ancestor, current, other).Ok?
    ensures Compose(git, b, meta, ancestor, current, other) == Compose(git, a, meta, ancestor, current, other)
  {
    var paths := PathsOfMeta(meta).value;
    LoadOwnersMonotone(git, a, b, ancestor, paths);
    LoadOwnersMonotone(git, a, b, current, paths);
    LoadOwnersMonotone(git, a, b, other, paths);
  }

  /** More stored objects never spoil a decision to resolve. */
  lemma DecideMonotone(git: Git, a: map<string, string>, b: map<string, string>, index: map<string, string>,
      worktree: map<string, string>, meta: string, stages: Stages)
    requires Grows(a, b) && Decide(git, a, index, worktree, meta, stages).Ok?
    ensures Decide(git, b, index, worktree, meta, stages) == Decide(git, a, index, worktree, meta, stages)
  {
    var ancestor := ReadBlob(git, a, stages.ancestor.value).value;
    var current := ReadBlob(git, a, stages.current.value).value;
    var other := ReadBlob(git, a, stages.other.value).value;
    ComposeMonotone(git, a, b, meta, ancestor, current, other);
  }

  // ---- the unmerged records ----

  /** The object of the last entry for a path and stage. */
  function LastId(entries: seq<UnmergedEntry>, path: string, stage: Stage): Option<string> {
    if entries == [] then None
    else
      var last := entries[|entries| - 1];
      if last.path == path && last.stage == stage then Some(last.objectId)
      else LastId(entries[..|entries| - 1], path, stage)
  }

  function StagesOf(entries: seq<UnmergedEntry>, path: string): Stages {
    Stages(LastId(entries, path, Ancestor), LastId(entries, path, Current), LastId(entries, path, Other))
  }

  predicate IsSidecar(path: string) { EndsWith(path, ".i18n.yaml") }

  function Sidecars(entries: seq<UnmergedEntry>): set<string> {
    set i | 0 <= i < |entries| && IsSidecar(entries[i].path) :: entries[i].path
  }

  function Without(entries: seq<UnmergedEntry>, paths: set<string>): seq<UnmergedEntry> {
    if entries == [] then []
    else (if entries[0].path in paths then [] else [entries[0]]) + Without(entries[1..], paths)
  }

  lemma {:induction false} SidecarsWithout(entries: seq<UnmergedEntry>, paths: set<string>)
    ensures Sidecars(Without(entries, paths)) == Sidecars(entries) - paths
  {
    if entries != [] {
      SidecarsWithout(entries[1..], paths);
      SidecarsConcat([entries[0]], entries[1..]);
      assert entries == [entries[0]] + entries[1..];
      SidecarsConcat(if entries[0].path in paths then [] else [entries[0]], Without(entries[1..], paths));
    }
  }

  lemma {:induction false} LastIdWithout(entries: seq<UnmergedEntry>, paths: set<string>, path: string, stage: Stage)
    requires path !in paths
    ensures LastId(Without(entries, paths), path, stage) == LastId(entries, path, stage)
  {
    if entries != [] {
      var kept := if entries[0].path in paths then [] else [entries[0]];
      LastIdWithout(entries[1..], paths, path, stage);
      assert entries == [entries[0]] + entries[1..];
      LastIdConcat([entries[0]], entries[1..], path, stage);
      LastIdConcat(kept, Without(entries[1..], paths), path, stage);
    }
  }

  /** What is not staged by the batch keeps its stages. */
  lemma StagesWithout(entries: seq<UnmergedEntry>, paths: set<string>)
    ensures forall path :: path !in paths ==> StagesOf(Without(entries, paths), path) == StagesOf(entries, path)
  {
    forall path | path !in paths ensures StagesOf(Without(entries, paths), path) == StagesOf(entries, path) {
      LastIdWithout(entries, paths, path, Ancestor);
      LastIdWithout(entries, paths, path, Current);
      LastIdWithout(entries, paths, path, Other);
    }
  }

  lemma {:induction false} LastIdConcat(a: seq<UnmergedEntry>, b: seq<UnmergedEntry>, path: string, stage: Stage)
    ensures LastId(a + b, path, stage)
      == if LastId(b, path, stage).Some? then LastId(b, path, stage) else LastId(a, path, stage)
  {
    if b == [] {
      assert a + b == a;
    } else {
      assert (a + b)[..|a + b| - 1] == a + b[..|b| - 1];
      LastIdConcat(a, b[..|b| - 1], path, stage);
    }
  }

  lemma SidecarsConcat(a: seq<UnmergedEntry>, b: seq<UnmergedEntry>)
    ensures Sidecars(a + b) == Sidecars(a) + Sidecars(b)
  {
    forall path | path in Sidecars(b) ensures path in Sidecars(a + b) {
      var i :| 0 <= i < |b| && IsSidecar(b[i].path) && b[i].path == path;
      assert (a + b)[|a| + i] == b[i];
    }
    forall path | path in Sidecars(a) ensures path in Sidecars(a + b) {
      var i :| 0 <= i < |a| && IsSidecar(a[i].path) && a[i].path == path;
      assert (a + b)[i] == a[i];
    }
  }

  function AddStage(stages: Stages, entry: UnmergedEntry): Stages {
    match entry.stage
    case Ancestor => stages.(ancestor := Some(entry.objectId))
    case Current => stages.(current := Some(entry.objectId))
    case Other => stages.(other := Some(entry.objectId))
  }

  lemma StagesOfLast(entries: seq<UnmergedEntry>, i: nat, path: string)
    requires i < |entries|
    ensures StagesOf(entries[..i + 1], path)
      == if entries[i].path == path then AddStage(StagesOf(entries[..i], path), entries[i])
        else StagesOf(entries[..i], path)
  {
    assert entries[..i + 1][..i] == entries[..i];
  }

  lemma SidecarsLast(entries: seq<UnmergedEntry>, i: nat)
    requires i < |entries|
    ensures Sidecars(entries[..i + 1])
      == Sidecars(entries[..i]) + (if IsSidecar(entries[i].path) then {entries[i].path} else {})
  {
    assert entries[..i + 1] == entries[..i] + [entries[i]];
    SidecarsConcat(entries[..i], [entries[i]]);
    assert Sidecars([entries[i]]) == if IsSidecar(entries[i].path) then {entries[i].path} else {} by {
      if IsSidecar([entries[i]][0].path) { assert [entries[i]][0].path in Sidecars([entries[i]]); }
    }
  }

  method UnmergedSidecars(entries: seq<UnmergedEntry>) returns (records: map<string, Stages>)
    ensures records.Keys == Sidecars(entries)
    ensures forall path :: path in records ==> records[path] == StagesOf(entries, path)
  {
    records := map[];
    for i := 0 to |entries|
      invariant records.Keys == Sidecars(entries[..i])
      invariant forall path :: path in records ==> records[path] == StagesOf(entries[..i], path)
    {
      var entry := entries[i];
      SidecarsLast(entries, i);
      forall path ensures StagesOf(entries[..i + 1], path)
        == if entry.path == path then AddStage(StagesOf(entries[..i], path), entry) else StagesOf(entries[..i], path) {
        StagesOfLast(entries, i, path);
      }
      if IsSidecar(entry.path) {
        if entry.path !in records { NoStages(entries[..i], entry.path); }
        var stages := if entry.path in records then records[entry.path] else Stages(None, None, None);
        records := records[entry.path := AddStage(stages, entry)];
      }
    }
    assert entries[..|entries|] == entries;
  }

  lemma {:induction false} NoStages(entries: seq<UnmergedEntry>, path: string)
    requires IsSidecar(path) && path !in Sidecars(entries)
    ensures StagesOf(entries, path) == Stages(None, None, None)
  {
    if entries != [] {
      var front := entries[..|entries| - 1];
      var last := [entries[|entries| - 1]];
      assert entries == front + last;
      SidecarsConcat(front, last);
      assert last[0].path != path;
      NoStages(front, path);
    }
  }

  // ---- the batch ----

  function RecordOf(git: Git, pair: Composed): string {
    Render(pair.paths, PairRecord(git.hash(pair.owners.source), git.hash(pair.owners.zh)))
  }

  ghost predicate AllDecided(git: Git, objects: map<string, string>, index: map<string, string>,
      worktree: map<string, string>,
      records: map<string, Stages>, resolutions: map<string, Composed>)
  {
    forall p :: p in resolutions ==>
      p in records && Decide(git, objects, index, worktree, p, records[p]) == Ok(resolutions[p])
  }

  lemma KeepDecided(git: Git, a: map<string, string>, b: map<string, string>, index: map<string, string>,
      worktree: map<string, string>,
      records: map<string, Stages>, resolutions: map<string, Composed>)
    requires Grows(a, b) && AllDecided(git, a, index, worktree, records, resolutions)
    ensures AllDecided(git, b, index, worktree, records, resolutions)
  {
    forall p | p in resolutions ensures Decide(git, b, index, worktree, p, records[p]) == Ok(resolutions[p]) {
      DecideMonotone(git, a, b, index, worktree, p, records[p]);
    }
  }

  /** Refused for the reason seen at some point between two object stores, and with the first of them anyway. */
  ghost predicate Refused(git: Git, before: map<string, string>, after: map<string, string>,
      index: map<string, string>, worktree: map<string, string>, meta: string, stages: Stages, reason: Reason)
  {
    exists seen ::
      && Grows(before, seen) && Grows(seen, after)
      && Decide(git, seen, index, worktree, meta, stages) == Err(reason)
  }

  ghost predicate AllRefused(git: Git, before: map<string, string>, after: map<string, string>,
      index: map<string, string>, worktree: map<string, string>, records: map<string, Stages>,
      failures: map<string, Reason>)
  {
    forall p :: p in failures ==>
      p in records && Refused(git, before, after, index, worktree, p, records[p], failures[p])
  }

  lemma KeepRefused(git: Git, before: map<string, string>, after: map<string, string>, later: map<string, string>,
      index: map<string, string>, worktree: map<string, string>, records: map<string, Stages>,
      failures: map<string, Reason>)
    requires Grows(after, later) && AllRefused(git, before, after, index, worktree, records, failures)
    ensures AllRefused(git, before, later, index, worktree, records, failures)
  {
    forall p | p in failures ensures Refused(git, before, later, index, worktree, p, records[p], failures[p]) {
      var seen :| Grows(before, seen) && Grows(seen, after)
        && Decide(git, seen, index, worktree, p, records[p]) == Err(failures[p]);
      assert Grows(seen, later);
    }
  }

  class Repository {
    const git: Git
    var objects: map<string, string>
    var index: map<string, string>
    var worktree: map<string, string>
    var unmerged: seq<UnmergedEntry>

    method StoreBlob(content: string)
      modifies this`objects
      ensures Grows(old(objects), objects) && git.hash(content) in objects
    {
      if git.hash(content) !in objects { objects := objects[git.hash(content) := content]; }
    }

    /** One pass of the loop: decides a record, storing its merged documents once they compose. */
    method Attempt(meta: string, stages: Stages) returns (r: Result<Composed, Reason>)
      modifies this`objects
      ensures Grows(old(objects), objects)
      ensures r == Decide(git, old(objects), index, worktree, meta, stages)
      ensures r.Ok? ==> r == Decide(git, objects, index, worktree, meta, stages)
    {
      var pair := ComposeStages(git, objects, worktree, meta, stages);
      if pair.Err? { return pair; }
      StoreBlob(pair.value.owners.source);
      StoreBlob(pair.value.owners.zh);
      if !StagedAs(git, index, pair.value) { return Err(StagedMismatch); }
      if !OnDiskAs(git, worktree, pair.value) { return Err(UnstagedContent); }
      DecideMonotone(git, old(objects), objects, index, worktree, meta, stages);
      return pair;
    }

    /** Decides every unmerged record, in any order, before writing any. */
    method DecideAll(records: map<string, Stages>)
        returns (resolutions: map<string, Composed>, failures: map<string, Reason>)
      modifies this`objects
      ensures Grows(old(objects), objects)
      ensures resolutions.Keys + failures.Keys == records.Keys && resolutions.Keys !! failures.Keys
      ensures AllRefused(git, old(objects), objects, index, worktree, records, failures)
      ensures AllDecided(git, objects, index, worktree, records, resolutions)
    {
      resolutions, failures := map[], map[];
      var pending := records.Keys;
      while pending != {}
        invariant Grows(old(objects), objects) && pending <= records.Keys
        invariant resolutions.Keys + failures.Keys == records.Keys - pending && resolutions.Keys !! failures.Keys
        invariant AllRefused(git, old(objects), objects, index, worktree, records, failures)
        invariant AllDecided(git, objects, index, worktree, records, resolutions)
        decreases pending
      {
        var p :| p in pending;
        ghost var before := objects;
        var r := Attempt(p, records[p]);
        KeepDecided(git, before, objects, index, worktree, records, resolutions);
        KeepRefused(git, old(objects), before, objects, index, worktree, records, failures);
        if r.Ok? {
          resolutions := resolutions[p := r.value];
        } else {
          assert Grows(old(objects), before) && Grows(before, objects);
          failures := failures[p := r.error];
        }
        pending := pending - {p};
      }
    }

    /**
      The whole batch. The source returns the resolved paths when nothing failed and throws a
      report of the failures otherwise; either way the resolved records are written and staged.
     */
    method Resolve() returns (resolutions: map<string, Composed>, failures: map<string, Reason>)
      modifies this`objects, this`index, this`worktree, this`unmerged
      ensures Grows(old(objects), objects)
      ensures resolutions.Keys + failures.Keys == old(Sidecars(unmerged)) && resolutions.Keys !! failures.Keys
      ensures forall p :: p in failures ==>
        Refused(git, old(objects), objects, old(index), old(worktree), p, old(StagesOf(unmerged, p)), failures[p])
      ensures forall p :: p in resolutions ==>
        Decide(git, objects, old(index), old(worktree), p, old(StagesOf(unmerged, p))) == Ok(resolutions[p])
      ensures worktree == old(worktree) + Texts(git, resolutions)
      ensures index == old(index) + Hashes(git, Texts(git, resolutions))
      ensures forall p :: p in resolutions ==> Confirmed(git, index, worktree, p, resolutions[p])
      ensures unmerged == Without(old(unmerged), resolutions.Keys) && Sidecars(unmerged) == failures.Keys
      ensures forall path :: path !in resolutions ==> StagesOf(unmerged, path) == old(StagesOf(unmerged, path))
    {
      var records := UnmergedSidecars(unmerged);
      resolutions, failures := DecideAll(records);
      Write(resolutions);
      forall p | p in resolutions ensures Confirmed(git, index, worktree, p, resolutions[p]) {
        BatchStagesWhatIsOnDisk(git, objects, old(index), old(worktree), records[p], resolutions, p);
      }
    }

    /** Writes every resolved record and stages them together. */
    method Write(resolutions: map<string, Composed>)
      modifies this`index, this`worktree, this`unmerged
      ensures worktree == old(worktree) + Texts(git, resolutions)
      ensures index == old(index) + Hashes(git, Texts(git, resolutions))
      ensures unmerged == Without(old(unmerged), resolutions.Keys)
      ensures Sidecars(unmerged) == old(Sidecars(unmerged)) - resolutions.Keys
      ensures forall path :: path !in resolutions ==> StagesOf(unmerged, path) == old(StagesOf(unmerged, path))
    {
      var texts := Texts(git, resolutions);
      worktree := worktree + texts;
      index := index + Hashes(git, texts);
      SidecarsWithout(unmerged, resolutions.Keys);
      StagesWithout(unmerged, resolutions.Keys);
      unmerged := Without(unmerged, resolutions.Keys);
    }
  }

  /** The text of every resolved record. */
  function Texts(git: Git, resolutions: map<string, Composed>): map<string, string> {
    map p | p in resolutions :: RecordOf(git, resolutions[p])
  }

  function Hashes(git: Git, texts: map<string, string>): map<string, string> {
    map p | p in texts :: git.hash(texts[p])
  }

  // ---- what a resolved record says ----

  lemma DecisionFits(git: Git, objects: map<string, string>, index: map<string, string>,
      worktree: map<string, string>, meta: string, stages: Stages)
    requires Decide(git, objects, index, worktree, meta, stages).Ok?
    ensures var pair := Decide(git, objects, index, worktree, meta, stages).value;
      PathsOfMeta(meta) == Some(pair.paths) && StagedAs(git, index, pair) && OnDiskAs(git, worktree, pair)
  {
  }

  /** The record and both documents of the pair are staged as they are on disk, with the composed contents. */
  ghost predicate Confirmed(git: Git, index: map<string, string>, worktree: map<string, string>, meta: string,
                            pair: Composed)
  {
    && PathsOfMeta(meta) == Some(pair.paths)
    && meta in index && meta in worktree && worktree[meta] == RecordOf(git, pair)
    && index[meta] == git.hash(worktree[meta])
    && pair.paths.source in index && pair.paths.source in worktree
    && pair.paths.zh in index && pair.paths.zh in worktree
    && index[pair.paths.source] == git.hash(worktree[pair.paths.source]) == git.hash(pair.owners.source)
    && index[pair.paths.zh] == git.hash(worktree[pair.paths.zh]) == git.hash(pair.owners.zh)
  }

  /** A pair one of whose records was read has names that fit a record. */
  lemma LoadedNamesStand(git: Git, objects: map<string, string>, content: string, paths: PairPaths)
    requires LoadOwners(git, objects, content, paths).Ok?
    ensures CanStand(Basename(paths.source))
  {
    L.SplitIntoOneLines(content);
    ParsedNames(L.Split(content), map[], Basename(paths.source));
  }

  lemma DecidedNamesStand(git: Git, objects: map<string, string>, index: map<string, string>,
      worktree: map<string, string>,
      meta: string, stages: Stages)
    requires Decide(git, objects, index, worktree, meta, stages).Ok?
    ensures PathsOfMeta(meta).Some? && CanStand(Basename(PathsOfMeta(meta).value.source))
  {
    LoadedNamesStand(git, objects, ReadBlob(git, objects, stages.ancestor.value).value, PathsOfMeta(meta).value);
  }

  lemma DocumentsAreNotSidecars(meta: string)
    requires PathsOfMeta(meta).Some?
    ensures !IsSidecar(PathsOfMeta(meta).value.source) && !IsSidecar(PathsOfMeta(meta).value.zh)
  {
    var paths := PathsOfMeta(meta).value;
    var stem := meta[..|meta| - 10];
    assert paths.source == stem + ".md" && paths.zh == (stem + ".md")[..|stem|] + ".zh.md";
    assert paths.source[|paths.source| - 1] == 'd' && paths.zh[|paths.zh| - 1] == 'd';
  }

  /** After the batch, a resolved record is staged as it is on disk, and so are its two documents. */
  lemma BatchStagesWhatIsOnDisk(git: Git, objects: map<string, string>, index: map<string, string>,
      worktree: map<string, string>,
      stages: Stages, resolutions: map<string, Composed>, meta: string)
    requires forall p :: p in resolutions ==> IsSidecar(p)
    requires meta in resolutions && Decide(git, objects, index, worktree, meta, stages) == Ok(resolutions[meta])
    ensures Confirmed(git, index + Hashes(git, Texts(git, resolutions)), worktree + Texts(git, resolutions), meta,
                      resolutions[meta])
  {
    DecisionFits(git, objects, index, worktree, meta, stages);
    DocumentsAreNotSidecars(meta);
    ConfirmedAfter(git, index, worktree, resolutions, meta);
  }

  lemma ConfirmedAfter(git: Git, index: map<string, string>, worktree: map<string, string>,
      resolutions: map<string, Composed>, meta: string)
    requires meta in resolutions && PathsOfMeta(meta) == Some(resolutions[meta].paths)
    requires StagedAs(git, index, resolutions[meta]) && OnDiskAs(git, worktree, resolutions[meta])
    requires resolutions[meta].paths.source !in resolutions && resolutions[meta].paths.zh !in resolutions
    ensures Confirmed(git, index + Hashes(git, Texts(git, resolutions)), worktree + Texts(git, resolutions), meta,
                      resolutions[meta])
  {
  }

  /**
    A resolved record on disk reads back exactly the blobs of its two documents, as long as no
    line break of the path leaves the record's header comment.
   */
  lemma ResolvedRecordReadsBackIff(git: Git, objects: map<string, string>, index: map<string, string>,
      worktree: map<string, string>,
      stages: Stages, resolutions: map<string, Composed>, meta: string)
    requires forall content :: IsHash(git.hash(content))
    requires meta in resolutions && Decide(git, objects, index, worktree, meta, stages) == Ok(resolutions[meta])
    ensures var pair := resolutions[meta];
      var record := PairRecord(git.hash(pair.owners.source), git.hash(pair.owners.zh));
      Parse((worktree + Texts(git, resolutions))[meta], pair.paths) == Some(record) <==>
        StaysInHeader(pair.paths.source)
  {
    var pair := resolutions[meta];
    DecisionFits(git, objects, index, worktree, meta, stages);
    DecidedNamesStand(git, objects, index, worktree, meta, stages);
    RecordReadsBack(pair.paths, meta, git.hash(pair.owners.source), git.hash(pair.owners.zh));
    assert (worktree + Texts(git, resolutions))[meta] == RecordOf(git, pair);
  }

  lemma RecordReadsBack(paths: PairPaths, meta: string, sourceHash: string, zhHash: string)
    requires PathsOfMeta(meta) == Some(paths) && CanStand(Basename(paths.source)) && IsHash(sourceHash)
      && IsHash(zhHash)
    ensures var record := PairRecord(sourceHash, zhHash);
      Parse(Render(paths, record), paths) == Some(record) <==> StaysInHeader(paths.source)
  {
    assert PathsOfMeta(meta) == PathsOf(paths.source);
    RecordRoundTripIff(paths.source, PairRecord(sourceHash, zhHash));
  }
}
