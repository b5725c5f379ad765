/**
  When a record is resolved, said without the steps of the batch, and why the others are refused.
 */
module ConflictResolution {
  import opened Wrappers
  import opened PairingRecords
  import opened ConflictBatch
  import L = Lines
  import LineEndings

  /** A stored, intact object and its content. */
  predicate Holds(git: Git, objects: map<string, string>, id: string, content: string) {
    id in objects && objects[id] == content && git.hash(content) == id
  }

  /** One side of the conflict: a record and the two documents whose blobs it names. */
  datatype Side = Side(record: string, owners: Owners)

  ghost predicate IsSide(git: Git, objects: map<string, string>, paths: PairPaths, id: Option<string>, side: Side) {
    var named := Parse(side.record, paths);
    && id.Some? && Holds(git, objects, id.value, side.record)
    && named.Some? && Holds(git, objects, named.value.sourceHash, side.owners.source)
    && Holds(git, objects, named.value.zhHash, side.owners.zh)
  }

  ghost predicate Occurs(part: string, text: string) {
    exists before, after :: text == before + part + after
  }

  /** Every line of a record that is neither empty nor a comment stands somewhere in the text. */
  ghost predicate ShowsEntries(text: string, record: string) {
    forall line :: line in L.Split(LineEndings.Normalize(record)) && line != "" && line[0] != '#' ==>
      Occurs(line, text)
  }

  /** Nobody has worked on the record: it is one side, the clean merge, or a conflict showing both sides. */
  ghost predicate LeftByMerge(git: Git, meta: string, text: string, ancestor: string, current: string,
      other: string)
  {
    || text == current
    || text == other
    || git.merge(meta, ancestor, current, other) == Some(text)
    || (Occurs("<<<<<<<", text) && Occurs("=======", text) && Occurs(">>>>>>>", text)
        && ShowsEntries(text, current) && ShowsEntries(text, other))
  }

  /** What a resolved record requires of its three sides. */
  ghost predicate Merges(git: Git, worktree: map<string, string>, meta: string, pair: Composed, ancestor: Side,
      current: Side, other: Side)
  {
    var (paths, a, c, o) := (pair.paths, ancestor.owners, current.owners, other.owners);
    && meta in worktree && LeftByMerge(git, meta, worktree[meta], ancestor.record, current.record, other.record)
    && git.merge(paths.source, a.source, c.source, o.source) == Some(pair.owners.source)
    && git.merge(paths.zh, a.zh, c.zh, o.zh) == Some(pair.owners.zh)
  }

  ghost predicate HasSides(git: Git, objects: map<string, string>, worktree: map<string, string>, meta: string,
      stages: Stages, pair: Composed)
  {
    exists ancestor, current, other ::
      && IsSide(git, objects, pair.paths, stages.ancestor, ancestor)
      && IsSide(git, objects, pair.paths, stages.current, current)
      && IsSide(git, objects, pair.paths, stages.other, other)
      && Merges(git, worktree, meta, pair, ancestor, current, other)
  }

  /** The sides of a record merge to this pair. */
  ghost predicate Composes(git: Git, objects: map<string, string>, worktree: map<string, string>, meta: string,
      stages: Stages, pair: Composed)
  {
    && PathsOfMeta(meta) == Some(pair.paths) && git.inScope(meta) && git.usesDefaultMerge(pair.paths)
    && HasSides(git, objects, worktree, meta, stages, pair)
    && git.keepsStructure(pair.paths, pair.owners.source, pair.owners.zh)
  }

  ghost predicate IsStaged(git: Git, index: map<string, string>, path: string, content: string) {
    path in index && index[path] == git.hash(content)
  }

  ghost predicate IsOnDisk(git: Git, worktree: map<string, string>, path: string, content: string) {
    path in worktree && git.hash(worktree[path]) == git.hash(content)
  }

  /** A record resolves to this pair, whose two documents are staged and on disk. */
  ghost predicate Resolves(git: Git, objects: map<string, string>, index: map<string, string>,
      worktree: map<string, string>, meta: string, stages: Stages, pair: Composed)
  {
    && Composes(git, objects, worktree, meta, stages, pair)
    && IsStaged(git, index, pair.paths.source, pair.owners.source)
    && IsStaged(git, index, pair.paths.zh, pair.owners.zh)
    && IsOnDisk(git, worktree, pair.paths.source, pair.owners.source)
    && IsOnDisk(git, worktree, pair.paths.zh, pair.owners.zh)
  }

  // ---- why a record is refused ----

  ghost predicate Missing(git: Git, objects: map<string, string>, id: string) {
    id !in objects || git.hash(objects[id]) != id
  }

  /** An unreadable stage, or an unreadable document of a readable one. */
  ghost predicate LacksBlob(git: Git, objects: map<string, string>, paths: Option<PairPaths>, id: Option<string>) {
    && id.Some?
    && (Missing(git, objects, id.value)
        || (paths.Some? && Parse(objects[id.value], paths.value).Some?
            && var record := Parse(objects[id.value], paths.value).value;
            (Missing(git, objects, record.sourceHash) || Missing(git, objects, record.zhHash))))
  }

  ghost predicate Malformed(git: Git, objects: map<string, string>, paths: PairPaths, id: Option<string>) {
    id.Some? && id.value in objects && Parse(objects[id.value], paths).None?
  }

  ghost predicate WasEdited(git: Git, objects: map<string, string>, worktree: map<string, string>, meta: string,
      stages: Stages)
  {
    exists a, c, o ::
      && stages.ancestor.Some? && Holds(git, objects, stages.ancestor.value, a)
      && stages.current.Some? && Holds(git, objects, stages.current.value, c)
      && stages.other.Some? && Holds(git, objects, stages.other.value, o)
      && meta in worktree && !LeftByMerge(git, meta, worktree[meta], a, c, o)
  }

  ghost predicate Clash(git: Git, paths: PairPaths, ancestor: Owners, current: Owners, other: Owners) {
    || git.merge(paths.source, ancestor.source, current.source, other.source).None?
    || git.merge(paths.zh, ancestor.zh, current.zh, other.zh).None?
  }

  ghost predicate OwnersClash(git: Git, objects: map<string, string>, paths: PairPaths, stages: Stages) {
    exists ancestor, current, other ::
      && IsSide(git, objects, paths, stages.ancestor, ancestor)
      && IsSide(git, objects, paths, stages.current, current)
      && IsSide(git, objects, paths, stages.other, other)
      && Clash(git, paths, ancestor.owners, current.owners, other.owners)
  }

  /** What is wrong with a record that is refused for this reason. */
  ghost predicate Explains(git: Git, objects: map<string, string>, index: map<string, string>,
      worktree: map<string, string>, meta: string, stages: Stages, reason: Reason)
  {
    var paths := PathsOfMeta(meta);
    match reason
    case IncompleteStages => stages.ancestor.None? || stages.current.None? || stages.other.None?
    case UnreadableBlob =>
      || LacksBlob(git, objects, paths, stages.ancestor)
      || LacksBlob(git, objects, paths, stages.current)
      || LacksBlob(git, objects, paths, stages.other)
    case UnreadableFile => meta !in worktree
    case EditedSidecar => WasEdited(git, objects, worktree, meta, stages)
    case OutOfScope => !git.inScope(meta)
    case NotARecordPath => paths.None?
    case CustomMerge => paths.Some? && !git.usesDefaultMerge(paths.value)
    case InvalidRecord =>
      paths.Some?
      && (Malformed(git, objects, paths.value, stages.ancestor)
          || Malformed(git, objects, paths.value, stages.current)
          || Malformed(git, objects, paths.value, stages.other))
    case OwnerConflict => paths.Some? && OwnersClash(git, objects, paths.value, stages)
    case StructureDiverged =>
      exists pair: Composed :: paths == Some(pair.paths) && HasSides(git, objects, worktree, meta, stages, pair)
        && !git.keepsStructure(pair.paths, pair.owners.source, pair.owners.zh)
    case StagedMismatch =>
      exists pair :: Composes(git, objects, worktree, meta, stages, pair)
        && !(IsStaged(git, index, pair.paths.source, pair.owners.source)
             && IsStaged(git, index, pair.paths.zh, pair.owners.zh))
    case UnstagedContent =>
      exists pair :: Composes(git, objects, worktree, meta, stages, pair)
        && !(IsOnDisk(git, worktree, pair.paths.source, pair.owners.source)
             && IsOnDisk(git, worktree, pair.paths.zh, pair.owners.zh))
  }

  // ---- the decision ----

  lemma {:induction false} ContainsIff(text: string, part: string)
    ensures Contains(text, part) <==> Occurs(part, text)
  {
    if part <= text {
      assert text == "" + part + text[|part|..];
    } else if text != "" {
      ContainsIff(text[1..], part);
      if before, after :| text == before + part + after {
        assert before != "" by { assert (part + after)[..|part|] == part; }
        assert text[1..] == before[1..] + part + after;
      }
      if before, after :| text[1..] == before + part + after {
        assert text == [text[0]] + before + part + after;
      }
    } else {
      assert !Occurs(part, text);
    }
  }

  lemma EntriesIff(text: string, record: string)
    ensures ContainsEntries(text, record) <==> ShowsEntries(text, record)
  {
    forall line ensures Contains(text, line) <==> Occurs(line, text) { ContainsIff(text, line); }
  }

  lemma UneditedIff(git: Git, meta: string, text: string, ancestor: string, current: string, other: string)
    ensures Unedited(git, meta, text, ancestor, current, other)
      <==> LeftByMerge(git, meta, text, ancestor, current, other)
  {
    ContainsIff(text, "<<<<<<<");
    ContainsIff(text, "=======");
    ContainsIff(text, ">>>>>>>");
    EntriesIff(text, current);
    EntriesIff(text, other);
  }

  /** The side a stage holds, if its blobs can be read. */
  lemma SideOf(git: Git, objects: map<string, string>, paths: PairPaths, id: Option<string>, side: Side)
    ensures IsSide(git, objects, paths, id, side) <==>
      && id.Some? && ReadBlob(git, objects, id.value) == Ok(side.record)
      && LoadOwners(git, objects, side.record, paths) == Ok(side.owners)
  {
  }

  lemma ResolvedHasSides(git: Git, objects: map<string, string>, worktree: map<string, string>, meta: string,
      stages: Stages, pair: Composed)
    requires ComposeStages(git, objects, worktree, meta, stages) == Ok(pair)
    ensures HasSides(git, objects, worktree, meta, stages, pair)
  {
    var (a, c, o) := (objects[stages.ancestor.value], objects[stages.current.value], objects[stages.other.value]);
    var ancestor := Side(a, LoadOwners(git, objects, a, pair.paths).value);
    var current := Side(c, LoadOwners(git, objects, c, pair.paths).value);
    var other := Side(o, LoadOwners(git, objects, o, pair.paths).value);
    UneditedIff(git, meta, worktree[meta], a, c, o);
    SideOf(git, objects, pair.paths, stages.ancestor, ancestor);
    SideOf(git, objects, pair.paths, stages.current, current);
    SideOf(git, objects, pair.paths, stages.other, other);
    assert Merges(git, worktree, meta, pair, ancestor, current, other);
  }

  lemma SidesResolve(git: Git, objects: map<string, string>, worktree: map<string, string>, meta: string,
      stages: Stages, pair: Composed)
    requires PathsOfMeta(meta) == Some(pair.paths) && git.inScope(meta) && git.usesDefaultMerge(pair.paths)
    requires git.keepsStructure(pair.paths, pair.owners.source, pair.owners.zh)
    requires HasSides(git, objects, worktree, meta, stages, pair)
    ensures ComposeStages(git, objects, worktree, meta, stages) == Ok(pair)
  {
    var a, c, o :|
      && IsSide(git, objects, pair.paths, stages.ancestor, a)
      && IsSide(git, objects, pair.paths, stages.current, c)
      && IsSide(git, objects, pair.paths, stages.other, o)
      && Merges(git, worktree, meta, pair, a, c, o);
    UneditedIff(git, meta, worktree[meta], a.record, c.record, o.record);
    SideOf(git, objects, pair.paths, stages.ancestor, a);
    SideOf(git, objects, pair.paths, stages.current, c);
    SideOf(git, objects, pair.paths, stages.other, o);
  }

  lemma ComposesIff(git: Git, objects: map<string, string>, worktree: map<string, string>, meta: string,
      stages: Stages, pair: Composed)
    ensures ComposeStages(git, objects, worktree, meta, stages) == Ok(pair)
      <==> Composes(git, objects, worktree, meta, stages, pair)
  {
    if ComposeStages(git, objects, worktree, meta, stages) == Ok(pair) {
      ResolvedHasSides(git, objects, worktree, meta, stages, pair);
    }
    if Composes(git, objects, worktree, meta, stages, pair) {
      SidesResolve(git, objects, worktree, meta, stages, pair);
    }
  }

  /** A record is resolved exactly when it is an untouched conflict of a cleanly merged, staged pair. */
  lemma DecideIff(git: Git, objects: map<string, string>, index: map<string, string>,
      worktree: map<string, string>, meta: string, stages: Stages, pair: Composed)
    ensures Decide(git, objects, index, worktree, meta, stages) == Ok(pair)
      <==> Resolves(git, objects, index, worktree, meta, stages, pair)
  {
    ComposesIff(git, objects, worktree, meta, stages, pair);
  }

  lemma WhyNoOwners(git: Git, objects: map<string, string>, paths: PairPaths, id: string)
    requires ReadBlob(git, objects, id).Ok? && LoadOwners(git, objects, objects[id], paths).Err?
    ensures match LoadOwners(git, objects, objects[id], paths).error
      case InvalidRecord => Malformed(git, objects, paths, Some(id))
      case UnreadableBlob => LacksBlob(git, objects, Some(paths), Some(id))
      case _ => false
  {
  }

  lemma WhyNotMerged(git: Git, objects: map<string, string>, index: map<string, string>,
      worktree: map<string, string>, meta: string, stages: Stages)
    requires stages.ancestor.Some? && stages.current.Some? && stages.other.Some? && PathsOfMeta(meta).Some?
    requires ReadBlob(git, objects, stages.ancestor.value).Ok?
    requires ReadBlob(git, objects, stages.current.value).Ok?
    requires ReadBlob(git, objects, stages.other.value).Ok?
    requires meta in worktree && git.inScope(meta) && git.usesDefaultMerge(PathsOfMeta(meta).value)
    requires ComposeStages(git, objects, worktree, meta, stages).Err?
    requires Unedited(git, meta, worktree[meta], objects[stages.ancestor.value], objects[stages.current.value],
        objects[stages.other.value])
    ensures Explains(git, objects, index, worktree, meta, stages,
        ComposeStages(git, objects, worktree, meta, stages).error)
  {
    var paths := PathsOfMeta(meta).value;
    var (x, y, z) := (objects[stages.ancestor.value], objects[stages.current.value], objects[stages.other.value]);
    var a := LoadOwners(git, objects, x, paths);
    var c := LoadOwners(git, objects, y, paths);
    var o := LoadOwners(git, objects, z, paths);
    if a.Err? {
      WhyNoOwners(git, objects, paths, stages.ancestor.value);
    } else if c.Err? {
      WhyNoOwners(git, objects, paths, stages.current.value);
    } else if o.Err? {
      WhyNoOwners(git, objects, paths, stages.other.value);
    } else {
      var (ancestor, current, other) := (Side(x, a.value), Side(y, c.value), Side(z, o.value));
      SideOf(git, objects, paths, stages.ancestor, ancestor);
      SideOf(git, objects, paths, stages.current, current);
      SideOf(git, objects, paths, stages.other, other);
      if !Clash(git, paths, a.value, c.value, o.value) {
        var source := git.merge(paths.source, a.value.source, c.value.source, o.value.source).value;
        var zh := git.merge(paths.zh, a.value.zh, c.value.zh, o.value.zh).value;
        UneditedIff(git, meta, worktree[meta], x, y, z);
        assert Merges(git, worktree, meta, Composed(paths, Owners(source, zh)), ancestor, current, other);
        assert HasSides(git, objects, worktree, meta, stages, Composed(paths, Owners(source, zh)));
      }
    }
  }

  lemma WhyNotComposed(git: Git, objects: map<string, string>, index: map<string, string>,
      worktree: map<string, string>, meta: string, stages: Stages)
    requires ComposeStages(git, objects, worktree, meta, stages).Err?
    ensures Explains(git, objects, index, worktree, meta, stages,
        ComposeStages(git, objects, worktree, meta, stages).error)
  {
    if stages.ancestor.Some? && stages.current.Some? && stages.other.Some? {
      var a := ReadBlob(git, objects, stages.ancestor.value);
      var c := ReadBlob(git, objects, stages.current.value);
      var o := ReadBlob(git, objects, stages.other.value);
      if a.Ok? && c.Ok? && o.Ok? && meta in worktree {
        UneditedIff(git, meta, worktree[meta], a.value, c.value, o.value);
        if !Unedited(git, meta, worktree[meta], a.value, c.value, o.value) {
          assert WasEdited(git, objects, worktree, meta, stages);
        } else if PathsOfMeta(meta).Some? && git.inScope(meta) && git.usesDefaultMerge(PathsOfMeta(meta).value) {
          WhyNotMerged(git, objects, index, worktree, meta, stages);
        }
      }
    }
  }

  /** A refused record is refused for a reason that is real. */
  lemma RefusalIsReal(git: Git, objects: map<string, string>, index: map<string, string>,
      worktree: map<string, string>, meta: string, stages: Stages)
    requires Decide(git, objects, index, worktree, meta, stages).Err?
    ensures Explains(git, objects, index, worktree, meta, stages,
        Decide(git, objects, index, worktree, meta, stages).error)
  {
    var pair := ComposeStages(git, objects, worktree, meta, stages);
    if pair.Err? {
      WhyNotComposed(git, objects, index, worktree, meta, stages);
    } else {
      ComposesIff(git, objects, worktree, meta, stages, pair.value);
    }
  }

  /** A reported record could not have been resolved at the start, and its reason was real when it was looked at. */
  lemma RefusedIsRefused(git: Git, before: map<string, string>, after: map<string, string>,
      index: map<string, string>, worktree: map<string, string>, meta: string, stages: Stages, reason: Reason)
    requires Refused(git, before, after, index, worktree, meta, stages, reason)
    ensures forall pair :: !Resolves(git, before, index, worktree, meta, stages, pair)
    ensures exists seen ::
      Grows(before, seen) && Grows(seen, after) && Explains(git, seen, index, worktree, meta, stages, reason)
  {
    var seen :| Grows(before, seen) && Grows(seen, after)
      && Decide(git, seen, index, worktree, meta, stages) == Err(reason);
    RefusalIsReal(git, seen, index, worktree, meta, stages);
    forall pair ensures !Resolves(git, before, index, worktree, meta, stages, pair) {
      if Resolves(git, before, index, worktree, meta, stages, pair) {
        DecideIff(git, before, index, worktree, meta, stages, pair);
        DecideMonotone(git, before, seen, index, worktree, meta, stages);
      }
    }
  }
}
