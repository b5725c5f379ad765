/**
  The append-only archive of frozen notes. A manifest seals each archived path with a content
  hash; a change is accepted only if it keeps every seal of its baseline and every sealed content.
 */
module ArchiveManifest {
  import opened Hashes

  /** Sealed paths with their content hashes. */
  type Seals = map<string, string>

  /** Archived paths with their contents. */
  type Artifacts = map<string, string>

  datatype ArchiveError =
    | Malformed | NoManifest | UnreadableManifest | UnreadableBaseline
    | MissingSeal(path: string) | ChangedSeal(path: string)
    | MissingArtifact(path: string) | ChangedArtifact(path: string)
    | Unsealed(path: string)

  // ---- seals of the baseline ----

  ghost predicate Extends(baseline: Seals, current: Seals) {
    forall path :: path in baseline ==> path in current && current[path] == baseline[path]
  }

  /** A seal of the baseline that is gone or has changed. */
  ghost predicate SealError(baseline: Seals, current: Seals, e: ArchiveError) {
    match e
    case MissingSeal(path) => path in baseline && path !in current
    case ChangedSeal(path) => path in baseline && path in current && current[path] != baseline[path]
    case _ => false
  }

  method ValidateExtension(baseline: Seals, current: Seals) returns (errors: set<ArchiveError>)
    ensures errors == {} <==> Extends(baseline, current)
    ensures forall e :: e in errors <==> SealError(baseline, current, e)
  {
    errors := {};
    var todo := baseline.Keys;
    while todo != {}
      invariant todo <= baseline.Keys
      invariant errors == {} <==>
        forall path :: path in baseline && path !in todo ==> path in current && current[path] == baseline[path]
      invariant forall e :: e in errors <==> SealError(baseline - todo, current, e)
      decreases todo
    {
      var path :| path in todo;
      todo := todo - {path};
      if path !in current {
        errors := errors + {MissingSeal(path)};
      } else if current[path] != baseline[path] {
        errors := errors + {ChangedSeal(path)};
      }
    }
  }

  // ---- extending a manifest ----

  /** Every sealed path is present with its sealed content. */
  ghost predicate Intact(hash: string -> string, seals: Seals, artifacts: Artifacts) {
    forall path :: path in seals ==> path in artifacts && hash(artifacts[path]) == seals[path]
  }

  /** Every artifact is sealed as it is. */
  ghost predicate Sealed(hash: string -> string, seals: Seals, artifacts: Artifacts) {
    forall path :: path in artifacts ==> path in seals && seals[path] == hash(artifacts[path])
  }

  /** A sealed artifact that is gone or has changed. */
  ghost predicate ContentError(hash: string -> string, seals: Seals, artifacts: Artifacts, e: ArchiveError) {
    match e
    case MissingArtifact(path) => path in seals && path !in artifacts
    case ChangedArtifact(path) => path in seals && path in artifacts && hash(artifacts[path]) != seals[path]
    case _ => false
  }

  method CheckSealed(hash: string -> string, existing: Seals, artifacts: Artifacts) returns (errors: set<ArchiveError>)
    ensures errors == {} <==> Intact(hash, existing, artifacts)
    ensures forall e :: e in errors <==> ContentError(hash, existing, artifacts, e)
  {
    errors := {};
    var todo := existing.Keys;
    while todo != {}
      invariant todo <= existing.Keys
      invariant errors == {} <==> forall path :: path in existing && path !in todo ==>
        path in artifacts && hash(artifacts[path]) == existing[path]
      invariant forall e :: e in errors <==> ContentError(hash, existing - todo, artifacts, e)
      decreases todo
    {
      var path :| path in todo;
      todo := todo - {path};
      if path !in artifacts {
        errors := errors + {MissingArtifact(path)};
      } else if hash(artifacts[path]) != existing[path] {
        errors := errors + {ChangedArtifact(path)};
      }
    }
  }

  method ExtendManifest(hash: string -> string, existing: Seals, artifacts: Artifacts)
      returns (files: Seals, added: set<string>, errors: set<ArchiveError>)
    ensures Extends(existing, files) && added == artifacts.Keys - existing.Keys && files.Keys == existing.Keys + added
    ensures forall path :: path in added ==> files[path] == hash(artifacts[path])
    ensures errors == {} <==> Intact(hash, existing, artifacts)
    ensures forall e :: e in errors <==> ContentError(hash, existing, artifacts, e)
  {
    errors := CheckSealed(hash, existing, artifacts);
    files := existing;
    added := {};
    var todo := artifacts.Keys;
    while todo != {}
      invariant todo <= artifacts.Keys && Extends(existing, files)
      invariant added == artifacts.Keys - todo - existing.Keys && files.Keys == existing.Keys + added
      invariant forall path :: path in added ==> files[path] == hash(artifacts[path])
      decreases todo
    {
      var path :| path in todo;
      todo := todo - {path};
      if path !in files {
        files := files[path := hash(artifacts[path])];
        added := added + {path};
      }
    }
  }

  // ---- the gate ----

  /** A manifest as read from a file or a commit. */
  datatype Reading = Absent | Garbled | Readable(seals: Seals)

  function SealsOf(reading: Reading): Seals {
    if reading.Readable? then reading.seals else map[]
  }

  /** When a change is accepted: `malformed` stands for the layout, header and triplet errors of the artifacts. */
  ghost predicate Accepted(hash: string -> string, write: bool, baseline: Reading, manifest: Reading,
      artifacts: Artifacts, malformed: bool) {
    && !malformed && !baseline.Garbled? && !manifest.Garbled? && (manifest.Absent? ==> write)
    && Extends(SealsOf(baseline), SealsOf(manifest))
    && Intact(hash, SealsOf(manifest), artifacts)
    && (write || artifacts.Keys <= SealsOf(manifest).Keys)
  }

  /** What is wrong before any seal is compared; an unreadable baseline or manifest counts as empty from then on. */
  ghost predicate ReadingError(write: bool, baseline: Reading, manifest: Reading, malformed: bool, e: ArchiveError) {
    match e
    case Malformed => malformed
    case NoManifest => manifest.Absent? && !write
    case UnreadableManifest => manifest.Garbled?
    case UnreadableBaseline => baseline.Garbled?
    case _ => false
  }

  /** Everything a run reports. */
  ghost predicate IsError(hash: string -> string, write: bool, baseline: Reading, manifest: Reading,
      artifacts: Artifacts, malformed: bool, e: ArchiveError) {
    || ReadingError(write, baseline, manifest, malformed, e)
    || SealError(SealsOf(baseline), SealsOf(manifest), e)
    || ContentError(hash, SealsOf(manifest), artifacts, e)
    || (e.Unsealed? && !write && e.path in artifacts && e.path !in SealsOf(manifest))
  }

  /** The errors of a run, and the extended manifest it would write. */
  method Check(hash: string -> string, write: bool, baseline: Reading, manifest: Reading, artifacts: Artifacts,
      malformed: bool)
      returns (errors: set<ArchiveError>, files: Seals)
    ensures errors == {} <==> Accepted(hash, write, baseline, manifest, artifacts, malformed)
    ensures forall e :: e in errors <==> IsError(hash, write, baseline, manifest, artifacts, malformed, e)
    ensures Extends(SealsOf(manifest), files) && files.Keys == SealsOf(manifest).Keys + artifacts.Keys
    ensures forall path :: path in artifacts && path !in SealsOf(manifest) ==> files[path] == hash(artifacts[path])
  {
    errors := ReadingErrors(write, baseline, manifest, malformed);
    var seals := SealsOf(manifest);
    var changed := ValidateExtension(SealsOf(baseline), seals);
    var added, broken;
    files, added, broken := ExtendManifest(hash, seals, artifacts);
    var unsealed := if write then {} else set path | path in added :: Unsealed(path);
    ReadingErrorsAre(write, baseline, manifest, malformed);
    errors := errors + changed + broken + unsealed;
    NoErrorsIff(hash, write, baseline, manifest, artifacts, malformed, errors);
  }

  lemma NoErrorsIff(hash: string -> string, write: bool, baseline: Reading, manifest: Reading, artifacts: Artifacts,
      malformed: bool, errors: set<ArchiveError>)
    requires forall e :: e in errors <==> IsError(hash, write, baseline, manifest, artifacts, malformed, e)
    ensures errors == {} <==> Accepted(hash, write, baseline, manifest, artifacts, malformed)
  {
    AcceptedIff(hash, write, baseline, manifest, artifacts, malformed);
    assert errors == {} <==> forall e :: e !in errors;
  }

  lemma ReadingErrorsAre(write: bool, baseline: Reading, manifest: Reading, malformed: bool)
    ensures forall e ::
      e in ReadingErrors(write, baseline, manifest, malformed)
      <==> ReadingError(write, baseline, manifest, malformed, e)
  {
  }

  /** A change is accepted exactly when nothing is wrong with it. */
  lemma AcceptedIff(hash: string -> string, write: bool, baseline: Reading, manifest: Reading, artifacts: Artifacts,
      malformed: bool)
    ensures Accepted(hash, write, baseline, manifest, artifacts, malformed)
      <==> forall e :: !IsError(hash, write, baseline, manifest, artifacts, malformed, e)
  {
    if forall e :: !IsError(hash, write, baseline, manifest, artifacts, malformed, e) {
      assert !IsError(hash, write, baseline, manifest, artifacts, malformed, Malformed);
      assert !IsError(hash, write, baseline, manifest, artifacts, malformed, NoManifest);
      assert !IsError(hash, write, baseline, manifest, artifacts, malformed, UnreadableManifest);
      assert !IsError(hash, write, baseline, manifest, artifacts, malformed, UnreadableBaseline);
      var seals := SealsOf(manifest);
      forall path | path in SealsOf(baseline) ensures path in seals && seals[path] == SealsOf(baseline)[path] {
        assert !IsError(hash, write, baseline, manifest, artifacts, malformed, MissingSeal(path));
        assert !IsError(hash, write, baseline, manifest, artifacts, malformed, ChangedSeal(path));
      }
      forall path | path in seals ensures path in artifacts && hash(artifacts[path]) == seals[path] {
        assert !IsError(hash, write, baseline, manifest, artifacts, malformed, MissingArtifact(path));
        assert !IsError(hash, write, baseline, manifest, artifacts, malformed, ChangedArtifact(path));
      }
      forall path | path in artifacts ensures write || path in seals {
        assert !IsError(hash, write, baseline, manifest, artifacts, malformed, Unsealed(path));
      }
    }
  }

  function ReadingErrors(write: bool, baseline: Reading, manifest: Reading, malformed: bool): set<ArchiveError> {
    (if malformed then {Malformed} else {})
    + (if manifest.Absent? && !write then {NoManifest} else if manifest.Garbled? then {UnreadableManifest} else {})
    + (if baseline.Garbled? then {UnreadableBaseline} else {})
  }

  class Archive {
    var manifest: Reading

    constructor (manifest: Reading)
      ensures this.manifest == manifest
    {
      this.manifest := manifest;
    }

    /** One run of the script; only an accepted `--write` run touches the manifest. */
    method Run(hash: string -> string, write: bool, baseline: Reading, artifacts: Artifacts, malformed: bool)
        returns (errors: set<ArchiveError>)
      modifies this
      ensures errors == {} <==> Accepted(hash, write, baseline, old(manifest), artifacts, malformed)
      ensures forall e :: e in errors <==> IsError(hash, write, baseline, old(manifest), artifacts, malformed, e)
      ensures errors != {} || !write ==> manifest == old(manifest)
      ensures errors == {} && write ==>
        manifest.Readable? && Sealed(hash, manifest.seals, artifacts) && Extends(SealsOf(old(manifest)), manifest.seals)
        && manifest.seals.Keys == SealsOf(old(manifest)).Keys + artifacts.Keys
    {
      var files;
      errors, files := Check(hash, write, baseline, manifest, artifacts, malformed);
      if errors == {} && write { manifest := Readable(files); }
    }
  }

  // ---- what acceptance means ----

  /**
    After an accepted sealing run, sealing again changes nothing and a plain run against the same
    baseline is accepted.
   */
  method SealThenVerify(hash: string -> string, archive: Archive, baseline: Reading, artifacts: Artifacts,
      malformed: bool)
      returns (sealing: Reading, verified: set<ArchiveError>)
    requires Accepted(hash, true, baseline, archive.manifest, artifacts, malformed)
    modifies archive
    ensures verified == {} && archive.manifest == sealing
  {
    var errors := archive.Run(hash, true, baseline, artifacts, malformed);
    sealing := archive.manifest;
    errors := archive.Run(hash, true, baseline, artifacts, malformed);
    assert archive.manifest.seals == sealing.seals;
    verified := archive.Run(hash, false, baseline, artifacts, malformed);
  }

  /** A committed state of the archive. */
  datatype Commit = Commit(seals: Seals, artifacts: Artifacts)

  /** A history in which each commit passed the gate with its predecessor as baseline. */
  ghost predicate GatedHistory(hash: string -> string, commits: seq<Commit>) {
    forall i, j :: 0 <= i < j < |commits| && j == i + 1 ==>
      Accepted(hash, false, Readable(commits[i].seals), Readable(commits[j].seals), commits[j].artifacts, false)
  }

  lemma {:induction false} SealsPersist(hash: string -> string, commits: seq<Commit>, i: nat, j: nat)
    requires GatedHistory(hash, commits) && i <= j < |commits|
    ensures Extends(commits[i].seals, commits[j].seals)
  {
    if i < j {
      SealsPersist(hash, commits, i, j - 1);
      var before := j - 1;
      assert Accepted(hash, false, Readable(commits[before].seals), Readable(commits[j].seals), commits[j].artifacts,
        false);
    }
  }

  /** Once sealed, a note keeps its path and its exact content in every later commit. */
  lemma SealedContentIsFrozen(hash: string -> string, commits: seq<Commit>, i: nat, j: nat, path: string)
    requires GatedHistory(hash, commits) && Injective(hash) && 0 < i <= j < |commits| && path in commits[i].seals
    ensures path in commits[j].seals && commits[j].seals[path] == commits[i].seals[path]
    ensures path in commits[i].artifacts && path in commits[j].artifacts
    ensures commits[j].artifacts[path] == commits[i].artifacts[path]
  {
    SealsPersist(hash, commits, i, j);
    var beforeI, beforeJ := i - 1, j - 1;
    assert Accepted(hash, false, Readable(commits[beforeI].seals), Readable(commits[i].seals), commits[i].artifacts,
      false);
    assert Accepted(hash, false, Readable(commits[beforeJ].seals), Readable(commits[j].seals), commits[j].artifacts,
      false);
  }

  /** Every artifact of an accepted commit is sealed, so no archived note can stay unfrozen. */
  lemma EverythingIsSealed(hash: string -> string, commits: seq<Commit>, i: nat)
    requires GatedHistory(hash, commits) && 0 < i < |commits|
    ensures commits[i].artifacts.Keys == commits[i].seals.Keys && Sealed(hash, commits[i].seals, commits[i].artifacts)
  {
    var before := i - 1;
    assert Accepted(hash, false, Readable(commits[before].seals), Readable(commits[i].seals), commits[i].artifacts,
      false);
  }
}
