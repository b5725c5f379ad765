/**
  Refreshing a pair's consistency record after a generated region was written: only when both
  sides were last confirmed as they were before the write, and nothing but regions changed.
 */
module RecordRefresh {
  import opened Wrappers
  import opened Hashes
  import opened RegionGrammar
  import opened GeneratedRegions
  import opened PairingRecords

  datatype RefreshError = UnreadablePage | BadRegions(error: RegionError)

  /** Whether one side still has the human content of the bytes its record confirms. */
  function SideConfined(hash: string -> string, recorded: string, previous: Option<string>, current: Option<string>)
      : Result<bool, RefreshError> {
    if previous.None? || recorded != hash(previous.value) then Ok(false)
    else if current.None? then Err(UnreadablePage)
    else
      var before := Partition(previous.value);
      var after := Partition(current.value);
      if before.Err? then Err(BadRegions(before.error))
      else if after.Err? then Err(BadRegions(after.error))
      else Ok(before.value.stripped == after.value.stripped)
  }

  function Lookup(files: map<string, string>, path: string): Option<string> {
    if path in files then Some(files[path]) else None
  }

  /** The record text to write, if any; `before` holds the bytes read before the regions were written. */
  function Refresh(hash: string -> string, paths: PairPaths, meta: Option<string>, before: map<string, string>,
      files: map<string, string>)
    : Result<Option<string>, RefreshError>
  {
    if meta.None? then Ok(None)
    else
      var recorded := Parse(meta.value, paths);
      if recorded.None? then Ok(None)
      else
        var source := SideConfined(hash, recorded.value.sourceHash, Lookup(before, paths.source),
          Lookup(files, paths.source));
        if source.Err? then Err(source.error) else if !source.value then Ok(None)
        else
          var zh := SideConfined(hash, recorded.value.zhHash, Lookup(before, paths.zh), Lookup(files, paths.zh));
          if zh.Err? then Err(zh.error) else if !zh.value then Ok(None)
          else Ok(Some(Render(paths, PairRecord(hash(files[paths.source]), hash(files[paths.zh])))))
  }

  /** A side whose bytes before the write are the recorded ones. */
  predicate WasConfirmed(hash: string -> string, recorded: string, before: map<string, string>, path: string) {
    path in before && hash(before[path]) == recorded
  }

  /** Such a side, of which only generated regions changed. */
  ghost predicate OnlyRegionsChanged(hash: string -> string, recorded: string, before: map<string, string>,
      files: map<string, string>, path: string)
  {
    && WasConfirmed(hash, recorded, before, path) && path in files
    && exists was, now, human ::
      Partition(before[path]) == Ok(Page(was, human)) && Partition(files[path]) == Ok(Page(now, human))
  }

  /** Such a side that is gone or cannot be partitioned. */
  ghost predicate CannotCompare(hash: string -> string, recorded: string, before: map<string, string>,
      files: map<string, string>, path: string)
  {
    && WasConfirmed(hash, recorded, before, path)
    && (path !in files || Partition(before[path]).Err? || Partition(files[path]).Err?)
  }

  lemma SideConfinedIff(hash: string -> string, recorded: string, before: map<string, string>,
      files: map<string, string>, path: string)
    ensures var side := SideConfined(hash, recorded, Lookup(before, path), Lookup(files, path));
      && (side == Ok(true) <==> OnlyRegionsChanged(hash, recorded, before, files, path))
      && (side.Err? <==> CannotCompare(hash, recorded, before, files, path))
  {
    if SideConfined(hash, recorded, Lookup(before, path), Lookup(files, path)) == Ok(true) {
      var was, now := Partition(before[path]).value, Partition(files[path]).value;
      assert was == Page(was.regions, was.stripped) && now == Page(now.regions, was.stripped);
    }
  }

  /** A record is rewritten exactly when it was current and only generated regions changed since. */
  lemma RefreshIff(hash: string -> string, paths: PairPaths, meta: string, before: map<string, string>,
      files: map<string, string>, text: string)
    ensures Refresh(hash, paths, Some(meta), before, files) == Ok(Some(text)) <==>
      && Parse(meta, paths).Some?
      && OnlyRegionsChanged(hash, Parse(meta, paths).value.sourceHash, before, files, paths.source)
      && OnlyRegionsChanged(hash, Parse(meta, paths).value.zhHash, before, files, paths.zh)
      && text == Render(paths, PairRecord(hash(files[paths.source]), hash(files[paths.zh])))
    ensures Refresh(hash, paths, Some(meta), before, files).Err? <==>
      && Parse(meta, paths).Some?
      && (CannotCompare(hash, Parse(meta, paths).value.sourceHash, before, files, paths.source)
          || (OnlyRegionsChanged(hash, Parse(meta, paths).value.sourceHash, before, files, paths.source)
              && CannotCompare(hash, Parse(meta, paths).value.zhHash, before, files, paths.zh)))
  {
    if Parse(meta, paths).Some? {
      var recorded := Parse(meta, paths).value;
      SideConfinedIff(hash, recorded.sourceHash, before, files, paths.source);
      SideConfinedIff(hash, recorded.zhHash, before, files, paths.zh);
    }
  }

  lemma SplicedSideIsConfined(hash: string -> string, previous: string, region: string)
    requires IsSurfaceRegion(region) && Partition(previous).Ok? && Splice(previous, region).Ok?
    ensures SideConfined(hash, hash(previous), Some(previous), Some(Splice(previous, region).value)) == Ok(true)
  {
    var k := SpliceKeepsHumanContent(previous, region);
  }

  /** Writing a freshly rendered region into both sides of a confirmed pair always refreshes its record. */
  lemma RegionWriteRefreshes(hash: string -> string, paths: PairPaths, meta: string, before: map<string, string>,
      files: map<string, string>, region: string)
    requires paths.source in before && paths.zh in before && paths.source in files && paths.zh in files
    requires Parse(meta, paths) == Some(PairRecord(hash(before[paths.source]), hash(before[paths.zh])))
    requires IsSurfaceRegion(region) && Partition(before[paths.source]).Ok? && Partition(before[paths.zh]).Ok?
    requires Splice(before[paths.source], region) == Ok(files[paths.source])
    requires Splice(before[paths.zh], region) == Ok(files[paths.zh])
    ensures Refresh(hash, paths, Some(meta), before, files)
      == Ok(Some(Render(paths, PairRecord(hash(files[paths.source]), hash(files[paths.zh])))))
  {
    SplicedSideIsConfined(hash, before[paths.source], region);
    SplicedSideIsConfined(hash, before[paths.zh], region);
  }

  /** A refreshed record never confirms human content that its predecessor did not confirm. */
  lemma RefreshKeepsConfirmedContent(hash: string -> string, paths: PairPaths, meta: string,
      before: map<string, string>, files: map<string, string>,
      confirmed: string, confirmedZh: string)
    requires Injective(hash) && Parse(meta, paths) == Some(PairRecord(hash(confirmed), hash(confirmedZh)))
    requires Refresh(hash, paths, Some(meta), before, files).Ok?
      && Refresh(hash, paths, Some(meta), before, files).value.Some?
    ensures paths.source in files && paths.zh in files && Partition(confirmed).Ok? && Partition(confirmedZh).Ok?
    ensures Partition(files[paths.source]).Ok?
      && Partition(files[paths.source]).value.stripped == Partition(confirmed).value.stripped
    ensures Partition(files[paths.zh]).Ok?
      && Partition(files[paths.zh]).value.stripped == Partition(confirmedZh).value.stripped
  {
    assert before[paths.source] == confirmed && before[paths.zh] == confirmedZh;
  }
}
