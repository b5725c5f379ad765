/**
  Generated regions of a Markdown page: telling the generated regions of a page from its
  human content, and replacing the cordis-surface region. Replacing keeps the human content
  and every other region, and a later replacement overrides an earlier one.
 */
module GeneratedRegions {
  import opened Wrappers
  import L = Lines
  import opened RegionGrammar

  // ---- marker lines ----

  const BEGIN_PREFIX := "<!-- BEGIN GENERATED "
  const END_PREFIX := "<!-- END GENERATED "
  const SUFFIX := " -->"

  predicate IsSlug(s: string) {
    s != "" && forall i :: 0 <= i < |s| ==> !L.IsSpace(s[i])
  }

  predicate NoneOf(s: string, c: char) {
    forall i :: 0 <= i < |s| ==> s[i] != c
  }

  /** The part of a line up to its first space. */
  function FirstWord(s: string): (r: string)
    ensures r <= s && NoneOf(r, ' ') && (|r| < |s| ==> s[|r|] == ' ')
  {
    if s == "" || s[0] == ' ' then "" else [s[0]] + FirstWord(s[1..])
  }

  function Between(line: string, prefix: string, suffix: string): Option<string> {
    if |line| >= |prefix| + |suffix| && prefix <= line && line[|line| - |suffix|..] == suffix
    then Some(line[|prefix|..|line| - |suffix|])
    else None
  }

  /** `(\S+)(?: [^>]*)?` */
  predicate IsBeginText(text: string) {
    IsSlug(FirstWord(text)) && NoneOf(text[|FirstWord(text)|..], '>')
  }

  function Classify(line: string): Kind {
    var begin := Between(line, BEGIN_PREFIX, SUFFIX);
    if begin.Some? && IsBeginText(begin.value) then Begin(FirstWord(begin.value))
    else
      var end := Between(line, END_PREFIX, SUFFIX);
      if end.Some? && IsSlug(end.value) then End(end.value)
      else if BEGIN_PREFIX <= line || END_PREFIX <= line then Malformed
      else Plain
  }

  lemma BetweenPieces(prefix: string, text: string, suffix: string)
    ensures Between(prefix + text + suffix, prefix, suffix) == Some(text)
  {
  }

  lemma PiecesBetween(line: string, prefix: string, suffix: string)
    requires Between(line, prefix, suffix).Some?
    ensures line == prefix + Between(line, prefix, suffix).value + suffix
  {
  }

  lemma {:induction false} FirstWordOf(slug: string, rest: string)
    requires NoneOf(slug, ' ') && (rest == "" || rest[0] == ' ')
    ensures FirstWord(slug + rest) == slug
  {
    if slug != "" {
      FirstWordOf(slug[1..], rest);
      assert (slug + rest)[1..] == slug[1..] + rest;
    }
  }

  function EndMarker(slug: string): string { END_PREFIX + slug + SUFFIX }

  function BeginMarker(slug: string, comment: string): string { BEGIN_PREFIX + (slug + " " + comment) + SUFFIX }

  lemma PrefixesDiffer(text: string, suffix: string)
    ensures Between(END_PREFIX + text + suffix, BEGIN_PREFIX, suffix) == None
  {
    var line := END_PREFIX + text + suffix;
    assert line[5] == END_PREFIX[5] == 'E';
    assert BEGIN_PREFIX[5] == 'B';
  }

  /** The END line of a slug is the only one. */
  lemma EndLineOfSlug(line: string, slug: string)
    ensures Classify(line) == End(slug) <==> IsEndLine(line, slug)
  {
    if Classify(line) == End(slug) {
      PiecesBetween(line, END_PREFIX, SUFFIX);
    }
    PrefixesDiffer(slug, SUFFIX);
    BetweenPieces(END_PREFIX, slug, SUFFIX);
  }

  /** What may follow the slug of a BEGIN line: nothing, or a space and text without `>`. */
  predicate IsNote(note: string) {
    note == "" || (note[0] == ' ' && NoneOf(note, '>'))
  }

  ghost predicate IsBeginLine(line: string, slug: string) {
    IsSlug(slug) && exists note :: IsNote(note) && line == BEGIN_PREFIX + (slug + note) + SUFFIX
  }

  ghost predicate IsEndLine(line: string, slug: string) {
    IsSlug(slug) && line == EndMarker(slug)
  }

  /** The BEGIN lines of a slug are exactly the marker with any note. */
  lemma BeginLineIff(line: string, slug: string)
    ensures Classify(line) == Begin(slug) <==> IsBeginLine(line, slug)
  {
    if Classify(line) == Begin(slug) {
      PiecesBetween(line, BEGIN_PREFIX, SUFFIX);
      var text := Between(line, BEGIN_PREFIX, SUFFIX).value;
      var note := text[|slug|..];
      assert text == slug + note && IsNote(note);
    }
    forall note | IsSlug(slug) && IsNote(note) && line == BEGIN_PREFIX + (slug + note) + SUFFIX
      ensures Classify(line) == Begin(slug)
    {
      BetweenPieces(BEGIN_PREFIX, slug + note, SUFFIX);
      FirstWordOf(slug, note);
      assert (slug + note)[|slug|..] == note;
    }
  }

  /** Every other line that starts like a marker is malformed, and the lines that do not are plain. */
  lemma MalformedIff(line: string)
    ensures Classify(line) == Malformed
      <==> && (BEGIN_PREFIX <= line || END_PREFIX <= line)
           && forall slug :: !IsBeginLine(line, slug) && !IsEndLine(line, slug)
    ensures Classify(line) == Plain <==> !(BEGIN_PREFIX <= line || END_PREFIX <= line)
  {
    forall slug
      ensures Classify(line) == Begin(slug) <==> IsBeginLine(line, slug)
      ensures Classify(line) == End(slug) <==> IsEndLine(line, slug)
    {
      BeginLineIff(line, slug);
      EndLineOfSlug(line, slug);
    }
  }

  lemma BeginLineOfSlug(slug: string, comment: string)
    requires IsSlug(slug) && NoneOf(comment, '>')
    ensures Classify(BeginMarker(slug, comment)) == Begin(slug)
  {
    var text := slug + " " + comment;
    BetweenPieces(BEGIN_PREFIX, text, SUFFIX);
    FirstWordOf(slug, " " + comment);
    assert slug + (" " + comment) == text;
    assert text[|slug|..] == " " + comment;
  }

  const SURFACE := "cordis-surface"
  const SURFACE_COMMENT := "(gen-cordis-catalog.ts)" + " \U{2014} do not edit " + "between markers"
  const REGION_BEGIN := BeginMarker(SURFACE, SURFACE_COMMENT)
  const REGION_END := EndMarker(SURFACE)

  lemma SurfaceMarkers()
    ensures Classify(REGION_BEGIN) == Begin(SURFACE) && Classify(REGION_END) == End(SURFACE)
    ensures forall line :: Classify(line) == End(SURFACE) ==> line == REGION_END
  {
    assert IsSlug(SURFACE);
    assert NoneOf("(gen-cordis-catalog.ts)", '>') && NoneOf(" \U{2014} do not edit ", '>')
      && NoneOf("between markers", '>');
    BeginLineOfSlug(SURFACE, SURFACE_COMMENT);
    EndLineOfSlug(REGION_END, SURFACE);
    forall line | Classify(line) == End(SURFACE) ensures line == REGION_END { EndLineOfSlug(line, SURFACE); }
  }

  // ---- partition ----

  datatype Page = Page(regions: seq<string>, stripped: string)

  function JoinAll(regions: seq<seq<string>>): seq<string> {
    seq(|regions|, i requires 0 <= i < |regions| => L.Join(regions[i]))
  }

  function Partition(content: string): Result<Page, RegionError> {
    var parts := Scan(Classify, L.Split(content), None);
    if parts.Err? then Err(parts.error) else Ok(Page(JoinAll(parts.value.regions), L.Join(parts.value.kept)))
  }

  /**
    A page partitions exactly when its lines are blocks of the grammar; its regions and its
    remainder are those of the blocks.
   */
  lemma PartitionIffBlocks(content: string, page: Page)
    ensures Partition(content) == Ok(page) <==>
      exists blocks :: PageOk(Classify, blocks) && Flatten(blocks) == L.Split(content)
        && JoinAll(Regions(blocks)) == page.regions && L.Join(Kept(blocks)) == page.stripped
  {
    var lines := L.Split(content);
    if Partition(content) == Ok(page) {
      var parts := Scan(Classify, lines, None).value;
      ScanIffPage(Classify, lines, parts);
      var blocks :| PageOk(Classify, blocks) && Flatten(blocks) == lines
        && Parts(Regions(blocks), Kept(blocks)) == parts;
      assert JoinAll(Regions(blocks)) == page.regions;
    }
    forall blocks | PageOk(Classify, blocks) && Flatten(blocks) == lines
      && JoinAll(Regions(blocks)) == page.regions && L.Join(Kept(blocks)) == page.stripped
      ensures Partition(content) == Ok(page)
    {
      ScanReadsPage(Classify, blocks);
    }
  }

  /** Any other page is refused for its first misplaced or malformed marker, or for a region left open. */
  lemma PartitionErrors(content: string, e: RegionError)
    ensures Partition(content) == Err(e) <==> Explains(Classify, L.Split(content), e)
  {
    ScanErrors(Classify, L.Split(content), e);
  }

  method PartitionGeneratedRegions(content: string) returns (r: Result<Page, RegionError>)
    ensures r == Partition(content)
  {
    var parts := ScanLines(Classify, L.Split(content));
    if parts.Err? { return Err(parts.error); }
    return Ok(Page(JoinAll(parts.value.regions), L.Join(parts.value.kept)));
  }

  // ---- splice ----

  function Splice(content: string, region: string): Result<string, SpliceError> {
    var r := SpliceLines(L.Split(content), L.Split(region), REGION_BEGIN, REGION_END);
    if r.Err? then Err(r.error) else Ok(L.Join(r.value))
  }

  /** A cordis-surface region as the generator renders it. */
  predicate IsSurfaceRegion(region: string) {
    IsRegion(Classify, L.Split(region), REGION_BEGIN, REGION_END)
  }

  lemma SplitAgain(lines: seq<string>, region: seq<string>, from: nat, to: nat)
    requires from <= to <= |lines| && region != []
    requires (forall line :: line in lines ==> L.OneLine(line)) && (forall line :: line in region ==> L.OneLine(line))
    ensures L.Split(L.Join(lines[..from] + region + lines[to..])) == lines[..from] + region + lines[to..]
  {
    L.SplitJoin(lines[..from] + region + lines[to..]);
  }

  lemma SplitSpliced(content: string, region: string)
    requires Splice(content, region).Ok?
    ensures Ok(L.Split(Splice(content, region).value))
      == SpliceLines(L.Split(content), L.Split(region), REGION_BEGIN, REGION_END)
  {
    var lines := L.Split(content);
    L.SplitIntoOneLines(content);
    L.SplitIntoOneLines(region);
    SplitAgain(lines, L.Split(region), IndicesOf(lines, REGION_BEGIN)[0], IndicesOf(lines, REGION_END)[0] + 1);
  }

  lemma JoinAllUpdate(regions: seq<seq<string>>, k: nat, region: seq<string>)
    requires k < |regions|
    ensures JoinAll(regions[k := region]) == JoinAll(regions)[k := L.Join(region)]
  {
  }

  /** On a page that partitions, splicing fails only for the number of markers. */
  lemma SpliceSucceedsIff(content: string, region: string)
    requires Partition(content).Ok? && IsSurfaceRegion(region)
    ensures Splice(content, region).Ok? <==>
      L.Count(L.Split(content), REGION_BEGIN) == L.Count(L.Split(content), REGION_END) == 1
  {
    var lines := L.Split(content);
    SurfaceMarkers();
    CountIndices(lines, REGION_BEGIN);
    CountIndices(lines, REGION_END);
    if |IndicesOf(lines, REGION_BEGIN)| == |IndicesOf(lines, REGION_END)| == 1 {
      var k := SplicedPage(Classify, lines, L.Split(region), REGION_BEGIN, REGION_END);
    }
  }

  /** A failed splice reports how many markers there are, or that the only ones are in the wrong order. */
  lemma SpliceErrors(content: string, region: string)
    requires Splice(content, region).Err?
    ensures var begins, ends := L.Count(L.Split(content), REGION_BEGIN), L.Count(L.Split(content), REGION_END);
      Splice(content, region).error == if begins == ends == 1 then EndBeforeBegin else NotExactlyOne(begins, ends)
  {
    CountIndices(L.Split(content), REGION_BEGIN);
    CountIndices(L.Split(content), REGION_END);
  }

  lemma {:induction false} CountIndices(lines: seq<string>, line: string)
    ensures |IndicesOf(lines, line)| == L.Count(lines, line)
  {
    if lines != [] {
      var front := |lines| - 1;
      CountIndices(lines[..front], line);
      L.CountConcat(lines[..front], [lines[front]], line);
      assert lines == lines[..front] + [lines[front]];
    }
  }

  /**
    Splicing keeps the human content and every other region of the page, and puts the new region in
    the place of the old.
   */
  lemma SpliceKeepsHumanContent(content: string, region: string) returns (k: nat)
    requires Partition(content).Ok? && IsSurfaceRegion(region) && Splice(content, region).Ok?
    ensures var was, now := Partition(content).value, Partition(Splice(content, region).value);
      && now.Ok? && now.value.stripped == was.stripped
      && k < |was.regions| && now.value.regions == was.regions[k := region]
  {
    var lines := L.Split(content);
    SurfaceMarkers();
    SplitSpliced(content, region);
    k := SplicedPage(Classify, lines, L.Split(region), REGION_BEGIN, REGION_END);
    L.JoinSplit(region);
    JoinAllUpdate(Scan(Classify, lines, None).value.regions, k, L.Split(region));
  }

  /** A later splice overrides an earlier one, on any page. */
  lemma LaterSpliceOverrides(content: string, first: string, second: string)
    requires IsSurfaceRegion(first) && Splice(content, first).Ok?
    ensures Splice(Splice(content, first).value, second) == Splice(content, second)
  {
    SplitSpliced(content, first);
    SpliceOverrides(Classify, L.Split(content), L.Split(first), L.Split(second), REGION_BEGIN, REGION_END);
  }
}
