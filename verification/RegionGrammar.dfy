/**
  The line grammar of generated regions, over lines of any kind: a page is a sequence of
  plain text lines and of regions, each opened by a BEGIN marker, closed by the END marker
  of the same slug, with plain lines between. `Scan` is the one-pass reader. It reads exactly
  the pages of the grammar, and replacing the lines of one region keeps the rest of the page.
 */
module RegionGrammar {
  import opened Wrappers

  datatype Kind = Begin(slug: string) | End(slug: string) | Malformed | Plain

  datatype Block<L> = Text(line: L) | Region(first: L, body: seq<L>, last: L)

  datatype RegionError = NestedBegin | UnopenedEnd | MismatchedEnd | MalformedMarker | UnclosedBegin

  /** The regions, markers included, and the lines outside them. */
  datatype Parts<L> = Parts(regions: seq<seq<L>>, kept: seq<L>)

  // ---- the grammar ----

  predicate BlockOk<L>(kind: L -> Kind, block: Block<L>) {
    match block
    case Text(line) => kind(line).Plain?
    case Region(first, body, last) =>
      && kind(first).Begin? && kind(last) == End(kind(first).slug)
      && forall i {:trigger kind(body[i])} :: 0 <= i < |body| ==> kind(body[i]).Plain?
  }

  predicate PageOk<L>(kind: L -> Kind, blocks: seq<Block<L>>) {
    blocks == [] || (BlockOk(kind, blocks[0]) && PageOk(kind, blocks[1..]))
  }

  function BlockLines<L>(block: Block<L>): seq<L> {
    match block
    case Text(line) => [line]
    case Region(first, body, last) => [first] + body + [last]
  }

  function Flatten<L>(blocks: seq<Block<L>>): seq<L> {
    if blocks == [] then [] else BlockLines(blocks[0]) + Flatten(blocks[1..])
  }

  function Regions<L>(blocks: seq<Block<L>>): seq<seq<L>> {
    if blocks == [] then []
    else if blocks[0].Text? then Regions(blocks[1..])
    else [BlockLines(blocks[0])] + Regions(blocks[1..])
  }

  function Kept<L>(blocks: seq<Block<L>>): seq<L> {
    if blocks == [] then []
    else if blocks[0].Text? then [blocks[0].line] + Kept(blocks[1..])
    else Kept(blocks[1..])
  }

  function AddKept<L>(line: L, parts: Parts<L>): Parts<L> {
    Parts(parts.regions, [line] + parts.kept)
  }

  function AddRegion<L>(region: seq<L>, parts: Parts<L>): Parts<L> {
    Parts([region] + parts.regions, parts.kept)
  }

  // ---- the reader ----

  /** Reads on with `open` the lines of the region being read, if any. */
  function Scan<L>(kind: L -> Kind, lines: seq<L>, open: Option<seq<L>>): Result<Parts<L>, RegionError>
    requires open.Some? ==> open.value != [] && kind(open.value[0]).Begin?
    decreases |lines|
  {
    if lines == [] then
      if open.Some? then Err(UnclosedBegin) else Ok(Parts([], []))
    else
      var line, rest := lines[0], lines[1..];
      match kind(line)
      case Begin(_) =>
        if open.Some? then Err(NestedBegin) else Scan(kind, rest, Some([line]))
      case End(slug) =>
        if open.None? then Err(UnopenedEnd)
        else if slug != kind(open.value[0]).slug then Err(MismatchedEnd)
        else
          var later := Scan(kind, rest, None);
          if later.Ok? then Ok(AddRegion(open.value + [line], later.value)) else later
      case Malformed => Err(MalformedMarker)
      case Plain =>
        if open.Some? then Scan(kind, rest, Some(open.value + [line]))
        else
          var later := Scan(kind, rest, None);
          if later.Ok? then Ok(AddKept(line, later.value)) else later
  }

  lemma {:induction false} ScanOpenRegion<L>(kind: L -> Kind, open: seq<L>, body: seq<L>, last: L, rest: seq<L>)
    requires open != [] && kind(open[0]).Begin? && kind(last) == End(kind(open[0]).slug)
    requires forall i {:trigger kind(body[i])} :: 0 <= i < |body| ==> kind(body[i]).Plain?
    ensures var later := Scan(kind, rest, None);
      Scan(kind, body + [last] + rest, Some(open))
        == if later.Ok? then Ok(AddRegion(open + body + [last], later.value)) else later
    decreases |body|
  {
    var lines := body + [last] + rest;
    if body == [] {
      assert lines[0] == last && lines[1..] == rest && open + body == open;
    } else {
      assert lines[0] == body[0] && lines[1..] == body[1..] + [last] + rest;
      ScanOpenRegion(kind, open + [body[0]], body[1..], last, rest);
      assert open + [body[0]] + body[1..] == open + body;
    }
  }

  /** Every page of the grammar is read as its own blocks; what follows it does not matter. */
  lemma {:induction false} ScanReadsPage<L>(kind: L -> Kind, blocks: seq<Block<L>>)
    requires PageOk(kind, blocks)
    ensures Scan(kind, Flatten(blocks), None) == Ok(Parts(Regions(blocks), Kept(blocks)))
  {
    if blocks != [] {
      ScanReadsPage(kind, blocks[1..]);
      ScanReadsBlock(kind, blocks[0], Flatten(blocks[1..]));
    }
  }

  lemma ScanReadsBlock<L>(kind: L -> Kind, block: Block<L>, rest: seq<L>)
    requires BlockOk(kind, block) && Scan(kind, rest, None).Ok?
    ensures var later := Scan(kind, rest, None).value;
      Scan(kind, BlockLines(block) + rest, None)
        == Ok(if block.Text? then AddKept(block.line, later) else AddRegion(BlockLines(block), later))
  {
    match block
    case Text(line) =>
      assert ([line] + rest)[1..] == rest;
    case Region(first, body, last) =>
      var lines := [first] + body + [last] + rest;
      assert lines[1..] == body + [last] + rest;
      ScanOpenRegion(kind, [first], body, last, rest);
  }

  lemma PageCons<L>(kind: L -> Kind, block: Block<L>, blocks: seq<Block<L>>)
    requires BlockOk(kind, block) && PageOk(kind, blocks)
    ensures PageOk(kind, [block] + blocks) && Flatten([block] + blocks) == BlockLines(block) + Flatten(blocks)
  {
    assert ([block] + blocks)[1..] == blocks;
  }

  /** Only pages of the grammar are read without an error. */
  lemma {:induction false} ReadPagesAreOk<L>(kind: L -> Kind, lines: seq<L>) returns (blocks: seq<Block<L>>)
    requires Scan(kind, lines, None).Ok?
    ensures PageOk(kind, blocks) && Flatten(blocks) == lines
    decreases |lines|, 1
  {
    if lines == [] {
      blocks := [];
    } else {
      var line, rest := lines[0], lines[1..];
      assert lines == [line] + rest;
      if kind(line).Plain? {
        var later := ReadPagesAreOk(kind, rest);
        PageCons(kind, Text(line), later);
        blocks := [Text(line)] + later;
      } else {
        blocks := ReadRegionIsOk(kind, [line], rest);
      }
    }
  }

  lemma {:induction false} ReadRegionIsOk<L>(kind: L -> Kind, open: seq<L>, lines: seq<L>)
      returns (blocks: seq<Block<L>>)
    requires open != [] && kind(open[0]).Begin? && forall i :: 1 <= i < |open| ==> kind(open[i]).Plain?
    requires Scan(kind, lines, Some(open)).Ok?
    ensures PageOk(kind, blocks) && Flatten(blocks) == open + lines
    decreases |lines|, 0
  {
    var line, rest := lines[0], lines[1..];
    assert open + lines == open + [line] + rest;
    if kind(line).Plain? {
      blocks := ReadRegionIsOk(kind, open + [line], rest);
    } else {
      var later := ReadPagesAreOk(kind, rest);
      var region := Region(open[0], open[1..], line);
      PageCons(kind, region, later);
      assert BlockLines(region) == open + [line];
      blocks := [region] + later;
    }
  }

  /** A page is read without an error exactly when it is one of the grammar, and then as its blocks. */
  lemma ScanIffPage<L(!new)>(kind: L -> Kind, lines: seq<L>, parts: Parts<L>)
    ensures Scan(kind, lines, None) == Ok(parts) <==>
      exists blocks :: PageOk(kind, blocks) && Flatten(blocks) == lines && Parts(Regions(blocks), Kept(blocks)) == parts
  {
    if Scan(kind, lines, None) == Ok(parts) {
      var blocks := ReadPagesAreOk(kind, lines);
      ScanReadsPage(kind, blocks);
      assert Parts(Regions(blocks), Kept(blocks)) == parts;
    }
    forall blocks | PageOk(kind, blocks) && Flatten(blocks) == lines && Parts(Regions(blocks), Kept(blocks)) == parts
      ensures Scan(kind, lines, None) == Ok(parts)
    {
      ScanReadsPage(kind, blocks);
    }
  }

  /** A scan that goes on after some regions and kept lines were already collected. */
  function Onto<L>(collected: Parts<L>, later: Result<Parts<L>, RegionError>): Result<Parts<L>, RegionError> {
    if later.Err? then later
    else Ok(Parts(collected.regions + later.value.regions, collected.kept + later.value.kept))
  }

  lemma OntoNothing<L>(later: Result<Parts<L>, RegionError>)
    ensures Onto(Parts([], []), later) == later
  {
    if later.Ok? {
      assert [] + later.value.regions == later.value.regions && [] + later.value.kept == later.value.kept;
    }
  }

  lemma CollectRegion<L>(collected: Parts<L>, region: seq<L>, later: Parts<L>)
    ensures Onto(collected, Ok(AddRegion(region, later)))
      == Onto(collected.(regions := collected.regions + [region]), Ok(later))
  {
    assert collected.regions + ([region] + later.regions) == collected.regions + [region] + later.regions;
  }

  lemma CollectLine<L>(collected: Parts<L>, line: L, later: Parts<L>)
    ensures Onto(collected, Ok(AddKept(line, later))) == Onto(collected.(kept := collected.kept + [line]), Ok(later))
  {
    assert collected.kept + ([line] + later.kept) == collected.kept + [line] + later.kept;
  }

  // ---- why a page is not read ----

  /** The region of that slug is open before a line: its BEGIN is followed by plain lines only. */
  ghost predicate OpenBefore<L>(kind: L -> Kind, lines: seq<L>, k: nat, slug: string)
    requires k <= |lines|
  {
    exists b :: 0 <= b < k && OpenSince(kind, lines, b, k, slug)
  }

  ghost predicate OpenSince<L>(kind: L -> Kind, lines: seq<L>, b: nat, k: nat, slug: string)
    requires b < k <= |lines|
  {
    kind(lines[b]) == Begin(slug) && forall i :: b < i < k ==> kind(lines[i]).Plain?
  }

  /** A line that cannot stand where it does. */
  ghost predicate Fault<L>(kind: L -> Kind, lines: seq<L>, k: nat, e: RegionError)
    requires k < |lines|
  {
    match kind(lines[k])
    case Begin(_) => e == NestedBegin && exists slug :: OpenBefore(kind, lines, k, slug)
    case End(slug) =>
      || (e == UnopenedEnd && forall other :: !OpenBefore(kind, lines, k, other))
      || (e == MismatchedEnd && exists other :: OpenBefore(kind, lines, k, other) && other != slug)
    case Malformed => e == MalformedMarker
    case Plain => false
  }

  ghost predicate NoFaultBefore<L>(kind: L -> Kind, lines: seq<L>, k: nat)
    requires k <= |lines|
  {
    forall j, e :: 0 <= j < k ==> !Fault(kind, lines, j, e)
  }

  /** Some line is the first that cannot stand where it does, or the last region is never closed. */
  ghost predicate Explains<L>(kind: L -> Kind, lines: seq<L>, e: RegionError) {
    || (exists k :: 0 <= k < |lines| && Fault(kind, lines, k, e) && NoFaultBefore(kind, lines, k))
    || (e == UnclosedBegin && NoFaultBefore(kind, lines, |lines|)
        && exists slug :: OpenBefore(kind, lines, |lines|, slug))
  }

  /** The open region the reader carries is the one open before the line it reads next. */
  ghost predicate Carries<L>(kind: L -> Kind, lines: seq<L>, k: nat, open: Option<seq<L>>)
    requires k <= |lines|
  {
    && (open.Some? ==> open.value != [] && kind(open.value[0]).Begin?)
    && forall slug :: OpenBefore(kind, lines, k, slug) <==> open.Some? && slug == kind(open.value[0]).slug
  }

  /** What is open after one more line. */
  lemma OpenStep<L>(kind: L -> Kind, lines: seq<L>, k: nat, slug: string)
    requires k < |lines|
    ensures OpenBefore(kind, lines, k + 1, slug)
      <==> kind(lines[k]) == Begin(slug) || (kind(lines[k]).Plain? && OpenBefore(kind, lines, k, slug))
  {
    if kind(lines[k]) == Begin(slug) { assert OpenSince(kind, lines, k, k + 1, slug); }
    if kind(lines[k]).Plain? && OpenBefore(kind, lines, k, slug) {
      var b :| 0 <= b < k && OpenSince(kind, lines, b, k, slug);
      assert OpenSince(kind, lines, b, k + 1, slug);
    }
    if OpenBefore(kind, lines, k + 1, slug) {
      var b :| 0 <= b < k + 1 && OpenSince(kind, lines, b, k + 1, slug);
      if b < k { assert OpenSince(kind, lines, b, k, slug); }
    }
  }

  lemma FaultStops<L>(kind: L -> Kind, lines: seq<L>, k: nat, open: Option<seq<L>>, x: RegionError)
    requires k < |lines| && Carries(kind, lines, k, open) && Fault(kind, lines, k, x)
    ensures Scan(kind, lines[k..], open) == Err(x)
  {
    assert lines[k..][0] == lines[k];
    if open.Some? { assert OpenBefore(kind, lines, k, kind(open.value[0]).slug); }
    match kind(lines[k])
    case Begin(_) =>
      var slug :| OpenBefore(kind, lines, k, slug);
    case End(slug) =>
      if x == MismatchedEnd {
        var other :| OpenBefore(kind, lines, k, other) && other != slug;
      }
    case Malformed =>
    case Plain =>
  }

  /** Nothing after the first fault explains the error. */
  lemma FirstFaultExplains<L>(kind: L -> Kind, lines: seq<L>, k: nat, x: RegionError, e: RegionError)
    requires k < |lines| && Fault(kind, lines, k, x) && NoFaultBefore(kind, lines, k)
    ensures Explains(kind, lines, e) <==> Fault(kind, lines, k, e)
  {
    if j :| 0 <= j < |lines| && Fault(kind, lines, j, e) && NoFaultBefore(kind, lines, j) {
      assert j == k;
    }
  }

  lemma {:induction false} ErrorsFrom<L>(kind: L -> Kind, lines: seq<L>, k: nat, open: Option<seq<L>>, e: RegionError)
    requires k <= |lines| && Carries(kind, lines, k, open) && NoFaultBefore(kind, lines, k)
    ensures Scan(kind, lines[k..], open) == Err(e) <==> Explains(kind, lines, e)
    decreases |lines| - k
  {
    if k < |lines| {
      if x :| Fault(kind, lines, k, x) {
        FaultStops(kind, lines, k, open, x);
        if Fault(kind, lines, k, e) { FaultStops(kind, lines, k, open, e); }
        FirstFaultExplains(kind, lines, k, x, e);
      } else {
        var next := ReadsOn(kind, lines, k, open);
        ErrorsFrom(kind, lines, k + 1, next, e);
      }
    } else {
      assert lines[k..] == [];
      if open.Some? { assert OpenBefore(kind, lines, k, kind(open.value[0]).slug); }
    }
  }

  /** Without a fault the reader goes on to the next line. */
  lemma ReadsOn<L>(kind: L -> Kind, lines: seq<L>, k: nat, open: Option<seq<L>>) returns (next: Option<seq<L>>)
    requires k < |lines| && Carries(kind, lines, k, open) && forall x :: !Fault(kind, lines, k, x)
    ensures Carries(kind, lines, k + 1, next)
    ensures forall e :: Scan(kind, lines[k..], open) == Err(e) <==> Scan(kind, lines[k + 1..], next) == Err(e)
  {
    var line := lines[k];
    assert lines[k..][0] == line && lines[k..][1..] == lines[k + 1..];
    assert !Fault(kind, lines, k, NestedBegin) && !Fault(kind, lines, k, MalformedMarker);
    assert !Fault(kind, lines, k, UnopenedEnd) && !Fault(kind, lines, k, MismatchedEnd);
    if open.Some? { assert OpenBefore(kind, lines, k, kind(open.value[0]).slug); }
    next := if kind(line).Begin? then Some([line])
      else if kind(line).Plain? && open.Some? then Some(open.value + [line]) else None;
    forall slug ensures OpenBefore(kind, lines, k + 1, slug)
      <==> kind(line) == Begin(slug) || (kind(line).Plain? && OpenBefore(kind, lines, k, slug))
    {
      OpenStep(kind, lines, k, slug);
    }
  }

  /** The reader fails exactly for the first line that cannot stand where it does, or for an open end. */
  lemma ScanErrors<L>(kind: L -> Kind, lines: seq<L>, e: RegionError)
    ensures Scan(kind, lines, None) == Err(e) <==> Explains(kind, lines, e)
  {
    assert lines[0..] == lines;
    ErrorsFrom(kind, lines, 0, None, e);
  }

  /** The source's loop over the lines; `open` is the region being read. */
  method ScanLines<L>(kind: L -> Kind, lines: seq<L>) returns (r: Result<Parts<L>, RegionError>)
    ensures r == Scan(kind, lines, None)
  {
    var collected: Parts<L> := Parts([], []);
    var open: Option<seq<L>> := None;
    assert lines[0..] == lines;
    OntoNothing(Scan(kind, lines, None));
    for i := 0 to |lines|
      invariant open.Some? ==> open.value != [] && kind(open.value[0]).Begin?
      invariant Scan(kind, lines, None) == Onto(collected, Scan(kind, lines[i..], open))
    {
      var line := lines[i];
      ghost var later := Scan(kind, lines[i + 1..], None);
      assert lines[i..][0] == line && lines[i..][1..] == lines[i + 1..];
      match kind(line) {
        case Begin(_) =>
          if open.Some? { return Err(NestedBegin); }
          open := Some([line]);
        case End(slug) =>
          if open.None? { return Err(UnopenedEnd); }
          if slug != kind(open.value[0]).slug { return Err(MismatchedEnd); }
          var region := open.value + [line];
          if later.Ok? { CollectRegion(collected, region, later.value); }
          collected := collected.(regions := collected.regions + [region]);
          open := None;
        case Malformed => return Err(MalformedMarker);
        case Plain =>
          if open.Some? {
            open := Some(open.value + [line]);
          } else {
            if later.Ok? { CollectLine(collected, line, later.value); }
            collected := collected.(kept := collected.kept + [line]);
          }
      }
    }
    assert lines[|lines|..] == [] && collected.regions + [] == collected.regions
      && collected.kept + [] == collected.kept;
    if open.Some? { return Err(UnclosedBegin); }
    return Ok(collected);
  }

  // ---- replacing one region ----

  lemma {:induction false} FlattenConcat<L>(a: seq<Block<L>>, b: seq<Block<L>>)
    ensures Flatten(a + b) == Flatten(a) + Flatten(b)
  {
    if a == [] {
      assert a + b == b;
    } else {
      assert (a + b)[1..] == a[1..] + b;
      FlattenConcat(a[1..], b);
    }
  }

  lemma {:induction false} PageOkConcat<L>(kind: L -> Kind, a: seq<Block<L>>, b: seq<Block<L>>)
    ensures PageOk(kind, a + b) <==> PageOk(kind, a) && PageOk(kind, b)
  {
    if a == [] {
      assert a + b == b;
    } else {
      assert (a + b)[1..] == a[1..] + b;
      PageOkConcat(kind, a[1..], b);
    }
  }

  lemma PageOkAround<L>(kind: L -> Kind, before: seq<Block<L>>, block: Block<L>, after: seq<Block<L>>)
    ensures PageOk(kind, before + [block] + after) <==>
      PageOk(kind, before) && BlockOk(kind, block) && PageOk(kind, after)
  {
    assert [block][1..] == [];
    PageOkConcat(kind, before + [block], after);
    PageOkConcat(kind, before, [block]);
  }

  lemma {:induction false} RegionsConcat<L>(a: seq<Block<L>>, b: seq<Block<L>>)
    ensures Regions(a + b) == Regions(a) + Regions(b)
  {
    if a == [] {
      assert a + b == b;
    } else {
      assert (a + b)[1..] == a[1..] + b;
      RegionsConcat(a[1..], b);
    }
  }

  lemma {:induction false} KeptConcat<L>(a: seq<Block<L>>, b: seq<Block<L>>)
    ensures Kept(a + b) == Kept(a) + Kept(b)
  {
    if a == [] {
      assert a + b == b;
    } else {
      assert (a + b)[1..] == a[1..] + b;
      KeptConcat(a[1..], b);
    }
  }

  lemma OneBlock<L>(block: Block<L>)
    ensures Flatten([block]) == BlockLines(block)
    ensures block.Region? ==> Regions([block]) == [BlockLines(block)] && Kept([block]) == []
  {
    assert [block][1..] == [];
    assert BlockLines(block) + Flatten([]) == BlockLines(block);
  }

  lemma FlattenAround<L>(before: seq<Block<L>>, block: Block<L>, after: seq<Block<L>>)
    ensures Flatten(before + [block] + after) == Flatten(before) + BlockLines(block) + Flatten(after)
  {
    OneBlock(block);
    FlattenConcat(before + [block], after);
    FlattenConcat(before, [block]);
  }

  lemma RegionsAround<L>(before: seq<Block<L>>, block: Block<L>, after: seq<Block<L>>)
    requires block.Region?
    ensures Regions(before + [block] + after) == Regions(before) + [BlockLines(block)] + Regions(after)
  {
    OneBlock(block);
    RegionsConcat(before + [block], after);
    RegionsConcat(before, [block]);
  }

  lemma KeptAround<L>(before: seq<Block<L>>, block: Block<L>, after: seq<Block<L>>)
    requires block.Region?
    ensures Kept(before + [block] + after) == Kept(before) + Kept(after)
  {
    OneBlock(block);
    KeptConcat(before + [block], after);
    KeptConcat(before, [block]);
  }

  /** Only the first line of a block is a BEGIN line. */
  lemma BeginIsFirst<L>(kind: L -> Kind, block: Block<L>, at: nat)
    requires BlockOk(kind, block) && at < |BlockLines(block)| && kind(BlockLines(block)[at]).Begin?
    ensures at == 0 && block.Region?
  {
  }

  lemma PrefixLength<L>(blocks: seq<Block<L>>, j: nat)
    requires j < |blocks|
    ensures |Flatten(blocks[..j + 1])| == |BlockLines(blocks[0])| + |Flatten(blocks[1..][..j])|
  {
    assert blocks[..j + 1][1..] == blocks[1..][..j];
  }

  /** A BEGIN line of a page opens one of its blocks. */
  lemma {:induction false} BeginOpensBlock<L>(kind: L -> Kind, blocks: seq<Block<L>>, lines: seq<L>, at: nat)
      returns (k: nat)
    requires PageOk(kind, blocks) && lines == Flatten(blocks) && at < |lines| && kind(lines[at]).Begin?
    ensures k < |blocks| && blocks[k].Region? && |Flatten(blocks[..k])| == at
    decreases |blocks|
  {
    var first, rest := BlockLines(blocks[0]), Flatten(blocks[1..]);
    if at < |first| {
      assert lines[at] == first[at];
      BeginIsFirst(kind, blocks[0], at);
      k := 0;
    } else {
      assert lines[at] == rest[at - |first|];
      var j := BeginOpensBlock(kind, blocks[1..], rest, at - |first|);
      PrefixLength(blocks, j);
      k := j + 1;
    }
  }

  /** The only region between these markers: where it stands among the blocks. */
  lemma FindRegion<L>(kind: L -> Kind, blocks: seq<Block<L>>, lines: seq<L>, end: L, b: nat, e: nat)
      returns (before: seq<Block<L>>, former: Block<L>, after: seq<Block<L>>)
    requires PageOk(kind, blocks) && Flatten(blocks) == lines
    requires b < |lines| && kind(lines[b]).Begin? && kind(end) == End(kind(lines[b]).slug)
    requires forall line :: kind(line) == kind(end) ==> line == end
    requires forall i :: 0 <= i < |lines| && lines[i] == end ==> i == e
    ensures blocks == before + [former] + after && former.Region?
    ensures |Flatten(before)| == b && b + |BlockLines(former)| == e + 1
  {
    var k := BeginOpensBlock(kind, blocks, lines, b);
    before, former, after := CutAt(blocks, k);
    PageOkAround(kind, before, former, after);
    assert lines == Flatten(before) + BlockLines(former) + Flatten(after);
    MarkersOf(kind, former, Flatten(before), Flatten(after), lines, end, e);
  }

  lemma CutAt<L>(blocks: seq<Block<L>>, k: nat) returns (before: seq<Block<L>>, block: Block<L>, after: seq<Block<L>>)
    requires k < |blocks|
    ensures before == blocks[..k] && block == blocks[k] && blocks == before + [block] + after
    ensures Flatten(blocks) == Flatten(before) + BlockLines(block) + Flatten(after)
  {
    before, block, after := blocks[..k], blocks[k], blocks[k + 1..];
    assert blocks == before + [block] + after;
    FlattenAround(before, block, after);
  }

  lemma MarkersOf<L>(kind: L -> Kind, block: Block<L>, before: seq<L>, after: seq<L>, lines: seq<L>, end: L, e: nat)
    requires block.Region? && BlockOk(kind, block) && lines == before + BlockLines(block) + after
    requires |before| < |lines| && kind(end) == End(kind(lines[|before|]).slug)
    requires forall line :: kind(line) == kind(end) ==> line == end
    requires forall i :: 0 <= i < |lines| && lines[i] == end ==> i == e
    ensures |before| + |BlockLines(block)| == e + 1
  {
    var close := |before| + |block.body| + 1;
    assert lines[|before|] == block.first && lines[close] == block.last;
    assert block.last == end;
  }

  lemma SlicesAround<T>(a: seq<T>, m: seq<T>, c: seq<T>, r: seq<T>, s: seq<T>, from: nat, to: nat)
    requires s == a + m + c && from == |a| && to == |a| + |m|
    ensures s[from..to] == m && s[..from] + r + s[to..] == a + r + c
  {
    assert s[..from] == a && s[to..] == c;
  }

  lemma UpdateAround<T>(a: seq<T>, x: T, c: seq<T>, y: T)
    ensures (a + [x] + c)[|a| := y] == a + [y] + c && (a + [x] + c)[|a|] == x
  {
  }

  /** Replacing a region block replaces its lines. */
  lemma ReplaceBlockLines<L>(before: seq<Block<L>>, former: Block<L>, after: seq<Block<L>>, renewed: Block<L>,
      lines: seq<L>, from: nat, to: nat)
    requires lines == Flatten(before + [former] + after)
    requires from == |Flatten(before)| && to == from + |BlockLines(former)|
    ensures from <= to <= |lines| && lines[from..to] == BlockLines(former)
    ensures Flatten(before + [renewed] + after) == lines[..from] + BlockLines(renewed) + lines[to..]
  {
    FlattenAround(before, former, after);
    FlattenAround(before, renewed, after);
    SlicesAround(Flatten(before), BlockLines(former), Flatten(after), BlockLines(renewed), lines, from, to);
  }

  /** Replacing a region block replaces its region, and keeps every line outside the regions. */
  lemma ReplaceBlockRegion<L>(before: seq<Block<L>>, former: Block<L>, after: seq<Block<L>>, renewed: Block<L>)
    requires former.Region? && renewed.Region?
    ensures var k, regions := |Regions(before)|, Regions(before + [former] + after);
      && k < |regions| && regions[k] == BlockLines(former)
      && Regions(before + [renewed] + after) == regions[k := BlockLines(renewed)]
    ensures Kept(before + [renewed] + after) == Kept(before + [former] + after)
  {
    RegionsAround(before, former, after);
    RegionsAround(before, renewed, after);
    KeptAround(before, former, after);
    KeptAround(before, renewed, after);
    UpdateAround(Regions(before), BlockLines(former), Regions(after), BlockLines(renewed));
  }

  lemma ReplaceFound<L>(kind: L -> Kind, before: seq<Block<L>>, former: Block<L>, after: seq<Block<L>>,
      renewed: Block<L>,
      lines: seq<L>, from: nat, to: nat) returns (replaced: seq<Block<L>>, k: nat)
    requires former.Region? && renewed.Region? && BlockOk(kind, renewed)
    requires PageOk(kind, before + [former] + after) && lines == Flatten(before + [former] + after)
    requires from == |Flatten(before)| && to == from + |BlockLines(former)|
    ensures from <= to <= |lines| && PageOk(kind, replaced)
    ensures Flatten(replaced) == lines[..from] + BlockLines(renewed) + lines[to..]
    ensures Kept(replaced) == Kept(before + [former] + after)
    ensures k < |Regions(before + [former] + after)| && Regions(before + [former] + after)[k] == lines[from..to]
    ensures Regions(replaced) == Regions(before + [former] + after)[k := BlockLines(renewed)]
  {
    PageOkAround(kind, before, former, after);
    PageOkAround(kind, before, renewed, after);
    ReplaceBlockLines(before, former, after, renewed, lines, from, to);
    ReplaceBlockRegion(before, former, after, renewed);
    replaced, k := before + [renewed] + after, |Regions(before)|;
  }

  /** On a page of the grammar, replacing the lines from one marker to the other replaces exactly that region. */
  lemma ReplaceOnlyRegion<L>(kind: L -> Kind, blocks: seq<Block<L>>, lines: seq<L>, renewed: Block<L>, b: nat, e: nat,
      to: nat)
      returns (replaced: seq<Block<L>>, k: nat)
    requires PageOk(kind, blocks) && Flatten(blocks) == lines && renewed.Region? && BlockOk(kind, renewed)
    requires forall line :: kind(line) == kind(renewed.last) ==> line == renewed.last
    requires b < |lines| && lines[b] == renewed.first && to == e + 1
    requires forall i :: 0 <= i < |lines| && lines[i] == renewed.last ==> i == e
    ensures b <= e && to <= |lines| && PageOk(kind, replaced)
    ensures Flatten(replaced) == lines[..b] + BlockLines(renewed) + lines[to..]
    ensures Kept(replaced) == Kept(blocks)
    ensures k < |Regions(blocks)| && Regions(blocks)[k] == lines[b..to]
    ensures Regions(replaced) == Regions(blocks)[k := BlockLines(renewed)]
  {
    var before, former, after := FindRegion(kind, blocks, lines, renewed.last, b, e);
    replaced, k := ReplaceFound(kind, before, former, after, renewed, lines, b, to);
  }

  // ---- finding the region by its marker lines ----

  datatype SpliceError = NotExactlyOne(begins: nat, ends: nat) | EndBeforeBegin

  function IndicesOf<L(==)>(lines: seq<L>, line: L): (r: seq<nat>)
    ensures forall j :: 0 <= j < |r| ==> r[j] < |lines| && lines[r[j]] == line
  {
    if lines == [] then []
    else
      var front := |lines| - 1;
      IndicesOf(lines[..front], line) + (if lines[front] == line then [front] else [])
  }

  lemma {:induction false} IndicesAreAll<L>(lines: seq<L>, line: L, i: nat) returns (j: nat)
    requires i < |lines| && lines[i] == line
    ensures j < |IndicesOf(lines, line)| && IndicesOf(lines, line)[j] == i
  {
    var front := |lines| - 1;
    if i < front {
      j := IndicesAreAll(lines[..front], line, i);
    } else {
      j := |IndicesOf(lines, line)| - 1;
    }
  }

  ghost predicate OnlyAt<L>(lines: seq<L>, line: L, at: nat) {
    at < |lines| && lines[at] == line && forall i :: 0 <= i < |lines| && lines[i] == line ==> i == at
  }

  lemma OneIndex<L>(lines: seq<L>, line: L)
    requires |IndicesOf(lines, line)| == 1
    ensures OnlyAt(lines, line, IndicesOf(lines, line)[0])
  {
    forall i | 0 <= i < |lines| && lines[i] == line ensures i == IndicesOf(lines, line)[0] {
      var j := IndicesAreAll(lines, line, i);
    }
  }

  function SpliceLines<L(==)>(lines: seq<L>, region: seq<L>, begin: L, end: L): Result<seq<L>, SpliceError> {
    var begins := IndicesOf(lines, begin);
    var ends := IndicesOf(lines, end);
    if |begins| != 1 || |ends| != 1 then Err(NotExactlyOne(|begins|, |ends|))
    else if ends[0] < begins[0] then Err(EndBeforeBegin)
    else Ok(lines[..begins[0]] + region + lines[ends[0] + 1..])
  }

  /** A well-formed region between these very marker lines. */
  predicate IsRegion<L(==)>(kind: L -> Kind, region: seq<L>, begin: L, end: L) {
    |region| >= 2 && region[0] == begin && region[|region| - 1] == end
    && BlockOk(kind, Region(begin, region[1..|region| - 1], end))
  }

  lemma RegionBlock<L>(kind: L -> Kind, region: seq<L>, begin: L, end: L) returns (block: Block<L>)
    requires IsRegion(kind, region, begin, end)
    ensures block.Region? && block.first == begin && block.last == end && BlockOk(kind, block)
      && BlockLines(block) == region
  {
    block := Region(begin, region[1..|region| - 1], end);
  }

  lemma PageOf<L>(kind: L -> Kind, lines: seq<L>) returns (blocks: seq<Block<L>>)
    requires Scan(kind, lines, None).Ok?
    ensures PageOk(kind, blocks) && Flatten(blocks) == lines
    ensures Scan(kind, lines, None).value == Parts(Regions(blocks), Kept(blocks))
  {
    blocks := ReadPagesAreOk(kind, lines);
    ScanReadsPage(kind, blocks);
  }

  lemma SplicedBetween<L(!new)>(kind: L -> Kind, lines: seq<L>, region: seq<L>, begin: L, end: L, b: nat, e: nat,
      to: nat) returns (k: nat)
    requires IsRegion(kind, region, begin, end) && forall line :: kind(line) == kind(end) ==> line == end
    requires Scan(kind, lines, None).Ok? && OnlyAt(lines, begin, b) && OnlyAt(lines, end, e) && to == e + 1
    ensures b <= e && to <= |lines|
    ensures var was := Scan(kind, lines, None).value;
      && k < |was.regions| && was.regions[k] == lines[b..to]
      && Scan(kind, lines[..b] + region + lines[to..], None) == Ok(Parts(was.regions[k := region], was.kept))
  {
    var blocks := PageOf(kind, lines);
    var renewed := RegionBlock(kind, region, begin, end);
    var replaced;
    replaced, k := ReplaceOnlyRegion(kind, blocks, lines, renewed, b, e, to);
    ScanReadsPage(kind, replaced);
  }

  /** Splicing a well-formed region into a page of the grammar replaces exactly the region between those markers. */
  lemma SplicedPage<L(!new)>(kind: L -> Kind, lines: seq<L>, region: seq<L>, begin: L, end: L) returns (k: nat)
    requires IsRegion(kind, region, begin, end) && forall line :: kind(line) == kind(end) ==> line == end
    requires Scan(kind, lines, None).Ok? && |IndicesOf(lines, begin)| == |IndicesOf(lines, end)| == 1
    ensures SpliceLines(lines, region, begin, end).Ok?
    ensures var was, b, to := Scan(kind, lines, None).value, IndicesOf(lines, begin)[0], IndicesOf(lines, end)[0] + 1;
      && b <= to && k < |was.regions| && was.regions[k] == lines[b..to]
      && Scan(kind, SpliceLines(lines, region, begin, end).value, None) == Ok(Parts(was.regions[k := region], was.kept))
  {
    OneIndex(lines, begin);
    OneIndex(lines, end);
    var b, e := IndicesOf(lines, begin)[0], IndicesOf(lines, end)[0];
    k := SplicedBetween(kind, lines, region, begin, end, b, e, e + 1);
  }

  lemma {:induction false} NoIndex<L>(lines: seq<L>, line: L)
    requires forall i :: 0 <= i < |lines| ==> lines[i] != line
    ensures IndicesOf(lines, line) == []
  {
    if lines != [] { NoIndex(lines[..|lines| - 1], line); }
  }

  lemma {:induction false} IndexAlone<L>(lines: seq<L>, line: L, at: nat)
    requires OnlyAt(lines, line, at)
    ensures IndicesOf(lines, line) == [at]
  {
    var front := |lines| - 1;
    if at == front {
      NoIndex(lines[..front], line);
    } else {
      IndexAlone(lines[..front], line, at);
    }
  }

  lemma OnlyAtAfterSplice<L>(lines: seq<L>, region: seq<L>, line: L, from: nat, to: nat, at: nat, offset: nat)
    requires from <= at < to <= |lines| && OnlyAt(lines, line, at) && OnlyAt(region, line, offset)
    ensures OnlyAt(lines[..from] + region + lines[to..], line, from + offset)
  {
    var spliced := lines[..from] + region + lines[to..];
    var end := from + |region|;
    forall i | 0 <= i < |spliced|
      ensures spliced[i] == if i < from then lines[i] else if i < end then region[i - from] else lines[to + (i - end)]
    {
    }
  }

  /** A region's markers occur in it only at its ends. */
  lemma MarkersAtEnds<L>(kind: L -> Kind, region: seq<L>, begin: L, end: L)
    requires IsRegion(kind, region, begin, end)
    ensures OnlyAt(region, begin, 0) && OnlyAt(region, end, |region| - 1)
  {
    var body := region[1..|region| - 1];
    forall i | 1 <= i < |region| - 1 ensures region[i] != begin && region[i] != end {
      assert region[i] == body[i - 1];
      assert kind(body[i - 1]).Plain?;
    }
  }

  lemma MarkersAfterSplice<L>(kind: L -> Kind, lines: seq<L>, first: seq<L>, begin: L, end: L, b: nat, e: nat)
    requires IsRegion(kind, first, begin, end) && OnlyAt(lines, begin, b) && OnlyAt(lines, end, e) && b <= e
    ensures var spliced := lines[..b] + first + lines[e + 1..];
      OnlyAt(spliced, begin, b) && OnlyAt(spliced, end, b + |first| - 1)
  {
    MarkersAtEnds(kind, first, begin, end);
    OnlyAtAfterSplice(lines, first, begin, b, e + 1, b, 0);
    OnlyAtAfterSplice(lines, first, end, b, e + 1, e, |first| - 1);
  }

  /** A later splice overrides an earlier one. */
  lemma SpliceOverrides<L>(kind: L -> Kind, lines: seq<L>, first: seq<L>, second: seq<L>, begin: L, end: L)
    requires IsRegion(kind, first, begin, end) && SpliceLines(lines, first, begin, end).Ok?
    ensures SpliceLines(SpliceLines(lines, first, begin, end).value, second, begin, end)
      == SpliceLines(lines, second, begin, end)
  {
    OneIndex(lines, begin);
    OneIndex(lines, end);
    var b, e := IndicesOf(lines, begin)[0], IndicesOf(lines, end)[0];
    var spliced := lines[..b] + first + lines[e + 1..];
    MarkersAfterSplice(kind, lines, first, begin, end, b, e);
    SpliceAt(spliced, second, begin, end, b, b + |first| - 1);
    SlicesAround(lines[..b], first, lines[e + 1..], second, spliced, b, b + |first|);
  }

  lemma SpliceAt<L>(lines: seq<L>, region: seq<L>, begin: L, end: L, b: nat, e: nat)
    requires OnlyAt(lines, begin, b) && OnlyAt(lines, end, e) && b <= e
    ensures SpliceLines(lines, region, begin, end) == Ok(lines[..b] + region + lines[e + 1..])
  {
    IndexAlone(lines, begin, b);
    IndexAlone(lines, end, e);
  }

  /** The text around and between the only two markers of a page. */
  ghost predicate BetweenMarkers<L>(lines: seq<L>, begin: L, end: L, front: seq<L>, body: seq<L>, rest: seq<L>) {
    && lines == front + [begin] + body + [end] + rest
    && begin !in front + body + rest && end !in front + body + rest
  }

  /** Splicing succeeds on any page with one BEGIN and, behind it, one END, and keeps what is around them. */
  lemma SpliceIff<L(!new)>(lines: seq<L>, region: seq<L>, begin: L, end: L, r: seq<L>)
    requires begin != end
    ensures SpliceLines(lines, region, begin, end) == Ok(r)
      <==> exists front, body, rest ::
        BetweenMarkers(lines, begin, end, front, body, rest) && r == front + region + rest
  {
    if SpliceLines(lines, region, begin, end) == Ok(r) {
      OneIndex(lines, begin);
      OneIndex(lines, end);
      var b, e := IndicesOf(lines, begin)[0], IndicesOf(lines, end)[0];
      MarkersCut(lines, begin, end, b, e);
    }
    forall front, body, rest | BetweenMarkers(lines, begin, end, front, body, rest) && r == front + region + rest
      ensures SpliceLines(lines, region, begin, end) == Ok(r)
    {
      MarkersAt(lines, begin, end, front, body, rest);
      SpliceAt(lines, region, begin, end, |front|, |front| + 1 + |body|);
    }
  }

  lemma MarkersCut<L>(lines: seq<L>, begin: L, end: L, b: nat, e: nat)
    requires OnlyAt(lines, begin, b) && OnlyAt(lines, end, e) && b < e
    ensures BetweenMarkers(lines, begin, end, lines[..b], lines[b + 1..e], lines[e + 1..])
  {
    assert lines == lines[..b] + [lines[b]] + lines[b + 1..e] + [lines[e]] + lines[e + 1..];
  }

  lemma MarkersAt<L>(lines: seq<L>, begin: L, end: L, front: seq<L>, body: seq<L>, rest: seq<L>)
    requires begin != end && BetweenMarkers(lines, begin, end, front, body, rest)
    ensures var e := |front| + 1 + |body|;
      && OnlyAt(lines, begin, |front|) && OnlyAt(lines, end, e)
      && lines[..|front|] == front && lines[e + 1..] == rest
  {
    var others := front + body + rest;
    forall i | 0 <= i < |lines| ensures i == |front| || i == |front| + 1 + |body| || lines[i] in others {
      if i < |front| {
        assert lines[i] == front[i];
      } else if |front| < i < |front| + 1 + |body| {
        assert lines[i] == body[i - |front| - 1];
      } else if i > |front| + 1 + |body| {
        assert lines[i] == rest[i - |front| - 2 - |body|];
      }
    }
  }
}
