/**
  Correcting the language-switcher line of a translated document. Everything but the old
  switcher and the blank lines around it is kept, and correcting twice is correcting once
  exactly when no line still ends in a carriage return after line endings are normalized.
 */
module LanguageSwitcher {
  import opened Wrappers
  import opened Lines
  import opened LineEndings

  datatype SwitcherError = UnterminatedFrontmatter | NoHeading

  // ---- the correction ----

  /** `^#\s+\S` */
  predicate IsHeading(line: string) {
    |line| >= 2 && line[0] == '#' && IsSpace(line[1]) && !AllSpace(line[1..])
  }

  const ENGLISH_PREFIX := "English | [\U{4E2D}\U{6587}]("
  const CHINESE_PREFIX := "[English]("
  const CHINESE_SUFFIX := ") | \U{4E2D}\U{6587}"

  predicate Bracketed(line: string, prefix: string, suffix: string) {
    && |line| > |prefix| + |suffix|
    && line[..|prefix|] == prefix && line[|line| - |suffix|..] == suffix
    && Unbroken(line)
  }

  /** The switcher of an English or of a Chinese page. */
  predicate IsSwitcher(line: string) {
    Bracketed(line, ENGLISH_PREFIX, ")") || Bracketed(line, CHINESE_PREFIX, CHINESE_SUFFIX)
  }

  function DropTrailingBlank(lines: seq<string>): (r: seq<string>)
    ensures r <= lines
    ensures r != [] ==> r[|r| - 1] != ""
    ensures forall i :: |r| <= i < |lines| ==> lines[i] == ""
  {
    if lines != [] && lines[|lines| - 1] == "" then DropTrailingBlank(lines[..|lines| - 1]) else lines
  }

  function SkipBlank(lines: seq<string>, i: nat): (j: nat)
    requires i <= |lines|
    ensures i <= j <= |lines| && (j < |lines| ==> lines[j] != "")
    ensures forall k :: i <= k < j ==> lines[k] == ""
    decreases |lines| - i
  {
    if i < |lines| && lines[i] == "" then SkipBlank(lines, i + 1) else i
  }

  function IndexOf(lines: seq<string>, line: string, i: nat): (r: Option<nat>)
    requires i <= |lines|
    ensures r.Some? ==> i <= r.value < |lines| && lines[r.value] == line && line !in lines[i..r.value]
    ensures r.None? ==> line !in lines[i..]
    decreases |lines| - i
  {
    if i == |lines| then None
    else if lines[i] == line then Some(i)
    else IndexOf(lines, line, i + 1)
  }

  function HeadingIndex(lines: seq<string>): (r: Result<nat, SwitcherError>)
    ensures r.Ok? ==> r.value <= |lines|
  {
    if lines != [] && lines[0] == "---" then
      var end := IndexOf(lines, "---", 1);
      if end.None? then Err(UnterminatedFrontmatter) else Ok(SkipBlank(lines, end.value + 1))
    else Ok(0)
  }

  function ContentStart(lines: seq<string>, heading: nat): (r: nat)
    requires heading < |lines|
    ensures heading < r <= |lines| && (r < |lines| ==> lines[r] != "")
  {
    var c := SkipBlank(lines, heading + 1);
    SkipBlank(lines, if c < |lines| && IsSwitcher(lines[c]) then c + 1 else c)
  }

  /** What replaces the gap between the heading and the content. */
  function Inserted(switcher: string, beforeContent: bool): seq<string> {
    if beforeContent then ["", switcher, ""] else ["", switcher]
  }

  function Replaced(lines: seq<string>, from: nat, to: nat, switcher: string): seq<string>
    requires from <= to <= |lines|
  {
    lines[..from] + Inserted(switcher, to < |lines|) + lines[to..]
  }

  function Rebuilt(lines: seq<string>, heading: nat, switcher: string): seq<string>
    requires heading < |lines|
  {
    Replaced(lines, heading + 1, ContentStart(lines, heading), switcher)
  }

  function CorrectLines(lines: seq<string>, switcher: string): (r: Result<seq<string>, SwitcherError>)
    ensures r.Ok? ==> r.value != []
  {
    var heading := HeadingIndex(lines);
    if heading.Err? then Err(heading.error)
    else if heading.value == |lines| || !IsHeading(lines[heading.value]) then Err(NoHeading)
    else Ok(Rebuilt(lines, heading.value, switcher))
  }

  function DocumentLines(markdown: string): seq<string> { DropTrailingBlank(Split(Normalize(markdown))) }

  function Correct(markdown: string, switcher: string): Result<string, SwitcherError> {
    var r := CorrectLines(DocumentLines(markdown), switcher);
    if r.Err? then Err(r.error) else Ok(Join(r.value) + "\n")
  }

  // ---- what is kept ----

  /** A line the correction may drop. */
  predicate Replaceable(line: string) { line == "" || IsSwitcher(line) }

  /** The heading follows the frontmatter and its blank lines, or opens the document. */
  lemma HeadingFollowsFrontmatter(lines: seq<string>)
    requires HeadingIndex(lines).Ok? && lines != []
    ensures var head := HeadingIndex(lines).value;
      if lines[0] != "---" then head == 0
      else exists end ::
        && 1 <= end < head && lines[end] == "---" && "---" !in lines[1..end]
        && forall k :: end < k < head ==> lines[k] == ""
  {
    if lines[0] == "---" {
      var end := IndexOf(lines, "---", 1).value;
      assert lines[end] == "---";
    }
  }

  /** The corrected lines are the head, the new switcher and the content; only the gap between them is replaced. */
  lemma OnlyTheGapChanges(lines: seq<string>, switcher: string)
    requires CorrectLines(lines, switcher).Ok?
    ensures var head, r := HeadingIndex(lines).value, CorrectLines(lines, switcher).value;
      head < |lines| && IsHeading(lines[head]) &&
      var body := ContentStart(lines, head);
      && r == lines[..head + 1] + (if body < |lines| then ["", switcher, ""] else ["", switcher]) + lines[body..]
      && (forall i :: head < i < body ==> Replaceable(lines[i]))
      && (forall i, j :: head < i < j < body ==> lines[i] == "" || lines[j] == "")
      && (body < |lines| ==> lines[body] != "")
  {
  }

  // ---- correcting twice ----

  lemma {:induction false} FrontmatterPersists(lines: seq<string>, rebuilt: seq<string>, i: nat, head: nat)
    requires i <= head < |lines| && head < |rebuilt| && rebuilt[..head + 1] == lines[..head + 1]
    requires IndexOf(lines, "---", i).Some? && IndexOf(lines, "---", i).value < head
    ensures IndexOf(rebuilt, "---", i) == IndexOf(lines, "---", i)
    decreases head - i
  {
    assert rebuilt[i] == rebuilt[..head + 1][i] && lines[i] == lines[..head + 1][i];
    if lines[i] != "---" { FrontmatterPersists(lines, rebuilt, i + 1, head); }
  }

  lemma {:induction false} SkipPersists(lines: seq<string>, rebuilt: seq<string>, i: nat, head: nat)
    requires i <= head < |lines| && head < |rebuilt| && rebuilt[..head + 1] == lines[..head + 1]
    requires SkipBlank(lines, i) == head
    ensures SkipBlank(rebuilt, i) == head
    decreases head - i
  {
    assert rebuilt[i] == rebuilt[..head + 1][i] && lines[i] == lines[..head + 1][i];
    if lines[i] == "" { SkipPersists(lines, rebuilt, i + 1, head); }
  }

  lemma HeadingPersists(lines: seq<string>, switcher: string)
    requires CorrectLines(lines, switcher).Ok?
    ensures HeadingIndex(CorrectLines(lines, switcher).value) == HeadingIndex(lines)
  {
    var head := HeadingIndex(lines).value;
    var rebuilt := Rebuilt(lines, head, switcher);
    assert rebuilt[..head + 1] == lines[..head + 1];
    assert rebuilt[0] == rebuilt[..head + 1][0] && lines[0] == lines[..head + 1][0];
    if lines[0] == "---" {
      var end := IndexOf(lines, "---", 1).value;
      FrontmatterPersists(lines, rebuilt, 1, head);
      SkipPersists(lines, rebuilt, end + 1, head);
    }
  }

  /** Once rebuilt, the lines are a fixed point. */
  lemma RebuiltIsFixed(lines: seq<string>, switcher: string)
    requires IsSwitcher(switcher) && CorrectLines(lines, switcher).Ok?
    ensures CorrectLines(CorrectLines(lines, switcher).value, switcher) == CorrectLines(lines, switcher)
  {
    var head := HeadingIndex(lines).value;
    var rebuilt := Rebuilt(lines, head, switcher);
    var content := lines[ContentStart(lines, head)..];
    HeadingPersists(lines, switcher);
    assert rebuilt[head] == lines[head];
    assert rebuilt[head + 1] == "" && rebuilt[head + 2] == switcher;
    assert SkipBlank(rebuilt, head + 1) == head + 2;
    if content == [] {
      assert SkipBlank(rebuilt, head + 3) == head + 3;
      assert rebuilt[head + 3..] == [];
    } else {
      assert rebuilt[head + 3] == "" && rebuilt[head + 4] == content[0] != "";
      assert SkipBlank(rebuilt, head + 3) == head + 4;
      assert rebuilt[head + 4..] == content;
    }
    assert rebuilt[..head + 1] == lines[..head + 1];
  }

  /** What the second pass starts from: every rebuilt line lost one carriage return. */
  lemma SecondPassLines(rebuilt: seq<string>)
    requires rebuilt != [] && forall line :: line in rebuilt ==> OneLine(line)
    ensures DocumentLines(Join(rebuilt) + "\n") == DropTrailingBlank(ChopLines(rebuilt + [""]))
  {
    var all := rebuilt + [""];
    TextSplits(rebuilt);
    JoinSplit(Join(rebuilt) + "\n");
    NormalizeJoin(all);
    ChopKeepsOneLines(all);
    SplitJoin(ChopLines(all));
  }

  function Crs(line: string): nat { multiset(line)['\r'] }

  function CrsOf(lines: seq<string>): nat {
    if lines == [] then 0 else Crs(lines[0]) + CrsOf(lines[1..])
  }

  lemma {:induction false} CrsConcat(a: seq<string>, b: seq<string>)
    ensures CrsOf(a + b) == CrsOf(a) + CrsOf(b)
  {
    if a == [] {
      assert a + b == b;
    } else {
      assert (a + b)[1..] == a[1..] + b;
      CrsConcat(a[1..], b);
    }
  }

  lemma CrsChop(line: string)
    ensures Crs(Chop(line)) + (if EndsInCr(line) then 1 else 0) == Crs(line)
  {
    if EndsInCr(line) {
      assert line == line[..|line| - 1] + ['\r'];
      assert multiset(line) == multiset(line[..|line| - 1]) + multiset(['\r']);
    }
  }

  /** Chopping loses a carriage return as soon as some line but the last ends in one. */
  lemma {:induction false} CrsChopLines(rebuilt: seq<string>)
    ensures CrsOf(ChopLines(rebuilt + [""])) <= CrsOf(rebuilt)
    ensures (exists line :: line in rebuilt && EndsInCr(line)) ==> CrsOf(ChopLines(rebuilt + [""])) < CrsOf(rebuilt)
  {
    var all := rebuilt + [""];
    if rebuilt == [] {
      assert all == [""] && CrsOf([""]) == 0;
    } else {
      assert all[1..] == rebuilt[1..] + [""];
      CrsChopLines(rebuilt[1..]);
      CrsChop(rebuilt[0]);
      var chopped := ChopLines(all);
      assert chopped[0] == Chop(rebuilt[0]) && chopped[1..] == ChopLines(all[1..]);
      assert forall line :: line in rebuilt ==> line == rebuilt[0] || line in rebuilt[1..];
    }
  }

  lemma PrefixCrs(a: seq<string>, b: seq<string>)
    requires a <= b
    ensures CrsOf(a) <= CrsOf(b)
  {
    assert b == a + b[|a|..];
    CrsConcat(a, b[|a|..]);
  }

  lemma FewerCrs(head: seq<string>, gap: seq<string>, content: seq<string>, inserted: seq<string>)
    requires CrsOf(inserted) == 0
    ensures CrsOf(head + inserted + content) <= CrsOf(head + gap + content)
  {
    CrsConcat(head, gap);
    CrsConcat(head + gap, content);
    CrsConcat(head, inserted);
    CrsConcat(head + inserted, content);
  }

  lemma InsertedCrs(switcher: string, beforeContent: bool)
    requires Crs(switcher) == 0
    ensures CrsOf(Inserted(switcher, beforeContent)) == 0
  {
    assert Crs("") == 0 && CrsOf([""]) == Crs("") + CrsOf([]);
    assert ["", switcher][1..] == [switcher] && CrsOf([switcher]) == Crs(switcher) + CrsOf([]);
    assert ["", switcher, ""][1..] == [switcher, ""] && [switcher, ""][1..] == [""];
  }

  lemma ThreeParts<T>(s: seq<T>, from: nat, to: nat)
    requires from <= to <= |s|
    ensures s == s[..from] + s[from..to] + s[to..]
  {
  }

  /** A correction never adds a carriage return. */
  lemma ReplacedCrs(lines: seq<string>, from: nat, to: nat, switcher: string)
    requires from <= to <= |lines| && Crs(switcher) == 0
    ensures CrsOf(Replaced(lines, from, to, switcher)) <= CrsOf(lines)
  {
    ThreeParts(lines, from, to);
    InsertedCrs(switcher, to < |lines|);
    FewerCrs(lines[..from], lines[from..to], lines[to..], Inserted(switcher, to < |lines|));
  }

  lemma RebuiltOneLines(lines: seq<string>, switcher: string)
    requires IsSwitcher(switcher) && CorrectLines(lines, switcher).Ok? && forall line :: line in lines ==> OneLine(line)
    ensures forall line :: line in CorrectLines(lines, switcher).value ==> OneLine(line)
  {
  }

  /** No gap line ends in a carriage return, so such a line survives the correction. */
  lemma CrLinesSurvive(lines: seq<string>, switcher: string, line: string)
    requires IsSwitcher(switcher) && CorrectLines(lines, switcher).Ok? && EndsInCr(line)
    ensures line in CorrectLines(lines, switcher).value <==> line in lines
  {
    var head := HeadingIndex(lines).value;
    var body := ContentStart(lines, head);
    forall i | head < i < body ensures lines[i] != line { }
  }

  /** Whether some line of the normalized document still ends in a carriage return. */
  predicate LeavesCr(markdown: string) {
    exists line :: line in Split(Normalize(markdown)) && EndsInCr(line)
  }

  lemma {:induction false} DropKeepsCr(lines: seq<string>, line: string)
    requires EndsInCr(line)
    ensures line in DropTrailingBlank(lines) <==> line in lines
  {
    if lines != [] && lines[|lines| - 1] == "" {
      assert lines == lines[..|lines| - 1] + [""];
      DropKeepsCr(lines[..|lines| - 1], line);
    }
  }

  /**
    Correcting a corrected document changes nothing, exactly when normalization left no carriage
    return at a line end.
   */
  lemma IdempotentIff(markdown: string, switcher: string)
    requires IsSwitcher(switcher) && Correct(markdown, switcher).Ok?
    ensures Correct(Correct(markdown, switcher).value, switcher) == Correct(markdown, switcher) <==> !LeavesCr(markdown)
  {
    var lines := DocumentLines(markdown);
    var rebuilt := CorrectLines(lines, switcher).value;
    SplitIntoOneLines(Normalize(markdown));
    RebuiltOneLines(lines, switcher);
    SecondPassLines(rebuilt);
    forall line | EndsInCr(line) ensures line in rebuilt <==> line in Split(Normalize(markdown)) {
      CrLinesSurvive(lines, switcher, line);
      DropKeepsCr(Split(Normalize(markdown)), line);
    }
    if LeavesCr(markdown) {
      CrsChopLines(rebuilt);
      CrMakesDifferent(rebuilt, switcher);
    } else {
      ChopUntouched(rebuilt);
      RebuiltIsFixed(lines, switcher);
      LastRebuiltIsNotBlank(lines, switcher);
      assert (rebuilt + [""])[..|rebuilt|] == rebuilt;
      assert DropTrailingBlank(rebuilt + [""]) == rebuilt;
    }
  }

  lemma LastRebuiltIsNotBlank(lines: seq<string>, switcher: string)
    requires IsSwitcher(switcher) && CorrectLines(lines, switcher).Ok? && lines != [] && lines[|lines| - 1] != ""
    ensures var rebuilt := CorrectLines(lines, switcher).value; rebuilt[|rebuilt| - 1] != ""
  {
  }

  /** Both passes end in the same text only if they end in the same lines, which their carriage returns tell apart. */
  lemma CrMakesDifferent(rebuilt: seq<string>, switcher: string)
    requires IsSwitcher(switcher) && rebuilt != [] && forall line :: line in rebuilt ==> OneLine(line)
    requires CrsOf(ChopLines(rebuilt + [""])) < CrsOf(rebuilt)
    requires DocumentLines(Join(rebuilt) + "\n") == DropTrailingBlank(ChopLines(rebuilt + [""]))
    ensures Correct(Join(rebuilt) + "\n", switcher) != Ok(Join(rebuilt) + "\n")
  {
    var second := DropTrailingBlank(ChopLines(rebuilt + [""]));
    PrefixCrs(second, ChopLines(rebuilt + [""]));
    if CorrectLines(second, switcher).Ok? {
      ChopKeepsOneLines(rebuilt + [""]);
      FewerCrsDifferentText(second, rebuilt, switcher);
    }
  }

  lemma FewerCrsDifferentText(second: seq<string>, rebuilt: seq<string>, switcher: string)
    requires IsSwitcher(switcher) && CorrectLines(second, switcher).Ok? && rebuilt != []
    requires (forall line :: line in second ==> OneLine(line)) && (forall line :: line in rebuilt ==> OneLine(line))
    requires CrsOf(second) < CrsOf(rebuilt)
    ensures Join(CorrectLines(second, switcher).value) + "\n" != Join(rebuilt) + "\n"
  {
    var again := CorrectLines(second, switcher).value;
    var head := HeadingIndex(second).value;
    ReplacedCrs(second, head + 1, ContentStart(second, head), switcher);
    RebuiltOneLines(second, switcher);
    if Join(again) + "\n" == Join(rebuilt) + "\n" { SameTextSameLines(again, rebuilt); }
  }

  lemma DoubledReturnLines(markdown: string, line: string)
    requires line == "# T\r" && markdown == line + "\r" + "\n"
    ensures Split(Normalize(markdown)) == [line, ""] && DocumentLines(markdown) == [line]
  {
    var first := line + "\r";
    NormalizeLine(first, "");
    assert Chop(first) == line && first + "\n" + "" == markdown && line + "\n" + "" == line + "\n";
    TextSplits([line]);
    assert Normalize(markdown) == Join([line]) + "\n";
    assert [line, ""][..1] == [line] && [line][0] == line != "";
    assert DropTrailingBlank([line]) == [line];
  }

  /** A doubled carriage return is such a line end: this document changes once more when it is corrected again. */
  lemma DoubledReturnIsNotStable(markdown: string, switcher: string)
    requires IsSwitcher(switcher) && markdown == "# T\r\r\n"
    ensures Correct(markdown, switcher).Ok?
      && Correct(Correct(markdown, switcher).value, switcher) != Correct(markdown, switcher)
  {
    var line := "# T\r";
    assert markdown == line + "\r" + "\n";
    DoubledReturnLines(markdown, line);
    assert line[1..][1] == 'T' && IsHeading(line);
    assert [line, ""][0] == line && EndsInCr(line);
    assert LeavesCr(markdown);
    IdempotentIff(markdown, switcher);
  }

  // ---- the correction as the source runs it ----

  method PopBlankLines(all: seq<string>) returns (lines: seq<string>)
    ensures lines == DropTrailingBlank(all)
  {
    lines := all;
    while lines != [] && lines[|lines| - 1] == ""
      invariant DropTrailingBlank(lines) == DropTrailingBlank(all)
      decreases |lines|
    {
      lines := lines[..|lines| - 1];
    }
  }

  method StepOverBlankLines(lines: seq<string>, start: nat) returns (i: nat)
    requires start <= |lines|
    ensures i == SkipBlank(lines, start)
  {
    i := start;
    while i < |lines| && lines[i] == ""
      invariant i <= |lines| && SkipBlank(lines, i) == SkipBlank(lines, start)
    {
      i := i + 1;
    }
  }

  method FindHeading(lines: seq<string>) returns (r: Result<nat, SwitcherError>)
    ensures r == HeadingIndex(lines)
  {
    if lines == [] || lines[0] != "---" { return Ok(0); }
    var end := IndexOf(lines, "---", 1);
    if end.None? { return Err(UnterminatedFrontmatter); }
    var heading := StepOverBlankLines(lines, end.value + 1);
    return Ok(heading);
  }

  method FindContent(lines: seq<string>, heading: nat) returns (content: nat)
    requires heading < |lines|
    ensures content == ContentStart(lines, heading)
  {
    content := StepOverBlankLines(lines, heading + 1);
    if content < |lines| && IsSwitcher(lines[content]) { content := content + 1; }
    content := StepOverBlankLines(lines, content);
  }

  method CorrectLanguageSwitcher(markdown: string, switcher: string) returns (r: Result<string, SwitcherError>)
    ensures r == Correct(markdown, switcher)
  {
    var lines := PopBlankLines(Split(Normalize(markdown)));
    var heading := FindHeading(lines);
    if heading.Err? { return Err(heading.error); }
    if heading.value == |lines| || !IsHeading(lines[heading.value]) { return Err(NoHeading); }
    var contentStart := FindContent(lines, heading.value);
    var output := lines[..heading.value + 1] + ["", switcher];
    if contentStart < |lines| { output := output + [""]; }
    assert output == lines[..heading.value + 1] + Inserted(switcher, contentStart < |lines|);
    return Ok(Join(output + lines[contentStart..]) + "\n");
  }
}
