/**
  The correction of the language switcher said over the lines of a document: which documents
  are corrected and what becomes of their parts, and which lines are switchers.
 */
module SwitcherGrammar {
  import opened Wrappers
  import opened Lines
  import opened LanguageSwitcher

  // ---- single lines ----

  predicate IsSpaces(s: string) { s != "" && AllSpace(s) }

  /** An H1 heading: a number sign, white space, and a character that is none. */
  lemma HeadingIff(line: string)
    ensures IsHeading(line) <==> exists spaces, title ::
      line == "#" + spaces + title && IsSpaces(spaces) && title != "" && !IsSpace(title[0])
  {
    if IsHeading(line) {
      var title := FirstNonSpace(line[1..]);
      var spaces := line[1..|line| - |title|];
      assert line == "#" + spaces + title;
      assert spaces == line[1..][..|line[1..]| - |title|] && IsSpaces(spaces);
    }
    forall spaces, title | line == "#" + spaces + title && IsSpaces(spaces) && title != "" && !IsSpace(title[0])
      ensures IsHeading(line)
    {
      assert line[1] == spaces[0] && line[1..][|spaces|] == title[0];
    }
  }

  lemma {:induction false} FirstNonSpace(s: string) returns (rest: string)
    requires !AllSpace(s)
    ensures rest != "" && !IsSpace(rest[0])
    ensures |rest| <= |s| && s[|s| - |rest|..] == rest && AllSpace(s[..|s| - |rest|])
  {
    if !IsSpace(s[0]) {
      rest := s;
    } else {
      assert s == [s[0]] + s[1..];
      rest := FirstNonSpace(s[1..]);
      assert s[..|s| - |rest|] == [s[0]] + s[1..][..|s[1..]| - |rest|];
    }
  }

  /** The switcher of an English or of a Chinese page to its counterpart. */
  predicate SwitchesTo(line: string, target: string) {
    || line == "English | [\U{4E2D}\U{6587}](" + target + ")"
    || line == "[English](" + target + ") | \U{4E2D}\U{6587}"
  }

  lemma SwitcherIff(line: string)
    ensures IsSwitcher(line) <==> exists target :: target != "" && Unbroken(target) && SwitchesTo(line, target)
  {
    BracketedIff(line, ENGLISH_PREFIX, ")");
    BracketedIff(line, CHINESE_PREFIX, CHINESE_SUFFIX);
    if Bracketed(line, ENGLISH_PREFIX, ")") {
      var target :| target != "" && Unbroken(target) && line == ENGLISH_PREFIX + target + ")";
      assert SwitchesTo(line, target);
    } else if Bracketed(line, CHINESE_PREFIX, CHINESE_SUFFIX) {
      var target :| target != "" && Unbroken(target) && line == CHINESE_PREFIX + target + CHINESE_SUFFIX;
      assert SwitchesTo(line, target);
    }
  }

  lemma BracketedIff(line: string, prefix: string, suffix: string)
    requires Unbroken(prefix) && Unbroken(suffix)
    ensures Bracketed(line, prefix, suffix)
      <==> exists target :: target != "" && Unbroken(target) && line == prefix + target + suffix
  {
    if Bracketed(line, prefix, suffix) {
      var target := line[|prefix|..|line| - |suffix|];
      assert line == prefix + target + suffix;
    }
    forall target | target != "" && Unbroken(target) && line == prefix + target + suffix
      ensures Bracketed(line, prefix, suffix) { }
  }

  // ---- the document ----

  predicate AllBlank(lines: seq<string>) { forall i :: 0 <= i < |lines| ==> lines[i] == "" }

  /** Nothing, or frontmatter between its rules and the blank lines after it. */
  ghost predicate IsFront(front: seq<string>) {
    front == []
    || exists matter, blank ::
      front == ["---"] + matter + ["---"] + blank && "---" !in matter && AllBlank(blank)
  }

  /** What stands between the heading and the content: blank lines around the present switcher, if there is one. */
  ghost predicate IsGap(above: seq<string>, shown: seq<string>, below: seq<string>, content: seq<string>) {
    && AllBlank(above) && AllBlank(below) && |shown| <= 1
    && (content == [] || content[0] != "")
    && (if shown == [] then below == [] && (content == [] || !IsSwitcher(content[0])) else IsSwitcher(shown[0]))
  }

  datatype Document = Document(front: seq<string>, heading: string, above: seq<string>, shown: seq<string>,
                               below: seq<string>, content: seq<string>)

  function AfterHeading(d: Document): seq<string> { d.above + d.shown + d.below + d.content }

  ghost predicate IsDocument(d: Document, lines: seq<string>) {
    && IsFront(d.front) && IsHeading(d.heading) && IsGap(d.above, d.shown, d.below, d.content)
    && lines == d.front + [d.heading] + AfterHeading(d)
  }

  function WithSwitcher(d: Document, switcher: string): seq<string> {
    d.front + [d.heading] + ["", switcher] + (if d.content == [] then [] else [""]) + d.content
  }

  lemma {:induction false} SkipRun(lines: seq<string>, i: nat, j: nat)
    requires i <= j <= |lines| && (forall k :: i <= k < j ==> lines[k] == "") && (j < |lines| ==> lines[j] != "")
    ensures SkipBlank(lines, i) == j
    decreases j - i
  {
    if i < j { SkipRun(lines, i + 1, j); }
  }

  lemma {:induction false} IndexOfAt(lines: seq<string>, line: string, i: nat, j: nat)
    requires i <= j < |lines| && lines[j] == line && forall k :: i <= k < j ==> lines[k] != line
    ensures IndexOf(lines, line, i) == Some(j)
    decreases j - i
  {
    if i < j { IndexOfAt(lines, line, i + 1, j); }
  }

  /** The lines up to the heading determine where it stands. */
  lemma FrontEnds(front: seq<string>, heading: string, rest: seq<string>)
    requires IsFront(front) && IsHeading(heading)
    ensures HeadingIndex(front + [heading] + rest) == Ok(|front|)
  {
    var lines := front + [heading] + rest;
    if front != [] {
      var matter, blank :| front == ["---"] + matter + ["---"] + blank && "---" !in matter && AllBlank(blank);
      var end := |matter| + 1;
      assert lines[end] == "---";
      assert forall k :: 1 <= k < end ==> lines[k] == matter[k - 1];
      IndexOfAt(lines, "---", 1, end);
      assert forall k :: end < k < |front| ==> lines[k] == blank[k - end - 1];
      assert lines[|front|] == heading != "";
      SkipRun(lines, end + 1, |front|);
    }
  }

  lemma FrontOf(lines: seq<string>)
    requires HeadingIndex(lines).Ok?
    ensures IsFront(lines[..HeadingIndex(lines).value])
  {
    var head := HeadingIndex(lines).value;
    if head > 0 {
      var end := IndexOf(lines, "---", 1).value;
      var matter, blank := lines[1..end], lines[end + 1..head];
      assert AllBlank(blank) && "---" !in matter;
      assert lines[..head] == ["---"] + matter + ["---"] + blank;
    }
  }

  /** No frontmatter rule closes the one the document opens with. */
  lemma UnterminatedIff(lines: seq<string>)
    ensures HeadingIndex(lines) == Err(UnterminatedFrontmatter)
      <==> lines != [] && lines[0] == "---" && "---" !in lines[1..]
  {
    if lines != [] && lines[0] == "---" && IndexOf(lines, "---", 1).Some? {
      var end := IndexOf(lines, "---", 1).value;
      assert lines[1..][end - 1] == "---";
    }
  }

  lemma SkipConcat(lines: seq<string>, front: seq<string>, blank: seq<string>, rest: seq<string>)
    requires lines == front + (blank + rest) && AllBlank(blank) && (rest == [] || rest[0] != "")
    ensures SkipBlank(lines, |front|) == |front| + |blank|
  {
    assert forall k :: |front| <= k < |front| + |blank| ==> lines[k] == blank[k - |front|];
    if rest != [] { assert lines[|front| + |blank|] == rest[0]; }
    SkipRun(lines, |front|, |front| + |blank|);
  }

  lemma Regroup(front: seq<string>, a: seq<string>, b: seq<string>, c: seq<string>, d: seq<string>)
    ensures front + (a + b + c + d) == front + (a + (b + c + d))
    ensures front + (a + b + c + d) == front + a + (b + c + d)
    ensures front + (a + b + c + d) == front + a + b + (c + d)
  {
  }

  /** The content starts where the gap after the heading ends. */
  lemma GapEnds(front: seq<string>, d: Document, lines: seq<string>)
    requires front != [] && IsGap(d.above, d.shown, d.below, d.content) && lines == front + AfterHeading(d)
    ensures ContentStart(lines, |front| - 1) == |lines| - |d.content|
  {
    Regroup(front, d.above, d.shown, d.below, d.content);
    SkipConcat(lines, front, d.above, d.shown + d.below + d.content);
    SkipConcat(lines, front + d.above + d.shown, d.below, d.content);
    if d.shown + d.below + d.content != [] {
      FirstOf(lines, front + d.above, d.shown + d.below + d.content);
    }
  }

  lemma FirstOf(lines: seq<string>, front: seq<string>, rest: seq<string>)
    requires lines == front + rest && rest != []
    ensures |front| < |lines| && lines[|front|] == rest[0]
  {
  }

  function Cut(lines: seq<string>, a: nat, b: nat, c: nat, d: nat): Document
    requires a < b <= c <= d <= |lines|
  {
    Document(lines[..a], lines[a], lines[a + 1..b], lines[b..c], lines[c..d], lines[d..])
  }

  lemma CutIsDocument(lines: seq<string>, a: nat, b: nat, c: nat, d: nat)
    requires a < b <= c <= d <= |lines| && IsFront(lines[..a]) && IsHeading(lines[a])
    requires IsGap(lines[a + 1..b], lines[b..c], lines[c..d], lines[d..])
    ensures IsDocument(Cut(lines, a, b, c, d), lines)
  {
    assert lines == lines[..a] + [lines[a]] + (lines[a + 1..b] + lines[b..c] + lines[c..d] + lines[d..]);
  }

  lemma BlankSlice(lines: seq<string>, i: nat)
    requires i <= |lines|
    ensures AllBlank(lines[i..SkipBlank(lines, i)])
    ensures SkipBlank(lines, i) < |lines| ==> lines[SkipBlank(lines, i)..][0] != ""
  {
  }

  lemma GapOf(lines: seq<string>, i: nat) returns (first: nat, shown: nat, start: nat)
    requires i <= |lines|
    ensures i <= first <= shown <= start <= |lines|
    ensures IsGap(lines[i..first], lines[first..shown], lines[shown..start], lines[start..])
  {
    first := SkipBlank(lines, i);
    BlankSlice(lines, i);
    if first < |lines| && IsSwitcher(lines[first]) {
      shown := first + 1;
      assert lines[first..shown] == [lines[first]];
    } else {
      shown := first;
    }
    start := SkipBlank(lines, shown);
    BlankSlice(lines, shown);
  }

  lemma PartsOf(lines: seq<string>, switcher: string) returns (d: Document)
    requires CorrectLines(lines, switcher).Ok?
    ensures IsDocument(d, lines)
  {
    var head := HeadingIndex(lines).value;
    FrontOf(lines);
    var first, shown, start := GapOf(lines, head + 1);
    CutIsDocument(lines, head, first, shown, start);
    d := Cut(lines, head, first, shown, start);
  }

  lemma RebuiltParts(front: seq<string>, d: Document, lines: seq<string>, switcher: string)
    requires front == d.front + [d.heading] && lines == front + AfterHeading(d)
    requires ContentStart(lines, |front| - 1) == |lines| - |d.content|
    ensures Rebuilt(lines, |front| - 1, switcher) == WithSwitcher(d, switcher)
  {
    assert lines[..|front|] == front && lines[|lines| - |d.content|..] == d.content;
  }

  lemma CorrectParts(lines: seq<string>, d: Document, switcher: string)
    requires IsDocument(d, lines)
    ensures CorrectLines(lines, switcher) == Ok(WithSwitcher(d, switcher))
  {
    var front := d.front + [d.heading];
    FrontEnds(d.front, d.heading, AfterHeading(d));
    GapEnds(front, d, lines);
    RebuiltParts(front, d, lines, switcher);
    assert lines[|d.front|] == d.heading;
  }

  /** A document is corrected exactly when it has these parts, and what becomes of them. */
  lemma CorrectIff(lines: seq<string>, switcher: string, r: seq<string>)
    ensures CorrectLines(lines, switcher) == Ok(r)
      <==> exists d :: IsDocument(d, lines) && r == WithSwitcher(d, switcher)
  {
    if CorrectLines(lines, switcher) == Ok(r) {
      var d := PartsOf(lines, switcher);
      CorrectParts(lines, d, switcher);
    }
    forall d | IsDocument(d, lines) && r == WithSwitcher(d, switcher) ensures CorrectLines(lines, switcher) == Ok(r) {
      CorrectParts(lines, d, switcher);
    }
  }

  /** The other documents: frontmatter without an end, or no heading where one is due. */
  lemma CorrectErrors(lines: seq<string>, switcher: string)
    ensures CorrectLines(lines, switcher) == Err(UnterminatedFrontmatter)
      <==> lines != [] && lines[0] == "---" && "---" !in lines[1..]
    ensures CorrectLines(lines, switcher).Err? <==> forall d :: !IsDocument(d, lines)
  {
    UnterminatedIff(lines);
    forall d | IsDocument(d, lines) ensures CorrectLines(lines, switcher).Ok? { CorrectParts(lines, d, switcher); }
    if CorrectLines(lines, switcher).Ok? { var d := PartsOf(lines, switcher); }
  }
}
