/**
  Which texts the response parser accepts, said by concatenation: three sections in order, newlines
  between them, nothing around them, and every delimiter on one line only. Sections are first matched
  with their tags, then chained, and last unfolded into the three contents of a response. Errors are
  those of the first section that cannot be read.
 */
module ResponseGrammar {
  import opened Wrappers
  import opened Lines
  import opened ResponseCodec

  // ---- what a response looks like ----

  /** Whether a section's tags stand at two places, and whether a section between two places is read as a value. */
  type TagPlacer = (nat, nat, nat) -> bool
  type SectionPlacer = (nat, nat, string, nat) -> bool

  ghost predicate FirstMatch(text: string, tag: string, i: nat) {
    MatchesAt(text, tag, i) && forall j: nat :: j < i ==> !MatchesAt(text, tag, j)
  }

  ghost predicate Newlines(s: string) { s != "" && forall c :: c in s ==> c == '\n' }

  /** What stands between two tags, without one newline after the first and one before the second. */
  function Inner(content: string): string {
    var rest := if content != "" && content[0] == '\n' then content[1..] else content;
    if rest != "" && rest[|rest| - 1] == '\n' then rest[..|rest| - 1] else rest
  }

  ghost predicate OnOneLine(d: Delimiters, body: string, k: nat)
    requires k < 3
  {
    Count(Split(body), d.open[k]) == 1 && Count(Split(body), d.close[k]) == 1
  }

  function Framed(d: Delimiters, contents: seq<string>, k: nat): string
    requires k < 3 == |contents|
  {
    d.open[k] + contents[k] + d.close[k]
  }

  /** The tags of a section are each on one line only, and first match at these places. */
  ghost predicate TagsAt(d: Delimiters, body: string, k: nat, open: nat, close: nat) {
    k < 3 && OnOneLine(d, body, k) && FirstMatch(body, d.open[k], open) && FirstMatch(body, d.close[k], close)
  }

  /** Three framed sections with newlines between, and each tag where its frame has it. */
  ghost predicate IsResponse(d: Delimiters, body: string, contents: seq<string>, first: string, second: string) {
    Composed(d, TagPlaces(d, body), body, contents, first, second)
  }

  ghost function TagPlaces(d: Delimiters, body: string): TagPlacer {
    (k: nat, open: nat, close: nat) => TagsAt(d, body, k, open, close)
  }

  ghost predicate Composed(d: Delimiters, tagsAt: TagPlacer, body: string, contents: seq<string>,
                           first: string, second: string)
  {
    && |contents| == 3 && Newlines(first) && Newlines(second)
    && body == Framed(d, contents, 0) + first + Framed(d, contents, 1) + second + Framed(d, contents, 2)
    && (var one := |Framed(d, contents, 0) + first|; var two := one + |Framed(d, contents, 1) + second|;
        && tagsAt(0, 0, |d.open[0] + contents[0]|)
        && tagsAt(1, one, one + |d.open[1] + contents[1]|)
        && tagsAt(2, two, two + |d.open[2] + contents[2]|))
  }

  // ---- one section ----

  /** From `at` on stand a separator and a section framed by its tags. */
  ghost predicate SectionAt(d: Delimiters, body: string, k: nat, at: nat, open: nat, close: nat)
    requires k < 3
  {
    && at <= open && open + |d.open[k]| < close && close + |d.close[k]| <= |body|
    && (if k == 0 then at == open else Newlines(body[at..open]))
    && OnOneLine(d, body, k) && Search(body, d.open[k]) == open && Search(body, d.close[k]) == close
  }

  lemma SearchFinds(text: string, tag: string, i: nat)
    ensures FirstMatch(text, tag, i) <==> Search(text, tag) == i
  {
    SearchIsFirst(text, tag);
  }

  lemma CountIsOne(body: string, tag: string)
    requires Count(Split(body), tag) == 1
    ensures Search(body, tag) >= 0
  {
    SplitIntoOneLines(body);
    LineMatches(Split(body), tag);
    JoinSplit(body);
    SearchIsFirst(body, tag);
  }

  lemma {:induction false} LineMatches(lines: seq<string>, tag: string)
    requires lines != [] && Count(lines, tag) >= 1
    ensures !NoMatch(Join(lines), tag)
  {
    if lines[0] == tag {
      assert MatchesAt(Join(lines), tag, 0);
    } else {
      LineMatches(lines[1..], tag);
      var i: nat :| MatchesAt(Join(lines[1..]), tag, i);
      var text := Join(lines);
      assert text == lines[0] + "\n" + Join(lines[1..]);
      assert text[i + |lines[0]| + 1..i + |lines[0]| + 1 + |tag|] == Join(lines[1..])[i..i + |tag|];
      assert MatchesAt(text, tag, i + |lines[0]| + 1);
    }
  }

  lemma NoBreakInside(text: string, tag: string, i: nat, p: nat)
    requires IsTag(tag) && MatchesAt(text, tag, i) && i <= p < i + |tag|
    ensures !IsTerminator(text[p])
  {
    assert text[p] == text[i..i + |tag|][p - i] == tag[p - i];
  }

  lemma SameLength(text: string, a: string, b: string, i: nat)
    requires IsTag(a) && IsTag(b) && MatchesAt(text, a, i) && MatchesAt(text, b, i)
    ensures |a| >= |b|
  {
    if i + |a| < i + |b| { NoBreakInside(text, b, i, i + |a|); }
  }

  /** A close tag is found behind its open tag only after a line break of the content. */
  lemma TagsApart(body: string, open: string, close: string, i: nat, j: nat)
    requires IsTag(open) && IsTag(close) && open != close
    requires MatchesAt(body, open, i) && MatchesAt(body, close, j) && i <= j
    ensures i + |open| < j
  {
    if i == j {
      SameLength(body, open, close, i);
      SameLength(body, close, open, i);
    }
    if i < j <= i + |open| { NoBreakInside(body, open, i, j - 1); }
  }

  lemma ContentIsInner(body: string, from: nat, to: nat)
    requires from < to <= |body|
    ensures Content(body, from, to) == Inner(body[from..to])
  {
    var content := body[from..to];
    assert content[0] == body[from] && content[1..] == body[from + 1..to];
    var start := if body[from] == '\n' then from + 1 else from;
    var rest := body[start..to];
    assert rest == if content[0] == '\n' then content[1..] else content;
    if rest != "" {
      assert rest[|rest| - 1] == body[to - 1];
      assert rest[..|rest| - 1] == body[start..to - 1];
    }
  }

  lemma SeparatorIsNewlines(separator: string)
    ensures AllNewlines(separator) <==> Newlines(separator)
  {
    if AllNewlines(separator) {
      forall c | c in separator ensures c == '\n' { }
    } else if separator != "" {
      var i :| 0 <= i < |separator| && separator[i] != '\n';
      assert separator[i] in separator;
    }
  }

  /** The parser locates a section exactly where one stands. */
  lemma Located(d: Delimiters, body: string, k: nat, at: nat, open: nat, close: nat)
    requires WellTagged(d) && k < 3 && at <= |body| && (k == 0 ==> at == 0)
    ensures Locate(d, body, k, at) == Ok((open, close)) <==> SectionAt(d, body, k, at, open, close)
  {
    if Search(body, d.open[k]) == open && Search(body, d.close[k]) == close {
      SeparatorIsNewlines(Slice(body, at, open));
      SectionTagsApart(d, body, k, open, close);
    }
    if OnOneLine(d, body, k) {
      CountIsOne(body, d.open[k]);
      CountIsOne(body, d.close[k]);
    }
  }

  lemma SectionTagsApart(d: Delimiters, body: string, k: nat, open: nat, close: nat)
    requires WellTagged(d) && k < 3 && Search(body, d.open[k]) == open && Search(body, d.close[k]) == close
    ensures open <= close ==> open + |d.open[k]| < close
  {
    assert BracketedTag(d.open[k]) && BracketedTag(d.close[k]) && d.open[k] != d.close[k];
    SearchIsFirst(body, d.open[k]);
    SearchIsFirst(body, d.close[k]);
    if open <= close { TagsApart(body, d.open[k], d.close[k], open, close); }
  }

  lemma LocateGives(d: Delimiters, decode: Decoder, body: string, k: nat, at: nat)
    requires k < 3
    ensures var tags := Locate(d, body, k, at);
      ParseSection(d, decode, body, k, at) ==
        if tags.Err? then Err(tags.error)
        else Ok((decode(Content(body, tags.value.0 + |d.open[k]|, tags.value.1)), tags.value.1 + |d.close[k]|))
  {
  }

  lemma SectionTaken(d: Delimiters, decode: Decoder, body: string, k: nat, at: nat, open: nat, close: nat)
    requires k < 3 && Locate(d, body, k, at) == Ok((open, close)) && open + |d.open[k]| < close
    ensures ParseSection(d, decode, body, k, at)
      == Ok((decode(Inner(body[open + |d.open[k]|..close])), close + |d.close[k]|))
  {
    LocateGives(d, decode, body, k, at);
    ContentIsInner(body, open + |d.open[k]|, close);
  }

  /** From `at` on stands a section that is read as `value` and ends at `next`. */
  ghost predicate Section(d: Delimiters, decode: Decoder, body: string, k: nat, at: nat, value: string, next: nat)
    requires k < 3
  {
    var open, close := Search(body, d.open[k]), Search(body, d.close[k]);
    0 <= open && 0 <= close && SectionAt(d, body, k, at, open, close)
    && value == decode(Inner(body[open + |d.open[k]|..close])) && next == close + |d.close[k]|
  }

  lemma SectionRead(d: Delimiters, decode: Decoder, body: string, k: nat, at: nat, open: nat, close: nat)
    requires WellTagged(d) && k < 3 && at <= |body| && (k == 0 ==> at == 0) && SectionAt(d, body, k, at, open, close)
    ensures ParseSection(d, decode, body, k, at)
      == Ok((decode(Inner(body[open + |d.open[k]|..close])), close + |d.close[k]|))
  {
    Located(d, body, k, at, open, close);
    SectionTaken(d, decode, body, k, at, open, close);
  }

  lemma SearchedIsSection(d: Delimiters, decode: Decoder, body: string, k: nat, at: nat, open: nat, close: nat)
    requires k < 3 && SectionAt(d, body, k, at, open, close)
    ensures Section(d, decode, body, k, at, decode(Inner(body[open + |d.open[k]|..close])), close + |d.close[k]|)
  {
  }

  lemma ParsedThenSection(d: Delimiters, decode: Decoder, body: string, k: nat, at: nat, value: string, next: nat)
    requires WellTagged(d) && k < 3 && at <= |body| && (k == 0 ==> at == 0)
    requires ParseSection(d, decode, body, k, at) == Ok((value, next))
    ensures Section(d, decode, body, k, at, value, next)
  {
    LocateGives(d, decode, body, k, at);
    var open, close := Locate(d, body, k, at).value.0, Locate(d, body, k, at).value.1;
    Located(d, body, k, at, open, close);
    SectionRead(d, decode, body, k, at, open, close);
    SearchedIsSection(d, decode, body, k, at, open, close);
  }

  lemma SectionThenParsed(d: Delimiters, decode: Decoder, body: string, k: nat, at: nat, value: string, next: nat)
    requires WellTagged(d) && k < 3 && at <= |body| && (k == 0 ==> at == 0)
    requires Section(d, decode, body, k, at, value, next)
    ensures ParseSection(d, decode, body, k, at) == Ok((value, next))
  {
    SectionRead(d, decode, body, k, at, Search(body, d.open[k]), Search(body, d.close[k]));
  }

  // ---- all three, whatever a section is ----

  /** What a reader finds, and where it may be asked. */
  ghost predicate Finds(read: SectionReader, section: SectionPlacer, end: nat) {
    forall k: nat, at: nat, value, next: nat :: k < 3 && at <= end && (k == 0 ==> at == 0) ==>
      (read(k, at) == Ok((value, next)) <==> section(k, at, value, next))
      && (section(k, at, value, next) ==> next <= end)
  }

  /** Sections `k` to the last follow each other from `at` to the end. */
  ghost predicate InARow(section: SectionPlacer, k: nat, at: nat, end: nat, values: seq<string>)
    requires k <= 3
    decreases 3 - k
  {
    if k == 3 then at == end && values == []
    else values != [] && exists next: nat :: FollowedBy(section, k, at, end, values, next)
  }

  ghost predicate FollowedBy(section: SectionPlacer, k: nat, at: nat, end: nat, values: seq<string>, next: nat)
    requires k < 3 && values != []
    decreases 3 - k, 0
  {
    section(k, at, values[0], next) && InARow(section, k + 1, next, end, values[1..])
  }

  lemma ParsesOne(read: SectionReader, k: nat, at: nat, end: nat, values: seq<string>)
    requires k < 3
    ensures ParseSections(read, k, at, end) == Ok(values) <==>
      values != [] && read(k, at).Ok? && read(k, at).value.0 == values[0]
      && ParseSections(read, k + 1, read(k, at).value.1, end) == Ok(values[1..])
  {
    if read(k, at).Ok? {
      var (value, next) := read(k, at).value;
      var rest := ParseSections(read, k + 1, next, end);
      if rest.Ok? { assert ([value] + rest.value)[1..] == rest.value; }
      if values != [] { assert values == [values[0]] + values[1..]; }
    }
  }

  lemma {:induction false} ParsesInARow(read: SectionReader, section: SectionPlacer, k: nat, at: nat, end: nat,
                                        values: seq<string>)
    requires Finds(read, section, end) && k <= 3 && at <= end && (k == 0 ==> at == 0)
    ensures ParseSections(read, k, at, end) == Ok(values) <==> InARow(section, k, at, end, values)
    decreases 3 - k
  {
    if k < 3 && values != [] {
      ParsesOne(read, k, at, end, values);
      if read(k, at).Ok? && read(k, at).value.0 == values[0] {
        var next := read(k, at).value.1;
        assert read(k, at) == Ok((values[0], next));
        ParsesInARow(read, section, k + 1, next, end, values[1..]);
        assert FollowedBy(section, k, at, end, values, next) <==> InARow(section, k + 1, next, end, values[1..]);
      }
      forall next: nat | FollowedBy(section, k, at, end, values, next)
        ensures read(k, at) == Ok((values[0], next))
      {
      }
    }
  }

  /** Between two places stand a gap and a framed section. */
  ghost predicate Piece(d: Delimiters, tagsAt: TagPlacer, body: string, k: nat, at: nat, gap: string, content: string,
                        next: nat)
    requires k < 3
  {
    && at <= next <= |body| && body[at..next] == gap + (d.open[k] + content + d.close[k])
    && (if k == 0 then gap == "" else Newlines(gap))
    && tagsAt(k, at + |gap|, at + |gap| + |d.open[k]| + |content|)
  }

  /** Sections are exactly what stands between tags. */
  ghost predicate Linked(d: Delimiters, decode: Decoder, tagsAt: TagPlacer, section: SectionPlacer, body: string) {
    forall k: nat, at: nat, value, next: nat :: k < 3 ==>
      (section(k, at, value, next) <==>
       exists gap, content :: PieceReads(d, decode, tagsAt, body, k, at, gap, content, value, next))
  }

  ghost predicate PieceReads(d: Delimiters, decode: Decoder, tagsAt: TagPlacer, body: string, k: nat, at: nat,
                             gap: string, content: string, value: string, next: nat)
    requires k < 3
  {
    Piece(d, tagsAt, body, k, at, gap, content, next) && value == decode(Inner(content))
  }

  /** Gaps and framed sections, from section `k` on. */
  function Text(d: Delimiters, k: nat, gaps: seq<string>, contents: seq<string>): string
    requires k <= 3 && |gaps| == |contents| == 3 - k
    decreases 3 - k
  {
    if k == 3 then ""
    else gaps[0] + (d.open[k] + contents[0] + d.close[k]) + Text(d, k + 1, gaps[1..], contents[1..])
  }

  ghost predicate Placed(d: Delimiters, tagsAt: TagPlacer, k: nat, at: nat, gaps: seq<string>, contents: seq<string>)
    requires k <= 3 && |gaps| == |contents| == 3 - k
    decreases 3 - k
  {
    k < 3 ==>
      (if k == 0 then gaps[0] == "" else Newlines(gaps[0]))
      && tagsAt(k, at + |gaps[0]|, at + |gaps[0]| + |d.open[k]| + |contents[0]|)
      && Placed(d, tagsAt, k + 1, at + |gaps[0] + (d.open[k] + contents[0] + d.close[k])|, gaps[1..], contents[1..])
  }

  ghost predicate Reads(decode: Decoder, contents: seq<string>, values: seq<string>) {
    |values| == |contents| && forall i :: 0 <= i < |contents| ==> values[i] == decode(Inner(contents[i]))
  }

  /** The rest of the text is made of these gaps and contents. */
  ghost predicate Made(d: Delimiters, tagsAt: TagPlacer, body: string, k: nat, at: nat, gaps: seq<string>,
                       contents: seq<string>)
    requires k <= 3
  {
    at <= |body| && |gaps| == |contents| == 3 - k && body[at..] == Text(d, k, gaps, contents)
    && Placed(d, tagsAt, k, at, gaps, contents)
  }

  lemma {:induction false} RowIsMade(d: Delimiters, decode: Decoder, tagsAt: TagPlacer, section: SectionPlacer,
      body: string, k: nat, at: nat, values: seq<string>) returns (gaps: seq<string>, contents: seq<string>)
    requires Linked(d, decode, tagsAt, section, body) && k <= 3 && at <= |body|
    requires InARow(section, k, at, |body|, values)
    ensures Made(d, tagsAt, body, k, at, gaps, contents) && Reads(decode, contents, values)
    decreases 3 - k
  {
    if k == 3 { return [], []; }
    var next: nat :| FollowedBy(section, k, at, |body|, values, next);
    var gap, content :| PieceReads(d, decode, tagsAt, body, k, at, gap, content, values[0], next);
    var laterGaps, laterContents := RowIsMade(d, decode, tagsAt, section, body, k + 1, next, values[1..]);
    gaps, contents := [gap] + laterGaps, [content] + laterContents;
    PieceMakes(d, tagsAt, body, k, at, next, gaps, contents, laterGaps, laterContents);
  }

  lemma PieceMakes(d: Delimiters, tagsAt: TagPlacer, body: string, k: nat, at: nat, next: nat, gaps: seq<string>,
      contents: seq<string>, laterGaps: seq<string>, laterContents: seq<string>)
    requires k < 3 && Made(d, tagsAt, body, k + 1, next, laterGaps, laterContents)
    requires gaps != [] && gaps == [gaps[0]] + laterGaps && contents != [] && contents == [contents[0]] + laterContents
    requires Piece(d, tagsAt, body, k, at, gaps[0], contents[0], next)
    ensures Made(d, tagsAt, body, k, at, gaps, contents)
  {
    assert gaps[1..] == laterGaps && contents[1..] == laterContents;
    assert body[at..] == body[at..next] + body[next..];
  }

  lemma {:induction false} MadeIsRow(d: Delimiters, decode: Decoder, tagsAt: TagPlacer, section: SectionPlacer,
      body: string, k: nat, at: nat, gaps: seq<string>, contents: seq<string>, values: seq<string>)
    requires Linked(d, decode, tagsAt, section, body) && k <= 3
    requires Made(d, tagsAt, body, k, at, gaps, contents) && Reads(decode, contents, values)
    ensures InARow(section, k, at, |body|, values)
    decreases 3 - k
  {
    if k < 3 {
      var next := FirstPiece(d, tagsAt, body, k, at, gaps, contents);
      assert PieceReads(d, decode, tagsAt, body, k, at, gaps[0], contents[0], values[0], next);
      MadeIsRow(d, decode, tagsAt, section, body, k + 1, next, gaps[1..], contents[1..], values[1..]);
      assert FollowedBy(section, k, at, |body|, values, next);
    }
  }

  lemma FirstPiece(d: Delimiters, tagsAt: TagPlacer, body: string, k: nat, at: nat, gaps: seq<string>,
                   contents: seq<string>) returns (next: nat)
    requires k < 3 && Made(d, tagsAt, body, k, at, gaps, contents)
    ensures Piece(d, tagsAt, body, k, at, gaps[0], contents[0], next)
    ensures Made(d, tagsAt, body, k + 1, next, gaps[1..], contents[1..])
  {
    var piece, rest := gaps[0] + (d.open[k] + contents[0] + d.close[k]), Text(d, k + 1, gaps[1..], contents[1..]);
    next := at + |piece|;
    Halves(body, at, piece, rest);
  }

  lemma Halves(text: string, at: nat, a: string, b: string)
    requires at <= |text| && text[at..] == a + b
    ensures at + |a| <= |text| && text[at..at + |a|] == a && text[at + |a|..] == b
  {
    assert |text[at..]| == |a| + |b|;
    assert text[at..at + |a|] == text[at..][..|a|] && text[at + |a|..] == text[at..][|a|..];
  }

  lemma ExplicitText(d: Delimiters, contents: seq<string>, first: string, second: string)
    requires |contents| == 3
    ensures Text(d, 0, ["", first, second], contents)
      == Framed(d, contents, 0) + first + Framed(d, contents, 1) + second + Framed(d, contents, 2)
  {
    var gaps := ["", first, second];
    assert gaps[1..] == [first, second] && gaps[1..][1..] == [second];
    assert contents[1..][0] == contents[1] && contents[1..][1..][0] == contents[2];
    assert Text(d, 3, gaps[1..][1..][1..], contents[1..][1..][1..]) == "";
    var t2 := Text(d, 2, gaps[1..][1..], contents[1..][1..]);
    assert t2 == second + Framed(d, contents, 2) + "";
    assert t2 == second + Framed(d, contents, 2);
    var t1 := Text(d, 1, gaps[1..], contents[1..]);
    assert t1 == first + Framed(d, contents, 1) + t2;
    assert Text(d, 0, gaps, contents) == "" + Framed(d, contents, 0) + t1;
  }

  lemma ExplicitPlaces(d: Delimiters, tagsAt: TagPlacer, contents: seq<string>, first: string, second: string)
    requires |contents| == 3
    ensures Placed(d, tagsAt, 0, 0, ["", first, second], contents) <==>
      var one := |Framed(d, contents, 0) + first|; var two := one + |Framed(d, contents, 1) + second|;
      && Newlines(first) && Newlines(second) && tagsAt(0, 0, |d.open[0] + contents[0]|)
      && tagsAt(1, one, one + |d.open[1] + contents[1]|) && tagsAt(2, two, two + |d.open[2] + contents[2]|)
  {
    var gaps := ["", first, second];
    var one := |Framed(d, contents, 0) + first|;
    var two := one + |Framed(d, contents, 1) + second|;
    assert gaps[1..] == [first, second] && gaps[1..][1..] == [second];
    assert contents[1..][0] == contents[1] && contents[1..][1..][0] == contents[2];
    assert Placed(d, tagsAt, 3, two + |Framed(d, contents, 2)|, gaps[1..][1..][1..], contents[1..][1..][1..]);
    assert |second + (d.open[2] + contents[2] + d.close[2])| == |second| + |Framed(d, contents, 2)|;
    assert Placed(d, tagsAt, 2, one + |Framed(d, contents, 1)|, gaps[1..][1..], contents[1..][1..]) <==>
      Newlines(second) && tagsAt(2, two, two + |d.open[2] + contents[2]|);
    assert |first + (d.open[1] + contents[1] + d.close[1])| == |first| + |Framed(d, contents, 1)|;
  }

  // ---- what the parser accepts ----

  /** The text is a response with these contents, which decoded are the values. */
  ghost predicate Says(d: Delimiters, decode: Decoder, body: string, contents: seq<string>, first: string,
                       second: string, values: seq<string>)
  {
    IsResponse(d, body, contents, first, second) && |values| == 3
    && forall k :: 0 <= k < 3 ==> values[k] == decode(Inner(contents[k]))
  }

  ghost function SectionPlaces(d: Delimiters, decode: Decoder, body: string): SectionPlacer {
    (k: nat, at: nat, value: string, next: nat) => k < 3 && Section(d, decode, body, k, at, value, next)
  }

  lemma ReaderFinds(d: Delimiters, decode: Decoder, body: string)
    requires WellTagged(d)
    ensures Finds(SectionsOf(d, decode, body), SectionPlaces(d, decode, body), |body|)
  {
    forall k: nat, at: nat, value, next: nat
      | k < 3 && at <= |body| && (k == 0 ==> at == 0) && SectionsOf(d, decode, body)(k, at) == Ok((value, next))
      ensures SectionPlaces(d, decode, body)(k, at, value, next)
    {
      ParsedThenSection(d, decode, body, k, at, value, next);
    }
    forall k: nat, at: nat, value, next: nat
      | k < 3 && at <= |body| && (k == 0 ==> at == 0) && SectionPlaces(d, decode, body)(k, at, value, next)
      ensures SectionsOf(d, decode, body)(k, at) == Ok((value, next)) && next <= |body|
    {
      SectionThenParsed(d, decode, body, k, at, value, next);
    }
  }

  lemma TagsAreSearched(d: Delimiters, body: string, k: nat, open: nat, close: nat)
    requires k < 3
    ensures TagsAt(d, body, k, open, close) <==>
      OnOneLine(d, body, k) && Search(body, d.open[k]) == open && Search(body, d.close[k]) == close
  {
    SearchFinds(body, d.open[k], open);
    SearchFinds(body, d.close[k], close);
  }

  lemma TagsAreThere(d: Delimiters, body: string, k: nat, open: nat, close: nat)
    requires TagsAt(d, body, k, open, close)
    ensures open + |d.open[k]| <= |body| && body[open..open + |d.open[k]|] == d.open[k]
    ensures close + |d.close[k]| <= |body| && body[close..close + |d.close[k]|] == d.close[k]
  {
  }

  lemma SectionIsPiece(d: Delimiters, decode: Decoder, body: string, k: nat, at: nat, value: string, next: nat)
      returns (gap: string, content: string)
    requires k < 3 && Section(d, decode, body, k, at, value, next)
    ensures PieceReads(d, decode, TagPlaces(d, body), body, k, at, gap, content, value, next)
  {
    var open, close := Search(body, d.open[k]), Search(body, d.close[k]);
    gap, content := body[at..open], body[open + |d.open[k]|..close];
    SearchedIsPiece(d, body, k, at, open, close);
  }

  lemma SearchedIsPiece(d: Delimiters, body: string, k: nat, at: nat, open: nat, close: nat)
    requires k < 3 && SectionAt(d, body, k, at, open, close)
    ensures Piece(d, TagPlaces(d, body), body, k, at, body[at..open], body[open + |d.open[k]|..close],
                  close + |d.close[k]|)
  {
    var next, after := close + |d.close[k]|, open + |d.open[k]|;
    TagsAreSearched(d, body, k, open, close);
    assert body[open..after] == d.open[k] && body[close..next] == d.close[k] by {
      TagsAreThere(d, body, k, open, close);
    }
    FourSpans(body, at, open, after, close, next);
    PieceBetween(d, body, k, at, body[at..open], body[after..close], open, close, next);
  }

  lemma PieceBetween(d: Delimiters, body: string, k: nat, at: nat, gap: string, content: string, open: nat, close: nat,
                     next: nat)
    requires k < 3 && TagsAt(d, body, k, open, close) && at <= next <= |body|
    requires open == at + |gap| && close == open + |d.open[k]| + |content|
    requires body[at..next] == gap + (d.open[k] + content + d.close[k])
    requires if k == 0 then gap == "" else Newlines(gap)
    ensures Piece(d, TagPlaces(d, body), body, k, at, gap, content, next)
  {
    assert TagPlaces(d, body)(k, open, close);
  }

  lemma FourSpans(text: string, a: nat, b: nat, c: nat, e: nat, f: nat)
    requires a <= b <= c <= e <= f <= |text|
    ensures text[a..f] == text[a..b] + (text[b..c] + text[c..e] + text[e..f])
  {
  }

  lemma PieceSectionAt(d: Delimiters, body: string, k: nat, at: nat, gap: string, content: string, next: nat)
    requires WellTagged(d) && k < 3 && Piece(d, TagPlaces(d, body), body, k, at, gap, content, next)
    ensures var open, close := at + |gap|, at + |gap| + |d.open[k]| + |content|;
      SectionAt(d, body, k, at, open, close) && next == close + |d.close[k]|
      && content == body[open + |d.open[k]|..close]
  {
    var open, close := at + |gap|, at + |gap| + |d.open[k]| + |content|;
    TagsAreSearched(d, body, k, open, close);
    SectionTagsApart(d, body, k, open, close);
    SpanParts(body, at, gap, d.open[k], content, d.close[k]);
  }

  lemma PieceIsSection(d: Delimiters, decode: Decoder, body: string, k: nat, at: nat, gap: string, content: string,
                       value: string, next: nat)
    requires WellTagged(d) && k < 3 && PieceReads(d, decode, TagPlaces(d, body), body, k, at, gap, content, value, next)
    ensures Section(d, decode, body, k, at, value, next)
  {
    var open, close := at + |gap|, at + |gap| + |d.open[k]| + |content|;
    assert SectionAt(d, body, k, at, open, close) && next == close + |d.close[k]|
      && content == body[open + |d.open[k]|..close]
    by { PieceSectionAt(d, body, k, at, gap, content, next); }
    assert Section(d, decode, body, k, at, decode(Inner(content)), next)
    by { SearchedIsSection(d, decode, body, k, at, open, close); }
  }

  lemma SpanParts(text: string, at: nat, gap: string, open: string, content: string, close: string)
    requires at + |gap| + |open| + |content| + |close| <= |text|
    requires text[at..at + |gap| + |open| + |content| + |close|] == gap + (open + content + close)
    ensures text[at..at + |gap|] == gap
    ensures text[at + |gap| + |open|..at + |gap| + |open| + |content|] == content
  {
    var span := gap + (open + content + close);
    assert span[0..|gap|] == gap && span[|gap| + |open|..|gap| + |open| + |content|] == content;
    SliceOfSlice(text, at, at + |span|, 0, |gap|);
    SliceOfSlice(text, at, at + |span|, |gap| + |open|, |gap| + |open| + |content|);
  }

  lemma SliceOfSlice(text: string, a: nat, b: nat, from: nat, to: nat)
    requires a <= b <= |text| && from <= to <= b - a
    ensures text[a..b][from..to] == text[a + from..a + to]
  {
    forall i | 0 <= i < to - from ensures text[a..b][from..to][i] == text[a + from..a + to][i] { }
  }

  lemma PlacesAreLinked(d: Delimiters, decode: Decoder, body: string)
    requires WellTagged(d)
    ensures Linked(d, decode, TagPlaces(d, body), SectionPlaces(d, decode, body), body)
  {
    forall k: nat, at: nat, value, next: nat | k < 3 && SectionPlaces(d, decode, body)(k, at, value, next)
      ensures exists gap, content :: PieceReads(d, decode, TagPlaces(d, body), body, k, at, gap, content, value, next)
    {
      var gap, content := SectionIsPiece(d, decode, body, k, at, value, next);
    }
    forall k: nat, at: nat, value, next: nat, gap, content
      | k < 3 && PieceReads(d, decode, TagPlaces(d, body), body, k, at, gap, content, value, next)
      ensures SectionPlaces(d, decode, body)(k, at, value, next)
    {
      PieceIsSection(d, decode, body, k, at, gap, content, value, next);
    }
  }

  lemma ComposedIsMade(d: Delimiters, tagsAt: TagPlacer, body: string, contents: seq<string>, first: string,
                       second: string)
    requires |contents| == 3
    ensures Composed(d, tagsAt, body, contents, first, second) <==>
      Made(d, tagsAt, body, 0, 0, ["", first, second], contents)
  {
    ExplicitText(d, contents, first, second);
    ExplicitPlaces(d, tagsAt, contents, first, second);
    assert body[0..] == body;
  }

  lemma MadeGaps(d: Delimiters, tagsAt: TagPlacer, body: string, gaps: seq<string>, contents: seq<string>)
    requires Made(d, tagsAt, body, 0, 0, gaps, contents)
    ensures |gaps| == 3 && gaps == ["", gaps[1], gaps[2]]
  {
  }

  /**
    Which texts are responses, and what they say: parsing succeeds exactly when the unwrapped text is three
    framed sections in order with newlines between, and the values are their unescaped contents.
   */
  lemma ParseIff(d: Delimiters, text: string, values: seq<string>)
    requires WellTagged(d)
    ensures Parse(d, text) == Ok(values) <==>
      exists contents, first, second :: Says(d, Unescaping(d), Unwrap(text), contents, first, second, values)
  {
    var decode, body := Unescaping(d), Unwrap(text);
    var read, section, tagsAt := SectionsOf(d, decode, body), SectionPlaces(d, decode, body), TagPlaces(d, body);
    ReaderFinds(d, decode, body);
    PlacesAreLinked(d, decode, body);
    ParsesInARow(read, section, 0, 0, |body|, values);
    if InARow(section, 0, 0, |body|, values) {
      var gaps, contents := RowIsMade(d, decode, tagsAt, section, body, 0, 0, values);
      MadeGaps(d, tagsAt, body, gaps, contents);
      ComposedIsMade(d, tagsAt, body, contents, gaps[1], gaps[2]);
      assert Says(d, decode, body, contents, gaps[1], gaps[2], values);
    }
    forall contents, first, second | Says(d, decode, body, contents, first, second, values)
      ensures InARow(section, 0, 0, |body|, values)
    {
      ComposedIsMade(d, tagsAt, body, contents, first, second);
      MadeIsRow(d, decode, tagsAt, section, body, 0, 0, ["", first, second], contents, values);
    }
  }

  // ---- unwrapping ----

  /** Trimming takes white space off both ends and leaves none there. */
  lemma TrimTakesSpace(s: string) returns (left: string, right: string)
    ensures s == left + Trim(s) + right && AllSpace(left) && AllSpace(right)
    ensures var t := Trim(s); t != "" ==> !IsSpace(t[0]) && !IsSpace(t[|t| - 1])
  {
    left := TrimmedStart(s);
    right := TrimmedEnd(TrimStart(s));
    var t := Trim(s);
    if t != "" { assert TrimStart(s)[0] == t[0]; }
  }

  lemma {:induction false} TrimmedStart(s: string) returns (left: string)
    ensures s == left + TrimStart(s) && AllSpace(left)
    ensures TrimStart(s) != "" ==> !IsSpace(TrimStart(s)[0])
  {
    if s != "" && IsSpace(s[0]) {
      var more := TrimmedStart(s[1..]);
      left := [s[0]] + more;
    } else {
      left := "";
    }
  }

  lemma {:induction false} TrimmedEnd(s: string) returns (right: string)
    ensures s == TrimEnd(s) + right && AllSpace(right)
    ensures TrimEnd(s) != "" ==> !IsSpace(TrimEnd(s)[|TrimEnd(s)| - 1])
  {
    if s != "" && IsSpace(s[|s| - 1]) {
      var more := TrimmedEnd(s[..|s| - 1]);
      right := more + [s[|s| - 1]];
    } else {
      right := "";
    }
  }

  predicate IsFenced(body: string, inner: string) {
    body == "```\n" + inner + "\n```" || body == "```xml\n" + inner + "\n```"
  }

  /** One fence around the whole trimmed text is taken off, plain or marked `xml`; nothing else is. */
  lemma UnwrapIff(text: string)
    ensures forall inner :: IsFenced(Trim(text), inner) ==> Unwrap(text) == Trim(inner)
    ensures (forall inner :: !IsFenced(Trim(text), inner)) ==> Unwrap(text) == Trim(text)
  {
    var body := Trim(text);
    forall inner | IsFenced(body, inner) ensures FencedBody(body) == Some(inner) { FenceFound(body, inner); }
    if FencedBody(body).Some? {
      FencedBodyIsFenced(body);
      assert IsFenced(body, FencedBody(body).value);
    }
  }

  lemma FenceFound(body: string, inner: string)
    requires IsFenced(body, inner)
    ensures FencedBody(body) == Some(inner)
  {
    if body == "```\n" + inner + "\n```" {
      assert body[..4] == "```\n" && body[4..|body| - 4] == inner && body[|body| - 4..] == "\n```";
    } else {
      assert body[3] == 'x' && body[..7] == "```xml\n" && body[7..|body| - 4] == inner && body[|body| - 4..] == "\n```";
    }
  }

  lemma FencedBodyIsFenced(body: string)
    requires FencedBody(body).Some?
    ensures IsFenced(body, FencedBody(body).value)
  {
    var start := if "```\n" <= body then 4 else 7;
    assert body == body[..start] + body[start..|body| - 4] + body[|body| - 4..];
  }

  // ---- errors ----

  function LinesWith(body: string, tag: string): nat { Count(Split(body), tag) }

  /** What is wrong with a section behind a place: a tag is missing, repeated, or not where it should be. */
  ghost predicate IsFault(d: Delimiters, body: string, k: nat, at: nat, e: ResponseError)
    requires k < 3
  {
    var opens, closes := LinesWith(body, d.open[k]), LinesWith(body, d.close[k]);
    match e
    case MissingSection(j) => j == k && (opens == 0 || closes == 0)
    case DuplicateSection(j) => j == k && opens != 0 && closes != 0 && (opens > 1 || closes > 1)
    case OutOfOrder => opens == closes == 1 && forall open: nat, close: nat :: !SectionAt(d, body, k, at, open, close)
    case ContentOutside => false
  }

  lemma SectionErrors(d: Delimiters, decode: Decoder, body: string, k: nat, at: nat, e: ResponseError)
    requires WellTagged(d) && k < 3 && at <= |body| && (k == 0 ==> at == 0)
    ensures ParseSection(d, decode, body, k, at) == Err(e) <==> IsFault(d, body, k, at, e)
  {
    var tags := Locate(d, body, k, at);
    forall open: nat, close: nat ensures tags == Ok((open, close)) <==> SectionAt(d, body, k, at, open, close) {
      Located(d, body, k, at, open, close);
    }
    if tags.Ok? { assert SectionAt(d, body, k, at, tags.value.0, tags.value.1); }
  }

  /** The sections before the k-th have been read, up to this place. */
  ghost predicate ReadUpTo(read: SectionReader, k: nat, at: nat)
    decreases k, 0
  {
    if k == 0 then at == 0 else exists start: nat :: ReadFrom(read, k, start, at)
  }

  ghost predicate ReadFrom(read: SectionReader, k: nat, start: nat, at: nat)
    requires k > 0
    decreases k - 1, 1
  {
    ReadUpTo(read, k - 1, start) && read(k - 1, start).Ok? && read(k - 1, start).value.1 == at
  }

  lemma {:induction false} OnePlace(read: SectionReader, k: nat, a: nat, b: nat)
    requires ReadUpTo(read, k, a) && ReadUpTo(read, k, b)
    ensures a == b
  {
    if k > 0 {
      var x: nat :| ReadFrom(read, k, x, a);
      var y: nat :| ReadFrom(read, k, y, b);
      OnePlace(read, k - 1, x, y);
    }
  }

  lemma {:induction false} ReadBefore(read: SectionReader, k: nat, j: nat, at: nat)
    requires j <= k && ReadUpTo(read, k, at)
    ensures exists p: nat :: ReadUpTo(read, j, p) && (j < k ==> read(j, p).Ok?)
  {
    if j < k {
      var x: nat :| ReadFrom(read, k, x, at);
      ReadBefore(read, k - 1, j, x);
    }
  }

  /** The reading stops with an error at a section, or at text behind the last one. */
  ghost predicate StopsWith(read: SectionReader, k: nat, at: nat, end: nat, e: ResponseError) {
    ReadUpTo(read, k, at) && if k < 3 then read(k, at) == Err(e) else k == 3 && at != end && e == ContentOutside
  }

  lemma {:induction false} ErrorsFrom(read: SectionReader, k: nat, at: nat, end: nat, e: ResponseError)
    requires k <= 3 && ReadUpTo(read, k, at)
    ensures ParseSections(read, k, at, end) == Err(e) <==>
      exists j: nat, p: nat :: j >= k && StopsWith(read, j, p, end, e)
    decreases 3 - k
  {
    forall p: nat | ReadUpTo(read, k, p) ensures p == at { OnePlace(read, k, p, at); }
    if k == 3 || read(k, at).Err? {
      assert StopsWith(read, k, at, end, e) <==> ParseSections(read, k, at, end) == Err(e);
      forall j: nat, p: nat | j > k && StopsWith(read, j, p, end, e) ensures false {
        ReadBefore(read, j, k, p);
      }
    } else {
      var (value, next) := read(k, at).value;
      assert ReadFrom(read, k + 1, at, next);
      ErrorsFrom(read, k + 1, next, end, e);
      assert forall p: nat :: !StopsWith(read, k, p, end, e);
    }
  }

  /** The parser's error is that of the first section that is wrong, or of text behind the last. */
  lemma ParseErrors(d: Delimiters, text: string, e: ResponseError)
    ensures Parse(d, text) == Err(e) <==>
      exists k: nat, at: nat :: StopsWith(SectionsOf(d, Unescaping(d), Unwrap(text)), k, at, |Unwrap(text)|, e)
  {
    ErrorsFrom(SectionsOf(d, Unescaping(d), Unwrap(text)), 0, 0, |Unwrap(text)|, e);
  }
}
