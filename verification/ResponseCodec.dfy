/**
  The three-section translation response: rendering escapes body lines that look like
  delimiters, parsing locates each delimiter with a multiline regular expression. Parsing
  inverts rendering exactly for the bodies without a delimiter hidden between two line
  breaks that `split('\n')` does not see.
 */
module ResponseCodec {
  import opened Wrappers
  import opened Lines

  /** The open and close tags of the three sections, in order. */
  datatype Tags = Tags(open: seq<string>, close: seq<string>)

  type Delimiters = d: Tags | |d.open| == 3 && |d.close| == 3 witness RESPONSE

  const RESPONSE := Tags(["<translation>", "<review>", "<final>"], ["</translation>", "</review>", "</final>"])

  predicate IsDelimiter(d: Delimiters, line: string) {
    line in d.open || line in d.close
  }

  datatype ResponseError = MissingSection(k: nat) | DuplicateSection(k: nat) | OutOfOrder | ContentOutside

  // ---- escaping ----

  function StripBackslashes(line: string): string {
    if line != "" && line[0] == '\\' then StripBackslashes(line[1..]) else line
  }

  function EscapeLine(d: Delimiters, line: string): string {
    if IsDelimiter(d, StripBackslashes(line)) then "\\" + line else line
  }

  function UnescapeLine(d: Delimiters, line: string): string {
    if line != "" && line[0] == '\\' && IsDelimiter(d, StripBackslashes(line[1..])) then line[1..] else line
  }

  function EscapeLines(d: Delimiters, lines: seq<string>): seq<string> {
    seq(|lines|, i requires 0 <= i < |lines| => EscapeLine(d, lines[i]))
  }

  function UnescapeLines(d: Delimiters, lines: seq<string>): seq<string> {
    seq(|lines|, i requires 0 <= i < |lines| => UnescapeLine(d, lines[i]))
  }

  function Escape(d: Delimiters, body: string): string { Join(EscapeLines(d, Split(body))) }

  function Unescape(d: Delimiters, body: string): string { Join(UnescapeLines(d, Split(body))) }

  // ---- rendering ----

  function Section(d: Delimiters, bodies: seq<string>, k: nat): string
    requires |bodies| == 3 && k < 3
  {
    d.open[k] + "\n" + Escape(d, bodies[k]) + "\n" + d.close[k]
  }

  function Sections(d: Delimiters, bodies: seq<string>): seq<string>
    requires |bodies| == 3
  {
    [Section(d, bodies, 0), Section(d, bodies, 1), Section(d, bodies, 2)]
  }

  function Render(d: Delimiters, bodies: seq<string>): string
    requires |bodies| == 3
  {
    Section(d, bodies, 0) + "\n\n" + Section(d, bodies, 1) + "\n\n" + Section(d, bodies, 2)
  }

  // ---- parsing ----

  function TrimStart(s: string): string {
    if s != "" && IsSpace(s[0]) then TrimStart(s[1..]) else s
  }

  function TrimEnd(s: string): string {
    if s != "" && IsSpace(s[|s| - 1]) then TrimEnd(s[..|s| - 1]) else s
  }

  function Trim(s: string): string { TrimEnd(TrimStart(s)) }

  /** The tolerated fence around a whole response, with or without the `xml` info string. */
  function FencedBody(s: string): Option<string> {
    var start := if "```\n" <= s then 4 else if "```xml\n" <= s then 7 else 0;
    if start > 0 && |s| >= start + 4 && s[|s| - 4..] == "\n```" then Some(s[start..|s| - 4]) else None
  }

  function Unwrap(text: string): string {
    var body := Trim(text);
    var fenced := FencedBody(body);
    if fenced.Some? then Trim(fenced.value) else body
  }

  /** `slice`, which is empty when the bounds cross. */
  function Slice(s: string, from: nat, to: nat): string
    requires to <= |s|
  {
    if from <= to then s[from..to] else ""
  }

  predicate AllNewlines(s: string) { s != "" && forall i :: 0 <= i < |s| ==> s[i] == '\n' }

  /** A section's raw content: one newline is dropped after its open tag and one before its close tag. */
  function Content(body: string, afterOpen: nat, closeStart: nat): string
    requires afterOpen <= |body| && closeStart <= |body|
  {
    var from := if afterOpen < |body| && body[afterOpen] == '\n' then afterOpen + 1 else afterOpen;
    var to := if closeStart > 0 && body[closeStart - 1] == '\n' then closeStart - 1 else closeStart;
    Slice(body, from, to)
  }

  predicate GoodSeparator(k: nat, separator: string) {
    if k == 0 then separator == "" else AllNewlines(separator)
  }

  /** Where a section's tags stand. */
  function Locate(d: Delimiters, body: string, k: nat, previousCloseEnd: nat): (r: Result<(nat, nat), ResponseError>)
    requires k < 3
    ensures r.Ok? ==> r.value.0 + |d.open[k]| <= |body| && r.value.1 + |d.close[k]| <= |body|
  {
    var opens, closes := Count(Split(body), d.open[k]), Count(Split(body), d.close[k]);
    var openStart, closeStart := Search(body, d.open[k]), Search(body, d.close[k]);
    if opens == 0 || closes == 0 then Err(MissingSection(k))
    else if opens > 1 || closes > 1 then Err(DuplicateSection(k))
    else if openStart < 0 || closeStart < openStart || !GoodSeparator(k, Slice(body, previousCloseEnd, openStart)) then
      Err(OutOfOrder)
    else Ok((openStart, closeStart))
  }

  /** How a section's content is read. */
  type Decoder = string -> string

  function Unescaping(d: Delimiters): Decoder { content => Unescape(d, content) }

  /** One section: its body and the end of its close tag. */
  function ParseSection(d: Delimiters, decode: Decoder, body: string, k: nat, previousCloseEnd: nat)
      : (r: Result<(string, nat), ResponseError>)
    requires k < 3
  {
    var tags := Locate(d, body, k, previousCloseEnd);
    if tags.Err? then Err(tags.error)
    else
      var (openStart, closeStart) := tags.value;
      Ok((decode(Content(body, openStart + |d.open[k]|, closeStart)), closeStart + |d.close[k]|))
  }

  /** Reads section `k` behind the end of the previous close tag. */
  type SectionReader = (nat, nat) -> Result<(string, nat), ResponseError>

  function SectionsOf(d: Delimiters, decode: Decoder, body: string): SectionReader {
    (k: nat, previousCloseEnd: nat) =>
      if k < 3 then ParseSection(d, decode, body, k, previousCloseEnd) else Err(ContentOutside)
  }

  /** The loop over the sections from `k` on; the last one must end with the text. */
  function ParseSections(read: SectionReader, k: nat, previousCloseEnd: nat, end: nat)
      : (r: Result<seq<string>, ResponseError>)
    requires k <= 3
    ensures r.Ok? ==> |r.value| == 3 - k
    decreases 3 - k
  {
    if k == 3 then
      if previousCloseEnd != end then Err(ContentOutside) else Ok([])
    else
      var section := read(k, previousCloseEnd);
      if section.Err? then Err(section.error)
      else Prepend([section.value.0], ParseSections(read, k + 1, section.value.1, end))
  }

  function Prepend(values: seq<string>, rest: Result<seq<string>, ResponseError>): Result<seq<string>, ResponseError> {
    if rest.Err? then Err(rest.error) else Ok(values + rest.value)
  }

  function Parse(d: Delimiters, text: string): Result<seq<string>, ResponseError> {
    var body := Unwrap(text);
    ParseSections(SectionsOf(d, Unescaping(d), body), 0, 0, |body|)
  }

  // ---- delimiters and lines ----

  /** What the proofs use of a tag: it is a bracketed name on one line. */
  predicate BracketedTag(tag: string) {
    IsTag(tag) && tag[0] == '<' && tag[|tag| - 1] == '>'
  }

  ghost predicate WellTagged(d: Delimiters) {
    && (forall k :: 0 <= k < 3 ==> BracketedTag(d.open[k]) && BracketedTag(d.close[k]))
    && (forall i, k :: 0 <= i < 3 && 0 <= k < 3 ==> d.open[i] != d.close[k])
    && (forall i, k :: 0 <= i < k < 3 ==> d.open[i] != d.open[k] && d.close[i] != d.close[k])
  }

  predicate AllBackslashes(s: string) { forall i :: 0 <= i < |s| ==> s[i] == '\\' }

  /** A delimiter behind any number of backslashes. */
  ghost predicate IsMarked(d: Delimiters, line: string) {
    exists slashes, tag :: line == slashes + tag && AllBackslashes(slashes) && IsDelimiter(d, tag)
  }

  lemma {:induction false} StripIff(d: Delimiters, line: string)
    requires WellTagged(d)
    ensures IsDelimiter(d, StripBackslashes(line)) <==> IsMarked(d, line)
  {
    if line != "" && line[0] == '\\' {
      StripIff(d, line[1..]);
      if slashes, tag :| line[1..] == slashes + tag && AllBackslashes(slashes) && IsDelimiter(d, tag) {
        assert line == "\\" + slashes + tag;
      }
      if slashes, tag :| line == slashes + tag && AllBackslashes(slashes) && IsDelimiter(d, tag) {
        assert line[1..] == slashes[1..] + tag;
      }
    } else {
      assert line == "" + line;
      if slashes, tag :| line == slashes + tag && AllBackslashes(slashes) && IsDelimiter(d, tag) {
        assert slashes == "" && line == tag;
      }
    }
  }

  /** Escaping puts one backslash in front of every marked line, and unescaping takes one away again. */
  lemma EscapedLineIff(d: Delimiters, line: string, r: string)
    requires WellTagged(d)
    ensures EscapeLine(d, line) == r <==> r == if IsMarked(d, line) then "\\" + line else line
    ensures UnescapeLine(d, line) == r <==>
      if exists rest :: line == "\\" + rest && IsMarked(d, rest) then line == "\\" + r else line == r
  {
    StripIff(d, line);
    assert line != "" && line[0] == '\\' ==> line == "\\" + line[1..];
    if line != "" { StripIff(d, line[1..]); }
  }

  lemma ResponseIsWellTagged()
    ensures WellTagged(RESPONSE)
  {
    var d := RESPONSE;
    forall k | 0 <= k < 3 ensures BracketedTag(d.open[k]) && BracketedTag(d.close[k]) {
      ResponseTag(k);
    }
    forall i, k | 0 <= i < 3 && 0 <= k < 3
      ensures d.open[i] != d.close[k]
      ensures i < k ==> d.open[i] != d.open[k] && d.close[i] != d.close[k]
    {
      ResponseTag(i);
      ResponseTag(k);
    }
  }

  lemma ResponseTag(k: int)
    requires 0 <= k < 3
    ensures BracketedTag(RESPONSE.open[k]) && BracketedTag(RESPONSE.close[k])
    ensures RESPONSE.open[k][1] == ['t', 'r', 'f'][k] && RESPONSE.close[k][1] == '/'
    ensures RESPONSE.close[k][2] == ['t', 'r', 'f'][k]
  {
    assert RESPONSE.open[k] == if k == 0 then "<translation>" else if k == 1 then "<review>" else "<final>";
    assert RESPONSE.close[k] == if k == 0 then "</translation>" else if k == 1 then "</review>" else "</final>";
  }

  lemma {:induction false} BackslashedLine(d: Delimiters, line: string)
    requires WellTagged(d)
    requires IsDelimiter(d, StripBackslashes(line))
    ensures OneLine(line) && Unbroken(line)
  {
    if line != "" && line[0] == '\\' {
      BackslashedLine(d, line[1..]);
      assert line == ['\\'] + line[1..];
    } else {
      var k :| 0 <= k < 3 && (line == d.open[k] || line == d.close[k]);
      assert BracketedTag(line);
    }
  }

  lemma TagIsBare(d: Delimiters, tag: string)
    requires WellTagged(d)
    requires IsDelimiter(d, tag)
    ensures IsTag(tag) && tag[0] == '<' && tag[|tag| - 1] == '>'
    ensures StripBackslashes(tag) == tag && IsDelimiter(d, tag)
  {
    var k :| 0 <= k < 3 && (tag == d.open[k] || tag == d.close[k]);
    assert BracketedTag(tag);
  }

  lemma UnescapeInvertsEscapeLine(d: Delimiters, line: string)
    ensures UnescapeLine(d, EscapeLine(d, line)) == line
    ensures OneLine(line) ==> OneLine(EscapeLine(d, line))
  {
    if IsDelimiter(d, StripBackslashes(line)) {
      assert ("\\" + line)[1..] == line;
    }
  }

  /** Unescaping inverts escaping for every body, however many backslashes its lines start with. */
  lemma UnescapeInvertsEscape(d: Delimiters, body: string)
    requires WellTagged(d)
    ensures Unescape(d, Escape(d, body)) == body
  {
    var lines := Split(body);
    var escaped := EscapeLines(d, lines);
    SplitIntoOneLines(body);
    forall line | line in escaped ensures OneLine(line) {
      var i :| 0 <= i < |escaped| && escaped[i] == line;
      UnescapeInvertsEscapeLine(d, lines[i]);
    }
    SplitJoin(escaped);
    forall i | 0 <= i < |lines| ensures UnescapeLines(d, escaped)[i] == lines[i] {
      UnescapeInvertsEscapeLine(d, lines[i]);
    }
    assert UnescapeLines(d, escaped) == lines;
    JoinSplit(body);
  }

  // ---- hidden delimiters ----

  /** Some line of the body is not the tag but contains it between two other line breaks. */
  ghost predicate HiddenTag(body: string, tag: string) {
    exists line :: line in Split(body) && line != tag && !NoMatch(line, tag)
  }

  lemma EscapeLineNoMatch(d: Delimiters, line: string, tag: string)
    requires WellTagged(d)
    requires IsDelimiter(d, tag)
    ensures EscapeLine(d, line) != tag
    ensures NoMatch(EscapeLine(d, line), tag) <==> line == tag || NoMatch(line, tag)
  {
    TagIsBare(d, tag);
    if IsDelimiter(d, StripBackslashes(line)) {
      BackslashedLine(d, line);
      WholeLineMatch(line, tag);
      WholeLineMatch("\\" + line, tag);
    }
  }

  lemma EscapeNoMatch(d: Delimiters, body: string, tag: string)
    requires WellTagged(d)
    requires IsDelimiter(d, tag)
    ensures NoMatch(Escape(d, body), tag) <==> !HiddenTag(body, tag)
    ensures Count(Split(Escape(d, body)), tag) == 0
  {
    TagIsBare(d, tag);
    var lines := Split(body);
    var escaped := EscapeLines(d, lines);
    NoMatchLines(escaped, tag);
    forall i | 0 <= i < |lines|
      ensures escaped[i] in escaped && lines[i] in lines && escaped[i] != tag
      ensures NoMatch(escaped[i], tag) <==> lines[i] == tag || NoMatch(lines[i], tag)
    {
      EscapeLineNoMatch(d, lines[i], tag);
    }
    SplitIntoOneLines(body);
    forall line | line in escaped ensures OneLine(line) {
      var i :| 0 <= i < |escaped| && escaped[i] == line;
      UnescapeInvertsEscapeLine(d, lines[i]);
    }
    SplitJoin(escaped);
    CountAbsent(escaped, tag);
  }

  /** Unescaped text hides nothing that the escaped text does not match. */
  lemma UnescapedHidesNothing(d: Delimiters, text: string, tag: string)
    requires WellTagged(d)
    requires IsDelimiter(d, tag) && NoMatch(text, tag)
    ensures !HiddenTag(Unescape(d, text), tag)
  {
    TagIsBare(d, tag);
    var lines := Split(text);
    var plain := UnescapeLines(d, lines);
    SplitIntoOneLines(text);
    forall line | line in plain ensures OneLine(line) && (line == tag || NoMatch(line, tag)) {
      var i :| 0 <= i < |plain| && plain[i] == line;
      assert lines[i] in lines;
      assert OneLine(lines[i]);
      if line != lines[i] {
        BackslashedLine(d, line);
        WholeLineMatch(line, tag);
      } else {
        JoinSplit(text);
        NoMatchLines(lines, tag);
      }
    }
    SplitJoin(plain);
  }

  // ---- the rendered text, section by section ----

  /** Everything before the open tag of section `k`, given the text of each section. */
  function Head(sections: seq<string>, k: nat): string
    requires |sections| == 3 && k < 3
    decreases k, 1
  {
    if k == 0 then "" else Done(sections, k) + "\n\n"
  }

  /** Everything up to the close tag of section `k - 1`. */
  function Done(sections: seq<string>, k: nat): string
    requires |sections| == 3 && k <= 3
    decreases k, 0
  {
    if k == 0 then "" else Head(sections, k - 1) + sections[k - 1]
  }

  function Tail(sections: seq<string>, k: nat): string
    requires |sections| == 3 && k < 3
    decreases 3 - k
  {
    if k == 2 then "" else "\n\n" + sections[k + 1] + Tail(sections, k + 1)
  }

  lemma JoinedAt(sections: seq<string>, k: nat)
    requires |sections| == 3 && k < 3
    ensures sections[0] + "\n\n" + sections[1] + "\n\n" + sections[2]
      == Head(sections, k) + sections[k] + Tail(sections, k)
    ensures Done(sections, 3) == sections[0] + "\n\n" + sections[1] + "\n\n" + sections[2]
    ensures Tail(sections, k) == "" || Tail(sections, k)[0] == '\n'
  {
    assert Done(sections, 1) == sections[0];
    assert Done(sections, 2) == sections[0] + "\n\n" + sections[1];
    assert Done(sections, 3) == sections[0] + "\n\n" + sections[1] + "\n\n" + sections[2];
    assert Tail(sections, 2) == "";
    assert Tail(sections, 1) == "\n\n" + sections[2];
    assert Tail(sections, 0) == "\n\n" + sections[1] + "\n\n" + sections[2];
  }

  lemma SectionFacts(d: Delimiters, bodies: seq<string>, k: nat, tag: string)
    requires WellTagged(d)
    requires |bodies| == 3 && k < 3 && IsDelimiter(d, tag)
    ensures NoMatch(Section(d, bodies, k), tag) <==> d.open[k] != tag && d.close[k] != tag && !HiddenTag(bodies[k], tag)
    ensures Count(Split(Section(d, bodies, k)), tag) == (if d.open[k] == tag || d.close[k] == tag then 1 else 0)
  {
    TagIsBare(d, tag);
    EscapeNoMatch(d, bodies[k], tag);
    WholeLineMatch(d.open[k], tag);
    WholeLineMatch(d.close[k], tag);
    NoMatchConcat(d.open[k], Escape(d, bodies[k]), tag);
    NoMatchConcat(d.open[k] + "\n" + Escape(d, bodies[k]), d.close[k], tag);
    SplitPlain(d.open[k]);
    SplitPlain(d.close[k]);
    SplitConcat(d.open[k], Escape(d, bodies[k]));
    SplitConcat(d.open[k] + "\n" + Escape(d, bodies[k]), d.close[k]);
    CountConcat([d.open[k]], Split(Escape(d, bodies[k])), tag);
    CountConcat([d.open[k]] + Split(Escape(d, bodies[k])), [d.close[k]], tag);
  }

  /** Every delimiter of section `j` is exactly one line of the rendered text. */
  lemma DelimitersCountOne(d: Delimiters, bodies: seq<string>, j: nat, tag: string)
    requires WellTagged(d)
    requires |bodies| == 3 && j < 3 && (tag == d.open[j] || tag == d.close[j])
    ensures Count(Split(Render(d, bodies)), tag) == 1
  {
    assert IsDelimiter(d, tag);
    TagIsBare(d, tag);
    forall k: nat | k < 3
      ensures Count(Split(Section(d, bodies, k)), tag) == if k == j then 1 else 0
    {
      SectionFacts(d, bodies, k, tag);
    }
    JoinedCounts(Section(d, bodies, 0), Section(d, bodies, 1), Section(d, bodies, 2), tag);
  }

  lemma JoinedCounts(a: string, b: string, c: string, tag: string)
    requires IsTag(tag)
    ensures Count(Split(a + "\n\n" + b + "\n\n" + c), tag) ==
      Count(Split(a), tag) + Count(Split(b), tag) + Count(Split(c), tag)
  {
    BlankLineFacts(a, b, tag);
    BlankLineFacts(a + "\n\n" + b, c, tag);
  }

  lemma {:induction false} DoneNoMatch(sections: seq<string>, k: nat, tag: string)
    requires |sections| == 3 && k <= 3 && IsTag(tag)
    ensures NoMatch(Done(sections, k), tag) <==> forall i :: 0 <= i < k ==> NoMatch(sections[i], tag)
    decreases k
  {
    if k == 0 {
      WholeLineMatch("", tag);
    } else if k == 1 {
      assert Done(sections, 1) == sections[0];
    } else {
      var done := Done(sections, k - 1);
      DoneNoMatch(sections, k - 1, tag);
      BlankLineFacts(done, sections[k - 1], tag);
      DoneUnfold(sections, k, done);
    }
  }

  lemma DoneUnfold(sections: seq<string>, k: nat, done: string)
    requires |sections| == 3 && 2 <= k <= 3 && done == Done(sections, k - 1)
    ensures Done(sections, k) == done + "\n\n" + sections[k - 1]
  {
  }

  lemma BlankLineFacts(a: string, b: string, tag: string)
    requires IsTag(tag)
    ensures NoMatch(a + "\n\n" + b, tag) <==> NoMatch(a, tag) && NoMatch(b, tag)
    ensures NoMatch(a + "\n", tag) <==> NoMatch(a, tag)
    ensures Count(Split(a + "\n\n" + b), tag) == Count(Split(a), tag) + Count(Split(b), tag)
  {
    assert a + "\n\n" + b == (a + "\n" + "") + "\n" + b;
    assert a + "\n" == a + "\n" + "";
    WholeLineMatch("", tag);
    NoMatchConcat(a, "", tag);
    NoMatchConcat(a + "\n" + "", b, tag);
    SplitConcat(a, "");
    SplitConcat(a + "\n" + "", b);
    CountConcat(Split(a), [""], tag);
    CountConcat(Split(a) + [""], Split(b), tag);
  }

  // ---- the parser as the source runs it ----

  /** The parsing loop; it is the recursive reading above, hence inverts rendering as far as that does. */
  method ParseResponse(d: Delimiters, text: string) returns (r: Result<seq<string>, ResponseError>)
    ensures r == Parse(d, text)
  {
    var body := Unwrap(text);
    var read := SectionsOf(d, Unescaping(d), body);
    var values: seq<string> := [];
    var previousCloseEnd: nat := 0;
    PrependNothing(ParseSections(read, 0, 0, |body|));
    for k := 0 to 3
      invariant |values| == k
      invariant Parse(d, text) == Prepend(values, ParseSections(read, k, previousCloseEnd, |body|))
    {
      var section := read(k, previousCloseEnd);
      if section.Err? { return Err(section.error); }
      PrependOne(values, section.value.0, ParseSections(read, k + 1, section.value.1, |body|));
      values := values + [section.value.0];
      previousCloseEnd := section.value.1;
    }
    if previousCloseEnd != |body| { return Err(ContentOutside); }
    PrependOne(values, "", Ok([]));
    return Ok(values);
  }

  lemma PrependNothing(rest: Result<seq<string>, ResponseError>)
    ensures Prepend([], rest) == rest
  {
    if rest.Ok? { assert [] + rest.value == rest.value; }
  }

  lemma PrependOne(values: seq<string>, value: string, rest: Result<seq<string>, ResponseError>)
    ensures Prepend(values, Prepend([value], rest)) == Prepend(values + [value], rest)
    ensures Prepend(values, Ok([])) == Ok(values)
  {
    assert values + [] == values;
    if rest.Ok? { assert values + ([value] + rest.value) == values + [value] + rest.value; }
  }
}
