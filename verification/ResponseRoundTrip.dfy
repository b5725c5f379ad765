/**
  Parsing a rendered response. The parser is followed section by section on the rendered text, which
  reads the bodies back exactly when no delimiter is hidden in them. A delimiter is hidden where a line
  of a body breaks, for the multiline expressions of the parser, at a terminator that the escaping, which
  looks at lines ended by newlines only, does not see. How contents are unescaped plays no part in the
  layout of the rendered text and is therefore a parameter of most lemmas.
 */
module ResponseRoundTrip {
  import opened Wrappers
  import opened Lines
  import opened ResponseCodec

  // ---- one step of the parser on a rendered text ----

  /** No earlier body hides the open tag of section `k`, and no body up to its own hides the close tag. */
  ghost predicate CleanOpen(d: Delimiters, bodies: seq<string>, k: nat)
    requires |bodies| == 3 && k < 3
  {
    forall i :: 0 <= i < k ==> !HiddenTag(bodies[i], d.open[k])
  }

  ghost predicate CleanClose(d: Delimiters, bodies: seq<string>, k: nat)
    requires |bodies| == 3 && k < 3
  {
    forall i :: 0 <= i <= k ==> !HiddenTag(bodies[i], d.close[k])
  }

  lemma DoneHides(d: Delimiters, bodies: seq<string>, k: nat, tag: string)
    requires WellTagged(d)
    requires |bodies| == 3 && k < 3 && (tag == d.open[k] || tag == d.close[k])
    ensures NoMatch(Done(Sections(d, bodies), k), tag) <==> forall i :: 0 <= i < k ==> !HiddenTag(bodies[i], tag)
  {
    assert IsDelimiter(d, tag);
    TagIsBare(d, tag);
    var sections := Sections(d, bodies);
    DoneNoMatch(sections, k, tag);
    forall i | 0 <= i < k ensures NoMatch(sections[i], tag) <==> !HiddenTag(bodies[i], tag) {
      EarlierSection(d, bodies, i, k, tag);
    }
  }

  lemma EarlierSection(d: Delimiters, bodies: seq<string>, i: nat, k: nat, tag: string)
    requires WellTagged(d) && |bodies| == 3 && i < k < 3 && (tag == d.open[k] || tag == d.close[k])
    ensures NoMatch(Sections(d, bodies)[i], tag) <==> !HiddenTag(bodies[i], tag)
  {
    SectionFacts(d, bodies, i, tag);
  }

  /** What separates section `k` from the sections before it. */
  function Separated(k: nat, done: string): string {
    if k == 0 then "" else done + "\n\n"
  }

  /** Section `k` with raw content `escaped` stands in `t` after the finished text `done`. */
  ghost predicate SectionAt(d: Delimiters, k: nat, t: string, done: string, escaped: string, tail: string) {
    && k < 3
    && (k == 0 ==> done == "")
    && (tail == "" || tail[0] == '\n')
    && t == Separated(k, done) + (d.open[k] + "\n" + (escaped + "\n" + (d.close[k] + tail)))
  }

  lemma SearchAfterBlankLine(done: string, rest: string, tag: string)
    requires IsTag(tag) && !NoMatch(rest, tag)
    ensures if NoMatch(done, tag) then Search(done + "\n\n" + rest, tag) == |done| + 2 + Search(rest, tag)
            else 0 <= Search(done + "\n\n" + rest, tag) < |done|
  {
    assert done + "\n\n" + rest == (done + "\n") + "\n" + rest;
    assert done + "\n\n" + rest == done + "\n" + ("\n" + rest);
    BlankLineFacts(done, rest, tag);
    SearchConcat(done + "\n", rest, tag);
    SearchConcat(done, "\n" + rest, tag);
  }

  lemma SearchAfterDone(k: nat, done: string, rest: string, tag: string)
    requires IsTag(tag) && !NoMatch(rest, tag) && (k == 0 ==> done == "")
    ensures if NoMatch(done, tag)
      then Search(Separated(k, done) + rest, tag) == |Separated(k, done)| + Search(rest, tag)
            else 0 <= Search(Separated(k, done) + rest, tag) < |done|
  {
    if k == 0 {
      WholeLineMatch("", tag);
      assert "" + rest == rest;
    } else {
      SearchAfterBlankLine(done, rest, tag);
    }
  }

  lemma SearchAtStart(tag: string, rest: string)
    requires IsTag(tag)
    ensures !NoMatch(tag + "\n" + rest, tag) && Search(tag + "\n" + rest, tag) == 0
  {
    var after := "\n" + rest;
    StartsWithMatch(tag, after);
    assert tag + "\n" + rest == tag + after;
    SearchIsFirst(tag + after, tag);
  }

  lemma OpenPosition(d: Delimiters, k: nat, t: string, done: string, escaped: string, tail: string)
    requires WellTagged(d) && SectionAt(d, k, t, done, escaped, tail)
    ensures NoMatch(done, d.open[k]) ==> Search(t, d.open[k]) == |Separated(k, done)|
    ensures !NoMatch(done, d.open[k]) ==> 0 <= Search(t, d.open[k]) < |done|
  {
    var tag, rest := d.open[k], escaped + "\n" + (d.close[k] + tail);
    assert BracketedTag(tag);
    SearchAtStart(tag, rest);
    SearchAfterDone(k, done, tag + "\n" + rest, tag);
  }

  /** The close tag is found in the finished text, in the section's own content, or where it was rendered. */
  lemma ClosePosition(d: Delimiters, k: nat, t: string, done: string, escaped: string, tail: string)
    requires WellTagged(d) && SectionAt(d, k, t, done, escaped, tail)
    ensures var content := |Separated(k, done)| + |d.open[k]| + 1;
      if !NoMatch(done, d.close[k]) then 0 <= Search(t, d.close[k]) < |done|
      else if !NoMatch(escaped, d.close[k]) then Search(t, d.close[k]) == content + Search(escaped, d.close[k])
      else Search(t, d.close[k]) == content + |escaped| + 1
  {
    var tag, last := d.close[k], d.close[k] + tail;
    StartsWithMatch(tag, tail);
    SearchIsFirst(last, tag);
    WholeLineMatch(d.open[k], tag);
    NoMatchConcat(escaped, last, tag);
    SearchConcat(escaped, last, tag);
    NoMatchConcat(d.open[k], escaped + "\n" + last, tag);
    SearchConcat(d.open[k], escaped + "\n" + last, tag);
    SearchAfterDone(k, done, d.open[k] + "\n" + (escaped + "\n" + last), tag);
  }

  /** The text before the first match, without a newline right before it. */
  function BeforeMatch(text: string, found: nat): string
    requires found <= |text|
  {
    if found == 0 then "" else if text[found - 1] == '\n' then text[..found - 1] else text[..found]
  }

  /** The content between an open tag and a close tag located `found` characters into the body. */
  lemma ContentUpTo(t: string, head: string, open: string, body: string, last: string, found: nat)
    requires t == head + (open + "\n" + (body + "\n" + last)) && found <= |body|
    ensures |head| + |open| + 1 + found <= |t|
    ensures Content(t, |head| + |open|, |head| + |open| + 1 + found) == BeforeMatch(body, found)
  {
    var content := |head| + |open| + 1;
    assert t[content - 1] == '\n';
    assert found > 0 ==> t[content + found - 1] == body[found - 1];
  }

  lemma ContentWhole(t: string, head: string, open: string, body: string, last: string)
    requires t == head + (open + "\n" + (body + "\n" + last))
    ensures |head| + |open| + 1 + |body| + 1 <= |t|
    ensures Content(t, |head| + |open|, |head| + |open| + 1 + |body| + 1) == body
  {
    var content := |head| + |open| + 1;
    assert t[content - 1] == '\n' && t[content + |body|] == '\n';
    assert t[content..content + |body|] == body;
  }

  lemma SeparatorIsGood(k: nat, t: string, done: string, rest: string)
    requires t == Separated(k, done) + rest && (k == 0 ==> done == "")
    ensures GoodSeparator(k, Slice(t, |done|, |Separated(k, done)|))
  {
    if k > 0 { assert t[|done|..|done| + 2] == "\n\n"; }
  }

  ghost predicate CountedOnce(d: Delimiters, k: nat, t: string)
    requires k < 3
  {
    Count(Split(t), d.open[k]) == 1 && Count(Split(t), d.close[k]) == 1
  }

  /** The section's two delimiters are located, with `content` between them. */
  ghost predicate Located(d: Delimiters, k: nat, t: string, previousCloseEnd: nat,
                          openStart: nat, closeStart: nat, content: string)
  {
    && k < 3
    && Search(t, d.open[k]) == openStart && Search(t, d.close[k]) == closeStart && openStart <= closeStart
    && GoodSeparator(k, Slice(t, previousCloseEnd, openStart))
    && openStart + |d.open[k]| <= |t| && Content(t, openStart + |d.open[k]|, closeStart) == content
  }

  lemma LocatedTags(d: Delimiters, k: nat, t: string, previousCloseEnd: nat,
                    openStart: nat, closeStart: nat, content: string)
    requires Located(d, k, t, previousCloseEnd, openStart, closeStart, content) && CountedOnce(d, k, t)
    ensures Locate(d, t, k, previousCloseEnd) == Ok((openStart, closeStart))
  {
  }

  /** What the parser returns for a located section. */
  lemma LocatedReads(d: Delimiters, decode: Decoder, k: nat, t: string, previousCloseEnd: nat,
                     openStart: nat, closeStart: nat, content: string)
    requires Located(d, k, t, previousCloseEnd, openStart, closeStart, content) && CountedOnce(d, k, t)
    ensures ParseSection(d, decode, t, k, previousCloseEnd) == Ok((decode(content), closeStart + |d.close[k]|))
  {
    LocatedTags(d, k, t, previousCloseEnd, openStart, closeStart, content);
  }

  lemma SectionSeparator(d: Delimiters, k: nat, t: string, done: string, escaped: string, tail: string)
    requires SectionAt(d, k, t, done, escaped, tail)
    ensures GoodSeparator(k, Slice(t, |done|, |Separated(k, done)|))
  {
    SeparatorIsGood(k, t, done, d.open[k] + "\n" + (escaped + "\n" + (d.close[k] + tail)));
  }

  /** With its delimiters in the clear, a section is located where it was rendered. */
  lemma CleanLocated(d: Delimiters, k: nat, t: string, done: string, escaped: string, tail: string, closeStart: nat)
    requires WellTagged(d) && SectionAt(d, k, t, done, escaped, tail)
    requires NoMatch(done, d.open[k]) && NoMatch(done, d.close[k]) && NoMatch(escaped, d.close[k])
    requires closeStart == |Separated(k, done)| + |d.open[k]| + 1 + |escaped| + 1
    ensures Located(d, k, t, |done|, |Separated(k, done)|, closeStart, escaped)
  {
    CleanPositions(d, k, t, done, escaped, tail, closeStart);
    SectionSeparator(d, k, t, done, escaped, tail);
    WholeContent(d, k, t, done, escaped, tail, closeStart);
  }

  lemma CleanPositions(d: Delimiters, k: nat, t: string, done: string, escaped: string, tail: string, closeStart: nat)
    requires WellTagged(d) && SectionAt(d, k, t, done, escaped, tail)
    requires NoMatch(done, d.open[k]) && NoMatch(done, d.close[k]) && NoMatch(escaped, d.close[k])
    requires closeStart == |Separated(k, done)| + |d.open[k]| + 1 + |escaped| + 1
    ensures Search(t, d.open[k]) == |Separated(k, done)| && Search(t, d.close[k]) == closeStart
  {
    OpenPosition(d, k, t, done, escaped, tail);
    ClosePosition(d, k, t, done, escaped, tail);
  }

  lemma WholeContent(d: Delimiters, k: nat, t: string, done: string, escaped: string, tail: string, closeStart: nat)
    requires SectionAt(d, k, t, done, escaped, tail)
    requires closeStart == |Separated(k, done)| + |d.open[k]| + 1 + |escaped| + 1
    ensures closeStart <= |t| && Content(t, |Separated(k, done)| + |d.open[k]|, closeStart) == escaped
  {
    ContentWhole(t, Separated(k, done), d.open[k], escaped, d.close[k] + tail);
  }

  /** With its close tag hidden in its own body, a section is cut short there. */
  lemma HiddenLocated(d: Delimiters, k: nat, t: string, done: string, escaped: string, tail: string,
                      found: nat, closeStart: nat)
    requires WellTagged(d) && SectionAt(d, k, t, done, escaped, tail)
    requires NoMatch(done, d.open[k]) && NoMatch(done, d.close[k]) && !NoMatch(escaped, d.close[k])
    requires found == Search(escaped, d.close[k]) && closeStart == |Separated(k, done)| + |d.open[k]| + 1 + found
    ensures Located(d, k, t, |done|, |Separated(k, done)|, closeStart, BeforeMatch(escaped, found))
  {
    HiddenPositions(d, k, t, done, escaped, tail, found, closeStart);
    SectionSeparator(d, k, t, done, escaped, tail);
    SearchStaysInside(escaped, d.close[k]);
    SectionContent(d, k, t, done, escaped, tail, found, closeStart);
  }

  lemma SearchStaysInside(text: string, tag: string)
    ensures Search(text, tag) <= |text|
  {
  }

  lemma HiddenPositions(d: Delimiters, k: nat, t: string, done: string, escaped: string, tail: string,
                        found: nat, closeStart: nat)
    requires WellTagged(d) && SectionAt(d, k, t, done, escaped, tail)
    requires NoMatch(done, d.open[k]) && NoMatch(done, d.close[k]) && !NoMatch(escaped, d.close[k])
    requires found == Search(escaped, d.close[k]) && closeStart == |Separated(k, done)| + |d.open[k]| + 1 + found
    ensures Search(t, d.open[k]) == |Separated(k, done)| && Search(t, d.close[k]) == closeStart
  {
    OpenPosition(d, k, t, done, escaped, tail);
    ClosePosition(d, k, t, done, escaped, tail);
  }

  lemma SectionContent(d: Delimiters, k: nat, t: string, done: string, escaped: string, tail: string,
                       found: nat, closeStart: nat)
    requires SectionAt(d, k, t, done, escaped, tail)
    requires found <= |escaped| && closeStart == |Separated(k, done)| + |d.open[k]| + 1 + found
    ensures closeStart <= |t|
      && Content(t, |Separated(k, done)| + |d.open[k]|, closeStart) == BeforeMatch(escaped, found)
  {
    ContentUpTo(t, Separated(k, done), d.open[k], escaped, d.close[k] + tail, found);
  }

  /** A delimiter hidden in an earlier body stops the parser. */
  lemma HiddenEarlier(d: Delimiters, decode: Decoder, k: nat, t: string, done: string, escaped: string, tail: string)
    requires WellTagged(d) && SectionAt(d, k, t, done, escaped, tail)
    requires !(NoMatch(done, d.open[k]) && NoMatch(done, d.close[k]))
    ensures ParseSection(d, decode, t, k, |done|).Err?
  {
    OpenPosition(d, k, t, done, escaped, tail);
    if NoMatch(done, d.open[k]) {
      ClosePosition(d, k, t, done, escaped, tail);
    } else {
      NothingBeforeFirst(k, done, d.open[k]);
    }
  }

  lemma NothingBeforeFirst(k: nat, done: string, tag: string)
    requires IsTag(tag) && !NoMatch(done, tag) && (k == 0 ==> done == "")
    ensures k > 0
  {
    if k == 0 { WholeLineMatch("", tag); }
  }

  lemma CutHidesNothing(d: Delimiters, escaped: string, tag: string)
    requires WellTagged(d) && IsDelimiter(d, tag) && !NoMatch(escaped, tag) && Search(escaped, tag) >= 0
    ensures !HiddenTag(Unescape(d, BeforeMatch(escaped, Search(escaped, tag))), tag)
  {
    TagIsBare(d, tag);
    var found := Search(escaped, tag);
    if found == 0 {
      WholeLineMatch("", tag);
    } else {
      CutBeforeMatch(escaped, tag, if escaped[found - 1] == '\n' then found - 1 else found);
    }
    UnescapedHidesNothing(d, BeforeMatch(escaped, found), tag);
  }

  // ---- the round trip ----

  /** What the proof uses of a decoder: it undoes escaping, and does not read the body where it was cut short. */
  ghost predicate Decodes(d: Delimiters, decode: Decoder, bodies: seq<string>) {
    |bodies| == 3 && forall k :: 0 <= k < 3 ==>
      var escaped := Escape(d, bodies[k]);
      decode(escaped) == bodies[k]
      && (!NoMatch(escaped, d.close[k]) && 0 <= Search(escaped, d.close[k]) ==>
          decode(BeforeMatch(escaped, Search(escaped, d.close[k]))) != bodies[k])
  }

  lemma UnescapingDecodes(d: Delimiters, bodies: seq<string>)
    requires WellTagged(d) && |bodies| == 3
    ensures Decodes(d, Unescaping(d), bodies)
  {
    forall k | 0 <= k < 3
      ensures Unescape(d, Escape(d, bodies[k])) == bodies[k]
      ensures var escaped := Escape(d, bodies[k]);
        !NoMatch(escaped, d.close[k]) && 0 <= Search(escaped, d.close[k]) ==>
          Unescape(d, BeforeMatch(escaped, Search(escaped, d.close[k]))) != bodies[k]
    {
      UnescapeInvertsEscape(d, bodies[k]);
      EscapeNoMatch(d, bodies[k], d.close[k]);
      if !NoMatch(Escape(d, bodies[k]), d.close[k]) && 0 <= Search(Escape(d, bodies[k]), d.close[k]) {
        CutHidesNothing(d, Escape(d, bodies[k]), d.close[k]);
      }
    }
  }

  ghost predicate ReadsFrom(d: Delimiters, decode: Decoder, bodies: seq<string>, k: nat)
    requires |bodies| == 3 && k <= 3
  {
    var t := Render(d, bodies);
    ParseSections(SectionsOf(d, decode, t), k, |Done(Sections(d, bodies), k)|, |t|) == Ok(bodies[k..])
  }

  lemma ReadsEnd(d: Delimiters, decode: Decoder, bodies: seq<string>)
    requires |bodies| == 3
    ensures ReadsFrom(d, decode, bodies, 3)
  {
    JoinedAt(Sections(d, bodies), 0);
    assert bodies[3..] == [];
  }

  lemma ReadsSection(d: Delimiters, decode: Decoder, bodies: seq<string>, k: nat)
    requires WellTagged(d) && Decodes(d, decode, bodies) && k < 3
    ensures ReadsFrom(d, decode, bodies, k) <==>
      CleanOpen(d, bodies, k) && CleanClose(d, bodies, k) && ReadsFrom(d, decode, bodies, k + 1)
  {
    assert bodies[k..][1..] == bodies[k + 1..] && bodies[k..][0] == bodies[k];
    SectionOutcome(d, decode, bodies, k);
    OneSectionOk(SectionsOf(d, decode, Render(d, bodies)), |Render(d, bodies)|, k, |Done(Sections(d, bodies), k)|,
      |Done(Sections(d, bodies), k + 1)|, bodies[k..], CleanOpen(d, bodies, k) && CleanClose(d, bodies, k));
  }

  /** What reading a section of a rendered response gives. */
  lemma SectionOutcome(d: Delimiters, decode: Decoder, bodies: seq<string>, k: nat)
    requires WellTagged(d) && Decodes(d, decode, bodies) && k < 3
    ensures var r := SectionsOf(d, decode, Render(d, bodies))(k, |Done(Sections(d, bodies), k)|);
      if CleanOpen(d, bodies, k) && CleanClose(d, bodies, k)
      then r == Ok((bodies[k], |Done(Sections(d, bodies), k + 1)|))
      else r.Ok? ==> r.value.0 != bodies[k]
  {
    if CleanOpen(d, bodies, k) && CleanClose(d, bodies, k) {
      CleanRead(d, decode, bodies, k);
    } else {
      HiddenRead(d, decode, bodies, k);
    }
  }

  lemma CleanRead(d: Delimiters, decode: Decoder, bodies: seq<string>, k: nat)
    requires WellTagged(d) && Decodes(d, decode, bodies) && k < 3
    requires CleanOpen(d, bodies, k) && CleanClose(d, bodies, k)
    ensures ParseSection(d, decode, Render(d, bodies), k, |Done(Sections(d, bodies), k)|)
      == Ok((bodies[k], |Done(Sections(d, bodies), k + 1)|))
  {
    var closeStart := CloseStart(d, bodies, k);
    CleanStep(d, decode, bodies, k, closeStart);
    assert decode(Escape(d, bodies[k])) == bodies[k];
  }

  lemma Layout(d: Delimiters, bodies: seq<string>, k: nat)
    requires |bodies| == 3 && k < 3
    ensures SectionAt(d, k, Render(d, bodies), Done(Sections(d, bodies), k), Escape(d, bodies[k]),
      Tail(Sections(d, bodies), k))
    ensures |Done(Sections(d, bodies), k + 1)| == |Separated(k, Done(Sections(d, bodies), k))|
      + |d.open[k]| + 1 + |Escape(d, bodies[k])| + 1 + |d.close[k]|
  {
    JoinedAt(Sections(d, bodies), k);
    Regroup(Head(Sections(d, bodies), k), d.open[k], Escape(d, bodies[k]), d.close[k], Tail(Sections(d, bodies), k));
  }

  lemma Regroup(head: string, open: string, body: string, close: string, tail: string)
    ensures head + (open + "\n" + body + "\n" + close) + tail == head + (open + "\n" + (body + "\n" + (close + tail)))
  {
  }

  lemma StepConditions(d: Delimiters, bodies: seq<string>, k: nat)
    requires WellTagged(d) && |bodies| == 3 && k < 3
    ensures NoMatch(Done(Sections(d, bodies), k), d.open[k]) <==> CleanOpen(d, bodies, k)
    ensures NoMatch(Done(Sections(d, bodies), k), d.close[k]) && NoMatch(Escape(d, bodies[k]), d.close[k])
      <==> CleanClose(d, bodies, k)
    ensures NoMatch(Escape(d, bodies[k]), d.close[k]) <==> !HiddenTag(bodies[k], d.close[k])
    ensures CountedOnce(d, k, Render(d, bodies))
  {
    DoneHides(d, bodies, k, d.open[k]);
    DoneHides(d, bodies, k, d.close[k]);
    EscapeNoMatch(d, bodies[k], d.close[k]);
    DelimitersCountOne(d, bodies, k, d.open[k]);
    DelimitersCountOne(d, bodies, k, d.close[k]);
  }

  lemma CloseStart(d: Delimiters, bodies: seq<string>, k: nat) returns (closeStart: nat)
    requires |bodies| == 3 && k < 3
    ensures closeStart + |d.close[k]| == |Done(Sections(d, bodies), k + 1)|
  {
    Layout(d, bodies, k);
    closeStart := |Done(Sections(d, bodies), k + 1)| - |d.close[k]|;
  }

  lemma CleanRenderLocated(d: Delimiters, bodies: seq<string>, k: nat, closeStart: nat)
    requires WellTagged(d) && |bodies| == 3 && k < 3 && CleanOpen(d, bodies, k) && CleanClose(d, bodies, k)
    requires closeStart + |d.close[k]| == |Done(Sections(d, bodies), k + 1)|
    ensures Located(d, k, Render(d, bodies), |Done(Sections(d, bodies), k)|,
      |Separated(k, Done(Sections(d, bodies), k))|, closeStart, Escape(d, bodies[k]))
  {
    Layout(d, bodies, k);
    StepConditions(d, bodies, k);
    CleanLocated(d, k, Render(d, bodies), Done(Sections(d, bodies), k), Escape(d, bodies[k]),
      Tail(Sections(d, bodies), k),
      closeStart);
  }

  /** A section in the clear is read back and the parser moves past it. */
  lemma CleanStep(d: Delimiters, decode: Decoder, bodies: seq<string>, k: nat, closeStart: nat)
    requires WellTagged(d) && |bodies| == 3 && k < 3 && CleanOpen(d, bodies, k) && CleanClose(d, bodies, k)
    requires closeStart + |d.close[k]| == |Done(Sections(d, bodies), k + 1)|
    ensures ParseSection(d, decode, Render(d, bodies), k, |Done(Sections(d, bodies), k)|)
      == Ok((decode(Escape(d, bodies[k])), closeStart + |d.close[k]|))
  {
    CleanRenderLocated(d, bodies, k, closeStart);
    StepConditions(d, bodies, k);
    LocatedReads(d, decode, k, Render(d, bodies), |Done(Sections(d, bodies), k)|,
      |Separated(k, Done(Sections(d, bodies), k))|, closeStart, Escape(d, bodies[k]));
  }

  lemma HiddenRenderLocated(d: Delimiters, bodies: seq<string>, k: nat, found: nat, closeStart: nat)
    requires WellTagged(d) && |bodies| == 3 && k < 3 && CleanOpen(d, bodies, k)
    requires NoMatch(Done(Sections(d, bodies), k), d.close[k]) && !NoMatch(Escape(d, bodies[k]), d.close[k])
    requires found == Search(Escape(d, bodies[k]), d.close[k])
    requires closeStart == |Separated(k, Done(Sections(d, bodies), k))| + |d.open[k]| + 1 + found
    ensures Located(d, k, Render(d, bodies), |Done(Sections(d, bodies), k)|,
      |Separated(k, Done(Sections(d, bodies), k))|, closeStart, BeforeMatch(Escape(d, bodies[k]), found))
  {
    Layout(d, bodies, k);
    StepConditions(d, bodies, k);
    HiddenLocated(d, k, Render(d, bodies), Done(Sections(d, bodies), k), Escape(d, bodies[k]),
      Tail(Sections(d, bodies), k),
      found, closeStart);
  }

  lemma HiddenInOwnBody(d: Delimiters, decode: Decoder, bodies: seq<string>, k: nat)
    requires WellTagged(d) && Decodes(d, decode, bodies) && |bodies| == 3 && k < 3 && CleanOpen(d, bodies, k)
    requires NoMatch(Done(Sections(d, bodies), k), d.close[k]) && !NoMatch(Escape(d, bodies[k]), d.close[k])
    ensures var r := ParseSection(d, decode, Render(d, bodies), k, |Done(Sections(d, bodies), k)|);
      r.Ok? ==> r.value.0 != bodies[k]
  {
    var escaped, tag := Escape(d, bodies[k]), d.close[k];
    SearchIsFirst(escaped, tag);
    var found: nat := Search(escaped, tag);
    var closeStart := |Separated(k, Done(Sections(d, bodies), k))| + |d.open[k]| + 1 + found;
    HiddenRenderLocated(d, bodies, k, found, closeStart);
    assert CountedOnce(d, k, Render(d, bodies)) && HiddenTag(bodies[k], tag) by { StepConditions(d, bodies, k); }
    LocatedReads(d, decode, k, Render(d, bodies), |Done(Sections(d, bodies), k)|,
      |Separated(k, Done(Sections(d, bodies), k))|, closeStart, BeforeMatch(escaped, found));
  }

  lemma HiddenRead(d: Delimiters, decode: Decoder, bodies: seq<string>, k: nat)
    requires WellTagged(d) && Decodes(d, decode, bodies) && k < 3
    requires !(CleanOpen(d, bodies, k) && CleanClose(d, bodies, k))
    ensures var r := ParseSection(d, decode, Render(d, bodies), k, |Done(Sections(d, bodies), k)|);
      r.Ok? ==> r.value.0 != bodies[k]
  {
    StepConditions(d, bodies, k);
    if NoMatch(Done(Sections(d, bodies), k), d.open[k]) && NoMatch(Done(Sections(d, bodies), k), d.close[k]) {
      HiddenInOwnBody(d, decode, bodies, k);
    } else {
      Layout(d, bodies, k);
      HiddenEarlier(d, decode, k, Render(d, bodies), Done(Sections(d, bodies), k), Escape(d, bodies[k]),
        Tail(Sections(d, bodies), k));
    }
  }

  /** A hidden delimiter makes the parser fail or read another body. */
  lemma HiddenStep(d: Delimiters, bodies: seq<string>, k: nat)
    requires WellTagged(d) && |bodies| == 3 && k < 3 && !(CleanOpen(d, bodies, k) && CleanClose(d, bodies, k))
    ensures var r := ParseSection(d, Unescaping(d), Render(d, bodies), k, |Done(Sections(d, bodies), k)|);
      r.Ok? ==> r.value.0 != bodies[k]
  {
    UnescapingDecodes(d, bodies);
    HiddenRead(d, Unescaping(d), bodies, k);
  }

  lemma OneSectionOk(read: SectionReader, end: nat, k: nat, previous: nat, next: nat, expected: seq<string>, good: bool)
    requires k < 3 && expected != []
    requires good ==> read(k, previous) == Ok((expected[0], next))
    requires !good ==> var r := read(k, previous); r.Ok? ==> r.value.0 != expected[0]
    ensures ParseSections(read, k, previous, end) == Ok(expected) <==>
      good && ParseSections(read, k + 1, next, end) == Ok(expected[1..])
  {
    var r := read(k, previous);
    if r.Ok? { PrependIsOk(r.value.0, ParseSections(read, k + 1, r.value.1, end), expected); }
  }

  lemma PrependIsOk(value: string, rest: Result<seq<string>, ResponseError>, expected: seq<string>)
    requires expected != []
    ensures Prepend([value], rest) == Ok(expected) <==> value == expected[0] && rest == Ok(expected[1..])
  {
    if rest.Ok? {
      assert ([value] + rest.value)[1..] == rest.value;
      assert expected == [expected[0]] + expected[1..];
    }
  }

  /** No body hides a delimiter the parser has still to find when it reaches that body. */
  ghost predicate NothingHidden(d: Delimiters, bodies: seq<string>)
    requires |bodies| == 3
  {
    forall k :: 0 <= k < 3 ==> CleanOpen(d, bodies, k) && CleanClose(d, bodies, k)
  }

  lemma UnwrapBare(t: string)
    requires t != "" && t[0] == '<' && t[|t| - 1] == '>'
    ensures Unwrap(t) == t
    ensures Unwrap("```xml\n" + t + "\n```") == t
    ensures Unwrap("```\n" + t + "\n```") == t
  {
    assert Trim(t) == t && FencedBody(t).None?;
    var xml, plain := "```xml\n" + t + "\n```", "```\n" + t + "\n```";
    assert Trim(xml) == xml && FencedBody(xml) == Some(t) by {
      assert xml[0] == '`' && xml[|xml| - 1] == '`' && xml[3] == 'x' && |xml| == 7 + |t| + 4;
      assert xml[..7] == "```xml\n" && xml[|xml| - 4..] == "\n```" && xml[7..|xml| - 4] == t;
    }
    assert Trim(plain) == plain && FencedBody(plain) == Some(t) by {
      assert plain[0] == '`' && plain[|plain| - 1] == '`' && |plain| == 4 + |t| + 4;
      assert plain[..4] == "```\n" && plain[|plain| - 4..] == "\n```" && plain[4..|plain| - 4] == t;
    }
  }

  lemma RenderIsBare(d: Delimiters, bodies: seq<string>)
    requires WellTagged(d)
    requires |bodies| == 3
    ensures var t := Render(d, bodies); t != "" && t[0] == '<' && t[|t| - 1] == '>'
  {
    assert Section(d, bodies, 0)[0] == '<';
    var last := Section(d, bodies, 2);
    assert last[|last| - 1] == '>';
    assert Render(d, bodies)[|Render(d, bodies)| - 1] == last[|last| - 1];
  }

  lemma {:induction false} ReadsAll(d: Delimiters, decode: Decoder, bodies: seq<string>, k: nat)
    requires WellTagged(d) && Decodes(d, decode, bodies) && k <= 3
    ensures ReadsFrom(d, decode, bodies, k)
      <==> forall j :: k <= j < 3 ==> CleanOpen(d, bodies, j) && CleanClose(d, bodies, j)
    decreases 3 - k
  {
    if k == 3 {
      ReadsEnd(d, decode, bodies);
    } else {
      ReadsSection(d, decode, bodies, k);
      ReadsAll(d, decode, bodies, k + 1);
    }
  }

  /** Parsing a rendered response returns its bodies exactly when nothing is hidden in them, fenced or not. */
  lemma RoundTripIff(d: Delimiters, bodies: seq<string>)
    requires WellTagged(d)
    requires |bodies| == 3
    ensures Parse(d, Render(d, bodies)) == Ok(bodies) <==> NothingHidden(d, bodies)
    ensures Parse(d, "```xml\n" + Render(d, bodies) + "\n```") == Parse(d, Render(d, bodies))
    ensures Parse(d, "```\n" + Render(d, bodies) + "\n```") == Parse(d, Render(d, bodies))
  {
    RenderIsBare(d, bodies);
    UnwrapBare(Render(d, bodies));
    UnescapingDecodes(d, bodies);
    ReadsAll(d, Unescaping(d), bodies, 0);
    assert bodies[0..] == bodies && Done(Sections(d, bodies), 0) == "";
  }

  predicate OnlyNewlineBreaks(body: string) {
    forall i :: 0 <= i < |body| ==> body[i] == '\n' || !IsTerminator(body[i])
  }

  /** In particular for bodies whose only line break is the newline. */
  lemma NewlineBodiesRoundTrip(d: Delimiters, bodies: seq<string>)
    requires WellTagged(d)
    requires |bodies| == 3
    requires forall k :: 0 <= k < 3 ==> OnlyNewlineBreaks(bodies[k])
    ensures Parse(d, Render(d, bodies)) == Ok(bodies)
  {
    forall i: nat, tag | i < 3 && IsDelimiter(d, tag) ensures !HiddenTag(bodies[i], tag) {
      TagIsBare(d, tag);
      SplitIntoOneLines(bodies[i]);
      forall line | line in Split(bodies[i]) && line != tag ensures NoMatch(line, tag) {
        SplitKeepsChars(bodies[i], line);
        WholeLineMatch(line, tag);
      }
    }
    forall j: nat | j < 3 ensures CleanOpen(d, bodies, j) && CleanClose(d, bodies, j) {
      assert IsDelimiter(d, d.open[j]) && IsDelimiter(d, d.close[j]);
    }
    RoundTripIff(d, bodies);
  }

  /** The two results for the response's own delimiters. */
  lemma ResponseRoundTrip(bodies: seq<string>)
    requires |bodies| == 3
    ensures Parse(RESPONSE, Render(RESPONSE, bodies)) == Ok(bodies) <==> NothingHidden(RESPONSE, bodies)
    ensures (forall k :: 0 <= k < 3 ==> OnlyNewlineBreaks(bodies[k])) ==>
      Parse(RESPONSE, "```xml\n" + Render(RESPONSE, bodies) + "\n```") == Ok(bodies)
  {
    ResponseIsWellTagged();
    RoundTripIff(RESPONSE, bodies);
    if forall k :: 0 <= k < 3 ==> OnlyNewlineBreaks(bodies[k]) {
      NewlineBodiesRoundTrip(RESPONSE, bodies);
    }
  }

  /** A close tag behind a lone carriage return is such a hidden delimiter: this response is not read back. */
  lemma HiddenTagBreaksRoundTrip(d: Delimiters)
    requires WellTagged(d)
    ensures var bodies := ["\r" + d.close[0], "", ""]; Parse(d, Render(d, bodies)) != Ok(bodies)
  {
    var tag := d.close[0];
    var body := "\r" + tag;
    TagIsBare(d, tag);
    assert body[1..1 + |tag|] == tag && MatchesAt(body, tag, 1);
    SplitPlain(body);
    assert body in Split(body) && body != tag;
    assert HiddenTag(body, tag);
    var bodies := [body, "", ""];
    assert HiddenTag(bodies[0], tag);
    assert !CleanClose(d, bodies, 0);
    RoundTripIff(d, bodies);
  }
}
