/**
  Updating a translation when only code fences of its counterpart changed: the prose is kept and
  the changed fences are spliced in.
 */
module MechanicalUpdate {
  import opened Wrappers
  import opened Sequences
  import opened Lines
  import opened LineEndings
  import opened Substitution
  import GapTokens

  /** A document's lines and its fences, as the Markdown parser finds them (lines from 0, end exclusive). */
  datatype Document = Document(lines: seq<string>, fences: seq<Range>) {
    ghost predicate Valid() {
      && Fit(fences, 0, |lines|) && (forall i :: 0 <= i < |fences| ==> fences[i].start < fences[i].end)
      && forall i :: 0 <= i < |lines| ==> OneLine(lines[i])
    }

    function Fences(): (r: seq<seq<string>>)
      requires Fit(fences, 0, |lines|)
      ensures |r| == |fences|
    {
      Pieces(lines, fences, 0)
    }

    function Prose(): (r: seq<seq<string>>)
      requires Fit(fences, 0, |lines|)
      ensures |r| == |fences| + 1
    {
      Gaps(lines, fences, 0)
    }
  }

  // ---- line lists ----

  /** The lines of a text, without the empty end of a final newline. */
  function LinesOf(markdown: string): seq<string> {
    var lines := Split(Normalize(markdown));
    if lines[|lines| - 1] == "" then lines[..|lines| - 1] else lines
  }

  function TextOf(lines: seq<string>): string { Join(lines) + "\n" }

  predicate AllOneLine(lines: seq<string>) { forall i :: 0 <= i < |lines| ==> OneLine(lines[i]) }

  function ChopEach(lines: seq<string>): seq<string> {
    seq(|lines|, i requires 0 <= i < |lines| => Chop(lines[i]))
  }

  /** Reading a span's text back takes one carriage return off each of its lines. */
  lemma LinesOfText(lines: seq<string>)
    requires lines != [] && AllOneLine(lines)
    ensures LinesOf(TextOf(lines)) == ChopEach(lines)
  {
    NormalizedText(lines);
    ChopAppended(lines);
    var chopped := ChopLines(lines + [""]);
    assert chopped[..|chopped| - 1] == ChopEach(lines) && chopped[|chopped| - 1] == "";
  }

  /** A text without a final newline keeps its last line as it is. */
  lemma LinesOfOpenText(lines: seq<string>)
    requires lines != [] && AllOneLine(lines) && lines[|lines| - 1] != ""
    ensures LinesOf(Join(lines)) == ChopLines(lines)
  {
    NormalizeJoin(lines);
    ChopKeepsOneLines(lines);
    SplitJoin(ChopLines(lines));
    LastIsNotChopped(lines);
  }

  lemma {:induction false} LastIsNotChopped(lines: seq<string>)
    requires lines != []
    ensures |ChopLines(lines)| == |lines| && ChopLines(lines)[|lines| - 1] == lines[|lines| - 1]
  {
    if |lines| > 1 { LastIsNotChopped(lines[1..]); }
  }

  lemma NormalizedText(lines: seq<string>)
    requires lines != [] && AllOneLine(lines)
    ensures Split(Normalize(TextOf(lines))) == ChopLines(lines + [""])
  {
    var all := lines + [""];
    TextSplits(lines);
    JoinSplit(TextOf(lines));
    NormalizeJoin(all);
    ChopKeepsOneLines(all);
    SplitJoin(ChopLines(all));
  }

  lemma SameText(a: seq<string>, b: seq<string>)
    requires a != [] && b != [] && AllOneLine(a) && AllOneLine(b)
    ensures TextOf(a) == TextOf(b) <==> a == b
  {
    if TextOf(a) == TextOf(b) { SameTextSameLines(a, b); }
  }

  // ---- tokens ----

  function Digit(d: nat): char
    requires d < 10
  {
    '0' + d as char
  }

  function Decimal(n: nat): (r: string)
    ensures r != ""
  {
    if n < 10 then [Digit(n)] else Decimal(n / 10) + [Digit(n % 10)]
  }

  lemma {:induction false} DecimalInjective(a: nat, b: nat)
    requires Decimal(a) == Decimal(b)
    ensures a == b
  {
    var s, t := Decimal(a), Decimal(b);
    assert s[|s| - 1] == Digit(a % 10) && t[|t| - 1] == Digit(b % 10);
    assert a % 10 == b % 10 && (a >= 10 <==> |s| > 1) && (b >= 10 <==> |t| > 1);
    if a >= 10 && b >= 10 {
      assert Decimal(a / 10) == s[..|s| - 1] && Decimal(b / 10) == t[..|t| - 1];
      DecimalInjective(a / 10, b / 10);
    }
  }

  const TOKEN_PREFIX := "DSH_TRANSLATION_CODE_"

  function Token(i: nat): string { TOKEN_PREFIX + Decimal(i) }

  function Tokens(n: nat): (r: seq<string>)
    ensures |r| == n
  {
    seq(n, i requires 0 <= i < n => Token(i))
  }

  lemma TokensDistinct(n: nat)
    ensures Distinct(Tokens(n))
  {
    forall i, j | 0 <= i < j < n ensures Tokens(n)[i] != Tokens(n)[j] {
      if Token(i) == Token(j) {
        assert Decimal(i) == Token(i)[|TOKEN_PREFIX|..] && Decimal(j) == Token(j)[|TOKEN_PREFIX|..];
        DecimalInjective(i, j);
      }
    }
  }

  lemma {:induction false} DecimalIsPlain(n: nat)
    ensures forall i :: 0 <= i < |Decimal(n)| ==> '0' <= Decimal(n)[i] <= '9'
  {
    if n >= 10 { DecimalIsPlain(n / 10); }
  }

  lemma TokenLine(i: nat)
    ensures LinesOf(Token(i) + "\n") == [Token(i)]
  {
    DecimalIsPlain(i);
    assert OneLine(TOKEN_PREFIX);
    assert Token(i)[|Token(i)| - 1] == Decimal(i)[|Decimal(i)| - 1];
    LinesOfText([Token(i)]);
  }

  // ---- replacing fences ----

  datatype UpdateError = UnknownSpan

  /** The fences once some of them are replaced by other texts. */
  function Replaced(doc: Document, replacements: map<nat, string>): (r: seq<seq<string>>)
    requires Fit(doc.fences, 0, |doc.lines|)
    ensures |r| == |doc.fences|
  {
    seq(|doc.fences|, i requires 0 <= i < |doc.fences| =>
      if i in replacements then LinesOf(replacements[i]) else doc.Fences()[i])
  }

  /** The source's loop, from the last replaced fence to the first. */
  method ReplaceSpanTexts(doc: Document, replacements: map<nat, string>) returns (r: Result<string, UpdateError>)
    requires doc.Valid()
    ensures (exists i :: i in replacements && i >= |doc.fences|) ==> r == Err(UnknownSpan)
    ensures (forall i :: i in replacements ==> i < |doc.fences|) ==>
      r == Ok(TextOf(Weave(doc.lines, doc.fences, Replaced(doc, replacements), 0)))
  {
    if i :| i in replacements && i >= |doc.fences| { return Err(UnknownSpan); }
    var lines := doc.lines;
    ghost var values := Replaced(doc, replacements);
    NothingSpliced(doc.lines, doc.fences, values);
    for i := |doc.fences| downto 0
      invariant SplicedFrom(doc.lines, doc.fences, values, i, lines)
    {
      SpliceStep(doc.lines, doc.fences, values, i + 1, lines);
      PieceAt(doc.lines, doc.fences, 0, i);
      if i in replacements {
        lines := lines[..doc.fences[i].start] + LinesOf(replacements[i]) + lines[doc.fences[i].end..];
      }
    }
    AllSpliced(doc.lines, doc.fences, values, lines);
    return Ok(TextOf(lines));
  }

  /** The document with every fence replaced by its token line. */
  function MaskOf(doc: Document): string
    requires Fit(doc.fences, 0, |doc.lines|)
  {
    TextOf(GapTokens.Masked(doc.Prose(), Tokens(|doc.fences|)))
  }

  lemma TokensReplace(doc: Document, replacements: map<nat, string>)
    requires Fit(doc.fences, 0, |doc.lines|)
    requires forall i :: 0 <= i < |doc.fences| ==> i in replacements && replacements[i] == Token(i) + "\n"
    ensures Replaced(doc, replacements) == GapTokens.Singles(Tokens(|doc.fences|))
  {
    var tokens := Tokens(|doc.fences|);
    forall i | 0 <= i < |doc.fences| ensures Replaced(doc, replacements)[i] == GapTokens.Singles(tokens)[i] {
      TokenLine(i);
      GapTokens.SinglesAt(tokens, i);
    }
  }

  method MaskCodeSpans(doc: Document) returns (r: string)
    requires doc.Valid()
    ensures r == MaskOf(doc)
  {
    var replacements := map i | 0 <= i < |doc.fences| :: i as nat := Token(i) + "\n";
    TokensReplace(doc, replacements);
    WeaveIsInterleave(doc.lines, doc.fences, Replaced(doc, replacements), 0);
    var masked := ReplaceSpanTexts(doc, replacements);
    r := masked.value;
  }

  // ---- the update ----

  /** The change is confined to fences, and the counterpart still has the confirmed ones. */
  ghost predicate CodeOnly(confirmed: Document, current: Document, counterpart: Document)
    requires confirmed.Valid() && current.Valid() && counterpart.Valid()
  {
    && 0 < |confirmed.fences| == |current.fences| == |counterpart.fences|
    && MaskOf(confirmed) == MaskOf(current)
    && confirmed.Fences() == counterpart.Fences() && current.Fences() != confirmed.Fences()
  }

  /** The counterpart's new fences: a changed fence is read back from its text. */
  function Updated(confirmed: Document, current: Document): (r: seq<seq<string>>)
    requires Fit(confirmed.fences, 0, |confirmed.lines|) && Fit(current.fences, 0, |current.lines|)
    requires |confirmed.fences| == |current.fences|
    ensures |r| == |current.fences|
  {
    seq(|current.fences|, i requires 0 <= i < |current.fences| =>
      if current.Fences()[i] != confirmed.Fences()[i] then ChopEach(current.Fences()[i]) else current.Fences()[i])
  }

  function FenceText(doc: Document, i: nat): string
    requires Fit(doc.fences, 0, |doc.lines|) && i < |doc.fences|
  {
    TextOf(doc.Fences()[i])
  }

  lemma FenceIsLines(doc: Document, i: nat)
    requires doc.Valid() && i < |doc.fences|
    ensures doc.Fences()[i] != [] && AllOneLine(doc.Fences()[i])
  {
    PieceAt(doc.lines, doc.fences, 0, i);
  }

  lemma SameFenceText(a: Document, b: Document, i: nat)
    requires a.Valid() && b.Valid() && i < |a.fences| && i < |b.fences|
    ensures FenceText(a, i) == FenceText(b, i) <==> a.Fences()[i] == b.Fences()[i]
  {
    FenceIsLines(a, i);
    FenceIsLines(b, i);
    SameText(a.Fences()[i], b.Fences()[i]);
  }

  /** The fences whose text changed, with their new text. */
  function Changed(confirmed: Document, current: Document): map<nat, string>
    requires Fit(confirmed.fences, 0, |confirmed.lines|) && Fit(current.fences, 0, |current.lines|)
    requires |confirmed.fences| == |current.fences|
  {
    map i | 0 <= i < |current.fences|
      && FenceText(current, i) != FenceText(confirmed, i) :: i as nat := FenceText(current, i)
  }

  lemma ChangedFences(confirmed: Document, current: Document, counterpart: Document)
    requires confirmed.Valid() && current.Valid() && counterpart.Valid()
    requires |confirmed.fences| == |current.fences| == |counterpart.fences|
      && confirmed.Fences() == counterpart.Fences()
    ensures Replaced(counterpart, Changed(confirmed, current)) == Updated(confirmed, current)
    ensures Changed(confirmed, current) == map[] <==> current.Fences() == confirmed.Fences()
  {
    var changed := Changed(confirmed, current);
    forall i | 0 <= i < |current.fences|
      ensures i in changed <==> current.Fences()[i] != confirmed.Fences()[i]
      ensures Replaced(counterpart, changed)[i] == Updated(confirmed, current)[i]
    {
      SameFenceText(current, confirmed, i);
      FenceIsLines(current, i);
      LinesOfText(current.Fences()[i]);
    }
  }

  method ComputeMechanicalUpdate(confirmed: Document, current: Document, counterpart: Document)
      returns (r: Option<string>)
    requires confirmed.Valid() && current.Valid() && counterpart.Valid()
    ensures r.Some? <==> CodeOnly(confirmed, current, counterpart)
    ensures r.Some? ==> r.value == TextOf(Weave(counterpart.lines, counterpart.fences, Updated(confirmed, current), 0))
  {
    if |confirmed.fences| == 0 || |confirmed.fences| != |current.fences|
      || |confirmed.fences| != |counterpart.fences| { return None; }
    var confirmedMask := MaskCodeSpans(confirmed);
    var currentMask := MaskCodeSpans(current);
    if confirmedMask != currentMask { return None; }
    for i := 0 to |confirmed.fences|
      invariant forall j :: 0 <= j < i ==> confirmed.Fences()[j] == counterpart.Fences()[j]
    {
      SameFenceText(confirmed, counterpart, i);
      if FenceText(confirmed, i) != FenceText(counterpart, i) { return None; }
    }
    assert confirmed.Fences() == counterpart.Fences();
    ChangedFences(confirmed, current, counterpart);
    var changed := Changed(confirmed, current);
    if changed == map[] { return None; }
    var updated := ReplaceSpanTexts(counterpart, changed);
    return Some(updated.value);
  }

  // ---- what the update means ----

  /** The update keeps the counterpart's prose line by line and makes each fence the given one. */
  lemma UpdateKeepsProse(counterpart: Document, fences: seq<seq<string>>) returns (moved: seq<Range>)
    requires counterpart.Valid() && |fences| == |counterpart.fences|
    ensures var updated := Document(Weave(counterpart.lines, counterpart.fences, fences, 0), moved);
      && Fit(moved, 0, |updated.lines|)
      && updated.Prose() == counterpart.Prose() && updated.Fences() == fences
  {
    var woven := Weave(counterpart.lines, counterpart.fences, fences, 0);
    moved := Moved(counterpart.fences, fences, 0, 0, |counterpart.lines|);
    assert [] + woven == woven;
    WovenParts(counterpart.lines, counterpart.fences, fences, 0, [], woven);
  }

  /** The new fences are the current source's, exactly when no line of a changed fence ends in a carriage return. */
  lemma FencesAreCurrentIff(confirmed: Document, current: Document)
    requires confirmed.Valid() && current.Valid() && |confirmed.fences| == |current.fences|
    ensures Updated(confirmed, current) == current.Fences() <==>
      forall i, k :: 0 <= i < |current.fences| && current.Fences()[i] != confirmed.Fences()[i]
        && 0 <= k < |current.Fences()[i]|
        ==> !EndsInCr(current.Fences()[i][k])
  {
    forall i | 0 <= i < |current.fences|
      ensures ChopEach(current.Fences()[i]) == current.Fences()[i] <==>
        forall k :: 0 <= k < |current.Fences()[i]| ==> !EndsInCr(current.Fences()[i][k])
    {
      ChopEachIdentity(current.Fences()[i]);
    }
    if Updated(confirmed, current) == current.Fences() {
      forall i | 0 <= i < |current.fences| ensures Updated(confirmed, current)[i] == current.Fences()[i] { }
    }
  }

  /** Such a line comes from a doubled carriage return; the update then writes a fence that the source does not have. */
  lemma DoubledReturnIsLost() returns (text: string, confirmed: Document, current: Document)
    ensures text == "```\na\r\r\n```\n" && current.lines == LinesOf(text)
    ensures confirmed.Valid() && current.Valid() && |confirmed.fences| == |current.fences| == 1
    ensures MaskOf(confirmed) == MaskOf(current) && Updated(confirmed, current) != current.Fences()
  {
    text := DoubledReturnText();
    var fence, former := ["```", "a\r", "```"], ["```", "b", "```"];
    confirmed, current := Document(former, [Range(0, 3)]), Document(fence, [Range(0, 3)]);
    FenceIsValid(former);
    FenceIsValid(fence);
    ReturnIsLost(former, fence, 1);
  }

  lemma DoubledReturnText() returns (text: string)
    ensures text == "```\na\r\r\n```\n" && LinesOf(text) == ["```", "a\r", "```"]
  {
    var doubled := ["```", "a\r\r", "```"];
    text := TextOf(doubled);
    LinesOfText(doubled);
    assert Chop("a\r\r") == "a\r\r"[..2] == "a\r" && Chop("```") == "```";
    assert doubled[1..] == ["a\r\r", "```"] && doubled[1..][1..] == ["```"];
  }

  lemma ReturnIsLost(former: seq<string>, fence: seq<string>, k: nat)
    requires k < |fence| == |former| && former[k] != fence[k] && EndsInCr(fence[k])
    ensures var confirmed, current := Document(former, [Range(0, |former|)]), Document(fence, [Range(0, |fence|)]);
      MaskOf(confirmed) == MaskOf(current) && Updated(confirmed, current) != current.Fences()
  {
    OneFence([], former, []);
    OneFence([], fence, []);
    assert [] + former + [] == former && [] + fence + [] == fence;
    assert |Chop(fence[k])| < |fence[k]|;
    var confirmed, current := Document(former, [Range(0, |former|)]), Document(fence, [Range(0, |fence|)]);
    assert current.Fences()[0] != confirmed.Fences()[0];
    assert Updated(confirmed, current)[0] == ChopEach(fence) && ChopEach(fence)[k] != fence[k];
  }

  lemma FenceIsValid(lines: seq<string>)
    requires |lines| == 3 && OneLine(lines[0]) && OneLine(lines[1]) && OneLine(lines[2])
    ensures Document(lines, [Range(0, 3)]).Valid()
  {
  }

  lemma OneFence(above: seq<string>, fence: seq<string>, below: seq<string>)
    ensures var doc := Document(above + fence + below, [Range(|above|, |above| + |fence|)]);
      doc.Fences() == [fence] && doc.Prose() == [above, below]
  {
    var lines, end := above + fence + below, |above| + |fence|;
    assert lines[|above|..end] == fence && lines[0..|above|] == above && lines[end..] == below;
    assert [Range(|above|, end)][1..] == [];
    assert Pieces(lines, [], end) == [] && Gaps(lines, [], end) == [below];
  }

  lemma ChopEachIdentity(lines: seq<string>)
    ensures ChopEach(lines) == lines <==> forall k :: 0 <= k < |lines| ==> !EndsInCr(lines[k])
  {
    if ChopEach(lines) == lines {
      forall k | 0 <= k < |lines| ensures !EndsInCr(lines[k]) {
        assert |ChopEach(lines)[k]| == |lines[k]|;
      }
    } else {
      var k :| 0 <= k < |lines| && ChopEach(lines)[k] != lines[k];
    }
  }

  lemma MasksAreLines(doc: Document)
    requires doc.Valid() && doc.fences != []
    ensures var mask := GapTokens.Masked(doc.Prose(), Tokens(|doc.fences|)); mask != [] && AllOneLine(mask)
  {
    var values := GapTokens.Singles(Tokens(|doc.fences|));
    WeaveIsInterleave(doc.lines, doc.fences, values, 0);
    forall i | 0 <= i < |values| ensures values[i] != [] && AllOneLine(values[i]) {
      GapTokens.SinglesAt(Tokens(|doc.fences|), i);
      DecimalIsPlain(i);
      assert OneLine(TOKEN_PREFIX);
    }
    WovenLines(doc.lines, doc.fences, values, 0);
  }

  lemma {:induction false} WovenLines(lines: seq<string>, ranges: seq<Range>, values: seq<seq<string>>, from: nat)
    requires Fit(ranges, from, |lines|) && |values| == |ranges| && AllOneLine(lines)
    requires forall i :: 0 <= i < |values| ==> values[i] != [] && AllOneLine(values[i])
    ensures AllOneLine(Weave(lines, ranges, values, from))
      && (ranges != [] ==> Weave(lines, ranges, values, from) != [])
    decreases |ranges|
  {
    FitsInText(ranges, from, |lines|);
    if ranges != [] { WovenLines(lines, ranges[1..], values[1..], ranges[0].end); }
  }

  /**
    Equal masks mean untouched prose, as long as no token line already stands next to its own
    fence in the confirmed source.
   */
  lemma MaskMeansProse(confirmed: Document, current: Document)
    requires confirmed.Valid() && current.Valid() && 0 < |confirmed.fences| == |current.fences|
    requires GapTokens.Unambiguous(confirmed.Prose(), Tokens(|confirmed.fences|))
    ensures MaskOf(confirmed) == MaskOf(current) <==> confirmed.Prose() == current.Prose()
  {
    if MaskOf(confirmed) == MaskOf(current) {
      var tokens := Tokens(|confirmed.fences|);
      MasksAreLines(confirmed);
      MasksAreLines(current);
      SameText(GapTokens.Masked(confirmed.Prose(), tokens), GapTokens.Masked(current.Prose(), tokens));
      TokensDistinct(|confirmed.fences|);
      GapTokens.MaskDeterminesGaps(confirmed.Prose(), current.Prose(), tokens);
    }
  }

  /** The document with this prose and these fences. */
  function DocumentOf(prose: seq<seq<string>>, fences: seq<seq<string>>): Document
    requires |prose| == |fences| + 1
  {
    Document(Interleave(prose, fences), Places(prose, fences, 0))
  }

  lemma DocumentOfParts(prose: seq<seq<string>>, fences: seq<seq<string>>)
    requires |prose| == |fences| + 1
    requires (forall g :: g in prose ==> AllOneLine(g)) && forall f :: f in fences ==> f != [] && AllOneLine(f)
    ensures var doc := DocumentOf(prose, fences); doc.Valid() && doc.Prose() == prose && doc.Fences() == fences
  {
    var doc := DocumentOf(prose, fences);
    assert [] + doc.lines == doc.lines;
    InterleavedParts(prose, fences, [], doc.lines);
    forall i | 0 <= i < |doc.fences| ensures doc.fences[i].start < doc.fences[i].end {
      PieceAt(doc.lines, doc.fences, 0, i);
      assert fences[i] in fences;
    }
    forall i | 0 <= i < |doc.lines| ensures OneLine(doc.lines[i]) {
      InterleaveMembers(prose, fences, doc.lines[i]);
    }
  }

  /** What a mask can be read as is made of single lines, as the masked document is. */
  lemma OtherProseIsLines(confirmed: Document, other: seq<seq<string>>)
    requires confirmed.Valid() && confirmed.fences != [] && |other| == |confirmed.fences| + 1
    requires GapTokens.Masked(other, Tokens(|confirmed.fences|))
      == GapTokens.Masked(confirmed.Prose(), Tokens(|confirmed.fences|))
    ensures forall g :: g in other ==> AllOneLine(g)
  {
    MasksAreLines(confirmed);
    forall g, i | g in other && 0 <= i < |g| ensures OneLine(g[i]) {
      InterleaveMembers(other, GapTokens.Singles(Tokens(|confirmed.fences|)), g[i]);
    }
  }

  lemma FencesAreLines(doc: Document)
    requires doc.Valid()
    ensures forall f :: f in doc.Fences() ==> f != [] && AllOneLine(f)
  {
    forall i | 0 <= i < |doc.fences| ensures doc.Fences()[i] != [] && AllOneLine(doc.Fences()[i]) {
      PieceAt(doc.lines, doc.fences, 0, i);
    }
  }

  /** An ambiguous source has a twin: a document with the same mask, the same fences and other prose. */
  lemma AmbiguousMaskHasTwin(confirmed: Document) returns (twin: Document)
    requires confirmed.Valid() && confirmed.fences != []
    requires !GapTokens.Unambiguous(confirmed.Prose(), Tokens(|confirmed.fences|))
    ensures twin.Valid() && |twin.fences| == |confirmed.fences| && twin.Fences() == confirmed.Fences()
    ensures MaskOf(twin) == MaskOf(confirmed) && twin.Prose() != confirmed.Prose()
  {
    var prose, tokens := confirmed.Prose(), Tokens(|confirmed.fences|);
    var i :| 0 <= i < |tokens| && (tokens[i] in prose[i] || tokens[i] in prose[i + 1]);
    var other := GapTokens.OtherReading(prose, tokens, i);
    OtherProseIsLines(confirmed, other);
    FencesAreLines(confirmed);
    DocumentOfParts(other, confirmed.Fences());
    twin := DocumentOf(other, confirmed.Fences());
  }

  /** Equal masks mean untouched prose exactly for the sources without a token line next to its own fence. */
  lemma MaskMeansProseIff(confirmed: Document)
    requires confirmed.Valid() && confirmed.fences != []
    ensures GapTokens.Unambiguous(confirmed.Prose(), Tokens(|confirmed.fences|)) <==>
      forall current: Document :: current.Valid() && |current.fences| == |confirmed.fences| ==>
        (MaskOf(confirmed) == MaskOf(current) <==> confirmed.Prose() == current.Prose())
  {
    if GapTokens.Unambiguous(confirmed.Prose(), Tokens(|confirmed.fences|)) {
      forall current: Document | current.Valid() && |current.fences| == |confirmed.fences|
        ensures MaskOf(confirmed) == MaskOf(current) <==> confirmed.Prose() == current.Prose()
      {
        MaskMeansProse(confirmed, current);
      }
    } else {
      var twin := AmbiguousMaskHasTwin(confirmed);
    }
  }

  lemma TokenLineAround(token: string, fence: seq<string>)
    requires token == Token(0) && fence != [] && AllOneLine(fence)
    ensures var below := Document([] + fence + [token], [Range(0, |fence|)]);
      var above := Document([token] + fence + [], [Range(1, 1 + |fence|)]);
      below.Valid() && above.Valid() && MaskOf(below) == MaskOf(above) && below.Prose() != above.Prose()
  {
    DecimalIsPlain(0);
    assert OneLine(TOKEN_PREFIX) && Tokens(1) == [token];
    OneFence([], fence, [token]);
    OneFence([token], fence, []);
    GapTokens.TokenBeside(token);
    assert [[], [token]][0] != [[token], []][0];
  }

  /** A prose line that reads like a token hides an edit: one fence moved over it leaves the mask as it was. */
  lemma TokenLineHidesAnEdit() returns (confirmed: Document, current: Document)
    ensures confirmed.Valid() && current.Valid() && |confirmed.fences| == |current.fences| == 1
    ensures MaskOf(confirmed) == MaskOf(current) && confirmed.Prose() != current.Prose()
  {
    var token, fence := Token(0), ["```", "code", "```"];
    TokenLineAround(token, fence);
    confirmed := Document([] + fence + [token], [Range(0, |fence|)]);
    current := Document([token] + fence + [], [Range(1, 1 + |fence|)]);
  }
}
