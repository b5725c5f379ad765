/**
  Prose lines of a page once HTML comments are taken out. Comments are cut into column ranges
  line by line; a line survives when no comment touches it or some visible text is left of it.
  The ranges of a line may overlap and come in any order: they cover exactly the characters inside
  comments, and what is collected between them is exactly the rest. Line and column together are
  the offset of a character in the page.
 */
module CommentLines {
  import opened Lines
  import opened Substitution

  predicate Covers(ranges: seq<Range>, k: nat) {
    exists i :: 0 <= i < |ranges| && ranges[i].start <= k < ranges[i].end
  }

  // ---- cutting comments into lines ----

  function Max(a: nat, b: nat): nat { if a < b then b else a }

  function Min(a: nat, b: nat): nat { if a < b then a else b }

  predicate Touches(comment: Range, offset: nat, length: nat) {
    || Max(comment.start, offset) < Min(comment.end, offset + length)
    || (length == 0 && comment.start <= offset < comment.end)
  }

  /** What one comment covers of the line of that length at that offset. */
  function Clip(comment: Range, offset: nat, length: nat): (r: seq<Range>)
    ensures forall i :: 0 <= i < |r| ==> r[i].start <= r[i].end <= length
  {
    if !Touches(comment, offset, length) then []
    else [Range(Max(comment.start, offset) - offset, Min(comment.end, offset + length) - offset)]
  }

  /** The columns that the comments cover in that line. */
  function LineRanges(comments: seq<Range>, offset: nat, length: nat): (r: seq<Range>)
    ensures forall i :: 0 <= i < |r| ==> r[i].start <= r[i].end <= length
  {
    if comments == [] then []
    else LineRanges(comments[..|comments| - 1], offset, length) + Clip(comments[|comments| - 1], offset, length)
  }

  method CutLine(comments: seq<Range>, offset: nat, length: nat) returns (ranges: seq<Range>)
    ensures ranges == LineRanges(comments, offset, length)
  {
    ranges := [];
    for i := 0 to |comments|
      invariant ranges == LineRanges(comments[..i], offset, length)
    {
      assert comments[..i + 1][..i] == comments[..i];
      var from := Max(comments[i].start, offset);
      var to := Min(comments[i].end, offset + length);
      if from < to || (length == 0 && comments[i].start <= offset < comments[i].end) {
        ranges := ranges + [Range(from - offset, to - offset)];
      }
    }
    assert comments[..|comments|] == comments;
  }

  lemma CoversOne(range: Range, k: nat)
    ensures Covers([range], k) <==> range.start <= k < range.end
  {
    assert [range][0] == range;
  }

  lemma ClipCovers(comment: Range, offset: nat, length: nat, k: nat)
    requires k < length
    ensures Covers(Clip(comment, offset, length), k) <==> comment.start <= offset + k < comment.end
  {
    if Touches(comment, offset, length) { CoversOne(Clip(comment, offset, length)[0], k); }
  }

  /** A column is covered exactly when its character lies in a comment. */
  lemma {:induction false} RangesCoverComments(comments: seq<Range>, offset: nat, length: nat, k: nat)
    requires k < length
    ensures Covers(LineRanges(comments, offset, length), k) <==> Covers(comments, offset + k)
  {
    if comments != [] {
      var front, last := comments[..|comments| - 1], comments[|comments| - 1];
      assert comments == front + [last];
      RangesCoverComments(front, offset, length, k);
      CoversConcat(front, [last], offset + k);
      CoversOne(last, offset + k);
      CoversConcat(LineRanges(front, offset, length), Clip(last, offset, length), k);
      ClipCovers(last, offset, length, k);
    }
  }

  lemma CoversConcat(a: seq<Range>, b: seq<Range>, k: nat)
    ensures Covers(a + b, k) <==> Covers(a, k) || Covers(b, k)
  {
    var all := a + b;
    if Covers(a, k) {
      var i :| 0 <= i < |a| && a[i].start <= k < a[i].end;
      assert all[i] == a[i];
    }
    if Covers(b, k) {
      var i :| 0 <= i < |b| && b[i].start <= k < b[i].end;
      assert all[|a| + i] == b[i];
    }
    if Covers(all, k) {
      var i :| 0 <= i < |all| && all[i].start <= k < all[i].end;
      assert all[i] == if i < |a| then a[i] else b[i - |a|];
    }
  }

  // ---- the visible rest of a line ----

  predicate SortedByStart(ranges: seq<Range>) {
    forall i, j :: 0 <= i < j < |ranges| ==> ranges[i].start <= ranges[j].start
  }

  function Insert(range: Range, ranges: seq<Range>): seq<Range> {
    if ranges == [] || range.start <= ranges[0].start then [range] + ranges
    else [ranges[0]] + Insert(range, ranges[1..])
  }

  function SortRanges(ranges: seq<Range>): seq<Range> {
    if ranges == [] then [] else Insert(ranges[0], SortRanges(ranges[1..]))
  }

  lemma {:induction false} InsertKeeps(range: Range, ranges: seq<Range>)
    requires SortedByStart(ranges)
    ensures SortedByStart(Insert(range, ranges))
    ensures forall r :: r in Insert(range, ranges) <==> r == range || r in ranges
  {
    if ranges != [] && range.start > ranges[0].start {
      InsertKeeps(range, ranges[1..]);
      assert ranges == [ranges[0]] + ranges[1..];
      var rest := Insert(range, ranges[1..]);
      assert forall i :: 0 <= i < |rest| ==> rest[i] in rest;
    }
  }

  lemma {:induction false} SortKeeps(ranges: seq<Range>)
    ensures SortedByStart(SortRanges(ranges))
    ensures forall r :: r in SortRanges(ranges) <==> r in ranges
  {
    if ranges != [] {
      SortKeeps(ranges[1..]);
      InsertKeeps(ranges[0], SortRanges(ranges[1..]));
      assert ranges == [ranges[0]] + ranges[1..];
    }
  }

  lemma SortCovers(ranges: seq<Range>, k: nat)
    ensures Covers(SortRanges(ranges), k) <==> Covers(ranges, k)
  {
    SortKeeps(ranges);
    var sorted := SortRanges(ranges);
    if Covers(ranges, k) {
      var i :| 0 <= i < |ranges| && ranges[i].start <= k < ranges[i].end;
      assert ranges[i] in sorted;
    }
    if Covers(sorted, k) {
      var i :| 0 <= i < |sorted| && sorted[i].start <= k < sorted[i].end;
      assert sorted[i] in ranges;
    }
  }

  /** The characters of a line from column `k` on that no range covers. */
  function Outside(raw: string, ranges: seq<Range>, k: nat): string
    requires k <= |raw|
    decreases |raw| - k
  {
    if k == |raw| then "" else (if Covers(ranges, k) then "" else [raw[k]]) + Outside(raw, ranges, k + 1)
  }

  lemma {:induction false} OutsideUncovered(raw: string, ranges: seq<Range>, from: nat, to: nat)
    requires from <= to <= |raw| && forall k :: from <= k < to ==> !Covers(ranges, k)
    ensures Outside(raw, ranges, from) == raw[from..to] + Outside(raw, ranges, to)
    decreases |raw| - from
  {
    if from < to {
      assert !Covers(ranges, from);
      OutsideUncovered(raw, ranges, from + 1, to);
    }
  }

  lemma {:induction false} OutsideCovered(raw: string, ranges: seq<Range>, from: nat, to: nat)
    requires from <= to <= |raw| && forall k :: from <= k < to ==> Covers(ranges, k)
    ensures Outside(raw, ranges, from) == Outside(raw, ranges, to)
    decreases |raw| - from
  {
    if from < to { OutsideCovered(raw, ranges, from + 1, to); }
  }

  lemma {:induction false} OutsideSame(raw: string, a: seq<Range>, b: seq<Range>, from: nat)
    requires from <= |raw| && forall k :: from <= k < |raw| ==> (Covers(a, k) <==> Covers(b, k))
    ensures Outside(raw, a, from) == Outside(raw, b, from)
    decreases |raw| - from
  {
    if from < |raw| {
      assert Covers(a, from) <==> Covers(b, from);
      OutsideSame(raw, a, b, from + 1);
    }
  }

  /** One range passed: the text up to it is visible, its own text is not. */
  lemma PassRange(raw: string, ranges: seq<Range>, cursor: nat)
    requires ranges != [] && SortedByStart(ranges) && cursor <= |raw| && ranges[0].end <= |raw|
      && ranges[0].start <= ranges[0].end
    ensures Outside(raw, ranges, cursor)
      == (if cursor < ranges[0].start then raw[cursor..ranges[0].start] else "")
        + Outside(raw, ranges[1..], Max(cursor, ranges[0].end))
  {
    var first, rest := ranges[0], ranges[1..];
    var seen := Max(cursor, first.start);
    forall k | cursor <= k < first.start ensures !Covers(ranges, k) { }
    OutsideUncovered(raw, ranges, cursor, seen);
    var next := Max(cursor, first.end);
    OutsideCovered(raw, ranges, seen, next);
    forall k | next <= k < |raw| ensures Covers(ranges, k) <==> Covers(rest, k) {
      CoversConcat([first], rest, k);
      assert ranges == [first] + rest;
    }
    OutsideSame(raw, ranges, rest, next);
  }

  predicate IsBlank(s: string) { forall i :: 0 <= i < |s| ==> IsSpace(s[i]) }

  /** The loop's state: what is visible so far, and what remains to be read. */
  ghost predicate VisibleSoFar(raw: string, sorted: seq<Range>, i: nat, cursor: nat, visible: string) {
    i <= |sorted| && cursor <= |raw| && Outside(raw, sorted, 0) == visible + Outside(raw, sorted[i..], cursor)
  }

  lemma VisibleStep(raw: string, sorted: seq<Range>, i: nat, cursor: nat, visible: string)
    requires VisibleSoFar(raw, sorted, i, cursor, visible) && SortedByStart(sorted)
    requires i < |sorted| && sorted[i].start <= sorted[i].end <= |raw|
    ensures VisibleSoFar(raw, sorted, i + 1, Max(cursor, sorted[i].end),
      visible + (if cursor < sorted[i].start then raw[cursor..sorted[i].start] else ""))
  {
    var ranges := sorted[i..];
    assert ranges[0] == sorted[i] && ranges[1..] == sorted[i + 1..];
    PassRange(raw, ranges, cursor);
  }

  lemma VisibleEnd(raw: string, sorted: seq<Range>, cursor: nat, visible: string)
    requires VisibleSoFar(raw, sorted, |sorted|, cursor, visible)
    ensures Outside(raw, sorted, 0) == visible + raw[cursor..]
  {
    assert sorted[|sorted|..] == [];
    OutsideUncovered(raw, [], cursor, |raw|);
  }

  /** The text between the ranges, collected in start order, whether or not they overlap. */
  method VisibleText(raw: string, ranges: seq<Range>) returns (visible: string)
    requires forall i :: 0 <= i < |ranges| ==> ranges[i].start <= ranges[i].end <= |raw|
    ensures visible == Outside(raw, ranges, 0)
  {
    var sorted := SortRanges(ranges);
    SortedBounds(raw, ranges);
    var cursor: nat := 0;
    visible := "";
    assert sorted[0..] == sorted;
    for i := 0 to |sorted|
      invariant VisibleSoFar(raw, sorted, i, cursor, visible)
    {
      VisibleStep(raw, sorted, i, cursor, visible);
      visible := visible + (if cursor < sorted[i].start then raw[cursor..sorted[i].start] else "");
      cursor := Max(cursor, sorted[i].end);
    }
    VisibleEnd(raw, sorted, cursor, visible);
    visible := visible + raw[cursor..];
    SortedOutside(raw, ranges);
  }

  lemma SortedBounds(raw: string, ranges: seq<Range>)
    requires forall i :: 0 <= i < |ranges| ==> ranges[i].start <= ranges[i].end <= |raw|
    ensures var sorted := SortRanges(ranges);
      SortedByStart(sorted) && forall i :: 0 <= i < |sorted| ==> sorted[i].start <= sorted[i].end <= |raw|
  {
    SortKeeps(ranges);
    var sorted := SortRanges(ranges);
    forall i | 0 <= i < |sorted| ensures sorted[i].start <= sorted[i].end <= |raw| {
      assert sorted[i] in ranges;
    }
  }

  lemma SortedOutside(raw: string, ranges: seq<Range>)
    ensures Outside(raw, SortRanges(ranges), 0) == Outside(raw, ranges, 0)
  {
    forall k | 0 <= k < |raw| ensures Covers(SortRanges(ranges), k) <==> Covers(ranges, k) { SortCovers(ranges, k); }
    OutsideSame(raw, SortRanges(ranges), ranges, 0);
  }

  lemma BlankCons(c: char, rest: string)
    ensures IsBlank([c] + rest) <==> IsSpace(c) && IsBlank(rest)
  {
    var s := [c] + rest;
    assert s[0] == c && forall i :: 0 <= i < |rest| ==> rest[i] == s[i + 1];
  }

  lemma OutsideStep(raw: string, ranges: seq<Range>, from: nat)
    requires from < |raw|
    ensures IsBlank(Outside(raw, ranges, from)) <==>
      (Covers(ranges, from) || IsSpace(raw[from])) && IsBlank(Outside(raw, ranges, from + 1))
  {
    var rest := Outside(raw, ranges, from + 1);
    BlankCons(raw[from], rest);
    assert "" + rest == rest;
  }

  lemma {:induction false} UncoveredIsVisible(raw: string, ranges: seq<Range>, from: nat, k: nat)
    requires from <= k < |raw| && !Covers(ranges, k) && !IsSpace(raw[k])
    ensures !IsBlank(Outside(raw, ranges, from))
    decreases |raw| - from
  {
    OutsideStep(raw, ranges, from);
    if from < k { UncoveredIsVisible(raw, ranges, from + 1, k); }
  }

  lemma {:induction false} VisibleIsUncovered(raw: string, ranges: seq<Range>, from: nat) returns (k: nat)
    requires from <= |raw| && !IsBlank(Outside(raw, ranges, from))
    ensures from <= k < |raw| && !Covers(ranges, k) && !IsSpace(raw[k])
    decreases |raw| - from
  {
    OutsideStep(raw, ranges, from);
    if IsBlank(Outside(raw, ranges, from + 1)) {
      k := from;
    } else {
      k := VisibleIsUncovered(raw, ranges, from + 1);
    }
  }

  /** No comment touches the line, or some of its text outside comments is not blank. */
  /** No comment covers any of the characters from that offset on. */
  ghost predicate Uncovered(comments: seq<Range>, offset: nat, length: nat) {
    forall at: nat :: offset <= at < offset + length ==> !Covers(comments, at)
  }

  ghost predicate Survives(raw: string, comments: seq<Range>, offset: nat) {
    if raw == "" then !Covers(comments, offset)
    else
      || Uncovered(comments, offset, |raw|)
      || (exists k :: 0 <= k < |raw| && !IsSpace(raw[k]) && !Covers(comments, offset + k))
  }

  method KeepLine(raw: string, comments: seq<Range>, offset: nat) returns (kept: bool)
    ensures kept <==> Survives(raw, comments, offset)
  {
    var ranges := CutLine(comments, offset, |raw|);
    NoRangesIff(comments, offset, |raw|);
    if ranges == [] { return true; }
    var visible := VisibleText(raw, ranges);
    kept := !IsBlank(visible);
    if kept { var k := VisibleIsUncovered(raw, ranges, 0); }
    forall k | 0 <= k < |raw| && !Covers(ranges, k) && !IsSpace(raw[k]) ensures kept {
      UncoveredIsVisible(raw, ranges, 0, k);
    }
    forall k | 0 <= k < |raw| ensures Covers(ranges, k) <==> Covers(comments, offset + k) {
      RangesCoverComments(comments, offset, |raw|, k);
    }
  }

  /** An empty line is met by the comments its offset lies in, another one by those that cover part of it. */
  lemma {:induction false} NoRangesIff(comments: seq<Range>, offset: nat, length: nat)
    ensures LineRanges(comments, offset, length) == [] <==>
      if length == 0 then !Covers(comments, offset) else Uncovered(comments, offset, length)
  {
    if comments != [] {
      var front, last := comments[..|comments| - 1], comments[|comments| - 1];
      assert comments == front + [last];
      NoRangesIff(front, offset, length);
      forall at: nat ensures Covers(comments, at) <==> Covers(front, at) || Covers([last], at) {
        CoversConcat(front, [last], at);
      }
      TouchesIff(last, offset, length);
    }
  }

  lemma TouchesIff(comment: Range, offset: nat, length: nat)
    ensures !Touches(comment, offset, length) <==>
      if length == 0 then !Covers([comment], offset) else Uncovered([comment], offset, length)
  {
    forall at: nat ensures Covers([comment], at) <==> comment.start <= at < comment.end { CoversOne(comment, at); }
    var from := Max(comment.start, offset);
    assert from < Min(comment.end, offset + length) ==> Covers([comment], from);
  }

  // ---- the whole page ----

  function LineOffset(lines: seq<string>, i: nat): nat
    requires i <= |lines|
  {
    if i == 0 then 0 else LineOffset(lines, i - 1) + |lines[i - 1]| + 1
  }

  lemma {:induction false} OffsetInTail(lines: seq<string>, i: nat)
    requires 1 <= i <= |lines|
    ensures LineOffset(lines, i) == |lines[0]| + 1 + LineOffset(lines[1..], i - 1)
  {
    if i > 1 { OffsetInTail(lines, i - 1); }
  }

  /** The offsets are right: column `k` of line `i` is that character of the page. */
  lemma {:induction false} OffsetFindsCharacter(lines: seq<string>, i: nat, k: nat)
    requires i < |lines| && k < |lines[i]|
    ensures LineOffset(lines, i) + k < |Join(lines)| && Join(lines)[LineOffset(lines, i) + k] == lines[i][k]
    decreases i
  {
    if i > 0 {
      OffsetInTail(lines, i);
      OffsetFindsCharacter(lines[1..], i - 1, k);
    }
  }

  /** The source's loop over the lines; `fenced` are the lines of code blocks. */
  method ProseLines(source: string, comments: seq<Range>, fenced: set<nat>) returns (kept: seq<nat>)
    ensures forall i, j :: 0 <= i < j < |kept| ==> kept[i] < kept[j]
    ensures forall i: nat :: i in kept <==>
      i < |Split(source)| && i !in fenced && Survives(Split(source)[i], comments, LineOffset(Split(source), i))
  {
    var lines := Split(source);
    var offset: nat := 0;
    kept := [];
    for i := 0 to |lines|
      invariant offset == LineOffset(lines, i)
      invariant forall k :: 0 <= k < |kept| ==> kept[k] < i
      invariant forall j, k :: 0 <= j < k < |kept| ==> kept[j] < kept[k]
      invariant forall j: nat :: j in kept <==>
        j < i && j !in fenced && Survives(lines[j], comments, LineOffset(lines, j))
    {
      var keep := KeepLine(lines[i], comments, offset);
      if i !in fenced && keep { kept := kept + [i]; }
      offset := offset + |lines[i]| + 1;
    }
  }
}
