/**
  Replacing disjoint ranges of a sequence. Splicing them in place from the last to the first
  equals substituting all of them at once, keeps everything between them, and can be undone: a
  shorter or longer value moves only what stands behind it, so the ranges still to be replaced,
  which stand before it, keep their places. The gaps and the values then alternate.
 */
module Substitution {

  datatype Range = Range(start: nat, end: nat)

  /** Sorted, disjoint ranges of a text of length `n`, none before `from`. */
  predicate Fit(ranges: seq<Range>, from: nat, n: nat) {
    if ranges == [] then from <= n
    else from <= ranges[0].start <= ranges[0].end && Fit(ranges[1..], ranges[0].end, n)
  }

  lemma {:induction false} FitsInText(ranges: seq<Range>, from: nat, n: nat)
    requires Fit(ranges, from, n)
    ensures from <= n
    ensures ranges != [] ==> ranges[0].end <= n
  {
    if ranges != [] { FitsInText(ranges[1..], ranges[0].end, n); }
  }

  /** All ranges replaced at once, reading the text from `from` on. */
  function Weave<T>(text: seq<T>, ranges: seq<Range>, values: seq<seq<T>>, from: nat): seq<T>
    requires Fit(ranges, from, |text|) && |values| == |ranges|
    decreases |ranges|
  {
    FitsInText(ranges, from, |text|);
    if ranges == [] then text[from..]
    else text[from..ranges[0].start] + values[0] + Weave(text, ranges[1..], values[1..], ranges[0].end)
  }

  /** What the ranges cover. */
  function Pieces<T>(text: seq<T>, ranges: seq<Range>, from: nat): (r: seq<seq<T>>)
    requires Fit(ranges, from, |text|)
    ensures |r| == |ranges|
    decreases |ranges|
  {
    if ranges == [] then []
    else
      FitsInText(ranges, from, |text|);
      [text[ranges[0].start..ranges[0].end]] + Pieces(text, ranges[1..], ranges[0].end)
  }

  lemma {:induction false} PieceAt<T>(text: seq<T>, ranges: seq<Range>, from: nat, i: nat)
    requires Fit(ranges, from, |text|) && i < |ranges|
    ensures ranges[i].start <= ranges[i].end <= |text|
    ensures Pieces(text, ranges, from)[i] == text[ranges[i].start..ranges[i].end]
    decreases i
  {
    FitsInText(ranges, from, |text|);
    if i > 0 { PieceAt(text, ranges[1..], ranges[0].end, i - 1); }
  }

  /** What lies between the ranges, before the first and after the last. */
  function Gaps<T>(text: seq<T>, ranges: seq<Range>, from: nat): (r: seq<seq<T>>)
    requires Fit(ranges, from, |text|)
    ensures |r| == |ranges| + 1
    decreases |ranges|
  {
    FitsInText(ranges, from, |text|);
    if ranges == [] then [text[from..]]
    else [text[from..ranges[0].start]] + Gaps(text, ranges[1..], ranges[0].end)
  }

  function Interleave<T>(gaps: seq<seq<T>>, values: seq<seq<T>>): seq<T>
    requires |gaps| == |values| + 1
    decreases |values|
  {
    if values == [] then gaps[0] else gaps[0] + values[0] + Interleave(gaps[1..], values[1..])
  }

  /** Substitution keeps the gaps and puts the values between them. */
  lemma {:induction false} WeaveIsInterleave<T>(text: seq<T>, ranges: seq<Range>, values: seq<seq<T>>, from: nat)
    requires Fit(ranges, from, |text|) && |values| == |ranges|
    ensures Weave(text, ranges, values, from) == Interleave(Gaps(text, ranges, from), values)
    decreases |ranges|
  {
    if ranges != [] {
      WeaveIsInterleave(text, ranges[1..], values[1..], ranges[0].end);
      assert Gaps(text, ranges, from)[1..] == Gaps(text, ranges[1..], ranges[0].end);
    }
  }

  /** Where the values stand when the gaps and the values are joined from position `at` on. */
  function Places<T>(gaps: seq<seq<T>>, values: seq<seq<T>>, at: nat): (r: seq<Range>)
    requires |gaps| == |values| + 1
    ensures |r| == |values|
    decreases |values|
  {
    if values == [] then []
    else
      var start := at + |gaps[0]|;
      [Range(start, start + |values[0]|)] + Places(gaps[1..], values[1..], start + |values[0]|)
  }

  /** Any gaps and values are those of the text they make. */
  lemma {:induction false} InterleavedParts<T>(gaps: seq<seq<T>>, values: seq<seq<T>>, before: seq<T>, text: seq<T>)
    requires |gaps| == |values| + 1 && text == before + Interleave(gaps, values)
    ensures var places := Places(gaps, values, |before|);
      && Fit(places, |before|, |text|)
      && Pieces(text, places, |before|) == values && Gaps(text, places, |before|) == gaps
    decreases |values|
  {
    if values == [] {
      assert text[|before|..] == gaps[0];
    } else {
      var next := before + gaps[0] + values[0];
      InterleavedParts(gaps[1..], values[1..], next, text);
      var start := |before| + |gaps[0]|;
      assert text[|before|..start] == gaps[0] && text[start..start + |values[0]|] == values[0];
      assert Places(gaps, values, |before|)[1..] == Places(gaps[1..], values[1..], |next|);
    }
  }

  lemma {:induction false} InterleaveMembers<T>(gaps: seq<seq<T>>, values: seq<seq<T>>, x: T)
    requires |gaps| == |values| + 1
    ensures x in Interleave(gaps, values) <==> (exists g :: g in gaps && x in g) || exists v :: v in values && x in v
    decreases |values|
  {
    if values != [] {
      InterleaveMembers(gaps[1..], values[1..], x);
      assert forall g :: g in gaps <==> g == gaps[0] || g in gaps[1..];
      assert forall v :: v in values <==> v == values[0] || v in values[1..];
    }
  }

  /** Where the values stand in the woven text, when `text[from..]` starts at `at`. */
  function Moved<T>(ranges: seq<Range>, values: seq<seq<T>>, from: nat, at: nat, n: nat): (r: seq<Range>)
    requires Fit(ranges, from, n) && |values| == |ranges|
    ensures |r| == |ranges|
    decreases |ranges|
  {
    if ranges == [] then []
    else
      var start := at + (ranges[0].start - from);
      var end := start + |values[0]|;
      [Range(start, end)] + Moved(ranges[1..], values[1..], ranges[0].end, end, n)
  }

  lemma {:induction false} MovedFit<T>(text: seq<T>, ranges: seq<Range>, values: seq<seq<T>>, from: nat, at: nat)
    requires Fit(ranges, from, |text|) && |values| == |ranges|
    ensures Fit(Moved(ranges, values, from, at, |text|), at, at + |Weave(text, ranges, values, from)|)
    decreases |ranges|
  {
    FitsInText(ranges, from, |text|);
    if ranges != [] {
      var start := at + (ranges[0].start - from);
      var end := start + |values[0]|;
      MovedFit(text, ranges[1..], values[1..], ranges[0].end, end);
      var moved := Moved(ranges, values, from, at, |text|);
      assert moved[1..] == Moved(ranges[1..], values[1..], ranges[0].end, end, |text|);
      assert at + |Weave(text, ranges, values, from)| == end + |Weave(text, ranges[1..], values[1..], ranges[0].end)|;
    }
  }

  /** In the woven text, the moved ranges cover the values and the gaps are unchanged. */
  lemma {:induction false} WovenParts<T>(text: seq<T>, ranges: seq<Range>, values: seq<seq<T>>, from: nat,
      before: seq<T>, woven: seq<T>)
    requires Fit(ranges, from, |text|) && |values| == |ranges| && woven == before + Weave(text, ranges, values, from)
    ensures var moved := Moved(ranges, values, from, |before|, |text|);
      && Fit(moved, |before|, |woven|)
      && Pieces(woven, moved, |before|) == values && Gaps(woven, moved, |before|) == Gaps(text, ranges, from)
    decreases |ranges|
  {
    FitsInText(ranges, from, |text|);
    MovedFit(text, ranges, values, from, |before|);
    if ranges == [] {
      assert woven[|before|..] == text[from..];
    } else {
      var gap, value := text[from..ranges[0].start], values[0];
      var rest := Weave(text, ranges[1..], values[1..], ranges[0].end);
      var head := before + gap + value;
      assert woven == head + rest;
      WovenParts(text, ranges[1..], values[1..], ranges[0].end, head, woven);
      FirstWoven(before, gap, value, rest, woven);
      assert values == [value] + values[1..];
      var moved := Moved(ranges, values, from, |before|, |text|);
      assert moved[1..] == Moved(ranges[1..], values[1..], ranges[0].end, |head|, |text|);
    }
  }

  lemma FirstWoven<T>(before: seq<T>, gap: seq<T>, value: seq<T>, rest: seq<T>, woven: seq<T>)
    requires woven == before + gap + value + rest
    ensures woven[|before|..|before| + |gap|] == gap
    ensures woven[|before| + |gap|..|before| + |gap| + |value|] == value
  {
  }

  /** Putting the original pieces back restores the text. */
  lemma WeaveBack<T>(text: seq<T>, ranges: seq<Range>, values: seq<seq<T>>)
    requires Fit(ranges, 0, |text|) && |values| == |ranges|
    ensures var woven := Weave(text, ranges, values, 0);
      var moved := Moved(ranges, values, 0, 0, |text|);
      |moved| == |ranges| && Fit(moved, 0, |woven|) && Weave(woven, moved, Pieces(text, ranges, 0), 0) == text
  {
    var woven := Weave(text, ranges, values, 0);
    var moved := Moved(ranges, values, 0, 0, |text|);
    var pieces := Pieces(text, ranges, 0);
    assert [] + woven == woven;
    WovenParts(text, ranges, values, 0, [], woven);
    WeaveIsInterleave(woven, moved, pieces, 0);
    WeaveIsInterleave(text, ranges, pieces, 0);
    WeavePieces(text, ranges, 0);
  }

  lemma {:induction false} WeavePieces<T>(text: seq<T>, ranges: seq<Range>, from: nat)
    requires Fit(ranges, from, |text|)
    ensures from <= |text| && Weave(text, ranges, Pieces(text, ranges, from), from) == text[from..]
    decreases |ranges|
  {
    FitsInText(ranges, from, |text|);
    if ranges != [] {
      WeavePieces(text, ranges[1..], ranges[0].end);
      var pieces := Pieces(text, ranges, from);
      assert pieces[1..] == Pieces(text, ranges[1..], ranges[0].end);
    }
  }

  // ---- splicing in place, last range first ----

  function Cut(ranges: seq<Range>, i: nat): nat
    requires i <= |ranges|
  {
    if i == 0 then 0 else ranges[i - 1].end
  }

  lemma {:induction false} FitSuffix(ranges: seq<Range>, i: nat, n: nat)
    requires Fit(ranges, 0, n) && i <= |ranges|
    ensures Fit(ranges[i..], Cut(ranges, i), n)
  {
    if i > 0 {
      FitSuffix(ranges, i - 1, n);
      assert ranges[i - 1..][1..] == ranges[i..] && ranges[i - 1..][0] == ranges[i - 1];
    } else {
      assert ranges[0..] == ranges;
    }
  }

  /** The text while splicing: untouched up to the last range not yet reached, woven from there on. */
  ghost predicate SplicedFrom<T>(text: seq<T>, ranges: seq<Range>, values: seq<seq<T>>, i: nat, r: seq<T>)
    requires Fit(ranges, 0, |text|) && |values| == |ranges|
  {
    i <= |ranges| &&
    (FitSuffix(ranges, i, |text|);
    FitsInText(ranges[i..], Cut(ranges, i), |text|);
    r == text[..Cut(ranges, i)] + Weave(text, ranges[i..], values[i..], Cut(ranges, i)))
  }

  /** One splice. */
  lemma SpliceStep<T>(text: seq<T>, ranges: seq<Range>, values: seq<seq<T>>, i: nat, r: seq<T>)
    requires Fit(ranges, 0, |text|) && |values| == |ranges| && 0 < i <= |ranges|
      && SplicedFrom(text, ranges, values, i, r)
    ensures ranges[i - 1].start <= ranges[i - 1].end <= |r| && ranges[i - 1].end <= |text|
    ensures SplicedFrom(text, ranges, values, i - 1, r[..ranges[i - 1].start] + values[i - 1] + r[ranges[i - 1].end..])
    ensures values[i - 1] == text[ranges[i - 1].start..ranges[i - 1].end] ==>
      SplicedFrom(text, ranges, values, i - 1, r)
  {
    var cut, next, range := Cut(ranges, i - 1), ranges[i..], ranges[i - 1];
    FitSuffix(ranges, i, |text|);
    FitsInText(next, range.end, |text|);
    FitSuffix(ranges, i - 1, |text|);
    assert ranges[i - 1..][1..] == next && values[i - 1..][1..] == values[i..];
    var rest := Weave(text, next, values[i..], range.end);
    Respliced(text, cut, range.start, range.end, values[i - 1], rest, r);
  }

  lemma Respliced<T>(text: seq<T>, cut: nat, start: nat, end: nat, value: seq<T>, rest: seq<T>, r: seq<T>)
    requires cut <= start <= end <= |text| && r == text[..end] + rest
    ensures r[..start] + value + r[end..] == text[..cut] + (text[cut..start] + value + rest)
    ensures value == text[start..end] ==> r == text[..cut] + (text[cut..start] + value + rest)
  {
    assert r[..start] == text[..start] && r[end..] == rest;
    assert text[..start] == text[..cut] + text[cut..start];
    assert text[..end] == text[..start] + text[start..end];
  }

  lemma NothingSpliced<T>(text: seq<T>, ranges: seq<Range>, values: seq<seq<T>>)
    requires Fit(ranges, 0, |text|) && |values| == |ranges|
    ensures SplicedFrom(text, ranges, values, |ranges|, text)
  {
    FitSuffix(ranges, |ranges|, |text|);
    var cut := Cut(ranges, |ranges|);
    FitsInText(ranges[|ranges|..], cut, |text|);
    assert text == text[..cut] + text[cut..];
  }

  lemma AllSpliced<T>(text: seq<T>, ranges: seq<Range>, values: seq<seq<T>>, r: seq<T>)
    requires Fit(ranges, 0, |text|) && |values| == |ranges| && SplicedFrom(text, ranges, values, 0, r)
    ensures r == Weave(text, ranges, values, 0)
  {
    assert ranges[0..] == ranges && values[0..] == values;
  }

  /** Splicing every range in place, from the last to the first, substitutes all of them at once. */
  method SpliceBackwards<T>(text: seq<T>, ranges: seq<Range>, values: seq<seq<T>>) returns (r: seq<T>)
    requires Fit(ranges, 0, |text|) && |values| == |ranges|
    ensures r == Weave(text, ranges, values, 0)
  {
    r := text;
    NothingSpliced(text, ranges, values);
    for i := |ranges| downto 0
      invariant SplicedFrom(text, ranges, values, i, r)
    {
      SpliceStep(text, ranges, values, i + 1, r);
      r := r[..ranges[i].start] + values[i] + r[ranges[i].end..];
    }
    AllSpliced(text, ranges, values, r);
  }
}
