/**
  Rewriting link destinations in a page. The edits are collected in the order the syntax tree is
  walked and applied from the last to the first; whatever that order, every edit lands on its own
  destination and nothing else changes.
 */
module SitePages {
  import opened Substitution

  datatype Edit = Edit(start: nat, end: nat, value: string)

  /** Destinations of links are nonempty and disjoint. */
  ghost predicate Disjoint(edits: seq<Edit>, n: nat) {
    && (forall i :: 0 <= i < |edits| ==> edits[i].start < edits[i].end <= n)
    && forall i, j :: 0 <= i < j < |edits| ==> edits[i].end <= edits[j].start || edits[j].end <= edits[i].start
  }

  ghost predicate AllAfter(end: nat, edits: seq<Edit>) {
    forall e :: e in edits ==> end <= e.start
  }

  ghost predicate InOrder(edits: seq<Edit>) {
    edits == [] || (AllAfter(edits[0].end, edits[1..]) && InOrder(edits[1..]))
  }

  function Insert(edit: Edit, edits: seq<Edit>): (r: seq<Edit>)
    ensures multiset(r) == multiset([edit]) + multiset(edits)
  {
    if edits == [] || edit.start <= edits[0].start then [edit] + edits
    else
      assert edits == [edits[0]] + edits[1..];
      [edits[0]] + Insert(edit, edits[1..])
  }

  /** By start, ascending. */
  function Sort(edits: seq<Edit>): (r: seq<Edit>)
    ensures multiset(r) == multiset(edits)
  {
    if edits == [] then []
    else
      assert edits == [edits[0]] + edits[1..];
      Insert(edits[0], Sort(edits[1..]))
  }

  ghost predicate Apart(edit: Edit, edits: seq<Edit>) {
    forall e :: e in edits ==> edit.end <= e.start || e.end <= edit.start
  }

  ghost predicate Proper(edits: seq<Edit>, n: nat) {
    forall e :: e in edits ==> e.start < e.end <= n
  }

  lemma SameMembers(a: seq<Edit>, b: seq<Edit>)
    requires multiset(a) == multiset(b)
    ensures |a| == |b| && forall e :: e in a <==> e in b
  {
    assert |multiset(a)| == |a| && |multiset(b)| == |b|;
    forall e ensures e in a <==> e in b {
      assert e in multiset(a) <==> e in multiset(b);
    }
  }

  lemma {:induction false} InsertInOrder(edit: Edit, edits: seq<Edit>, n: nat)
    requires InOrder(edits) && Apart(edit, edits) && Proper(edits, n) && edit.start < edit.end
    ensures InOrder(Insert(edit, edits))
  {
    if edits != [] {
      assert edits == [edits[0]] + edits[1..];
      if edit.start <= edits[0].start {
        assert ([edit] + edits)[1..] == edits;
      } else {
        InsertInOrder(edit, edits[1..], n);
        assert ([edits[0]] + Insert(edit, edits[1..]))[1..] == Insert(edit, edits[1..]);
      }
    }
  }

  lemma {:induction false} SortInOrder(edits: seq<Edit>, n: nat)
    requires Disjoint(edits, n)
    ensures InOrder(Sort(edits)) && Proper(Sort(edits), n)
  {
    SameMembers(Sort(edits), edits);
    if edits != [] {
      SortInOrder(edits[1..], n);
      SameMembers(Sort(edits[1..]), edits[1..]);
      InsertInOrder(edits[0], Sort(edits[1..]), n);
    }
  }

  /** Edits in order and with the same members are the same list. */
  lemma {:induction false} OrderIsUnique(a: seq<Edit>, b: seq<Edit>, n: nat)
    requires InOrder(a) && InOrder(b) && Proper(a, n) && multiset(a) == multiset(b)
    ensures a == b
  {
    SameMembers(a, b);
    if a != [] {
      TailMultiset(a);
      TailMultiset(b);
      OrderIsUnique(a[1..], b[1..], n);
    }
  }

  lemma TailMultiset(edits: seq<Edit>)
    requires edits != []
    ensures multiset(edits[1..]) == multiset(edits) - multiset([edits[0]])
  {
    assert edits == [edits[0]] + edits[1..];
  }

  function Ranges(edits: seq<Edit>): (r: seq<Range>)
    ensures |r| == |edits|
  {
    seq(|edits|, i requires 0 <= i < |edits| => Range(edits[i].start, edits[i].end))
  }

  function Values(edits: seq<Edit>): (r: seq<string>)
    ensures |r| == |edits|
  {
    seq(|edits|, i requires 0 <= i < |edits| => edits[i].value)
  }

  lemma {:induction false} InOrderFits(edits: seq<Edit>, from: nat, n: nat)
    requires InOrder(edits) && Proper(edits, n) && from <= n && (edits != [] ==> from <= edits[0].start)
    ensures Fit(Ranges(edits), from, n)
  {
    if edits != [] {
      assert edits[0] in edits && (|edits| > 1 ==> edits[1] in edits[1..]);
      InOrderFits(edits[1..], edits[0].end, n);
      assert Ranges(edits)[1..] == Ranges(edits[1..]);
    }
  }

  // ---- where edits land ----

  /** How far the edits that end at or before a position move it. */
  function Shift(edits: seq<Edit>, at: nat): int {
    if edits == [] then 0
    else (if edits[0].end <= at then |edits[0].value| - (edits[0].end - edits[0].start) else 0) + Shift(edits[1..], at)
  }

  lemma {:induction false} ShiftInsert(edit: Edit, edits: seq<Edit>, at: nat)
    ensures Shift(Insert(edit, edits), at) == Shift([edit] + edits, at)
  {
    assert ([edit] + edits)[1..] == edits;
    if edits != [] && edit.start > edits[0].start {
      ShiftInsert(edit, edits[1..], at);
      assert ([edit] + edits[1..])[1..] == edits[1..];
      assert ([edits[0]] + Insert(edit, edits[1..]))[1..] == Insert(edit, edits[1..]);
    }
  }

  lemma {:induction false} ShiftSort(edits: seq<Edit>, at: nat)
    ensures Shift(Sort(edits), at) == Shift(edits, at)
  {
    if edits != [] {
      ShiftSort(edits[1..], at);
      ShiftInsert(edits[0], Sort(edits[1..]), at);
      assert ([edits[0]] + Sort(edits[1..]))[1..] == Sort(edits[1..]);
    }
  }

  lemma {:induction false} NoShift(edits: seq<Edit>, at: nat, n: nat)
    requires Proper(edits, n) && forall e :: e in edits ==> at < e.end
    ensures Shift(edits, at) == 0
  {
    if edits != [] { NoShift(edits[1..], at, n); }
  }

  ghost predicate Outside(edits: seq<Edit>, i: nat) {
    forall e :: e in edits ==> i < e.start || e.end <= i
  }

  /** A character stands where it is expected. */
  ghost predicate CharAt(text: string, c: char, at: int) {
    0 <= at < |text| && text[at] == c
  }

  ghost predicate StandsAt(text: string, value: string, at: int) {
    0 <= at && at + |value| <= |text| && text[at..at + |value|] == value
  }

  /** An edit's value stands where the shorter and longer values before it move it. */
  ghost predicate Lands(text: string, edits: seq<Edit>, from: nat, e: Edit) {
    StandsAt(text, e.value, e.start - from + Shift(edits, e.start))
  }

  /** A character outside the edits is kept and moves with them. */
  ghost predicate Stays(source: string, text: string, edits: seq<Edit>, from: nat, i: nat)
    requires i < |source|
  {
    CharAt(text, source[i], i - from + Shift(edits, i))
  }

  ghost predicate AllLand(text: string, edits: seq<Edit>, from: nat) {
    forall e :: e in edits ==> Lands(text, edits, from, e)
  }

  ghost predicate RestStays(source: string, text: string, edits: seq<Edit>, from: nat) {
    forall i :: from <= i < |source| && Outside(edits, i) ==> Stays(source, text, edits, from, i)
  }

  lemma {:induction false} WovenEdits(source: string, edits: seq<Edit>, from: nat)
    requires InOrder(edits) && Proper(edits, |source|) && from <= |source|
    requires Fit(Ranges(edits), from, |source|)
    ensures var text := Weave(source, Ranges(edits), Values(edits), from);
      && |text| == |source| - from + Shift(edits, |source|)
      && AllLand(text, edits, from) && RestStays(source, text, edits, from)
  {
    if edits != [] {
      var first, rest := edits[0], edits[1..];
      assert Ranges(edits)[1..] == Ranges(rest) && Values(edits)[1..] == Values(rest);
      WovenEdits(source, rest, first.end);
      WovenFirst(source, edits, from, Weave(source, Ranges(rest), Values(rest), first.end));
    }
  }

  /** The text with the first edit in front of the rest. */
  lemma WovenFirst(source: string, edits: seq<Edit>, from: nat, tail: string)
    requires edits != [] && InOrder(edits) && Proper(edits, |source|) && from <= edits[0].start
    requires |tail| == |source| - edits[0].end + Shift(edits[1..], |source|)
    requires AllLand(tail, edits[1..], edits[0].end) && RestStays(source, tail, edits[1..], edits[0].end)
    ensures var text := source[from..edits[0].start] + edits[0].value + tail;
      && |text| == |source| - from + Shift(edits, |source|)
      && AllLand(text, edits, from) && RestStays(source, text, edits, from)
  {
    var text := source[from..edits[0].start] + edits[0].value + tail;
    forall e | e in edits ensures Lands(text, edits, from, e) { FirstLands(source, edits, from, tail, e); }
    forall i | from <= i < |source| && Outside(edits, i) ensures Stays(source, text, edits, from, i) {
      FirstStays(source, edits, from, tail, i);
    }
  }

  lemma FirstLands(source: string, edits: seq<Edit>, from: nat, tail: string, e: Edit)
    requires edits != [] && InOrder(edits) && Proper(edits, |source|) && from <= edits[0].start && e in edits
    requires e in edits[1..] ==> Lands(tail, edits[1..], edits[0].end, e)
    ensures Lands(source[from..edits[0].start] + edits[0].value + tail, edits, from, e)
  {
    var first, rest := edits[0], edits[1..];
    var gap := source[from..first.start];
    if e in rest {
      StandsLater(gap + first.value, tail, e.value, e.start - first.end + Shift(rest, e.start));
    } else {
      assert edits == [first] + rest;
      NoShift(edits, first.start, |source|);
      assert (gap + first.value + tail)[|gap|..|gap| + |first.value|] == first.value;
    }
  }

  lemma FirstStays(source: string, edits: seq<Edit>, from: nat, tail: string, i: nat)
    requires edits != [] && InOrder(edits) && Proper(edits, |source|) && from <= edits[0].start
    requires from <= i < |source| && Outside(edits, i)
    requires RestStays(source, tail, edits[1..], edits[0].end)
    ensures Stays(source, source[from..edits[0].start] + edits[0].value + tail, edits, from, i)
  {
    var first, rest := edits[0], edits[1..];
    var gap := source[from..first.start];
    assert first in edits;
    if first.end <= i {
      assert Outside(rest, i) && Stays(source, tail, rest, first.end, i);
      CharLater(gap + first.value, tail, source[i], i - first.end + Shift(rest, i));
    } else {
      ShiftBefore(edits, i, |source|);
      assert gap[i - from] == source[i];
    }
  }

  /** Nothing moves in front of the first edit. */
  lemma ShiftBefore(edits: seq<Edit>, i: nat, n: nat)
    requires edits != [] && InOrder(edits) && Proper(edits, n) && i < edits[0].start
    ensures Shift(edits, i) == 0
  {
    assert edits == [edits[0]] + edits[1..];
    NoShift(edits, i, n);
  }

  lemma StandsLater(front: string, tail: string, value: string, at: int)
    requires StandsAt(tail, value, at)
    ensures StandsAt(front + tail, value, |front| + at)
  {
    assert (front + tail)[|front|..] == tail;
  }

  lemma CharLater(front: string, tail: string, c: char, at: int)
    requires CharAt(tail, c, at)
    ensures CharAt(front + tail, c, |front| + at)
  {
  }

  lemma SameShiftLands(text: string, a: seq<Edit>, b: seq<Edit>, e: Edit)
    requires Shift(a, e.start) == Shift(b, e.start)
    ensures Lands(text, a, 0, e) <==> Lands(text, b, 0, e)
  {
  }

  lemma SameShiftStays(source: string, text: string, a: seq<Edit>, b: seq<Edit>, i: nat)
    requires i < |source| && Shift(a, i) == Shift(b, i)
    ensures Stays(source, text, a, 0, i) <==> Stays(source, text, b, 0, i)
  {
  }

  /** Where edits land does not depend on their order. */
  lemma SameShiftSameText(source: string, text: string, a: seq<Edit>, b: seq<Edit>)
    requires (forall at: nat :: Shift(a, at) == Shift(b, at)) && forall e :: e in a <==> e in b
    requires AllLand(text, a, 0) && RestStays(source, text, a, 0)
    ensures AllLand(text, b, 0) && RestStays(source, text, b, 0)
  {
    forall e | e in b ensures Lands(text, b, 0, e) { SameShiftLands(text, a, b, e); }
    forall i | 0 <= i < |source| && Outside(b, i) ensures Stays(source, text, b, 0, i) {
      SameShiftStays(source, text, a, b, i);
      assert Outside(a, i);
    }
  }

  /** The source's pass: sort by start, then splice from the last edit to the first. */
  method Rewrite(source: string, edits: seq<Edit>) returns (projected: string)
    requires Disjoint(edits, |source|)
    ensures Fit(Ranges(Sort(edits)), 0, |source|)
    ensures projected == Weave(source, Ranges(Sort(edits)), Values(Sort(edits)), 0)
    ensures |projected| == |source| + Shift(edits, |source|)
    ensures AllLand(projected, edits, 0) && RestStays(source, projected, edits, 0)
  {
    var sorted := Sort(edits);
    SortInOrder(edits, |source|);
    InOrderFits(sorted, 0, |source|);
    projected := SpliceBackwards(source, Ranges(sorted), Values(sorted));
    WovenEdits(source, sorted, 0);
    forall at: nat ensures Shift(sorted, at) == Shift(edits, at) { ShiftSort(edits, at); }
    SameMembers(sorted, edits);
    SameShiftSameText(source, projected, sorted, edits);
  }

  /** The order in which edits are collected does not matter. */
  lemma CollectionOrderIsIrrelevant(a: seq<Edit>, b: seq<Edit>, n: nat)
    requires Disjoint(a, n) && Disjoint(b, n) && multiset(a) == multiset(b)
    ensures Sort(a) == Sort(b)
  {
    SortInOrder(a, n);
    SortInOrder(b, n);
    OrderIsUnique(Sort(a), Sort(b), n);
  }
}
