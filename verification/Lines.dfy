/**
  Text as lines: JavaScript's `split('\n')` and `join('\n')`, and what a multiline regular
  expression `^tag$` matches. The two disagree: `^` and `$` also break at CR, U+2028 and
  U+2029 (section 12.3 of ECMA-262). Splitting and joining are inverse to each other on
  lines without a newline, and since a tag never spans one, a joined text is searched
  in its first part, then in its second.
 */
module Lines {

  predicate OneLine(s: string) {
    forall i :: 0 <= i < |s| ==> s[i] != '\n'
  }

  function Split(s: string): (lines: seq<string>)
    ensures lines != []
  {
    if s == "" then [""]
    else if s[0] == '\n' then [""] + Split(s[1..])
    else
      var rest := Split(s[1..]);
      [[s[0]] + rest[0]] + rest[1..]
  }

  lemma {:induction false} SplitIntoOneLines(s: string)
    ensures forall line :: line in Split(s) ==> OneLine(line)
  {
    if s != "" {
      SplitIntoOneLines(s[1..]);
      assert Split(s[1..])[0] in Split(s[1..]);
    }
  }

  lemma {:induction false} SplitKeepsChars(s: string, line: string)
    requires line in Split(s)
    ensures forall i :: 0 <= i < |line| ==> line[i] in s
  {
    if s != "" {
      var rest := Split(s[1..]);
      if s[0] == '\n' {
        if line != "" { SplitKeepsChars(s[1..], line); }
      } else if line in rest[1..] {
        SplitKeepsChars(s[1..], line);
      } else {
        SplitKeepsChars(s[1..], rest[0]);
      }
    }
  }

  function Join(lines: seq<string>): string {
    if lines == [] then ""
    else if |lines| == 1 then lines[0]
    else lines[0] + "\n" + Join(lines[1..])
  }

  lemma {:induction false} JoinSplit(s: string)
    ensures Join(Split(s)) == s
  {
    if s != "" {
      var rest := Split(s[1..]);
      JoinSplit(s[1..]);
      if s[0] == '\n' {
        assert ([""] + rest)[1..] == rest;
      } else {
        JoinPrefixed(s[0], rest);
      }
    }
  }

  lemma JoinPrefixed(c: char, lines: seq<string>)
    requires lines != []
    ensures Join([[c] + lines[0]] + lines[1..]) == [c] + Join(lines)
  {
    var prefixed := [[c] + lines[0]] + lines[1..];
    assert prefixed[1..] == lines[1..];
    if |lines| > 1 {
      assert ([c] + lines[0]) + "\n" + Join(lines[1..]) == [c] + (lines[0] + "\n" + Join(lines[1..]));
    }
  }

  lemma {:induction false} SplitPlain(s: string)
    requires OneLine(s)
    ensures Split(s) == [s]
  {
    if s != "" {
      SplitPlain(s[1..]);
      assert [s[0]] + s[1..] == s;
    }
  }

  lemma {:induction false} SplitConcat(a: string, b: string)
    ensures Split(a + "\n" + b) == Split(a) + Split(b)
  {
    var t := a + "\n" + b;
    if a == "" {
      assert t[1..] == b;
    } else {
      SplitConcat(a[1..], b);
      assert t[0] == a[0] && t[1..] == a[1..] + "\n" + b;
      PrefixConcat(a[0], Split(a[1..]), Split(b));
    }
  }

  lemma PrefixConcat(c: char, first: seq<string>, second: seq<string>)
    requires first != []
    ensures [""] + (first + second) == ([""] + first) + second
    ensures [[c] + (first + second)[0]] + (first + second)[1..] == ([[c] + first[0]] + first[1..]) + second
  {
    assert (first + second)[1..] == first[1..] + second;
  }

  lemma {:induction false} SplitJoin(lines: seq<string>)
    requires lines != [] && forall line :: line in lines ==> OneLine(line)
    ensures Split(Join(lines)) == lines
  {
    assert lines[0] in lines;
    SplitPlain(lines[0]);
    if |lines| > 1 {
      assert forall line :: line in lines[1..] ==> line in lines;
      SplitJoin(lines[1..]);
      SplitConcat(lines[0], Join(lines[1..]));
      assert lines == [lines[0]] + lines[1..];
    }
  }

  // ---- multiline matches ----

  predicate IsTerminator(c: char) {
    c == '\n' || c == '\r' || c == '\U{2028}' || c == '\U{2029}'
  }

  /** JavaScript's `\s`: white space and line terminators, also what `trim` removes. */
  predicate IsSpace(c: char) {
    || IsTerminator(c) || c == ' ' || c == '\t' || c == '\U{B}' || c == '\U{C}' || c == '\U{A0}' || c == '\U{FEFF}'
    || c == '\U{1680}' || '\U{2000}' <= c <= '\U{200A}' || c == '\U{202F}' || c == '\U{205F}' || c == '\U{3000}'
  }

  predicate AllSpace(s: string) { forall i :: 0 <= i < |s| ==> IsSpace(s[i]) }

  /** No line break of any kind. */
  predicate Unbroken(s: string) {
    forall i :: 0 <= i < |s| ==> !IsTerminator(s[i])
  }

  /** A tag: nonempty and inside one line however lines are broken. */
  predicate IsTag(tag: string) {
    tag != "" && Unbroken(tag)
  }

  predicate MatchesAt(text: string, tag: string, i: nat) {
    && i + |tag| <= |text| && text[i..i + |tag|] == tag
    && (i == 0 || IsTerminator(text[i - 1]))
    && (i + |tag| == |text| || IsTerminator(text[i + |tag|]))
  }

  ghost predicate NoMatch(text: string, tag: string) {
    forall i: nat :: !MatchesAt(text, tag, i)
  }

  /** `text.search(/^tag$/m)` from index `i` on. */
  function SearchFrom(text: string, tag: string, i: nat): (r: int)
    requires i <= |text|
    ensures r == -1 || i <= r <= r + |tag| <= |text|
    decreases |text| - i
  {
    if MatchesAt(text, tag, i) then i
    else if i == |text| then -1
    else SearchFrom(text, tag, i + 1)
  }

  function Search(text: string, tag: string): (r: int)
    ensures r == -1 || 0 <= r <= r + |tag| <= |text|
  {
    SearchFrom(text, tag, 0)
  }

  lemma {:induction false} SearchFromIsFirst(text: string, tag: string, i: nat)
    requires i <= |text|
    ensures var r := SearchFrom(text, tag, i);
      && (r == -1 ==> forall j: nat :: j >= i ==> !MatchesAt(text, tag, j))
      && (r != -1 ==> MatchesAt(text, tag, r) && forall j: nat :: i <= j < r ==> !MatchesAt(text, tag, j))
    decreases |text| - i
  {
    if !MatchesAt(text, tag, i) && i < |text| { SearchFromIsFirst(text, tag, i + 1); }
  }

  /** `search` returns the first match, and -1 exactly when there is none. */
  lemma SearchIsFirst(text: string, tag: string)
    ensures var r := Search(text, tag);
      && (r == -1 <==> NoMatch(text, tag))
      && (r != -1 ==> MatchesAt(text, tag, r) && forall j: nat :: j < r ==> !MatchesAt(text, tag, j))
  {
    SearchFromIsFirst(text, tag, 0);
  }

  /** A tag never spans a newline, so a match of two joined texts is a match of one of them. */
  lemma MatchConcat(p: string, q: string, tag: string, i: nat)
    requires IsTag(tag)
    ensures MatchesAt(p + "\n" + q, tag, i) <==>
      MatchesAt(p, tag, i) || (i > |p| && MatchesAt(q, tag, i - |p| - 1))
  {
    if i + |tag| <= |p| {
      MatchInFirst(p, q, tag, i);
    } else if i > |p| {
      MatchInSecond(p, q, tag, i);
    } else {
      NoMatchAcross(p, q, tag, i);
    }
  }

  lemma MatchInFirst(p: string, q: string, tag: string, i: nat)
    requires i + |tag| <= |p|
    ensures MatchesAt(p + "\n" + q, tag, i) <==> MatchesAt(p, tag, i)
  {
    var t := p + "\n" + q;
    assert t[|p|] == '\n';
    assert t[i..i + |tag|] == p[i..i + |tag|];
  }

  lemma MatchInSecond(p: string, q: string, tag: string, i: nat)
    requires i > |p|
    ensures MatchesAt(p + "\n" + q, tag, i) <==> MatchesAt(q, tag, i - |p| - 1)
  {
    var t := p + "\n" + q;
    var k := i - |p| - 1;
    assert t[|p|] == '\n';
    if i + |tag| <= |t| { assert t[i..i + |tag|] == q[k..k + |tag|]; }
  }

  lemma NoMatchAcross(p: string, q: string, tag: string, i: nat)
    requires IsTag(tag) && i <= |p| < i + |tag|
    ensures !MatchesAt(p + "\n" + q, tag, i)
  {
    var t := p + "\n" + q;
    if i + |tag| <= |t| {
      assert t[i..i + |tag|][|p| - i] == '\n';
      assert !IsTerminator(tag[|p| - i]);
    }
  }

  lemma NoMatchConcat(p: string, q: string, tag: string)
    requires IsTag(tag)
    ensures NoMatch(p + "\n" + q, tag) <==> NoMatch(p, tag) && NoMatch(q, tag)
  {
    var t := p + "\n" + q;
    forall i: nat ensures MatchesAt(t, tag, i) <==>
      MatchesAt(p, tag, i) || (i > |p| && MatchesAt(q, tag, i - |p| - 1)) {
      MatchConcat(p, q, tag, i);
    }
    forall i: nat ensures MatchesAt(q, tag, i) ==> MatchesAt(t, tag, i + |p| + 1) {
      MatchConcat(p, q, tag, i + |p| + 1);
    }
  }

  lemma StartsWithMatch(tag: string, tail: string)
    requires tail == "" || IsTerminator(tail[0])
    ensures MatchesAt(tag + tail, tag, 0)
  {
  }

  /** A joined text is searched in its first part, and in the second only when the first has no match. */
  lemma SearchConcat(p: string, q: string, tag: string)
    requires IsTag(tag)
    ensures !NoMatch(p, tag) ==> Search(p + "\n" + q, tag) == Search(p, tag) >= 0
    ensures NoMatch(p, tag) && !NoMatch(q, tag) ==> Search(p + "\n" + q, tag) == |p| + 1 + Search(q, tag)
  {
    var t := p + "\n" + q;
    forall i: nat ensures MatchesAt(t, tag, i) <==>
      MatchesAt(p, tag, i) || (i > |p| && MatchesAt(q, tag, i - |p| - 1)) {
      MatchConcat(p, q, tag, i);
    }
    SearchIsFirst(t, tag);
    SearchIsFirst(p, tag);
    SearchIsFirst(q, tag);
    if NoMatch(p, tag) && !NoMatch(q, tag) {
      var r := Search(q, tag);
      assert MatchesAt(t, tag, |p| + 1 + r);
    }
  }

  /** Cut at a line break, a text keeps no match that it did not have. */
  lemma PrefixMatch(text: string, tag: string, cut: nat, i: nat)
    requires cut < |text| && (IsTerminator(text[cut]) || (cut > 0 && IsTerminator(text[cut - 1])))
    requires tag != "" && !IsTerminator(tag[|tag| - 1])
    ensures MatchesAt(text[..cut], tag, i) ==> MatchesAt(text, tag, i)
  {
    if MatchesAt(text[..cut], tag, i) {
      assert text[i..i + |tag|] == text[..cut][i..i + |tag|];
      assert i + |tag| == cut ==> text[cut - 1] == tag[|tag| - 1];
    }
  }

  /** Cut before its first match, or one newline earlier, a text has no match left. */
  lemma CutBeforeMatch(text: string, tag: string, cut: nat)
    requires IsTag(tag) && !NoMatch(text, tag) && Search(text, tag) > 0 && !IsTerminator(tag[|tag| - 1])
    requires cut == if text[Search(text, tag) - 1] == '\n' then Search(text, tag) - 1 else Search(text, tag)
    ensures NoMatch(text[..cut], tag)
  {
    SearchIsFirst(text, tag);
    forall i: nat ensures MatchesAt(text[..cut], tag, i) ==> MatchesAt(text, tag, i) {
      PrefixMatch(text, tag, cut, i);
    }
  }

  /** A text without any terminator matches only as a whole. */
  lemma WholeLineMatch(line: string, tag: string)
    requires IsTag(tag) && Unbroken(line)
    ensures NoMatch(line, tag) <==> line != tag
  {
    forall i: nat | MatchesAt(line, tag, i) ensures line == tag {
      assert line[..] == line;
    }
    if line == tag {
      assert line[0..0 + |tag|] == tag;
      assert MatchesAt(line, tag, 0);
    }
  }

  lemma {:induction false} NoMatchLines(lines: seq<string>, tag: string)
    requires IsTag(tag) && lines != []
    ensures NoMatch(Join(lines), tag) <==> forall line :: line in lines ==> NoMatch(line, tag)
  {
    if |lines| > 1 {
      NoMatchLines(lines[1..], tag);
      NoMatchConcat(lines[0], Join(lines[1..]), tag);
      assert forall line :: line in lines <==> line == lines[0] || line in lines[1..];
    }
  }

  // ---- counting lines ----

  function Count(lines: seq<string>, line: string): nat {
    if lines == [] then 0 else (if lines[0] == line then 1 else 0) + Count(lines[1..], line)
  }

  lemma {:induction false} CountConcat(a: seq<string>, b: seq<string>, line: string)
    ensures Count(a + b, line) == Count(a, line) + Count(b, line)
  {
    if a == [] {
      assert a + b == b;
    } else {
      assert (a + b)[1..] == a[1..] + b;
      CountConcat(a[1..], b, line);
    }
  }

  lemma {:induction false} CountAbsent(lines: seq<string>, line: string)
    ensures Count(lines, line) == 0 <==> line !in lines
  {
    if lines != [] { CountAbsent(lines[1..], line); }
  }
}
