/**
  Consistency records of bilingual pairs. Parsing a rendered record returns it exactly when its
  names can stand in a record line and no line break inside the path escapes the header comment.
 */
module PairingRecords {
  import opened Wrappers
  import L = Lines

  datatype PairPaths = PairPaths(source: string, zh: string, meta: string)

  datatype PairRecord = PairRecord(sourceHash: string, zhHash: string)

  // ---- paths ----

  predicate EndsWith(s: string, suffix: string) {
    |s| >= |suffix| && s[|s| - |suffix|..] == suffix
  }

  /** The pair of an English document; `None` is the source's "expected an English Markdown path". */
  function PathsOf(source: string): Option<PairPaths> {
    if !EndsWith(source, ".md") || EndsWith(source, ".zh.md") then None
    else
      var stem := source[..|source| - 3];
      Some(PairPaths(source, stem + ".zh.md", stem + ".i18n.yaml"))
  }

  function PathsOfMeta(meta: string): Option<PairPaths> {
    if EndsWith(meta, ".i18n.yaml") then PathsOf(meta[..|meta| - 10] + ".md") else None
  }

  /** The three files of a pair share their stem. */
  predicate ShareStem(stem: string, paths: PairPaths) {
    paths == PairPaths(stem + ".md", stem + ".zh.md", stem + ".i18n.yaml")
  }

  lemma PathsIff(source: string, paths: PairPaths)
    ensures PathsOf(source) == Some(paths)
      <==> source == paths.source && exists stem :: ShareStem(stem, paths) && !EndsWith(stem, ".zh")
  {
    if PathsOf(source) == Some(paths) {
      var stem := source[..|source| - 3];
      assert source == stem + ".md";
      assert ShareStem(stem, paths) && !EndsWith(stem, ".zh");
    }
    forall stem | ShareStem(stem, paths) && !EndsWith(stem, ".zh") ensures PathsOf(paths.source) == Some(paths) {
      assert paths.source[..|paths.source| - 3] == stem;
    }
  }

  lemma MetaPathsIff(meta: string, paths: PairPaths)
    ensures PathsOfMeta(meta) == Some(paths)
      <==> meta == paths.meta && exists stem :: ShareStem(stem, paths) && !EndsWith(stem, ".zh")
  {
    if EndsWith(meta, ".i18n.yaml") {
      assert meta == meta[..|meta| - 10] + ".i18n.yaml";
      PathsIff(meta[..|meta| - 10] + ".md", paths);
    }
    if PathsOfMeta(meta) == Some(paths) {
      MetaNamesItsPair(meta);
    }
    forall stem | ShareStem(stem, paths) && !EndsWith(stem, ".zh") ensures PathsOfMeta(paths.meta) == Some(paths) {
      assert paths.meta[..|paths.meta| - 10] == stem;
      PathsIff(paths.source, paths);
    }
  }

  /** Document and record name the same pair. */
  lemma PathsRoundTrip(source: string)
    requires PathsOf(source).Some?
    ensures PathsOfMeta(PathsOf(source).value.meta) == PathsOf(source)
  {
    var stem := source[..|source| - 3];
    assert source == stem + ".md";
    assert (stem + ".i18n.yaml")[..|stem|] == stem;
  }

  lemma MetaNamesItsPair(meta: string)
    requires PathsOfMeta(meta).Some?
    ensures PathsOfMeta(meta).value.meta == meta
  {
    var stem := meta[..|meta| - 10];
    assert (stem + ".md")[..|stem|] == stem;
    assert meta == stem + ".i18n.yaml";
  }

  /** The part of a path after its last separator (the paths here end in a file name). */
  function Basename(path: string): (r: string)
    ensures |r| <= |path|
  {
    if path == "" || path[|path| - 1] == '/' then ""
    else Basename(path[..|path| - 1]) + [path[|path| - 1]]
  }

  predicate NoSlash(s: string) { forall i :: 0 <= i < |s| ==> s[i] != '/' }

  lemma {:induction false} BasenameAppend(path: string, tail: string)
    requires NoSlash(tail)
    ensures Basename(path + tail) == Basename(path) + tail
  {
    if tail == "" {
      assert path + tail == path;
    } else {
      var front := tail[..|tail| - 1];
      BasenameAppend(path, front);
      assert (path + tail)[..|path + tail| - 1] == path + front;
      assert tail == front + [tail[|tail| - 1]];
    }
  }

  /** A base name has no separator, and one stands before it unless it is the whole path. */
  lemma {:induction false} BasenameIff(path: string, name: string)
    ensures Basename(path) == name <==> NoSlash(name) && (path == name || exists dir :: path == dir + "/" + name)
  {
    BasenameParts(path);
    forall dir | path == dir + "/" + name && NoSlash(name) ensures Basename(path) == name {
      BasenameAppend(dir + "/", name);
    }
    if path == name && NoSlash(name) {
      BasenameAppend("", name);
      assert "" + name == name;
    }
  }

  lemma {:induction false} BasenameParts(path: string)
    ensures NoSlash(Basename(path))
    ensures path == Basename(path) || exists dir :: path == dir + "/" + Basename(path)
  {
    if path != "" {
      var front, last := path[..|path| - 1], path[|path| - 1];
      assert path == front + [last];
      if last == '/' {
        assert path == front + "/" + "";
      } else {
        BasenameParts(front);
        if dir :| front == dir + "/" + Basename(front) {
          assert path == dir + "/" + Basename(path);
        }
      }
    }
  }

  // ---- record lines ----

  predicate IsHexDigit(c: char) { '0' <= c <= '9' || 'a' <= c <= 'f' }

  predicate IsHash(s: string) { |s| == 40 && forall i :: 0 <= i < |s| ==> IsHexDigit(s[i]) }

  /** `[^:#]+\.md` */
  predicate IsName(s: string) {
    |s| >= 4 && EndsWith(s, ".md") && forall i :: 0 <= i < |s| ==> s[i] != ':' && s[i] != '#'
  }

  predicate IsComment(line: string) { line == "" || line[0] == '#' }

  function LineName(line: string): string
    requires |line| >= 42
  {
    line[..|line| - 42]
  }

  function LineHash(line: string): string
    requires |line| >= 42
  {
    line[|line| - 40..]
  }

  predicate IsEntry(line: string) {
    |line| >= 42 && line[|line| - 42..|line| - 40] == ": " && IsName(LineName(line)) && IsHash(LineHash(line))
  }

  function Entry(name: string, hash: string): string { name + ": " + hash }

  lemma EntryOf(name: string, hash: string)
    requires |hash| == 40
    ensures var line := Entry(name, hash);
      |line| >= 42 && line[|line| - 42..|line| - 40] == ": " && LineName(line) == name && LineHash(line) == hash
  {
  }

  // ---- parsing ----

  /** The entries of the lines added to those already read; `None` for a malformed or repeated line. */
  function ParseLines(lines: seq<string>, hashes: map<string, string>): Option<map<string, string>> {
    if lines == [] then Some(hashes)
    else if IsComment(lines[0]) then ParseLines(lines[1..], hashes)
    else if !IsEntry(lines[0]) || LineName(lines[0]) in hashes then None
    else ParseLines(lines[1..], hashes[LineName(lines[0]) := LineHash(lines[0])])
  }

  function ParseMeta(content: string): Option<map<string, string>> {
    ParseLines(L.Split(content), map[])
  }

  function Select(hashes: map<string, string>, sourceName: string, zhName: string): Option<PairRecord> {
    if |hashes| == 2 && sourceName in hashes && zhName in hashes
    then Some(PairRecord(hashes[sourceName], hashes[zhName])) else None
  }

  function Parse(content: string, paths: PairPaths): Option<PairRecord> {
    var hashes := ParseMeta(content);
    if hashes.None? then None else Select(hashes.value, Basename(paths.source), Basename(paths.zh))
  }

  method ParsePairMeta(content: string) returns (r: Option<map<string, string>>)
    ensures r == ParseMeta(content)
  {
    var lines := L.Split(content);
    var hashes: map<string, string> := map[];
    assert lines[0..] == lines;
    for i := 0 to |lines|
      invariant ParseLines(lines, map[]) == ParseLines(lines[i..], hashes)
    {
      var line := lines[i];
      assert lines[i..][0] == line && lines[i..][1..] == lines[i + 1..];
      if !IsComment(line) {
        if !IsEntry(line) || LineName(line) in hashes { return None; }
        hashes := hashes[LineName(line) := LineHash(line)];
      }
    }
    assert lines[|lines|..] == [];
    return Some(hashes);
  }

  function Entries(lines: seq<string>): nat {
    if lines == [] then 0 else (if IsComment(lines[0]) then 0 else 1) + Entries(lines[1..])
  }

  lemma {:induction false} EntriesConcat(a: seq<string>, b: seq<string>)
    ensures Entries(a + b) == Entries(a) + Entries(b)
  {
    if a == [] {
      assert a + b == b;
    } else {
      assert (a + b)[1..] == a[1..] + b;
      EntriesConcat(a[1..], b);
    }
  }

  lemma {:induction false} NoEntries(lines: seq<string>)
    ensures Entries(lines) == 0 <==> forall i :: 0 <= i < |lines| ==> IsComment(lines[i])
  {
    if lines != [] {
      NoEntries(lines[1..]);
      assert lines == [lines[0]] + lines[1..];
    }
  }

  lemma {:induction false} ParseConcat(a: seq<string>, b: seq<string>, hashes: map<string, string>)
    ensures ParseLines(a + b, hashes)
      == (var first := ParseLines(a, hashes); if first.None? then None else ParseLines(b, first.value))
  {
    if a == [] {
      assert a + b == b;
    } else {
      assert (a + b)[1..] == a[1..] + b;
      if IsComment(a[0]) {
        ParseConcat(a[1..], b, hashes);
      } else if IsEntry(a[0]) && LineName(a[0]) !in hashes {
        ParseConcat(a[1..], b, hashes[LineName(a[0]) := LineHash(a[0])]);
      }
    }
  }

  lemma {:induction false} ParseComments(lines: seq<string>, hashes: map<string, string>)
    requires Entries(lines) == 0
    ensures ParseLines(lines, hashes) == Some(hashes)
  {
    if lines != [] { ParseComments(lines[1..], hashes); }
  }

  /** A record parses only with one distinct name for each of its entry lines. */
  lemma {:induction false} ParsedSize(lines: seq<string>, hashes: map<string, string>)
    requires ParseLines(lines, hashes).Some?
    ensures |ParseLines(lines, hashes).value| == |hashes| + Entries(lines)
  {
    if lines != [] {
      if IsComment(lines[0]) {
        ParsedSize(lines[1..], hashes);
      } else {
        ParsedSize(lines[1..], hashes[LineName(lines[0]) := LineHash(lines[0])]);
      }
    }
  }

  /** Every name read is a well-formed one of a single line. */
  lemma {:induction false} ParsedNames(lines: seq<string>, hashes: map<string, string>, name: string)
    requires forall line :: line in lines ==> L.OneLine(line)
    requires ParseLines(lines, hashes).Some? && name in ParseLines(lines, hashes).value && name !in hashes
    ensures IsName(name) && L.OneLine(name)
  {
    assert lines[0] in lines;
    if IsComment(lines[0]) {
      ParsedNames(lines[1..], hashes, name);
    } else if LineName(lines[0]) != name {
      ParsedNames(lines[1..], hashes[LineName(lines[0]) := LineHash(lines[0])], name);
    }
  }

  // ---- which texts are records ----

  /** An entry line: a document name, a colon and a space, and a hash. */
  predicate Says(line: string, name: string, hash: string) {
    IsName(name) && IsHash(hash) && line == name + ": " + hash
  }

  ghost predicate SaysOneOf(line: string, hashes: map<string, string>) {
    exists name :: name in hashes && Says(line, name, hashes[name])
  }

  ghost predicate SaidBy(lines: seq<string>, name: string, hash: string) {
    exists line :: line in lines && Says(line, name, hash)
  }

  /** Every line is a comment or one of the entries, every entry has a line, and no name has two. */
  ghost predicate Records(lines: seq<string>, hashes: map<string, string>) {
    && (forall line :: line in lines ==> IsComment(line) || SaysOneOf(line, hashes))
    && (forall name :: name in hashes ==> SaidBy(lines, name, hashes[name]))
    && (forall i, j :: 0 <= i < j < |lines| ==> !SameName(lines[i], lines[j]))
  }

  ghost predicate SameName(a: string, b: string) {
    exists name, h, k :: Says(a, name, h) && Says(b, name, k)
  }

  lemma SaysIff(line: string, name: string, hash: string)
    ensures Says(line, name, hash) <==> IsEntry(line) && LineName(line) == name && LineHash(line) == hash
    ensures Says(line, name, hash) ==> !IsComment(line)
  {
    if IsEntry(line) {
      assert line == LineName(line) + ": " + LineHash(line);
    }
    if Says(line, name, hash) {
      EntryOf(name, hash);
      assert line[0] == name[0];
    }
  }

  lemma SaysItself(line: string)
    requires IsEntry(line)
    ensures Says(line, LineName(line), LineHash(line)) && !IsComment(line)
    ensures forall name, hash :: Says(line, name, hash) ==> name == LineName(line) && hash == LineHash(line)
  {
    forall name, hash ensures Says(line, name, hash) <==> name == LineName(line) && hash == LineHash(line) {
      SaysIff(line, name, hash);
    }
    SaysIff(line, LineName(line), LineHash(line));
  }

  lemma OnlyEntriesSay(line: string, name: string, hash: string)
    requires Says(line, name, hash)
    ensures IsEntry(line) && !IsComment(line)
  {
    SaysIff(line, name, hash);
  }

  /** One more line. */
  lemma RecordsComment(lines: seq<string>, line: string, hashes: map<string, string>)
    requires IsComment(line)
    ensures Records(lines + [line], hashes) <==> Records(lines, hashes)
  {
    forall name, hash ensures !Says(line, name,
      hash) { if Says(line, name, hash) { OnlyEntriesSay(line, name, hash); } }
    forall name, hash ensures SaidBy(lines + [line], name, hash) <==> SaidBy(lines, name, hash) { }
    var longer := lines + [line];
    assert forall i :: 0 <= i < |lines| ==> longer[i] == lines[i];
  }

  lemma RecordsEntry(lines: seq<string>, line: string, hashes: map<string, string>)
    requires IsEntry(line) && LineName(line) !in hashes && Records(lines, hashes)
    ensures Records(lines + [line], hashes[LineName(line) := LineHash(line)])
  {
    SaysItself(line);
    var longer, more := lines + [line], hashes[LineName(line) := LineHash(line)];
    forall l | l in longer ensures IsComment(l) || SaysOneOf(l, more) {
      if l in lines && !IsComment(l) {
        var name :| name in hashes && Says(l, name, hashes[name]);
        assert Says(l, name, more[name]);
      } else if l == line {
        assert Says(l, LineName(line), more[LineName(line)]);
      }
    }
    forall name | name in more ensures SaidBy(longer, name, more[name]) {
      if name == LineName(line) {
        assert line in longer;
      } else {
        var l :| l in lines && Says(l, name, hashes[name]);
        assert l in longer;
      }
    }
    forall i | 0 <= i < |lines| ensures !SameName(lines[i], line) {
      assert lines[i] in lines;
      if name, h, k :| Says(lines[i], name, h) && Says(line, name, k) {
        OnlyEntriesSay(lines[i], name, h);
        SaysItself(lines[i]);
        assert SaysOneOf(lines[i], hashes);
      }
    }
  }

  lemma LastIsEntry(lines: seq<string>, line: string, hashes: map<string, string>)
    requires !IsComment(line) && Records(lines + [line], hashes)
    ensures IsEntry(line) && LineName(line) in hashes && hashes[LineName(line)] == LineHash(line)
  {
    assert line in lines + [line];
    var own :| own in hashes && Says(line, own, hashes[own]);
    OnlyEntriesSay(line, own, hashes[own]);
    SaysItself(line);
  }

  lemma OthersSayTheRest(lines: seq<string>, line: string, hashes: map<string, string>, l: string)
    requires IsEntry(line) && Records(lines + [line], hashes) && l in lines && !IsComment(l)
    ensures SaysOneOf(l, hashes - {LineName(line)})
  {
    var longer := lines + [line];
    var i :| 0 <= i < |lines| && lines[i] == l;
    assert longer[i] == l && longer[|lines|] == line && l in longer;
    assert !SameName(l, line);
    SaysItself(line);
    var name :| name in hashes && Says(l, name, hashes[name]);
    assert Says(l, name, (hashes - {LineName(line)})[name]);
  }

  lemma RecordsWithout(lines: seq<string>, line: string, hashes: map<string, string>)
    requires IsEntry(line) && Records(lines + [line], hashes)
    ensures Records(lines, hashes - {LineName(line)})
  {
    var longer, fewer := lines + [line], hashes - {LineName(line)};
    SaysItself(line);
    forall l | l in lines && !IsComment(l) ensures SaysOneOf(l, fewer) { OthersSayTheRest(lines, line, hashes, l); }
    forall name | name in fewer ensures SaidBy(lines, name, fewer[name]) {
      var l :| l in longer && Says(l, name, hashes[name]);
      assert l != line;
    }
    assert forall i :: 0 <= i < |lines| ==> longer[i] == lines[i];
  }

  lemma ParseOneMore(lines: seq<string>, line: string, hashes: map<string, string>)
    ensures var read := ParseLines(lines, map[]);
      ParseLines(lines + [line], map[]) == Some(hashes) <==>
      if IsComment(line) then read == Some(hashes)
      else
        && read.Some? && IsEntry(line) && LineName(line) !in read.value
        && hashes == read.value[LineName(line) := LineHash(line)]
  {
    ParseConcat(lines, [line], map[]);
    assert [line][1..] == [];
  }

  lemma OneMoreEntryIff(lines: seq<string>, line: string, hashes: map<string, string>)
    requires !IsComment(line) && forall h :: ParseLines(lines, map[]) == Some(h) <==> Records(lines, h)
    ensures ParseLines(lines + [line], map[]) == Some(hashes) <==> Records(lines + [line], hashes)
  {
    ParseOneMore(lines, line, hashes);
    var read := ParseLines(lines, map[]);
    if read.Some? && IsEntry(line) && LineName(line) !in read.value {
      RecordsEntry(lines, line, read.value);
    }
    if Records(lines + [line], hashes) {
      LastIsEntry(lines, line, hashes);
      RecordsWithout(lines, line, hashes);
      var fewer := hashes - {LineName(line)};
      assert read == Some(fewer) && hashes == fewer[LineName(line) := LineHash(line)];
    }
  }

  /** A text parses exactly when it records these hashes. */
  lemma {:induction false} ParseIff(lines: seq<string>, hashes: map<string, string>)
    ensures ParseLines(lines, map[]) == Some(hashes) <==> Records(lines, hashes)
  {
    if lines == [] {
      if Records(lines, hashes) {
        assert forall name :: name in hashes ==> SaidBy(lines, name, hashes[name]);
        assert hashes == map[];
      }
    } else {
      var front, last := lines[..|lines| - 1], lines[|lines| - 1];
      assert lines == front + [last];
      forall h ensures ParseLines(front, map[]) == Some(h) <==> Records(front, h) { ParseIff(front, h); }
      if IsComment(last) {
        ParseOneMore(front, last, hashes);
        RecordsComment(front, last, hashes);
      } else {
        OneMoreEntryIff(front, last, hashes);
      }
    }
  }

  lemma TwoNames(hashes: map<string, string>, a: string, b: string)
    requires a in hashes && b in hashes
    ensures |hashes| == 2 && a != b <==> a != b && hashes == map[a := hashes[a], b := hashes[b]]
  {
    var rest := hashes.Keys - {a} - {b};
    assert hashes.Keys == rest + {a} + {b};
    if a != b { assert |hashes.Keys| == |rest| + 2; }
    if rest == {} { assert hashes == map[a := hashes[a], b := hashes[b]]; }
  }

  /** A text is the record of a pair exactly when it records one hash for each of the two names and nothing else. */
  lemma ParseRecordIff(content: string, paths: PairPaths, record: PairRecord)
    requires Basename(paths.source) != Basename(paths.zh)
    ensures Parse(content, paths) == Some(record) <==>
      Records(L.Split(content),
        map[Basename(paths.source) := record.sourceHash, Basename(paths.zh) := record.zhHash])
  {
    var (a, b) := (Basename(paths.source), Basename(paths.zh));
    var two := map[a := record.sourceHash, b := record.zhHash];
    ParseIff(L.Split(content), two);
    TwoNames(two, a, b);
    var hashes := ParseMeta(content);
    if hashes.Some? && a in hashes.value && b in hashes.value { TwoNames(hashes.value, a, b); }
  }

  // ---- rendering ----

  // Joined from short pieces: that each header is a single line is then read off its pieces.
  const HEADER_1 := "# Bilingual-pair " + "consistency record " + "(docs/i18n/README.md): "
    + "the git blob hash of each"
  const HEADER_2 := "# side as of the last " + "confirmed-consistent " + "state. Both languages "
    + "carry equal authority;"
  const HEADER_3 := "# after editing either " + "side, bring the other " + "along and re-record with:"
  const HEADER_4 := "#   pnpm run " + "verify-translation-pairing " + "--write "

  function Render(paths: PairPaths, record: PairRecord): string {
    L.Join([
      HEADER_1, HEADER_2, HEADER_3, HEADER_4 + paths.source,
      Entry(Basename(paths.source), record.sourceHash), Entry(Basename(paths.zh), record.zhHash), ""
    ])
  }

  // ---- round trip ----

  /** Every line of the path after the first reads as a comment or a blank line. */
  predicate StaysInHeader(path: string) {
    forall i :: 1 <= i < |L.Split(path)| ==> IsComment(L.Split(path)[i])
  }

  predicate CanStand(name: string) { IsName(name) && L.OneLine(name) }

  lemma {:induction false} SplitPrefixed(prefix: string, text: string)
    requires L.OneLine(prefix)
    ensures L.Split(prefix + text) == [prefix + L.Split(text)[0]] + L.Split(text)[1..]
  {
    var lines := L.Split(text);
    if prefix == "" {
      assert prefix + text == text;
      assert "" + lines[0] == lines[0] && lines == [lines[0]] + lines[1..];
    } else {
      SplitPrefixed(prefix[1..], text);
      assert (prefix + text)[1..] == prefix[1..] + text;
      assert [prefix[0]] + (prefix[1..] + lines[0]) == prefix + lines[0];
    }
  }

  lemma FirstHeadersAreLines()
    ensures L.OneLine(HEADER_1) && L.OneLine(HEADER_2)
  {
    assert L.OneLine("# Bilingual-pair ") && L.OneLine("consistency record ");
    assert L.OneLine("(docs/i18n/README.md): ") && L.OneLine("the git blob hash of each");
    assert L.OneLine("# side as of the last ") && L.OneLine("confirmed-consistent ");
    assert L.OneLine("state. Both languages ") && L.OneLine("carry equal authority;");
  }

  lemma LastHeadersAreLines()
    ensures L.OneLine(HEADER_3) && L.OneLine(HEADER_4)
  {
    assert L.OneLine("# after editing either ") && L.OneLine("side, bring the other ");
    assert L.OneLine("along and re-record with:");
    assert L.OneLine("#   pnpm run ") && L.OneLine("verify-translation-pairing ") && L.OneLine("--write ");
  }

  lemma SplitTwo(a: string, rest: string)
    requires L.OneLine(a)
    ensures L.Split(a + "\n" + rest) == [a] + L.Split(rest)
  {
    L.SplitConcat(a, rest);
    L.SplitPlain(a);
  }

  /** The lines of a text of three header lines, the path line, two entries and a final newline. */
  lemma SplitRecord(h1: string, h2: string, h3: string, path: string, e1: string, e2: string)
    requires L.OneLine(h1) && L.OneLine(h2) && L.OneLine(h3)
    ensures L.Split(L.Join([h1, h2, h3, path, e1, e2, ""]))
      == [h1] + ([h2] + ([h3] + (L.Split(path) + (L.Split(e1) + (L.Split(e2) + [""])))))
  {
    var t6 := e2 + "\n" + "";
    var t5 := e1 + "\n" + t6;
    var t4 := path + "\n" + t5;
    var t3 := h3 + "\n" + t4;
    var t2 := h2 + "\n" + t3;
    JoinCons(e2, [""]);
    JoinCons(e1, [e2, ""]);
    JoinCons(path, [e1, e2, ""]);
    JoinCons(h3, [path, e1, e2, ""]);
    JoinCons(h2, [h3, path, e1, e2, ""]);
    JoinCons(h1, [h2, h3, path, e1, e2, ""]);
    L.SplitConcat(e2, "");
    L.SplitConcat(e1, t6);
    L.SplitConcat(path, t5);
    SplitTwo(h3, t4);
    SplitTwo(h2, t3);
    SplitTwo(h1, t2);
  }

  lemma JoinCons(line: string, lines: seq<string>)
    requires lines != []
    ensures L.Join([line] + lines) == line + "\n" + L.Join(lines)
  {
    assert ([line] + lines)[1..] == lines;
  }

  lemma EntryIsLine(name: string, hash: string)
    requires CanStand(name) && IsHash(hash)
    ensures L.OneLine(Entry(name, hash)) && IsEntry(Entry(name, hash)) && !IsComment(Entry(name, hash))
  {
    EntryOf(name, hash);
    assert Entry(name, hash)[0] == name[0];
  }

  /** Under comments, two well-formed entries are read back. */
  lemma EntriesParse(head: seq<string>, n1: string, h1: string, n2: string, h2: string)
    requires Entries(head) == 0 && CanStand(n1) && CanStand(n2) && n1 != n2 && IsHash(h1) && IsHash(h2)
    ensures ParseLines(head + [Entry(n1, h1), Entry(n2, h2), ""], map[]) == Some(map[n1 := h1, n2 := h2])
  {
    var e1, e2 := Entry(n1, h1), Entry(n2, h2);
    EntryIsLine(n1, h1);
    EntryIsLine(n2, h2);
    EntryOf(n1, h1);
    EntryOf(n2, h2);
    ParseComments(head, map[]);
    ParseConcat(head, [e1, e2, ""], map[]);
    assert [e1, e2, ""][1..] == [e2, ""] && [e2, ""][1..] == [""];
    assert ParseLines([""], map[n1 := h1, n2 := h2]) == Some(map[n1 := h1, n2 := h2]);
    assert map[n1 := h1][n2 := h2] == map[n1 := h1, n2 := h2];
  }

  lemma TwoEntries(head: seq<string>, e1: string, e2: string)
    requires !IsComment(e1) && !IsComment(e2)
    ensures Entries(head + [e1, e2, ""]) == Entries(head) + 2
  {
    EntriesConcat(head, [e1, e2, ""]);
    assert [e1, e2, ""][1..] == [e2, ""] && [e2, ""][1..] == [""];
    assert Entries([""]) == 0;
  }

  /** A record that reads back two entries has nothing else to read. */
  lemma ParsedHeadIsComment(head: seq<string>, n1: string, h1: string, n2: string, h2: string)
    requires IsHash(h1) && IsHash(h2)
    requires CanStand(n1) && CanStand(n2)
    requires ParseLines(head + [Entry(n1, h1), Entry(n2, h2), ""], map[]).Some?
    requires |ParseLines(head + [Entry(n1, h1), Entry(n2, h2), ""], map[]).value| == 2
    ensures Entries(head) == 0
  {
    EntryIsLine(n1, h1);
    EntryIsLine(n2, h2);
    ParsedSize(head + [Entry(n1, h1), Entry(n2, h2), ""], map[]);
    TwoEntries(head, Entry(n1, h1), Entry(n2, h2));
  }

  function HeaderLines(source: string): seq<string> {
    [HEADER_1] + ([HEADER_2] + ([HEADER_3] + L.Split(HEADER_4 + source)))
  }

  lemma HeaderEntries(source: string)
    ensures Entries(HeaderLines(source)) == 0 <==> StaysInHeader(source)
  {
    NoEntries(L.Split(source)[1..]);
    assert forall i :: 1 <= i < |L.Split(source)| ==> L.Split(source)[i] == L.Split(source)[1..][i - 1];
    LastHeadersAreLines();
    SplitPrefixed(HEADER_4, source);
    var first := HEADER_4 + L.Split(source)[0];
    assert first[0] == HEADER_4[0] == '#';
    CommentFirst(first, L.Split(source)[1..]);
    CommentFirst(HEADER_3, L.Split(HEADER_4 + source));
    CommentFirst(HEADER_2, [HEADER_3] + L.Split(HEADER_4 + source));
    CommentFirst(HEADER_1, [HEADER_2] + ([HEADER_3] + L.Split(HEADER_4 + source)));
  }

  lemma CommentFirst(line: string, lines: seq<string>)
    requires IsComment(line)
    ensures Entries([line] + lines) == Entries(lines)
  {
    assert ([line] + lines)[1..] == lines;
  }

  /** The lines of a rendered record. */
  lemma RenderedLines(paths: PairPaths, record: PairRecord)
    ensures var e1, e2 := Entry(Basename(paths.source), record.sourceHash), Entry(Basename(paths.zh), record.zhHash);
      L.Split(Render(paths, record)) == HeaderLines(paths.source) + (L.Split(e1) + (L.Split(e2) + [""]))
  {
    var e1, e2 := Entry(Basename(paths.source), record.sourceHash), Entry(Basename(paths.zh), record.zhHash);
    FirstHeadersAreLines();
    LastHeadersAreLines();
    SplitRecord(HEADER_1, HEADER_2, HEADER_3, HEADER_4 + paths.source, e1, e2);
    Reassociate([HEADER_1], [HEADER_2], [HEADER_3], L.Split(HEADER_4 + paths.source),
      L.Split(e1) + (L.Split(e2) + [""]));
  }

  lemma Reassociate<T>(a: seq<T>, b: seq<T>, c: seq<T>, d: seq<T>, e: seq<T>)
    ensures a + (b + (c + (d + e))) == (a + (b + (c + d))) + e
  {
  }

  /** The Chinese document is named after the English one. */
  lemma ZhBasename(source: string)
    requires PathsOf(source).Some?
    ensures Basename(source) != Basename(PathsOf(source).value.zh)
    ensures CanStand(Basename(source)) ==> CanStand(Basename(PathsOf(source).value.zh))
  {
    var stem := source[..|source| - 3];
    assert source == stem + ".md";
    BasenameAppend(stem, ".md");
    BasenameAppend(stem, ".zh.md");
    ZhCanStand(Basename(stem));
  }

  lemma ZhCanStand(base: string)
    ensures base + ".md" != base + ".zh.md"
    ensures CanStand(base + ".md") ==> CanStand(base + ".zh.md")
  {
    var name, zh := base + ".md", base + ".zh.md";
    assert |name| != |zh|;
    assert forall i :: 0 <= i < |base| ==> zh[i] == base[i] == name[i];
    assert zh[|base|..] == ".zh.md" && zh[|zh| - 3..] == ".md";
    assert forall i :: |base| <= i < |zh| ==> zh[i] == ".zh.md"[i - |base|];
  }

  /**
    Parsing a rendered record returns it, exactly when its name fits an entry and its path stays
    inside the header comment.
   */
  lemma RecordRoundTripIff(source: string, record: PairRecord)
    requires PathsOf(source).Some? && IsHash(record.sourceHash) && IsHash(record.zhHash)
    ensures var paths := PathsOf(source).value;
      Parse(Render(paths, record), paths) == Some(record) <==> CanStand(Basename(source)) && StaysInHeader(source)
  {
    var paths := PathsOf(source).value;
    var n1, n2 := Basename(source), Basename(paths.zh);
    var head := HeaderLines(source);
    var lines := L.Split(Render(paths, record));
    RenderedLines(paths, record);
    HeaderEntries(source);
    ZhBasename(source);
    if Parse(Render(paths, record), paths).Some? {
      L.SplitIntoOneLines(Render(paths, record));
      ParsedNames(lines, map[], n1);
    }
    if CanStand(n1) {
      EntryLines(head, n1, record.sourceHash, n2, record.zhHash);
      if Entries(head) == 0 { EntriesParse(head, n1, record.sourceHash, n2, record.zhHash); }
      if Parse(Render(paths, record), paths).Some? {
        ParsedHeadIsComment(head, n1, record.sourceHash, n2, record.zhHash);
      }
    }
  }

  lemma EntryLines(head: seq<string>, n1: string, h1: string, n2: string, h2: string)
    requires CanStand(n1) && CanStand(n2) && IsHash(h1) && IsHash(h2)
    ensures head + (L.Split(Entry(n1, h1)) + (L.Split(Entry(n2, h2)) + [""]))
      == head + [Entry(n1, h1), Entry(n2, h2), ""]
  {
    EntryIsLine(n1, h1);
    EntryIsLine(n2, h2);
    L.SplitPlain(Entry(n1, h1));
    L.SplitPlain(Entry(n2, h2));
  }

  lemma LeavesHeader(head: string, tail: string)
    requires L.OneLine(head) && L.OneLine(tail) && !IsComment(tail)
    ensures !StaysInHeader(head + "\n" + tail)
  {
    L.SplitPlain(head);
    L.SplitPlain(tail);
    L.SplitConcat(head, tail);
    assert L.Split(head + "\n" + tail)[1] == tail;
  }

  lemma BrokenPath(source: string)
    requires source == "a\nb/c.md"
    ensures PathsOf(source).Some? && Basename(source) == "c.md" && !StaysInHeader(source)
  {
    LeavesHeader("a", "b/c.md");
    assert "a" + "\n" + "b/c.md" == source;
    assert source[5..] == ".md" && source[0] == 'a';
    BasenameAppend("a\nb/", "c.md");
    assert source == "a\nb/" + "c.md";
    assert Basename("a\nb/") == "" && "" + "c.md" == "c.md";
  }

  lemma NameStands(name: string)
    requires name == "c.md"
    ensures CanStand(name)
  {
    assert name[1..] == ".md";
  }

  /** A line break in the path can end the header comment: this record is not read back, though its names could be. */
  lemma PathBreaksHeader(source: string, record: PairRecord)
    requires source == "a\nb/c.md" && IsHash(record.sourceHash) && IsHash(record.zhHash)
    ensures PathsOf(source).Some? && CanStand(Basename(source))
    ensures Parse(Render(PathsOf(source).value, record), PathsOf(source).value) != Some(record)
  {
    BrokenPath(source);
    NameStands(Basename(source));
    BrokenHeader(source, record);
  }

  lemma BrokenHeader(source: string, record: PairRecord)
    requires PathsOf(source).Some? && !StaysInHeader(source) && IsHash(record.sourceHash) && IsHash(record.zhHash)
    ensures Parse(Render(PathsOf(source).value, record), PathsOf(source).value) != Some(record)
  {
    RecordRoundTripIff(source, record);
  }
}
