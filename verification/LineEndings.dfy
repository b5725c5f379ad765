/**
  Line endings. Pages are normalized by one `replaceAll('\r\n', '\n')` before they are split.
  Replacing each CR LF by LF takes one carriage return off every line but the last. The pass is
  not repeated, so "\r\r\n" becomes "\r\n" and a line can still end in a carriage return
  afterwards; a text none of whose lines ends in one is left as it is.
 */
module LineEndings {
  import opened Lines

  /** `replaceAll('\r\n', '\n')`: one pass, so "\r\r\n" becomes "\r\n". */
  function Normalize(s: string): string {
    if s == "" then ""
    else if |s| >= 2 && s[0] == '\r' && s[1] == '\n' then "\n" + Normalize(s[2..])
    else [s[0]] + Normalize(s[1..])
  }

  predicate EndsInCr(line: string) { line != "" && line[|line| - 1] == '\r' }

  function Chop(line: string): string {
    if EndsInCr(line) then line[..|line| - 1] else line
  }

  /** Normalizing takes one carriage return off every line but the last. */
  function ChopLines(lines: seq<string>): seq<string>
    requires lines != []
  {
    if |lines| == 1 then lines else [Chop(lines[0])] + ChopLines(lines[1..])
  }

  lemma {:induction false} NormalizeLine(a: string, b: string)
    requires OneLine(a)
    ensures Normalize(a + "\n" + b) == Chop(a) + "\n" + Normalize(b)
  {
    var t := a + "\n" + b;
    if a == "" {
      assert t[1..] == b;
    } else if a == "\r" {
      assert t[0] == '\r' && t[1] == '\n' && t[2..] == b;
    } else {
      assert t[0] == a[0] && t[1..] == a[1..] + "\n" + b;
      NormalizeLine(a[1..], b);
      if |a| >= 2 { assert t[1] == a[1]; }
      assert Chop(a) == [a[0]] + Chop(a[1..]);
    }
  }

  lemma {:induction false} NormalizeOneLine(a: string)
    requires OneLine(a)
    ensures Normalize(a) == a
  {
    if a != "" {
      NormalizeOneLine(a[1..]);
      assert a == [a[0]] + a[1..];
    }
  }

  lemma {:induction false} NormalizeJoin(lines: seq<string>)
    requires lines != [] && forall line :: line in lines ==> OneLine(line)
    ensures Normalize(Join(lines)) == Join(ChopLines(lines))
  {
    if |lines| == 1 {
      NormalizeOneLine(lines[0]);
    } else {
      NormalizeJoin(lines[1..]);
      NormalizeLine(lines[0], Join(lines[1..]));
      var chopped := ChopLines(lines);
      assert chopped[1..] == ChopLines(lines[1..]);
    }
  }

  /** A text of whole lines splits into them and the empty end of the text. */
  lemma TextSplits(lines: seq<string>)
    requires lines != [] && forall line :: line in lines ==> OneLine(line)
    ensures Split(Join(lines) + "\n") == lines + [""]
  {
    SplitJoin(lines);
    SplitConcat(Join(lines), "");
    assert Join(lines) + "\n" + "" == Join(lines) + "\n";
  }

  lemma {:induction false} ChopKeepsOneLines(lines: seq<string>)
    requires lines != [] && forall line :: line in lines ==> OneLine(line)
    ensures forall line :: line in ChopLines(lines) ==> OneLine(line)
  {
    assert lines[0] in lines;
    if |lines| > 1 {
      assert forall line :: line in lines[1..] ==> line in lines;
      ChopKeepsOneLines(lines[1..]);
      assert forall line :: line in ChopLines(lines) ==> line == Chop(lines[0]) || line in ChopLines(lines[1..]);
    }
  }

  lemma {:induction false} ChopAppended(lines: seq<string>)
    requires lines != []
    ensures |ChopLines(lines + [""])| == |lines| + 1
    ensures forall i :: 0 <= i < |lines| ==> ChopLines(lines + [""])[i] == Chop(lines[i])
    ensures ChopLines(lines + [""])[|lines|] == ""
  {
    var all := lines + [""];
    if |lines| > 1 {
      ChopAppended(lines[1..]);
      assert all[1..] == lines[1..] + [""];
    } else {
      assert all[1..] == [""];
    }
  }

  lemma {:induction false} ChopUntouched(lines: seq<string>)
    requires forall line :: line in lines ==> !EndsInCr(line)
    ensures ChopLines(lines + [""]) == lines + [""]
  {
    if lines != [] {
      assert (lines + [""])[1..] == lines[1..] + [""];
      ChopUntouched(lines[1..]);
      assert lines[0] in lines;
    }
  }

  lemma SameTextSameLines(a: seq<string>, b: seq<string>)
    requires a != [] && b != [] && (forall line :: line in a ==> OneLine(line))
      && (forall line :: line in b ==> OneLine(line))
    requires Join(a) + "\n" == Join(b) + "\n"
    ensures a == b
  {
    TextSplits(a);
    TextSplits(b);
    assert a == (a + [""])[..|a|] && b == (b + [""])[..|b|];
  }
}
