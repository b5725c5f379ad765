/**
  Pieces of a text replaced by one distinct token each. Such a masked text determines what lies
  between the pieces exactly when no token occurs next to its own place. Otherwise the same text
  can be read in another way: the token is found too early or too late, and one gap grows at
  the cost of its neighbour.
 */
module GapTokens {
  import opened Sequences
  import opened Substitution

  /** One single-element piece per token. */
  function Singles<T>(tokens: seq<T>): (r: seq<seq<T>>)
    ensures |r| == |tokens|
  {
    if tokens == [] then [] else [[tokens[0]]] + Singles(tokens[1..])
  }

  lemma {:induction false} SinglesAt<T>(tokens: seq<T>, i: nat)
    requires i < |tokens|
    ensures Singles(tokens)[i] == [tokens[i]]
  {
    if i > 0 { SinglesAt(tokens[1..], i - 1); }
  }

  function Masked<T>(gaps: seq<seq<T>>, tokens: seq<T>): seq<T>
    requires |gaps| == |tokens| + 1
  {
    Interleave(gaps, Singles(tokens))
  }

  /** No token occurs in the gap before it or in the gap after it. */
  ghost predicate Unambiguous<T>(gaps: seq<seq<T>>, tokens: seq<T>)
    requires |gaps| == |tokens| + 1
  {
    forall i :: 0 <= i < |tokens| ==> tokens[i] !in gaps[i] && tokens[i] !in gaps[i + 1]
  }

  /** The first gap of another reading is not longer: its token would have to stand in a later gap. */
  lemma {:induction false} NotLonger<T(!new)>(a: seq<seq<T>>, b: seq<seq<T>>, tokens: seq<T>)
    requires |a| == |b| == |tokens| + 1 && tokens != [] && Distinct(tokens) && Unambiguous(a, tokens)
    requires Masked(a, tokens) == Masked(b, tokens)
    ensures |b[0]| <= |a[0]|
    decreases |tokens|
  {
    if |b[0]| > |a[0]| {
      var extra := b[0][|a[0]| + 1..];
      var restA, restB := Masked(a[1..], tokens[1..]), Masked(b[1..], tokens[1..]);
      Overlap(a[0], b[0], tokens[0], restA, restB);
      assert restA == extra + [tokens[0]] + restB;
      ShiftGap(b[1..], tokens[1..], extra + [tokens[0]]);
      FirstGap(a[1..], tokens[1..], |extra|);
      if |tokens| > 1 { NotLonger(a[1..], [extra + [tokens[0]] + b[1]] + b[2..], tokens[1..]); }
    }
  }

  lemma FirstGap<T>(gaps: seq<seq<T>>, tokens: seq<T>, k: nat)
    requires |gaps| == |tokens| + 1
    ensures k < |gaps[0]| ==> k < |Masked(gaps, tokens)| && Masked(gaps, tokens)[k] == gaps[0][k]
    ensures tokens == [] ==> Masked(gaps, tokens) == gaps[0]
  {
  }

  lemma Overlap<T>(a: seq<T>, b: seq<T>, token: T, restA: seq<T>, restB: seq<T>)
    requires a + [token] + restA == b + [token] + restB && |a| < |b|
    ensures restA == b[|a| + 1..] + [token] + restB
  {
    var text := a + [token] + restA;
    assert restA == text[|a| + 1..];
    assert text == b + ([token] + restB);
  }

  lemma ShiftGap<T>(gaps: seq<seq<T>>, tokens: seq<T>, more: seq<T>)
    requires |gaps| == |tokens| + 1
    ensures Masked([more + gaps[0]] + gaps[1..], tokens) == more + Masked(gaps, tokens)
  {
    var shifted := [more + gaps[0]] + gaps[1..];
    assert shifted[1..] == gaps[1..];
  }

  /** Readings of one masked text agree when one of them is unambiguous. */
  lemma {:induction false} MaskDeterminesGaps<T(!new)>(a: seq<seq<T>>, b: seq<seq<T>>, tokens: seq<T>)
    requires |a| == |b| == |tokens| + 1 && Distinct(tokens) && Unambiguous(a, tokens)
    requires Masked(a, tokens) == Masked(b, tokens)
    ensures a == b
    decreases |tokens|
  {
    if tokens != [] {
      NotLonger(a, b, tokens);
      var restA, restB := Masked(a[1..], tokens[1..]), Masked(b[1..], tokens[1..]);
      NotShorter(a[0], b[0], tokens[0], restA, restB);
      MaskDeterminesGaps(a[1..], b[1..], tokens[1..]);
      assert a == [a[0]] + a[1..] && b == [b[0]] + b[1..];
    }
  }

  lemma NotShorter<T>(a: seq<T>, b: seq<T>, token: T, restA: seq<T>, restB: seq<T>)
    requires a + [token] + restA == b + [token] + restB && |b| <= |a| && token !in a
    ensures a == b && restA == restB
  {
    var text := a + [token] + restA;
    assert text[|b|] == token;
    assert forall k :: 0 <= k < |a| ==> text[k] == a[k];
    assert a == text[..|a|] && b == text[..|b|];
    assert restA == text[|a| + 1..] && restB == text[|b| + 1..];
  }

  /** A token next to its own place can be read as that place. */
  lemma {:induction false} OtherReading<T>(a: seq<seq<T>>, tokens: seq<T>, i: nat) returns (b: seq<seq<T>>)
    requires |a| == |tokens| + 1 && i < |tokens| && (tokens[i] in a[i] || tokens[i] in a[i + 1])
    ensures |b| == |a| && Masked(b, tokens) == Masked(a, tokens) && b != a
    decreases i
  {
    if i > 0 {
      var rest := OtherReading(a[1..], tokens[1..], i - 1);
      b := [a[0]] + rest;
      assert b[1..] == rest && a == [a[0]] + a[1..];
    } else if tokens[0] in a[0] {
      b := ReadEarlier(a, tokens);
    } else {
      b := ReadLater(a, tokens);
    }
  }

  lemma ReadEarlier<T>(a: seq<seq<T>>, tokens: seq<T>) returns (b: seq<seq<T>>)
    requires |a| == |tokens| + 1 && tokens != [] && tokens[0] in a[0]
    ensures |b| == |a| && Masked(b, tokens) == Masked(a, tokens) && b != a
  {
    var k :| 0 <= k < |a[0]| && a[0][k] == tokens[0];
    var first, moved := a[0][..k], a[0][k + 1..] + [tokens[0]];
    var rest := [moved + a[1]] + a[1..][1..];
    b := [first] + rest;
    assert b[1..] == rest;
    ShiftGap(a[1..], tokens[1..], moved);
    SplitAt(a[0], k);
    assert |b[0]| != |a[0]|;
  }

  lemma ReadLater<T>(a: seq<seq<T>>, tokens: seq<T>) returns (b: seq<seq<T>>)
    requires |a| == |tokens| + 1 && tokens != [] && tokens[0] in a[1]
    ensures |b| == |a| && Masked(b, tokens) == Masked(a, tokens) && b != a
  {
    var k :| 0 <= k < |a[1]| && a[1][k] == tokens[0];
    var skipped := a[1][..k] + [tokens[0]];
    var rest := [a[1][k + 1..]] + a[1..][1..];
    b := [a[0] + [tokens[0]] + a[1][..k]] + rest;
    assert b[1..] == rest && rest[1..] == a[1..][1..];
    ShiftGap(rest, tokens[1..], skipped);
    SplitAt(a[1], k);
    assert a[1..] == [skipped + rest[0]] + rest[1..];
    assert |b[0]| != |a[0]|;
  }

  lemma SplitAt<T>(s: seq<T>, k: nat)
    requires k < |s|
    ensures s == s[..k] + [s[k]] + s[k + 1..]
  {
  }

  /** A masked text determines its gaps exactly when no token stands next to its own place. */
  lemma MaskDeterminesGapsIff<T(!new)>(gaps: seq<seq<T>>, tokens: seq<T>)
    requires |gaps| == |tokens| + 1 && Distinct(tokens)
    ensures Unambiguous(gaps, tokens) <==>
      forall other: seq<seq<T>> :: |other| == |gaps| && Masked(other, tokens) == Masked(gaps, tokens) ==> other == gaps
  {
    if Unambiguous(gaps, tokens) {
      forall other: seq<seq<T>> | |other| == |gaps| && Masked(other, tokens) == Masked(gaps, tokens)
        ensures other == gaps {
        MaskDeterminesGaps(gaps, other, tokens);
      }
    } else {
      var i :| 0 <= i < |tokens| && (tokens[i] in gaps[i] || tokens[i] in gaps[i + 1]);
      var other := OtherReading(gaps, tokens, i);
    }
  }

  /** A token right after its own place, or right before it: the same masked text. */
  lemma TokenBeside<T>(token: T)
    ensures Masked([[], [token]], [token]) == Masked([[token], []], [token])
  {
    assert [token][1..] == [] && [[], [token]][1..] == [[token]] && [[token], []][1..] == [[]];
    assert Masked([[token]], []) == [token] && Masked<T>([[]], []) == [];
  }
}
