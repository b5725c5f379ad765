/**
  Types on which the lookup falls short of its documented contract, and types on which it never does.
 */
module LookupLimits {
  import opened Wrappers
  import opened TypeLookup
  import opened TypePresence
  import opened LookupAccuracy
  import opened LookupTrust

  // ---- members the loop does not see ----

  predicate Clash(a: MemberDecl, b: MemberDecl) {
    !a.IndexSignature? && !b.IndexSignature? && (a.name == b.name || (a.Property? && a.written == b.name))
  }

  /** Member names are pairwise different, and no property's source text is another member's name. */
  ghost predicate SeparateNames(members: seq<MemberDecl>) {
    forall i, j :: 0 <= i < |members| && 0 <= j < |members| && i != j ==> !Clash(members[i], members[j])
  }

  lemma {:induction false} FreshName(members: seq<MemberDecl>) returns (x: string)
    ensures forall m :: m in members && m.Property? ==> |m.written| < |x|
  {
    if members == [] { return "x"; }
    x := FreshName(members[1..]);
    var m := members[0];
    if m.Property? && |m.written| >= |x| { x := m.written + "x"; }
    assert forall d :: d in members ==> d == m || d in members[1..];
  }

  /**
    Exactly when `missing` keeps its promise for every name asked of one type: when its members are
    all property signatures written as the names they declare. A method, a quoted key or an index
    signature is reported missing although the type declares it.
   */
  lemma MissingHonestIffPlain(w: World, file: string, members: seq<MemberDecl>, seen: Seen, fuel: nat)
    requires w.Valid() && SeparateNames(members) && fuel > 0
    ensures PlainMembers(members) <==>
      forall x :: Lookup(w, file, Literal(members), [Member(x)], seen, fuel) == Some((Missing, seen)) ==>
        !Possible(w, file, Literal(members), [Member(x)])
  {
    forall x ensures Possible(w, file, Literal(members), [Member(x)]) <==> Declares(members, x) {
      OneStepInLiteral(w, file, members, x);
    }
    if PlainMembers(members) {
      forall x ensures FindProperty(members, x).None? ==> !Declares(members, x) { PlainReadsRight(members, x); }
    } else if IndexSignature in members {
      var x := FreshName(members);
      assert Lookup(w, file, Literal(members), [Member(x)], seen, fuel) == Some((Missing, seen));
    } else {
      var i :| 0 <= i < |members| && !(members[i].Property? && members[i].written == members[i].name);
      var x := members[i].name;
      assert FirstNamed(members, x).Some?;
      assert forall j :: 0 <= j < |members| && j != i ==> !Clash(members[j], members[i]);
      assert Lookup(w, file, Literal(members), [Member(x)], seen, fuel) == Some((Missing, seen));
    }
  }

  lemma OneStepInLiteral(w: World, file: string, members: seq<MemberDecl>, x: string)
    requires w.Valid()
    ensures Possible(w, file, Literal(members), [Member(x)]) <==> Declares(members, x)
  {
    CertainIffStrict(w, file, Literal(members), [Member(x)]);
  }

  /** `keyof T` is walked like `T`: every `found` it answers is wrong. */
  lemma KeyofIsFoundButAbsent(w: World, file: string, operand: TypeNode, steps: seq<Step>, seen: Seen, fuel: nat)
    requires w.Valid() && steps != []
    ensures var node := Operator(KeyofOp, operand);
      Lookup(w, file, node, steps, seen, fuel + 1) == Lookup(w, file, operand, steps, seen, fuel)
      && !Possible(w, file, node, steps)
  {
    CertainIffStrict(w, file, Operator(KeyofOp, operand), steps);
  }

  // ---- endless walks ----

  /** `type A = A['x']`: every unfolding adds a step, so the guard never sees the same key twice. */
  ghost function SelfIndexing(): World {
    World(map[0 := ("f", Alias(IndexedAccess(Reference("A", false, None), Some("x"))))], map[("f", "A") := 0])
  }

  lemma {:induction false} SelfIndexingNeverAnswers(steps: seq<Step>, seen: Seen, fuel: nat)
    requires SelfIndexing().Valid() && steps != [] && forall key :: key in seen ==> key.1 < |steps|
    ensures LookupDecl(SelfIndexing(), 0, steps, seen, fuel).None?
    decreases fuel
  {
    var w := SelfIndexing();
    var a := Reference("A", false, None);
    assert w.decls[0] == ("f", Alias(IndexedAccess(a, Some("x"))));
    var marked, longer := seen + {Key(0, steps)}, [Member("x")] + steps;
    if fuel == 2 {
      assert Lookup(w, "f", a, longer, marked, 0).None?;
    }
    if fuel >= 3 {
      SelfIndexingNeverAnswers(longer, marked, fuel - 3);
      assert Lookup(w, "f", a, longer, marked, fuel - 2) == LookupDecl(w, 0, longer, marked, fuel - 3);
      assert Lookup(w, "f", IndexedAccess(a, Some("x")), steps, marked, fuel - 1).None?;
    }
  }
}
