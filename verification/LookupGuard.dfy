/**
  What the guard does to answers: the same walk without it gives the same answer or, where the
  guarded one says `unknown`, a definite one.
 */
module LookupGuard {
  import opened Wrappers
  import opened TypeLookup
  import opened TypePresence

  // ---- the walk without the guard ----

  function Free(w: World, file: string, node: TypeNode, steps: seq<Step>, fuel: nat): Option<Answer>
    requires w.Valid()
    decreases fuel, 0
  {
    if steps == [] then Some(Found)
    else if fuel == 0 then None
    else
      match MoveFrom(w, file, node, steps)
      case OutOfReach => Some(Unknown)
      case Members(members) =>
        var m := FindProperty(members, steps[0].name);
        if m.None? then Some(Missing) else FreeMember(w, file, m.value, steps, fuel)
      case Through(inner, rest) => Free(w, file, inner, rest, fuel - 1)
      case AllOf(parts) =>
        var r := FreeAll(w, file, parts, steps, fuel - 1);
        if r.None? then None else Some(Combine(r.value))
      case OneOf(parts) =>
        var r := FreeAll(w, file, parts, steps, fuel - 1);
        if r.None? then None else Some(CombineUnion(r.value))
      case Named(id) => FreeDecl(w, id, steps, fuel - 1)
  }

  function FreeMember(w: World, file: string, m: MemberDecl, steps: seq<Step>, fuel: nat): Option<Answer>
    requires w.Valid() && steps != [] && fuel > 0 && m.Property?
    decreases fuel - 1, 1
  {
    if |steps| == 1 then Some(Found)
    else if m.typ.None? then Some(Unknown)
    else Free(w, file, m.typ.value, steps[1..], fuel - 1)
  }

  function FreeDecl(w: World, id: DeclId, steps: seq<Step>, fuel: nat): Option<Answer>
    requires w.Valid() && id in w.decls
    decreases fuel, 0
  {
    var (file, decl) := w.decls[id];
    if steps == [] then Some(Found)
    else if fuel == 0 then None
    else
      match decl
      case EnumDecl => Some(Unknown)
      case Alias(body) => Free(w, file, body, steps, fuel - 1)
      case Interface(members, bases) =>
        if steps[0].ArrayHop? then Some(Unknown)
        else
          var m := FindProperty(members, steps[0].name);
          if m.Some? then FreeMember(w, file, m.value, steps, fuel)
          else if bases == [] then Some(Missing)
          else
            var r := FreeBases(w, file, bases, steps, fuel - 1);
            if r.None? then None else Some(Combine(r.value))
  }

  function FreeAll(w: World, file: string, parts: seq<TypeNode>, steps: seq<Step>, fuel: nat): (r: Option<seq<Answer>>)
    requires w.Valid()
    ensures r.Some? ==> |r.value| == |parts|
    decreases fuel, 1 + |parts|
  {
    if parts == [] then Some([])
    else
      var first, rest := Free(w, file, parts[0], steps, fuel), FreeAll(w, file, parts[1..], steps, fuel);
      if first.None? || rest.None? then None else Some([first.value] + rest.value)
  }

  function FreeBase(w: World, file: string, base: Option<string>, steps: seq<Step>, fuel: nat): Option<Answer>
    requires w.Valid()
    decreases fuel, 1
  {
    if base.None? || (file, base.value) !in w.resolve then Some(Unknown)
    else FreeDecl(w, w.resolve[(file, base.value)], steps, fuel)
  }

  function FreeBases(w: World, file: string, bases: seq<Option<string>>, steps: seq<Step>, fuel: nat)
      : (r: Option<seq<Answer>>)
    requires w.Valid()
    ensures r.Some? ==> |r.value| == |bases|
    decreases fuel, 2 + |bases|
  {
    if bases == [] then Some([])
    else
      var first, rest := FreeBase(w, file, bases[0], steps, fuel), FreeBases(w, file, bases[1..], steps, fuel);
      if first.None? || rest.None? then None else Some([first.value] + rest.value)
  }

  // ---- the two walks ----

  predicate Weaker(guarded: Answer, free: Answer) { guarded == free || guarded == Unknown }

  /** With one budget: where the free walk answers, so does the guarded one, and `missing` owes nothing to the guard. */
  predicate Cuts(guarded: Option<(Answer, Seen)>, free: Option<Answer>) {
    && (free.Some? ==> guarded.Some? && Weaker(guarded.value.0, free.value))
    && (guarded.Some? && guarded.value.0 == Missing ==> free == Some(Missing))
  }

  ghost predicate CutsAll(guarded: Option<(seq<Answer>, Seen)>, free: Option<seq<Answer>>) {
    && (free.Some? ==> guarded.Some? && |guarded.value.0| == |free.value|
                       && forall i :: 0 <= i < |free.value| ==> Weaker(guarded.value.0[i], free.value[i]))
    && (guarded.Some? && (forall r :: r in guarded.value.0 ==> r == Missing) ==>
          free.Some? && |guarded.value.0| == |free.value| && forall r :: r in free.value ==> r == Missing)
  }

  lemma CutsCombined(guarded: Option<(seq<Answer>, Seen)>, free: Option<seq<Answer>>)
    requires CutsAll(guarded, free)
    ensures free.Some? ==> Weaker(Combine(guarded.value.0), Combine(free.value))
    ensures free.Some? ==> Weaker(CombineUnion(guarded.value.0), CombineUnion(free.value))
    ensures guarded.Some? && Combine(guarded.value.0) == Missing ==> free.Some? && Combine(free.value) == Missing
    ensures guarded.Some? && CombineUnion(guarded.value.0) == Missing ==>
      free.Some? && CombineUnion(free.value) == Missing
  {
    if free.Some? {
      var a, b := guarded.value.0, free.value;
      assert forall i :: 0 <= i < |a| ==> a[i] in a && b[i] in b;
    }
  }

  lemma {:induction false} GuardCuts(w: World, file: string, node: TypeNode, steps: seq<Step>, seen: Seen, fuel: nat)
    requires w.Valid()
    ensures Cuts(Lookup(w, file, node, steps, seen, fuel), Free(w, file, node, steps, fuel))
    decreases fuel, 0
  {
    if steps != [] && fuel > 0 {
      match MoveFrom(w, file, node, steps) {
        case OutOfReach =>
        case Members(members) =>
          var m := FindProperty(members, steps[0].name);
          if m.Some? { GuardCutsMember(w, file, m.value, steps, seen, fuel); }
        case Through(inner, rest) => GuardCuts(w, file, inner, rest, seen, fuel - 1);
        case AllOf(parts) =>
          GuardCutsParts(w, file, parts, steps, seen, fuel - 1);
          CutsCombined(LookupAll(w, file, parts, steps, seen, fuel - 1), FreeAll(w, file, parts, steps, fuel - 1));
        case OneOf(parts) =>
          GuardCutsParts(w, file, parts, steps, seen, fuel - 1);
          CutsCombined(LookupAll(w, file, parts, steps, seen, fuel - 1), FreeAll(w, file, parts, steps, fuel - 1));
        case Named(id) => GuardCutsDecl(w, id, steps, seen, fuel - 1);
      }
    }
  }

  lemma {:induction false} GuardCutsMember(w: World, file: string, m: MemberDecl, steps: seq<Step>, seen: Seen,
                                           fuel: nat)
    requires w.Valid() && steps != [] && fuel > 0 && m.Property?
    ensures Cuts(LookupMember(w, file, m, steps, seen, fuel), FreeMember(w, file, m, steps, fuel))
    decreases fuel - 1, 1
  {
    if |steps| > 1 && m.typ.Some? { GuardCuts(w, file, m.typ.value, steps[1..], seen, fuel - 1); }
  }

  lemma {:induction false} GuardCutsDecl(w: World, id: DeclId, steps: seq<Step>, seen: Seen, fuel: nat)
    requires w.Valid() && id in w.decls
    ensures Cuts(LookupDecl(w, id, steps, seen, fuel), FreeDecl(w, id, steps, fuel))
    decreases fuel, 0
  {
    var (file, decl) := w.decls[id];
    if steps != [] && fuel > 0 && !decl.EnumDecl? && Key(id, steps) !in seen {
      var marked := seen + {Key(id, steps)};
      if decl.Alias? {
        GuardCuts(w, file, decl.body, steps, marked, fuel - 1);
      } else if steps[0].Member? {
        var m := FindProperty(decl.members, steps[0].name);
        if m.Some? {
          GuardCutsMember(w, file, m.value, steps, marked, fuel);
        } else {
          var bases := decl.bases;
          GuardCutsBases(w, file, bases, steps, marked, fuel - 1);
          CutsCombined(LookupBases(w, file, bases, steps, marked, fuel - 1),
                       FreeBases(w, file, bases, steps, fuel - 1));
        }
      }
    }
  }

  lemma {:induction false} GuardCutsParts(w: World, file: string, parts: seq<TypeNode>, steps: seq<Step>, seen: Seen,
                                          fuel: nat)
    requires w.Valid()
    ensures CutsAll(LookupAll(w, file, parts, steps, seen, fuel), FreeAll(w, file, parts, steps, fuel))
    decreases fuel, 1 + |parts|
  {
    if parts != [] {
      GuardCuts(w, file, parts[0], steps, seen, fuel);
      var first, free := Lookup(w, file, parts[0], steps, seen, fuel), Free(w, file, parts[0], steps, fuel);
      if first.None? {
        assert FreeAll(w, file, parts, steps, fuel) == None;
      } else {
        GuardCutsParts(w, file, parts[1..], steps, first.value.1, fuel);
        var rest := LookupAll(w, file, parts[1..], steps, first.value.1, fuel);
        var freeRest := FreeAll(w, file, parts[1..], steps, fuel);
        CutsCons(first, free, rest, freeRest);
        assert LookupAll(w, file, parts, steps, seen, fuel) == Cons(first, rest);
        assert FreeAll(w, file, parts, steps, fuel) == FreeCons(free, freeRest);
      }
    }
  }

  lemma {:induction false} GuardCutsBases(w: World, file: string, bases: seq<Option<string>>, steps: seq<Step>,
                                          seen: Seen, fuel: nat)
    requires w.Valid()
    ensures CutsAll(LookupBases(w, file, bases, steps, seen, fuel), FreeBases(w, file, bases, steps, fuel))
    decreases fuel, 2 + |bases|
  {
    if bases != [] {
      var base := bases[0];
      if base.Some? && (file, base.value) in w.resolve {
        GuardCutsDecl(w, w.resolve[(file, base.value)], steps, seen, fuel);
      }
      var first, free := LookupBase(w, file, base, steps, seen, fuel), FreeBase(w, file, base, steps, fuel);
      assert Cuts(first, free);
      if first.None? {
        assert FreeBases(w, file, bases, steps, fuel) == None;
      } else {
        GuardCutsBases(w, file, bases[1..], steps, first.value.1, fuel);
        var rest := LookupBases(w, file, bases[1..], steps, first.value.1, fuel);
        var freeRest := FreeBases(w, file, bases[1..], steps, fuel);
        CutsCons(first, free, rest, freeRest);
        assert LookupBases(w, file, bases, steps, seen, fuel) == Cons(first, rest);
        assert FreeBases(w, file, bases, steps, fuel) == FreeCons(free, freeRest);
      }
    }
  }

  function Cons(first: Option<(Answer, Seen)>, rest: Option<(seq<Answer>, Seen)>): Option<(seq<Answer>, Seen)> {
    if first.None? || rest.None? then None else Some(([first.value.0] + rest.value.0, rest.value.1))
  }

  function FreeCons(first: Option<Answer>, rest: Option<seq<Answer>>): Option<seq<Answer>> {
    if first.None? || rest.None? then None else Some([first.value] + rest.value)
  }

  lemma CutsCons(first: Option<(Answer, Seen)>, free: Option<Answer>, rest: Option<(seq<Answer>, Seen)>,
                 freeRest: Option<seq<Answer>>)
    requires first.Some? && Cuts(first, free) && CutsAll(rest, freeRest)
    ensures CutsAll(Cons(first, rest), FreeCons(free, freeRest))
  {
    if rest.Some? && (forall r :: r in [first.value.0] + rest.value.0 ==> r == Missing) {
      var all := [first.value.0] + rest.value.0;
      assert all[0] in all && forall r :: r in rest.value.0 ==> r in all;
    }
  }

  // ---- the results ----

  /**
    The guard only turns answers into `unknown`: from any guard state the walk gives the answer of the
    walk without guard, or `unknown`. A `missing` answer is always that of the walk without guard.
   */
  lemma GuardOnlyWeakens(w: World, file: string, node: TypeNode, steps: seq<Step>, seen: Seen, fuel: nat, free: nat)
    requires w.Valid() && Lookup(w, file, node, steps, seen, fuel).Some?
    ensures Free(w, file, node, steps, free).Some? ==>
      Weaker(Lookup(w, file, node, steps, seen, fuel).value.0, Free(w, file, node, steps, free).value)
    ensures Lookup(w, file, node, steps, seen, fuel).value.0 == Missing ==>
      Free(w, file, node, steps, fuel) == Some(Missing)
  {
    GuardCuts(w, file, node, steps, seen, fuel);
    GuardCuts(w, file, node, steps, seen, free);
    if Free(w, file, node, steps, free).Some? {
      if fuel <= free {
        MoreFuelSameAnswer(w, file, node, steps, seen, fuel, free);
      } else {
        MoreFuelSameAnswer(w, file, node, steps, seen, free, fuel);
      }
    }
  }

  /** Walks from different guard states do not contradict each other, even where the free walk has no answer. */
  lemma GuardedWalksAgree(w: World, file: string, node: TypeNode, steps: seq<Step>,
                          seen: Seen, fuel: nat, seen': Seen, fuel': nat)
    requires w.Valid()
    requires Lookup(w, file, node, steps, seen, fuel).Some? && Lookup(w, file, node, steps, seen', fuel').Some?
    ensures var a := Lookup(w, file, node, steps, seen, fuel).value.0;
      var b := Lookup(w, file, node, steps, seen', fuel').value.0;
      a == b || a == Unknown || b == Unknown
  {
    GuardOnlyWeakens(w, file, node, steps, seen, fuel, fuel');
    GuardOnlyWeakens(w, file, node, steps, seen', fuel', fuel);
  }

  // ---- what the guard costs ----

  ghost function OneInterface(): World {
    World(map[0 := ("f", Interface([Property("x", "x", None)], []))], map[("f", "A") := 0])
  }

  /** The interface is found the first time, and its second visit is cut short. */
  lemma SecondVisit()
    ensures var w, a, steps := OneInterface(), Reference("A", false, None), [Member("x")];
      && w.Valid()
      && Lookup(w, "f", a, steps, {}, 2) == Some((Found, {(0, 1)}))
      && Lookup(w, "f", a, steps, {(0, 1)}, 2) == Some((Unknown, {(0, 1)}))
      && Present(w, STRICT, "f", a, steps)
  {
    var w, steps := OneInterface(), [Member("x")];
    assert Key(0, steps) == (0, 1) && {} + {Key(0, steps)} == {(0, 1)};
    assert LookupDecl(w, 0, steps, {}, 1) == Some((Found, {(0, 1)}));
    assert PresentInDecl(w, STRICT, 0, steps);
  }

  /** The guard costs completeness: `A | A` has `x` in both branches, yet the second visit answers `unknown`. */
  lemma GuardHidesPresence()
    ensures var w, a, steps := OneInterface(), Reference("A", false, None), [Member("x")];
      && w.Valid()
      && Lookup(w, "f", Union([a, a]), steps, {}, 3) == Some((Unknown, {(0, 1)}))
      && Certain(w, "f", Union([a, a]), steps)
  {
    SecondVisit();
    TwoParts(OneInterface(), Reference("A", false, None), [Member("x")], {(0, 1)});
  }

  lemma TwoParts(w: World, a: TypeNode, steps: seq<Step>, seen: Seen)
    requires w.Valid() && steps != [] && Lookup(w, "f", a, steps, {}, 2) == Some((Found, seen))
    requires Lookup(w, "f", a, steps, seen, 2) == Some((Unknown, seen)) && Present(w, STRICT, "f", a, steps)
    ensures Lookup(w, "f", Union([a, a]), steps, {}, 3) == Some((Unknown, seen))
    ensures Certain(w, "f", Union([a, a]), steps)
  {
    LookupTwo(w, "f", a, a, steps, {}, 2);
    MixedUnion([Found, Unknown]);
    CertainTwice(w, a, steps);
  }

  lemma MixedUnion(answers: seq<Answer>)
    requires answers == [Found, Unknown]
    ensures CombineUnion(answers) == Unknown
  {
    assert answers[0] in answers && answers[1] in answers;
  }

  lemma CertainTwice(w: World, a: TypeNode, steps: seq<Step>)
    requires w.Valid() && steps != [] && Present(w, STRICT, "f", a, steps)
    ensures Certain(w, "f", Union([a, a]), steps)
  {
    assert MoveFrom(w, "f", Union([a, a]), steps) == OneOf([a, a]);
    assert Present(w, STRICT, "f", Union([a, a]), steps);
    CertainIffStrict(w, "f", Union([a, a]), steps);
  }

  lemma LookupTwo(w: World, file: string, a: TypeNode, b: TypeNode, steps: seq<Step>, seen: Seen, fuel: nat)
    requires w.Valid() && Lookup(w, file, a, steps, seen, fuel).Some?
    requires Lookup(w, file, b, steps, Lookup(w, file, a, steps, seen, fuel).value.1, fuel).Some?
    ensures var first := Lookup(w, file, a, steps, seen, fuel).value;
      var second := Lookup(w, file, b, steps, first.1, fuel).value;
      LookupAll(w, file, [a, b], steps, seen, fuel) == Some(([first.0, second.0], second.1))
  {
    var first := Lookup(w, file, a, steps, seen, fuel).value;
    var second := Lookup(w, file, b, steps, first.1, fuel).value;
    var none: seq<TypeNode>, one := [], [b];
    assert one[1..] == none && [a, b][1..] == one;
    assert LookupAll(w, file, none, steps, second.1, fuel) == Some(([], second.1));
    assert one[0] == b && [second.0] + [] == [second.0];
    assert LookupAll(w, file, one, steps, first.1, fuel) == Some(([second.0], second.1));
    assert [first.0] + [second.0] == [first.0, second.0];
  }

  const STEPS: seq<Step> := [Member("x")]
  const A: TypeNode := Reference("A", false, None)
  const B: TypeNode := Reference("B", false, None)

  /** `interface B { x }` and `type A = B | {}`. */
  ghost function SharedBase(): World {
    World(map[0 := ("f", Interface([Property("x", "x", None)], [])), 1 := ("f", Alias(Union([B, Literal([])])))],
          map[("f", "B") := 0, ("f", "A") := 1])
  }

  lemma BaseAnswers(seen: Seen, fuel: nat)
    requires fuel >= 2
    ensures SharedBase().Valid()
    ensures Lookup(SharedBase(), "f", B, STEPS, seen, fuel) ==
      if (0, 1) in seen then Some((Unknown, seen)) else Some((Found, seen + {(0, 1)}))
  {
    var w := SharedBase();
    assert Key(0, STEPS) == (0, 1);
    assert LookupDecl(w, 0, STEPS, seen, fuel - 1) ==
      if (0, 1) in seen then Some((Unknown, seen)) else Some((Found, seen + {(0, 1)}));
  }

  lemma UnionAnswers(seen: Seen, fuel: nat)
    requires fuel >= 5 && (0, 1) !in seen && (1, 1) !in seen
    ensures SharedBase().Valid()
    ensures Lookup(SharedBase(), "f", A, STEPS, seen, fuel) == Some((Unknown, seen + {(1, 1), (0, 1)}))
  {
    var w := SharedBase();
    var marked, answers := seen + {(1, 1)}, [Found, Missing];
    BaseAnswers(marked, fuel - 3);
    assert Lookup(w, "f", Literal([]), STEPS, marked + {(0, 1)}, fuel - 3) == Some((Missing, marked + {(0, 1)}));
    LookupTwo(w, "f", B, Literal([]), STEPS, marked, fuel - 3);
    assert answers[0] in answers && answers[1] in answers;
    assert Key(1, STEPS) == (1, 1) && marked + {(0, 1)} == seen + {(1, 1), (0, 1)};
    assert LookupDecl(w, 1, STEPS, seen, fuel - 1) == Some((Unknown, seen + {(1, 1), (0, 1)}));
  }

  lemma LookupBoth(w: World, file: string, a: TypeNode, b: TypeNode, steps: seq<Step>, seen: Seen, fuel: nat)
    requires w.Valid() && steps != [] && Lookup(w, file, a, steps, seen, fuel).Some?
    requires Lookup(w, file, b, steps, Lookup(w, file, a, steps, seen, fuel).value.1, fuel).Some?
    ensures var first := Lookup(w, file, a, steps, seen, fuel).value;
      var second := Lookup(w, file, b, steps, first.1, fuel).value;
      Lookup(w, file, Intersection([a, b]), steps, seen, fuel + 1)
      == Some((if first.0 == Found || second.0 == Found then Found
               else if first.0 == Unknown || second.0 == Unknown then Unknown else Missing, second.1))
  {
    LookupTwo(w, file, a, b, steps, seen, fuel);
    var answers := LookupAll(w, file, [a, b], steps, seen, fuel).value.0;
    assert answers[0] in answers && answers[1] in answers;
  }

  /** Between two guards there is no direction: on `A & B` the larger one finds what the empty one does not. */
  lemma LargerGuardFindsMore()
    ensures SharedBase().Valid()
    ensures Lookup(SharedBase(), "f", Intersection([A, B]), STEPS, {}, 6) == Some((Unknown, {(1, 1), (0, 1)}))
    ensures Lookup(SharedBase(), "f", Intersection([A, B]), STEPS, {(1, 1)}, 6) == Some((Found, {(1, 1), (0, 1)}))
  {
    UnionAnswers({}, 5);
    assert {} + {(1, 1), (0, 1)} == {(1, 1), (0, 1)} == {(1, 1)} + {(0, 1)};
    BaseAnswers({(1, 1), (0, 1)}, 5);
    LookupBoth(SharedBase(), "f", A, B, STEPS, {}, 5);
    BaseAnswers({(1, 1)}, 5);
    SecondUnion({(1, 1)}, 5);
    LookupBoth(SharedBase(), "f", A, B, STEPS, {(1, 1)}, 5);
  }

  lemma SecondUnion(seen: Seen, fuel: nat)
    requires fuel >= 2 && (1, 1) in seen
    ensures SharedBase().Valid() && Lookup(SharedBase(), "f", A, STEPS, seen, fuel) == Some((Unknown, seen))
  {
    assert Key(1, STEPS) == (1, 1);
    assert LookupDecl(SharedBase(), 1, STEPS, seen, fuel - 1) == Some((Unknown, seen));
  }
}
