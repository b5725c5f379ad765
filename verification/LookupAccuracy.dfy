/**
  When the definite answers of the walk are right: exactly when no member list on its way is
  misread. Between those lists the walk and the declared type agree, so the condition is local.
 */
module LookupAccuracy {
  import opened Wrappers
  import opened TypeLookup
  import opened TypePresence

  /** The member loop sees the member that the list declares under this name, or rightly sees none. */
  predicate ReadsRight(members: seq<MemberDecl>, x: string) {
    FindProperty(members, x) == FirstNamed(members, x)
    && (FindProperty(members, x).None? ==> IndexSignature !in members)
  }

  // ---- `missing` ----

  /**
    On its way to `missing` the walk passed a member list that hides the rest of the path: a method,
    a quoted key or an index signature declares the name that the loop did not match.
   */
  ghost predicate Overlooks(w: World, file: string, node: TypeNode, steps: seq<Step>, fuel: nat)
    requires w.Valid()
    decreases fuel, 0
  {
    steps != [] && fuel > 0 && !IsKeyof(node) &&
    match MoveFrom(w, file, node, steps)
    case OutOfReach => false
    case Members(members) =>
      if ReadsRight(members, steps[0].name) then OverlooksBelow(w, file, members, steps, fuel)
      else Hides(w, file, node, members, steps)
    case Through(inner, rest) => Overlooks(w, file, inner, rest, fuel - 1)
    case AllOf(parts) => exists i :: 0 <= i < |parts| && Overlooks(w, file, parts[i], steps, fuel - 1)
    case OneOf(parts) => exists i :: 0 <= i < |parts| && Overlooks(w, file, parts[i], steps, fuel - 1)
    case Named(id) => OverlooksInDecl(w, id, steps, fuel - 1)
  }

  ghost predicate OverlooksBelow(w: World, file: string, members: seq<MemberDecl>, steps: seq<Step>, fuel: nat)
    requires w.Valid() && steps != [] && steps[0].Member? && fuel > 0
    decreases fuel - 1, 1
  {
    var m := FindProperty(members, steps[0].name);
    m.Some? && |steps| > 1 && m.value.typ.Some? && Overlooks(w, file, m.value.typ.value, steps[1..], fuel - 1)
  }

  ghost predicate OverlooksInDecl(w: World, id: DeclId, steps: seq<Step>, fuel: nat)
    requires w.Valid() && id in w.decls
    decreases fuel, 0
  {
    var (file, decl) := w.decls[id];
    steps != [] && fuel > 0 &&
    match decl
    case EnumDecl => false
    case Alias(body) => Overlooks(w, file, body, steps, fuel - 1)
    case Interface(members, bases) =>
      steps[0].Member? &&
      if !ReadsRight(members, steps[0].name) then
        Hides(w, file, Literal(members), members, steps)
        || (!Declares(members, steps[0].name)
            && exists i :: 0 <= i < |bases| && PresentInBase(w, LENIENT, id, file, bases[i], steps))
      else if FindProperty(members, steps[0].name).Some? then OverlooksBelow(w, file, members, steps, fuel)
      else exists i :: 0 <= i < |bases| && OverlooksInBase(w, file, bases[i], steps, fuel - 1)
  }

  ghost predicate OverlooksInBase(w: World, file: string, base: Option<string>, steps: seq<Step>, fuel: nat)
    requires w.Valid()
    decreases fuel, 1
  {
    base.Some? && (file, base.value) in w.resolve && OverlooksInDecl(w, w.resolve[(file, base.value)], steps, fuel)
  }

  /** The list declares the name, and what it declares may have the rest of the path. */
  ghost predicate Hides(w: World, file: string, owner: TypeNode, members: seq<MemberDecl>, steps: seq<Step>)
    requires w.Valid() && steps != [] && steps[0].Member?
  {
    Declares(members, steps[0].name) && PresentBelow(w, LENIENT, file, owner, members, steps)
  }

  /** `missing` means absent in every branch for every truth about the unseen parts, unless a list hid the path. */
  lemma MissingIsAbsentIff(w: World, file: string, node: TypeNode, steps: seq<Step>, seen: Seen, fuel: nat)
    requires w.Valid()
    requires var r := Lookup(w, file, node, steps, seen, fuel); r.Some? && r.value.0 == Missing
    ensures !Possible(w, file, node, steps) <==> !Overlooks(w, file, node, steps, fuel)
  {
    MissingIff(w, file, node, steps, seen, fuel);
    CertainIffStrict(w, file, node, steps);
  }

  lemma {:induction false} MissingIff(w: World, file: string, node: TypeNode, steps: seq<Step>, seen: Seen, fuel: nat)
    requires w.Valid()
    requires var r := Lookup(w, file, node, steps, seen, fuel); r.Some? && r.value.0 == Missing
    ensures Overlooks(w, file, node, steps, fuel) <==> Present(w, LENIENT, file, node, steps)
    decreases fuel, 0
  {
    PresentMoves(w, LENIENT, file, node, steps);
    match MoveFrom(w, file, node, steps) {
      case Members(members) =>
        var m := FindProperty(members, steps[0].name);
        if m.Some? { MissingBelow(w, file, m.value, node, members, steps, seen, fuel); }
      case Through(inner, rest) => MissingIff(w, file, inner, rest, seen, fuel - 1);
      case AllOf(parts) => MissingParts(w, file, parts, steps, seen, fuel - 1);
      case OneOf(parts) => MissingParts(w, file, parts, steps, seen, fuel - 1);
      case Named(id) => MissingInDecl(w, id, steps, seen, fuel - 1);
    }
  }

  lemma {:induction false} MissingBelow(w: World, file: string, m: MemberDecl, owner: TypeNode,
                                        members: seq<MemberDecl>, steps: seq<Step>, seen: Seen, fuel: nat)
    requires w.Valid() && steps != [] && steps[0].Member? && fuel > 0
    requires FindProperty(members, steps[0].name) == Some(m)
    requires var r := LookupMember(w, file, m, steps, seen, fuel); r.Some? && r.value.0 == Missing
    ensures FirstNamed(members, steps[0].name) == Some(m) ==>
      (OverlooksBelow(w, file, members, steps, fuel) <==> PresentBelow(w, LENIENT, file, owner, members, steps))
    decreases fuel - 1, 1
  {
    MissingIff(w, file, m.typ.value, steps[1..], seen, fuel - 1);
  }

  lemma {:induction false} MissingInDecl(w: World, id: DeclId, steps: seq<Step>, seen: Seen, fuel: nat)
    requires w.Valid() && id in w.decls
    requires var r := LookupDecl(w, id, steps, seen, fuel); r.Some? && r.value.0 == Missing
    ensures OverlooksInDecl(w, id, steps, fuel) <==> PresentInDecl(w, LENIENT, id, steps)
    decreases fuel, 0
  {
    var (file, decl) := w.decls[id];
    var marked := seen + {Key(id, steps)};
    match decl {
      case Alias(body) => MissingIff(w, file, body, steps, marked, fuel - 1);
      case Interface(members, bases) =>
        var m := FindProperty(members, steps[0].name);
        if m.Some? {
          MissingBelow(w, file, m.value, Literal(members), members, steps, marked, fuel);
        } else if bases != [] {
          MissingBases(w, id, file, bases, steps, marked, fuel - 1);
        }
    }
  }

  lemma {:induction false} MissingParts(w: World, file: string, parts: seq<TypeNode>, steps: seq<Step>, seen: Seen,
                                        fuel: nat)
    requires w.Valid() && LookupAll(w, file, parts, steps, seen, fuel).Some?
    requires forall r :: r in LookupAll(w, file, parts, steps, seen, fuel).value.0 ==> r == Missing
    ensures forall i :: 0 <= i < |parts| ==>
      (Overlooks(w, file, parts[i], steps, fuel) <==> Present(w, LENIENT, file, parts[i], steps))
    decreases fuel, 1 + |parts|
  {
    if parts != [] {
      var answers := LookupAll(w, file, parts, steps, seen, fuel).value.0;
      assert answers[0] in answers && forall r :: r in answers[1..] ==> r in answers;
      MissingIff(w, file, parts[0], steps, seen, fuel);
      MissingParts(w, file, parts[1..], steps, Lookup(w, file, parts[0], steps, seen, fuel).value.1, fuel);
      assert forall i :: 1 <= i < |parts| ==> parts[i] == parts[1..][i - 1];
    }
  }

  lemma {:induction false} MissingBases(w: World, id: DeclId, file: string, bases: seq<Option<string>>,
                                        steps: seq<Step>, seen: Seen, fuel: nat)
    requires w.Valid() && LookupBases(w, file, bases, steps, seen, fuel).Some?
    requires forall r :: r in LookupBases(w, file, bases, steps, seen, fuel).value.0 ==> r == Missing
    ensures forall i :: 0 <= i < |bases| ==>
      (OverlooksInBase(w, file, bases[i], steps, fuel) <==> PresentInBase(w, LENIENT, id, file, bases[i], steps))
    decreases fuel, 2 + |bases|
  {
    if bases != [] {
      var answers := LookupBases(w, file, bases, steps, seen, fuel).value.0;
      assert answers[0] in answers && forall r :: r in answers[1..] ==> r in answers;
      var target := w.resolve[(file, bases[0].value)];
      MissingInDecl(w, target, steps, seen, fuel);
      MissingBases(w, id, file, bases[1..], steps, LookupDecl(w, target, steps, seen, fuel).value.1, fuel);
      assert forall i :: 1 <= i < |bases| ==> bases[i] == bases[1..][i - 1];
    }
  }

  // ---- `found` ----

  /**
    The walk reached `found` only past `keyof` operators or member lists it misread. A part of an
    intersection, or a base, that did not answer `found` must not have the member either.
   */
  ghost predicate Misled(w: World, file: string, node: TypeNode, steps: seq<Step>, seen: Seen, fuel: nat)
    requires w.Valid()
    decreases fuel, 0
  {
    steps != [] && fuel > 0 &&
    (IsKeyof(node) ||
     match MoveFrom(w, file, node, steps)
     case OutOfReach => false
     case Members(members) =>
       if ReadsRight(members, steps[0].name) then MisledBelow(w, file, members, steps, seen, fuel)
       else !Gives(w, file, node, members, steps)
     case Through(inner, rest) => Misled(w, file, inner, rest, seen, fuel - 1)
     case AllOf(parts) => MisledByAll(w, file, parts, steps, seen, fuel - 1)
     case OneOf(parts) => MisledBySome(w, file, parts, steps, seen, fuel - 1)
     case Named(id) => MisledInDecl(w, id, steps, seen, fuel - 1))
  }

  ghost predicate MisledBelow(w: World, file: string, members: seq<MemberDecl>, steps: seq<Step>, seen: Seen,
                              fuel: nat)
    requires w.Valid() && steps != [] && steps[0].Member? && fuel > 0
    decreases fuel - 1, 1
  {
    var m := FindProperty(members, steps[0].name);
    m.Some? && |steps| > 1 && m.value.typ.Some? && Misled(w, file, m.value.typ.value, steps[1..], seen, fuel - 1)
  }

  ghost predicate MisledInDecl(w: World, id: DeclId, steps: seq<Step>, seen: Seen, fuel: nat)
    requires w.Valid() && id in w.decls
    decreases fuel, 0
  {
    var (file, decl) := w.decls[id];
    var marked := seen + {Key(id, steps)};
    steps != [] && fuel > 0 &&
    match decl
    case EnumDecl => false
    case Alias(body) => Misled(w, file, body, steps, marked, fuel - 1)
    case Interface(members, bases) =>
      steps[0].Member? &&
      if !ReadsRight(members, steps[0].name) then
        !Gives(w, file, Literal(members), members, steps)
        && (Declares(members, steps[0].name)
            || forall i :: 0 <= i < |bases| ==> !PresentInBase(w, STRICT, id, file, bases[i], steps))
      else if FindProperty(members, steps[0].name).Some? then MisledBelow(w, file, members, steps, marked, fuel)
      else MisledByBases(w, id, file, bases, steps, marked, fuel - 1)
  }

  ghost predicate MisledByAll(w: World, file: string, parts: seq<TypeNode>, steps: seq<Step>, seen: Seen, fuel: nat)
    requires w.Valid()
    decreases fuel, 1 + |parts|
  {
    parts == [] ||
    (var first := Lookup(w, file, parts[0], steps, seen, fuel);
     first.Some?
     && (if first.value.0 == Found then Misled(w, file, parts[0], steps, seen, fuel)
         else !Present(w, STRICT, file, parts[0], steps))
     && MisledByAll(w, file, parts[1..], steps, first.value.1, fuel))
  }

  ghost predicate MisledBySome(w: World, file: string, parts: seq<TypeNode>, steps: seq<Step>, seen: Seen, fuel: nat)
    requires w.Valid()
    decreases fuel, 1 + |parts|
  {
    parts != [] &&
    (var first := Lookup(w, file, parts[0], steps, seen, fuel);
     first.Some?
     && (Misled(w, file, parts[0], steps, seen, fuel)
         || MisledBySome(w, file, parts[1..], steps, first.value.1, fuel)))
  }

  ghost predicate MisledByBases(w: World, id: DeclId, file: string, bases: seq<Option<string>>, steps: seq<Step>,
                                seen: Seen, fuel: nat)
    requires w.Valid()
    decreases fuel, 1 + |bases|
  {
    bases == [] ||
    (var first := LookupBase(w, file, bases[0], steps, seen, fuel);
     first.Some?
     && (if first.value.0 == Found then MisledInDecl(w, w.resolve[(file, bases[0].value)], steps, seen, fuel)
         else !PresentInBase(w, STRICT, id, file, bases[0], steps))
     && MisledByBases(w, id, file, bases[1..], steps, first.value.1, fuel))
  }

  /** The list declares the name, and what it declares surely has the rest of the path. */
  ghost predicate Gives(w: World, file: string, owner: TypeNode, members: seq<MemberDecl>, steps: seq<Step>)
    requires w.Valid() && steps != [] && steps[0].Member?
  {
    Declares(members, steps[0].name) && PresentBelow(w, STRICT, file, owner, members, steps)
  }

  /** `found` means present in every branch whatever the unseen parts are, unless the walk was misled. */
  lemma FoundIsPresentIff(w: World, file: string, node: TypeNode, steps: seq<Step>, seen: Seen, fuel: nat)
    requires w.Valid()
    requires var r := Lookup(w, file, node, steps, seen, fuel); r.Some? && r.value.0 == Found
    ensures Certain(w, file, node, steps) <==> !Misled(w, file, node, steps, seen, fuel)
  {
    FoundIff(w, file, node, steps, seen, fuel);
    CertainIffStrict(w, file, node, steps);
  }

  lemma {:induction false} FoundIff(w: World, file: string, node: TypeNode, steps: seq<Step>, seen: Seen, fuel: nat)
    requires w.Valid()
    requires var r := Lookup(w, file, node, steps, seen, fuel); r.Some? && r.value.0 == Found
    ensures Misled(w, file, node, steps, seen, fuel) <==> !Present(w, STRICT, file, node, steps)
    decreases fuel, 0
  {
    if steps != [] { PresentMoves(w, STRICT, file, node, steps); }
    if steps != [] && !IsKeyof(node) {
      match MoveFrom(w, file, node, steps) {
        case Members(members) =>
          FoundBelow(w, file, FindProperty(members, steps[0].name).value, node, members, steps, seen, fuel);
        case Through(inner, rest) => FoundIff(w, file, inner, rest, seen, fuel - 1);
        case AllOf(parts) => FoundParts(w, file, parts, steps, seen, fuel - 1);
        case OneOf(parts) => FoundParts(w, file, parts, steps, seen, fuel - 1);
        case Named(id) => FoundInDecl(w, id, steps, seen, fuel - 1);
      }
    }
  }

  lemma {:induction false} FoundBelow(w: World, file: string, m: MemberDecl, owner: TypeNode,
                                      members: seq<MemberDecl>, steps: seq<Step>, seen: Seen, fuel: nat)
    requires w.Valid() && steps != [] && steps[0].Member? && fuel > 0
    requires FindProperty(members, steps[0].name) == Some(m)
    requires var r := LookupMember(w, file, m, steps, seen, fuel); r.Some? && r.value.0 == Found
    ensures FirstNamed(members, steps[0].name) == Some(m) ==>
      (MisledBelow(w, file, members, steps, seen, fuel) <==> !PresentBelow(w, STRICT, file, owner, members, steps))
    decreases fuel - 1, 1
  {
    if |steps| > 1 { FoundIff(w, file, m.typ.value, steps[1..], seen, fuel - 1); }
  }

  lemma {:induction false} FoundInDecl(w: World, id: DeclId, steps: seq<Step>, seen: Seen, fuel: nat)
    requires w.Valid() && id in w.decls
    requires var r := LookupDecl(w, id, steps, seen, fuel); r.Some? && r.value.0 == Found
    ensures MisledInDecl(w, id, steps, seen, fuel) <==> !PresentInDecl(w, STRICT, id, steps)
    decreases fuel, 0
  {
    if steps != [] {
      var (file, decl) := w.decls[id];
      var marked := seen + {Key(id, steps)};
      match decl {
        case Alias(body) => FoundIff(w, file, body, steps, marked, fuel - 1);
        case Interface(members, bases) =>
          var m := FindProperty(members, steps[0].name);
          if m.Some? {
            FoundBelow(w, file, m.value, Literal(members), members, steps, marked, fuel);
          } else {
            FoundBases(w, id, file, bases, steps, marked, fuel - 1);
          }
      }
    }
  }

  lemma {:induction false} FoundParts(w: World, file: string, parts: seq<TypeNode>, steps: seq<Step>, seen: Seen,
                                      fuel: nat)
    requires w.Valid() && LookupAll(w, file, parts, steps, seen, fuel).Some?
    ensures MisledByAll(w, file, parts, steps, seen, fuel) <==>
      forall i :: 0 <= i < |parts| ==> !Present(w, STRICT, file, parts[i], steps)
    ensures (forall r :: r in LookupAll(w, file, parts, steps, seen, fuel).value.0 ==> r == Found) ==>
      (MisledBySome(w, file, parts, steps, seen, fuel) <==>
       exists i :: 0 <= i < |parts| && !Present(w, STRICT, file, parts[i], steps))
    decreases fuel, 1 + |parts|
  {
    if parts != [] {
      var answers := LookupAll(w, file, parts, steps, seen, fuel).value.0;
      var first := Lookup(w, file, parts[0], steps, seen, fuel).value;
      assert answers[0] in answers && forall r :: r in answers[1..] ==> r in answers;
      if first.0 == Found { FoundIff(w, file, parts[0], steps, seen, fuel); }
      FoundParts(w, file, parts[1..], steps, first.1, fuel);
      assert forall i :: 1 <= i < |parts| ==> parts[i] == parts[1..][i - 1];
      assert forall i :: 0 <= i < |parts| - 1 ==> parts[1..][i] == parts[i + 1];
    }
  }

  lemma {:induction false} FoundBases(w: World, id: DeclId, file: string, bases: seq<Option<string>>,
                                      steps: seq<Step>, seen: Seen, fuel: nat)
    requires w.Valid() && LookupBases(w, file, bases, steps, seen, fuel).Some?
    ensures MisledByBases(w, id, file, bases, steps, seen, fuel) <==>
      forall i :: 0 <= i < |bases| ==> !PresentInBase(w, STRICT, id, file, bases[i], steps)
    decreases fuel, 2 + |bases|
  {
    if bases != [] {
      var first := LookupBase(w, file, bases[0], steps, seen, fuel).value;
      if first.0 == Found { FoundInDecl(w, w.resolve[(file, bases[0].value)], steps, seen, fuel); }
      FoundBases(w, id, file, bases[1..], steps, first.1, fuel);
      assert forall i :: 1 <= i < |bases| ==> bases[i] == bases[1..][i - 1];
      assert forall i :: 0 <= i < |bases| - 1 ==> bases[1..][i] == bases[i + 1];
    }
  }
}
