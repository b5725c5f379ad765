/**
  When the answers of the walk can be trusted by looking at what it read: no member list misread and,
  for `found`, no `keyof` passed. Types of plain members are a special case.
 */
module LookupTrust {
  import opened Wrappers
  import opened TypeLookup
  import opened TypePresence
  import opened LookupAccuracy

  datatype Demand = Demand(noKeyof: bool, noRepeats: bool)

  /**
    No member list the walk reads is misread: the member loop finds the declared member of that name,
    or finds none where none is declared and no index signature stands in the list. Past `keyof` nothing
    matters to a `missing` answer; a walk can also be asked not to pass it, and not to meet a declaration
    a second time.
   */
  ghost predicate Clean(w: World, d: Demand, file: string, node: TypeNode, steps: seq<Step>, seen: Seen, fuel: nat)
    requires w.Valid()
    decreases fuel, 0
  {
    steps == [] || fuel == 0 ||
    if IsKeyof(node) then !d.noKeyof
    else
      match MoveFrom(w, file, node, steps)
      case OutOfReach => true
      case Members(members) =>
        ReadsRight(members, steps[0].name) && CleanBelow(w, d, file, members, steps, seen, fuel)
      case Through(inner, rest) => Clean(w, d, file, inner, rest, seen, fuel - 1)
      case AllOf(parts) => CleanParts(w, d, file, parts, steps, seen, fuel - 1)
      case OneOf(parts) => CleanParts(w, d, file, parts, steps, seen, fuel - 1)
      case Named(id) => CleanDecl(w, d, id, steps, seen, fuel - 1)
  }

  ghost predicate CleanBelow(w: World, d: Demand, file: string, members: seq<MemberDecl>, steps: seq<Step>,
                             seen: Seen, fuel: nat)
    requires w.Valid() && steps != [] && steps[0].Member? && fuel > 0
    decreases fuel - 1, 1
  {
    var m := FindProperty(members, steps[0].name);
    m.Some? && |steps| > 1 && m.value.typ.Some? ==>
      Clean(w, d, file, m.value.typ.value, steps[1..], seen, fuel - 1)
  }

  ghost predicate CleanDecl(w: World, d: Demand, id: DeclId, steps: seq<Step>, seen: Seen, fuel: nat)
    requires w.Valid() && id in w.decls
    decreases fuel, 0
  {
    var (file, decl) := w.decls[id];
    var marked := seen + {Key(id, steps)};
    steps == [] || fuel == 0 ||
    if Key(id, steps) in seen then !d.noRepeats
    else
      match decl
      case EnumDecl => true
      case Alias(body) => Clean(w, d, file, body, steps, marked, fuel - 1)
      case Interface(members, bases) =>
        steps[0].Member? ==>
          ReadsRight(members, steps[0].name)
          && if FindProperty(members, steps[0].name).Some? then CleanBelow(w, d, file, members, steps, marked, fuel)
             else CleanBases(w, d, file, bases, steps, marked, fuel - 1)
  }

  ghost predicate CleanParts(w: World, d: Demand, file: string, parts: seq<TypeNode>, steps: seq<Step>, seen: Seen,
                             fuel: nat)
    requires w.Valid()
    decreases fuel, 1 + |parts|
  {
    parts == [] ||
    (var first := Lookup(w, file, parts[0], steps, seen, fuel);
     Clean(w, d, file, parts[0], steps, seen, fuel)
     && (first.Some? ==> CleanParts(w, d, file, parts[1..], steps, first.value.1, fuel)))
  }

  ghost predicate CleanBases(w: World, d: Demand, file: string, bases: seq<Option<string>>, steps: seq<Step>,
                             seen: Seen, fuel: nat)
    requires w.Valid()
    decreases fuel, 1 + |bases|
  {
    bases == [] ||
    (var first := LookupBase(w, file, bases[0], steps, seen, fuel);
     (bases[0].Some? && (file, bases[0].value) in w.resolve ==>
        CleanDecl(w, d, w.resolve[(file, bases[0].value)], steps, seen, fuel))
     && (first.Some? ==> CleanBases(w, d, file, bases[1..], steps, first.value.1, fuel)))
  }

  // ---- `missing` ----

  /** A `missing` answer of a walk that misread nothing means absent. */
  lemma CleanMissingIsAbsent(w: World, d: Demand, file: string, node: TypeNode, steps: seq<Step>, seen: Seen, fuel: nat)
    requires w.Valid() && Clean(w, d, file, node, steps, seen, fuel)
    requires var r := Lookup(w, file, node, steps, seen, fuel); r.Some? && r.value.0 == Missing
    ensures !Possible(w, file, node, steps)
  {
    CleanIsNotOverlooked(w, d, file, node, steps, seen, fuel);
    MissingIsAbsentIff(w, file, node, steps, seen, fuel);
  }

  lemma {:induction false} CleanIsNotOverlooked(w: World, d: Demand, file: string, node: TypeNode, steps: seq<Step>,
      seen: Seen,
                                                fuel: nat)
    requires w.Valid() && Clean(w, d, file, node, steps, seen, fuel)
    requires var r := Lookup(w, file, node, steps, seen, fuel); r.Some? && r.value.0 == Missing
    ensures !Overlooks(w, file, node, steps, fuel)
    decreases fuel, 0
  {
    if !IsKeyof(node) {
      match MoveFrom(w, file, node, steps) {
        case Members(members) => CleanBelowIsNotOverlooked(w, d, file, members, steps, seen, fuel);
        case Through(inner, rest) => CleanIsNotOverlooked(w, d, file, inner, rest, seen, fuel - 1);
        case AllOf(parts) => CleanPartsAreNotOverlooked(w, d, file, parts, steps, seen, fuel - 1);
        case OneOf(parts) => CleanPartsAreNotOverlooked(w, d, file, parts, steps, seen, fuel - 1);
        case Named(id) => CleanDeclIsNotOverlooked(w, d, id, steps, seen, fuel - 1);
      }
    }
  }

  lemma {:induction false} CleanBelowIsNotOverlooked(w: World, d: Demand, file: string, members: seq<MemberDecl>,
                                                     steps: seq<Step>, seen: Seen, fuel: nat)
    requires w.Valid() && steps != [] && steps[0].Member? && fuel > 0
    requires CleanBelow(w, d, file, members, steps, seen, fuel)
    requires var m := FindProperty(members, steps[0].name);
      m.Some? ==> var r := LookupMember(w, file, m.value, steps, seen, fuel); r.Some? && r.value.0 == Missing
    ensures !OverlooksBelow(w, file, members, steps, fuel)
    decreases fuel - 1, 1
  {
    var m := FindProperty(members, steps[0].name);
    if m.Some? { CleanIsNotOverlooked(w, d, file, m.value.typ.value, steps[1..], seen, fuel - 1); }
  }

  lemma {:induction false} CleanDeclIsNotOverlooked(w: World, d: Demand, id: DeclId, steps: seq<Step>, seen: Seen,
      fuel: nat)
    requires w.Valid() && id in w.decls && CleanDecl(w, d, id, steps, seen, fuel)
    requires var r := LookupDecl(w, id, steps, seen, fuel); r.Some? && r.value.0 == Missing
    ensures !OverlooksInDecl(w, id, steps, fuel)
    decreases fuel, 0
  {
    var (file, decl) := w.decls[id];
    var marked := seen + {Key(id, steps)};
    match decl {
      case Alias(body) => CleanIsNotOverlooked(w, d, file, body, steps, marked, fuel - 1);
      case Interface(members, bases) =>
        if FindProperty(members, steps[0].name).Some? {
          CleanBelowIsNotOverlooked(w, d, file, members, steps, marked, fuel);
        } else {
          CleanBasesAreNotOverlooked(w, d, file, bases, steps, marked, fuel - 1);
        }
    }
  }

  lemma {:induction false} CleanPartsAreNotOverlooked(w: World, d: Demand, file: string, parts: seq<TypeNode>,
      steps: seq<Step>,
                                                      seen: Seen, fuel: nat)
    requires w.Valid() && CleanParts(w, d, file, parts, steps, seen, fuel)
    requires LookupAll(w, file, parts, steps, seen, fuel).Some?
    requires forall r :: r in LookupAll(w, file, parts, steps, seen, fuel).value.0 ==> r == Missing
    ensures forall i :: 0 <= i < |parts| ==> !Overlooks(w, file, parts[i], steps, fuel)
    decreases fuel, 1 + |parts|
  {
    if parts != [] {
      var answers := LookupAll(w, file, parts, steps, seen, fuel).value.0;
      assert answers[0] in answers && forall r :: r in answers[1..] ==> r in answers;
      CleanIsNotOverlooked(w, d, file, parts[0], steps, seen, fuel);
      var next := Lookup(w, file, parts[0], steps, seen, fuel).value.1;
      CleanPartsAreNotOverlooked(w, d, file, parts[1..], steps, next, fuel);
      assert forall i :: 1 <= i < |parts| ==> parts[i] == parts[1..][i - 1];
    }
  }

  lemma {:induction false} CleanBasesAreNotOverlooked(w: World, d: Demand, file: string, bases: seq<Option<string>>,
                                                      steps: seq<Step>, seen: Seen, fuel: nat)
    requires w.Valid() && CleanBases(w, d, file, bases, steps, seen, fuel)
    requires LookupBases(w, file, bases, steps, seen, fuel).Some?
    requires forall r :: r in LookupBases(w, file, bases, steps, seen, fuel).value.0 ==> r == Missing
    ensures forall i :: 0 <= i < |bases| ==> !OverlooksInBase(w, file, bases[i], steps, fuel)
    decreases fuel, 2 + |bases|
  {
    if bases != [] {
      var answers := LookupBases(w, file, bases, steps, seen, fuel).value.0;
      assert answers[0] in answers && forall r :: r in answers[1..] ==> r in answers;
      var target := w.resolve[(file, bases[0].value)];
      CleanDeclIsNotOverlooked(w, d, target, steps, seen, fuel);
      CleanBasesAreNotOverlooked(w, d, file, bases[1..], steps, LookupDecl(w, target, steps, seen, fuel).value.1, fuel);
      assert forall i :: 1 <= i < |bases| ==> bases[i] == bases[1..][i - 1];
    }
  }

  // ---- `found` ----

  /** A `found` answer of a walk that misread nothing and passed no `keyof` means present. */
  lemma CleanFoundIsPresent(w: World, d: Demand, file: string, node: TypeNode, steps: seq<Step>, seen: Seen, fuel: nat)
    requires d.noKeyof && w.Valid() && Clean(w, d, file, node, steps, seen, fuel)
    requires var r := Lookup(w, file, node, steps, seen, fuel); r.Some? && r.value.0 == Found
    ensures Certain(w, file, node, steps)
  {
    CleanIsNotMisled(w, d, file, node, steps, seen, fuel);
    FoundIsPresentIff(w, file, node, steps, seen, fuel);
  }

  lemma {:induction false} CleanIsNotMisled(w: World, d: Demand, file: string, node: TypeNode, steps: seq<Step>,
      seen: Seen,
                                            fuel: nat)
    requires d.noKeyof && w.Valid() && Clean(w, d, file, node, steps, seen, fuel)
    requires var r := Lookup(w, file, node, steps, seen, fuel); r.Some? && r.value.0 == Found
    ensures !Misled(w, file, node, steps, seen, fuel)
    decreases fuel, 0
  {
    if steps != [] {
      match MoveFrom(w, file, node, steps) {
        case Members(members) => CleanBelowIsNotMisled(w, d, file, members, steps, seen, fuel);
        case Through(inner, rest) => CleanIsNotMisled(w, d, file, inner, rest, seen, fuel - 1);
        case AllOf(parts) => CleanPartsAreNotMisled(w, d, file, parts, steps, seen, fuel - 1);
        case OneOf(parts) => CleanPartsAreNotMisled(w, d, file, parts, steps, seen, fuel - 1);
        case Named(id) => CleanDeclIsNotMisled(w, d, id, steps, seen, fuel - 1);
      }
    }
  }

  lemma {:induction false} CleanBelowIsNotMisled(w: World, d: Demand, file: string, members: seq<MemberDecl>,
      steps: seq<Step>,
                                                 seen: Seen, fuel: nat)
    requires d.noKeyof && w.Valid() && steps != [] && steps[0].Member? && fuel > 0
    requires CleanBelow(w, d, file, members, steps, seen, fuel) && FindProperty(members, steps[0].name).Some?
    requires var r := LookupMember(w, file, FindProperty(members, steps[0].name).value, steps, seen, fuel);
      r.Some? && r.value.0 == Found
    ensures !MisledBelow(w, file, members, steps, seen, fuel)
    decreases fuel - 1, 1
  {
    var m := FindProperty(members, steps[0].name).value;
    if |steps| > 1 { CleanIsNotMisled(w, d, file, m.typ.value, steps[1..], seen, fuel - 1); }
  }

  lemma {:induction false} CleanDeclIsNotMisled(w: World, d: Demand, id: DeclId, steps: seq<Step>, seen: Seen,
      fuel: nat)
    requires d.noKeyof && w.Valid() && id in w.decls && CleanDecl(w, d, id, steps, seen, fuel)
    requires var r := LookupDecl(w, id, steps, seen, fuel); r.Some? && r.value.0 == Found
    ensures !MisledInDecl(w, id, steps, seen, fuel)
    decreases fuel, 0
  {
    if steps != [] {
      var (file, decl) := w.decls[id];
      var marked := seen + {Key(id, steps)};
      match decl {
        case Alias(body) => CleanIsNotMisled(w, d, file, body, steps, marked, fuel - 1);
        case Interface(members, bases) =>
          if FindProperty(members, steps[0].name).Some? {
            CleanBelowIsNotMisled(w, d, file, members, steps, marked, fuel);
          } else {
            CleanBasesAreNotMisled(w, d, id, file, bases, steps, marked, fuel - 1);
          }
      }
    }
  }

  lemma {:induction false} CleanPartsAreNotMisled(w: World, d: Demand, file: string, parts: seq<TypeNode>,
      steps: seq<Step>,
                                                  seen: Seen, fuel: nat)
    requires d.noKeyof && w.Valid() && CleanParts(w, d, file, parts, steps, seen, fuel)
    requires LookupAll(w, file, parts, steps, seen, fuel).Some?
    ensures Found in LookupAll(w, file, parts, steps, seen, fuel).value.0 ==>
      !MisledByAll(w, file, parts, steps, seen, fuel)
    ensures (forall r :: r in LookupAll(w, file, parts, steps, seen, fuel).value.0 ==> r == Found) ==>
      !MisledBySome(w, file, parts, steps, seen, fuel)
    decreases fuel, 1 + |parts|
  {
    if parts != [] {
      var answers := LookupAll(w, file, parts, steps, seen, fuel).value.0;
      var first := Lookup(w, file, parts[0], steps, seen, fuel).value;
      assert answers[0] in answers && forall r :: r in answers[1..] ==> r in answers;
      if first.0 == Found { CleanIsNotMisled(w, d, file, parts[0], steps, seen, fuel); }
      CleanPartsAreNotMisled(w, d, file, parts[1..], steps, first.1, fuel);
    }
  }

  lemma {:induction false} CleanBasesAreNotMisled(w: World, d: Demand, id: DeclId, file: string,
      bases: seq<Option<string>>,
                                                  steps: seq<Step>, seen: Seen, fuel: nat)
    requires d.noKeyof && w.Valid() && CleanBases(w, d, file, bases, steps, seen, fuel)
    requires LookupBases(w, file, bases, steps, seen, fuel).Some?
    requires Found in LookupBases(w, file, bases, steps, seen, fuel).value.0
    ensures !MisledByBases(w, id, file, bases, steps, seen, fuel)
    decreases fuel, 2 + |bases|
  {
    var first := LookupBase(w, file, bases[0], steps, seen, fuel).value;
    if first.0 == Found {
      CleanDeclIsNotMisled(w, d, w.resolve[(file, bases[0].value)], steps, seen, fuel);
    } else {
      CleanBasesAreNotMisled(w, d, id, file, bases[1..], steps, first.1, fuel);
    }
  }

  // ---- all three answers ----

  /**
    A walk that misread nothing, passed no `keyof` and met no declaration twice is exact: it finds what is
    certain, misses what is impossible, and is in doubt only where the parts out of reach decide, or the
    branches of a union differ.
   */
  lemma CleanAnswersAreExact(w: World, file: string, node: TypeNode, steps: seq<Step>, seen: Seen, fuel: nat)
    requires w.Valid() && Clean(w, Demand(true, true), file, node, steps, seen, fuel)
    requires Lookup(w, file, node, steps, seen, fuel).Some?
    ensures var answer := Lookup(w, file, node, steps, seen, fuel).value.0;
      && (answer == Found <==> Certain(w, file, node, steps))
      && (answer == Missing <==> !Possible(w, file, node, steps))
  {
    var answer := Lookup(w, file, node, steps, seen, fuel).value.0;
    CleanIsComplete(w, file, node, steps, seen, fuel);
    CertainIffStrict(w, file, node, steps);
    if answer == Found { CleanFoundIsPresent(w, Demand(true, true), file, node, steps, seen, fuel); }
    if answer == Missing { CleanMissingIsAbsent(w, Demand(true, true), file, node, steps, seen, fuel); }
  }

  /** The answer to a settled question: present in the strictest view, or absent in the most lenient. */
  predicate Settles(answer: Answer, certain: bool, possible: bool) {
    (certain ==> answer == Found) && (!possible ==> answer == Missing)
  }

  lemma {:induction false} CleanIsComplete(w: World, file: string, node: TypeNode, steps: seq<Step>, seen: Seen,
                                           fuel: nat)
    requires w.Valid() && Clean(w, Demand(true, true), file, node, steps, seen, fuel)
    requires Lookup(w, file, node, steps, seen, fuel).Some?
    ensures Settles(Lookup(w, file, node, steps, seen, fuel).value.0, Present(w, STRICT, file, node, steps),
                    Present(w, LENIENT, file, node, steps))
    decreases fuel, 0
  {
    if steps != [] {
      PresentMoves(w, STRICT, file, node, steps);
      PresentMoves(w, LENIENT, file, node, steps);
      match MoveFrom(w, file, node, steps) {
        case OutOfReach =>
        case Members(members) => CleanBelowIsComplete(w, file, node, members, steps, seen, fuel);
        case Through(inner, rest) => CleanIsComplete(w, file, inner, rest, seen, fuel - 1);
        case AllOf(parts) => CleanPartsAreComplete(w, file, parts, steps, seen, fuel - 1);
        case OneOf(parts) =>
          CleanPartsAreComplete(w, file, parts, steps, seen, fuel - 1);
          var answers := LookupAll(w, file, parts, steps, seen, fuel - 1).value.0;
          assert parts != [] ==> answers[0] in answers;
        case Named(id) => CleanDeclIsComplete(w, id, steps, seen, fuel - 1);
      }
    }
  }

  lemma {:induction false} CleanBelowIsComplete(w: World, file: string, owner: TypeNode, members: seq<MemberDecl>,
                                                steps: seq<Step>, seen: Seen, fuel: nat)
    requires w.Valid() && steps != [] && steps[0].Member? && fuel > 0 && ReadsRight(members, steps[0].name)
    requires CleanBelow(w, Demand(true, true), file, members, steps, seen, fuel)
    ensures var m := FindProperty(members, steps[0].name);
      m.Some? && LookupMember(w, file, m.value, steps, seen, fuel).Some? ==>
        Settles(LookupMember(w, file, m.value, steps, seen, fuel).value.0,
                PresentBelow(w, STRICT, file, owner, members, steps),
                PresentBelow(w, LENIENT, file, owner, members, steps))
    decreases fuel - 1, 1
  {
    var m := FindProperty(members, steps[0].name);
    if m.Some? && |steps| > 1 && m.value.typ.Some?
      && Lookup(w, file, m.value.typ.value, steps[1..], seen, fuel - 1).Some?
    {
      CleanIsComplete(w, file, m.value.typ.value, steps[1..], seen, fuel - 1);
    }
  }

  lemma {:induction false} CleanDeclIsComplete(w: World, id: DeclId, steps: seq<Step>, seen: Seen, fuel: nat)
    requires w.Valid() && id in w.decls && CleanDecl(w, Demand(true, true), id, steps, seen, fuel)
    requires LookupDecl(w, id, steps, seen, fuel).Some?
    ensures Settles(LookupDecl(w, id, steps, seen, fuel).value.0, PresentInDecl(w, STRICT, id, steps),
                    PresentInDecl(w, LENIENT, id, steps))
    decreases fuel, 0
  {
    var (file, decl) := w.decls[id];
    if steps != [] {
      var marked := seen + {Key(id, steps)};
      match decl {
        case EnumDecl =>
        case Alias(body) => CleanIsComplete(w, file, body, steps, marked, fuel - 1);
        case Interface(members, bases) =>
          if steps[0].Member? {
            if FindProperty(members, steps[0].name).Some? {
              CleanBelowIsComplete(w, file, Literal(members), members, steps, marked, fuel);
            } else if bases != [] {
              CleanBasesAreComplete(w, id, file, bases, steps, marked, fuel - 1);
            }
          }
      }
    }
  }

  lemma {:induction false} CleanPartsAreComplete(w: World, file: string, parts: seq<TypeNode>, steps: seq<Step>,
                                                 seen: Seen, fuel: nat)
    requires w.Valid() && CleanParts(w, Demand(true, true), file, parts, steps, seen, fuel)
    requires LookupAll(w, file, parts, steps, seen, fuel).Some?
    ensures var answers := LookupAll(w, file, parts, steps, seen, fuel).value.0;
      && (forall i :: 0 <= i < |parts| ==>
            Settles(answers[i], Present(w, STRICT, file, parts[i], steps), Present(w, LENIENT, file, parts[i], steps)))
      && (forall r :: r in answers <==> exists i :: 0 <= i < |parts| && answers[i] == r)
    decreases fuel, 1 + |parts|
  {
    if parts != [] {
      var first := Lookup(w, file, parts[0], steps, seen, fuel).value;
      CleanIsComplete(w, file, parts[0], steps, seen, fuel);
      CleanPartsAreComplete(w, file, parts[1..], steps, first.1, fuel);
      assert forall i :: 1 <= i < |parts| ==> parts[i] == parts[1..][i - 1];
    }
  }

  lemma {:induction false} CleanBasesAreComplete(w: World, id: DeclId, file: string, bases: seq<Option<string>>,
                                                 steps: seq<Step>, seen: Seen, fuel: nat)
    requires w.Valid() && CleanBases(w, Demand(true, true), file, bases, steps, seen, fuel)
    requires LookupBases(w, file, bases, steps, seen, fuel).Some?
    ensures var answers := LookupBases(w, file, bases, steps, seen, fuel).value.0;
      && (forall i :: 0 <= i < |bases| ==>
            Settles(answers[i], PresentInBase(w, STRICT, id, file, bases[i], steps),
                    PresentInBase(w, LENIENT, id, file, bases[i], steps)))
      && (forall r :: r in answers <==> exists i :: 0 <= i < |bases| && answers[i] == r)
    decreases fuel, 2 + |bases|
  {
    if bases != [] {
      var first := LookupBase(w, file, bases[0], steps, seen, fuel).value;
      if bases[0].Some? && (file, bases[0].value) in w.resolve {
        CleanDeclIsComplete(w, w.resolve[(file, bases[0].value)], steps, seen, fuel);
      }
      CleanBasesAreComplete(w, id, file, bases[1..], steps, first.1, fuel);
      assert forall i :: 1 <= i < |bases| ==> bases[i] == bases[1..][i - 1];
    }
  }

  // ---- plain types ----

  /** Only property signatures, each written as the name it declares. */
  predicate PlainMembers(members: seq<MemberDecl>) {
    forall m :: m in members ==> m.Property? && m.written == m.name
  }

  predicate Plain(node: TypeNode) { node.Literal? ==> PlainMembers(node.members) }

  predicate Legible(node: TypeNode) { Plain(node) && !IsKeyof(node) }

  function Shape(d: Demand): TypeNode -> bool { if d.noKeyof then Legible else Plain }

  lemma {:induction false} PlainReadsRight(members: seq<MemberDecl>, x: string)
    requires PlainMembers(members)
    ensures ReadsRight(members, x)
  {
    if members != [] {
      assert members[0] in members;
      PlainReadsRight(members[1..], x);
    }
  }

  lemma {:induction false} PlainIsClean(w: World, d: Demand, file: string, node: TypeNode, steps: seq<Step>,
                                        seen: Seen, fuel: nat)
    requires w.Valid() && !d.noRepeats && AllDecls(w, Shape(d)) && All(node, Shape(d))
    ensures Clean(w, d, file, node, steps, seen, fuel)
    decreases fuel, 0
  {
    if steps != [] && fuel > 0 && !IsKeyof(node) {
      match MoveFrom(w, file, node, steps) {
        case OutOfReach =>
        case Members(members) => PlainBelowIsClean(w, d, file, members, steps, seen, fuel);
        case Through(inner, rest) => PlainIsClean(w, d, file, inner, rest, seen, fuel - 1);
        case AllOf(parts) => PlainPartsAreClean(w, d, file, parts, steps, seen, fuel - 1);
        case OneOf(parts) => PlainPartsAreClean(w, d, file, parts, steps, seen, fuel - 1);
        case Named(id) => PlainDeclIsClean(w, d, id, steps, seen, fuel - 1);
      }
    }
  }

  lemma {:induction false} PlainBelowIsClean(w: World, d: Demand, file: string, members: seq<MemberDecl>,
                                             steps: seq<Step>, seen: Seen, fuel: nat)
    requires w.Valid() && !d.noRepeats && AllDecls(w, Shape(d)) && PlainMembers(members)
      && AllMembers(members, Shape(d))
    requires steps != [] && steps[0].Member? && fuel > 0
    ensures ReadsRight(members, steps[0].name) && CleanBelow(w, d, file, members, steps, seen, fuel)
    decreases fuel - 1, 1
  {
    PlainReadsRight(members, steps[0].name);
    var m := FindProperty(members, steps[0].name);
    if m.Some? && |steps| > 1 && m.value.typ.Some? {
      PlainIsClean(w, d, file, m.value.typ.value, steps[1..], seen, fuel - 1);
    }
  }

  lemma {:induction false} PlainDeclIsClean(w: World, d: Demand, id: DeclId, steps: seq<Step>, seen: Seen, fuel: nat)
    requires w.Valid() && !d.noRepeats && AllDecls(w, Shape(d)) && id in w.decls
    ensures CleanDecl(w, d, id, steps, seen, fuel)
    decreases fuel, 0
  {
    var (file, decl) := w.decls[id];
    if steps != [] && fuel > 0 && Key(id, steps) !in seen {
      var marked := seen + {Key(id, steps)};
      match decl {
        case EnumDecl =>
        case Alias(body) => PlainIsClean(w, d, file, body, steps, marked, fuel - 1);
        case Interface(members, bases) =>
          if steps[0].Member? {
            PlainBelowIsClean(w, d, file, members, steps, marked, fuel);
            PlainBasesAreClean(w, d, file, bases, steps, marked, fuel - 1);
          }
      }
    }
  }

  lemma {:induction false} PlainPartsAreClean(w: World, d: Demand, file: string, parts: seq<TypeNode>,
                                              steps: seq<Step>, seen: Seen, fuel: nat)
    requires w.Valid() && !d.noRepeats && AllDecls(w, Shape(d)) && forall t :: t in parts ==> All(t, Shape(d))
    ensures CleanParts(w, d, file, parts, steps, seen, fuel)
    decreases fuel, 1 + |parts|
  {
    if parts != [] {
      PlainIsClean(w, d, file, parts[0], steps, seen, fuel);
      var first := Lookup(w, file, parts[0], steps, seen, fuel);
      if first.Some? { PlainPartsAreClean(w, d, file, parts[1..], steps, first.value.1, fuel); }
    }
  }

  lemma {:induction false} PlainBasesAreClean(w: World, d: Demand, file: string, bases: seq<Option<string>>,
                                              steps: seq<Step>, seen: Seen, fuel: nat)
    requires w.Valid() && !d.noRepeats && AllDecls(w, Shape(d))
    ensures CleanBases(w, d, file, bases, steps, seen, fuel)
    decreases fuel, 1 + |bases|
  {
    if bases != [] {
      if bases[0].Some? && (file, bases[0].value) in w.resolve {
        PlainDeclIsClean(w, d, w.resolve[(file, bases[0].value)], steps, seen, fuel);
      }
      var first := LookupBase(w, file, bases[0], steps, seen, fuel);
      if first.Some? { PlainBasesAreClean(w, d, file, bases[1..], steps, first.value.1, fuel); }
    }
  }

  /** On plain types `missing` means absent, and `found` means present if no operator is `keyof`. */
  lemma PlainTypesAreTrusted(w: World, file: string, node: TypeNode, steps: seq<Step>, seen: Seen, fuel: nat)
    requires w.Valid() && Lookup(w, file, node, steps, seen, fuel).Some?
    ensures var answer := Lookup(w, file, node, steps, seen, fuel).value.0;
      && (answer == Missing && AllDecls(w, Plain) && All(node, Plain) ==> !Possible(w, file, node, steps))
      && (answer == Found && AllDecls(w, Legible) && All(node, Legible) ==> Certain(w, file, node, steps))
  {
    var answer := Lookup(w, file, node, steps, seen, fuel).value.0;
    if answer == Missing && AllDecls(w, Plain) && All(node, Plain) {
      PlainIsClean(w, Demand(false, false), file, node, steps, seen, fuel);
      CleanMissingIsAbsent(w, Demand(false, false), file, node, steps, seen, fuel);
    }
    if answer == Found && AllDecls(w, Legible) && All(node, Legible) {
      PlainIsClean(w, Demand(true, false), file, node, steps, seen, fuel);
      CleanFoundIsPresent(w, Demand(true, false), file, node, steps, seen, fuel);
    }
  }
}
