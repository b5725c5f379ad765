/**
  What a type declares, independent of the walk: an inductive relation between types and key paths.
  Whatever lies outside the modelled syntax is an arbitrary truth.
 */
module TypePresence {
  import opened Wrappers
  import opened TypeLookup

  /** `Everywhere` counts a union's member only when every branch has it, `Somewhere` when one does. */
  datatype Reading = Everywhere | Somewhere

  /** A reading of unions, and one way the parts out of reach might be. */
  datatype View = View(reading: Reading, node: (string, TypeNode, seq<Step>) -> bool, decl: (DeclId, seq<Step>) -> bool)

  function FirstNamed(members: seq<MemberDecl>, x: string): (m: Option<MemberDecl>)
    ensures m.Some? ==> m.value in members && !m.value.IndexSignature? && m.value.name == x
    ensures m.None? ==> forall d :: d in members && !d.IndexSignature? ==> d.name != x
  {
    if members == [] then None
    else if !members[0].IndexSignature? && members[0].name == x then Some(members[0])
    else FirstNamed(members[1..], x)
  }

  predicate Declares(members: seq<MemberDecl>, x: string) {
    FirstNamed(members, x).Some? || IndexSignature in members
  }

  predicate IsKeyof(node: TypeNode) { node.Operator? && node.op.KeyofOp? }

  /** Types that keep the members of their argument, and types whose elements are their argument. */
  predicate KeepsMembers(head: string) {
    head == "Partial" || head == "Required" || head == "Readonly" || head == "NonNullable"
  }

  predicate IsArrayName(head: string) { head == "Array" || head == "ReadonlyArray" }

  /** The member at `steps` is present in the type, by kind of type; `keyof T` has none of the members of `T`. */
  least predicate Present[nat](w: World, v: View, file: string, node: TypeNode, steps: seq<Step>)
    requires w.Valid()
  {
    steps == [] ||
    match node
    case Literal(members) =>
      if steps[0].ArrayHop? then v.node(file, node, steps)
      else Declares(members, steps[0].name) && PresentBelow(w, v, file, node, members, steps)
    case Parenthesized(inner) => Present(w, v, file, inner, steps)
    case Intersection(parts) => exists i :: 0 <= i < |parts| && Present(w, v, file, parts[i], steps)
    case Union(parts) =>
      if v.reading.Everywhere? then forall i :: 0 <= i < |parts| ==> Present(w, v, file, parts[i], steps)
      else parts == [] || exists i :: 0 <= i < |parts| && Present(w, v, file, parts[i], steps)
    case ArrayOf(element) =>
      if steps[0].ArrayHop? then Present(w, v, file, element, steps[1..]) else v.node(file, node, steps)
    case Operator(op, operand) => !op.KeyofOp? && Present(w, v, file, operand, steps)
    case IndexedAccess(owner, index) =>
      if index.Some? then Present(w, v, file, owner, [Member(index.value)] + steps) else v.node(file, node, steps)
    case Reference(head, qualified, argument) =>
      if argument.Some? && KeepsMembers(head) then Present(w, v, file, argument.value, steps)
      else if argument.Some? && IsArrayName(head) then
        if steps[0].ArrayHop? then Present(w, v, file, argument.value, steps[1..]) else v.node(file, node, steps)
      else if !qualified && (file, head) in w.resolve then PresentInDecl(w, v, w.resolve[(file, head)], steps)
      else v.node(file, node, steps)
    case Opaque => v.node(file, node, steps)
  }

  /** The rest of the path below a declared member; only a property signature has a type to look into. */
  least predicate PresentBelow[nat](w: World, v: View, file: string, owner: TypeNode, members: seq<MemberDecl>,
                                    steps: seq<Step>)
    requires w.Valid() && steps != [] && steps[0].Member?
  {
    |steps| == 1 ||
    (var m := FirstNamed(members, steps[0].name);
     if m.Some? && m.value.Property? && m.value.typ.Some? then Present(w, v, file, m.value.typ.value, steps[1..])
     else v.node(file, owner, steps))
  }

  /** A member of an interface hides the members of that name in its bases. */
  least predicate PresentInDecl[nat](w: World, v: View, id: DeclId, steps: seq<Step>)
    requires w.Valid() && id in w.decls
  {
    steps == [] ||
    (var (file, decl) := w.decls[id];
     match decl
     case EnumDecl => v.decl(id, steps)
     case Alias(body) => Present(w, v, file, body, steps)
     case Interface(members, bases) =>
       if steps[0].ArrayHop? then v.decl(id, steps)
       else if Declares(members, steps[0].name) then PresentBelow(w, v, file, Literal(members), members, steps)
       else exists i :: 0 <= i < |bases| && PresentInBase(w, v, id, file, bases[i], steps))
  }

  least predicate PresentInBase[nat](w: World, v: View, id: DeclId, file: string, base: Option<string>,
                                     steps: seq<Step>)
    requires w.Valid()
  {
    if base.None? || (file, base.value) !in w.resolve then v.decl(id, steps)
    else PresentInDecl(w, v, w.resolve[(file, base.value)], steps)
  }

  /** Presence told along a move of the walk. */
  ghost predicate PresentAfter(w: World, v: View, file: string, node: TypeNode, steps: seq<Step>, move: Move)
    requires w.Valid() && steps != []
    requires (move.Named? ==> move.id in w.decls) && (move.Members? ==> steps[0].Member?)
  {
    match move
    case OutOfReach => v.node(file, node, steps)
    case Members(members) =>
      Declares(members, steps[0].name) && PresentBelow(w, v, file, node, members, steps)
    case Through(inner, rest) => Present(w, v, file, inner, rest)
    case AllOf(parts) => exists i :: 0 <= i < |parts| && Present(w, v, file, parts[i], steps)
    case OneOf(parts) =>
      if v.reading.Everywhere? then forall i :: 0 <= i < |parts| ==> Present(w, v, file, parts[i], steps)
      else parts == [] || exists i :: 0 <= i < |parts| && Present(w, v, file, parts[i], steps)
    case Named(id) => PresentInDecl(w, v, id, steps)
  }

  /**
    The walk's moves follow the kinds of types: past `keyof` nothing is present, else presence goes
    where the walk goes.
   */
  lemma PresentMoves(w: World, v: View, file: string, node: TypeNode, steps: seq<Step>)
    requires w.Valid() && steps != []
    ensures Present(w, v, file, node, steps) <==>
      !IsKeyof(node) && PresentAfter(w, v, file, node, steps, MoveFrom(w, file, node, steps))
  {
  }

  // ---- certain and possible presence ----

  /** Everything present in the first view is present in the second. */
  ghost predicate Within(v: View, v': View) {
    && (v'.reading.Everywhere? ==> v.reading.Everywhere?)
    && (forall file, node, steps :: v.node(file, node, steps) ==> v'.node(file, node, steps))
    && (forall id, steps :: v.decl(id, steps) ==> v'.decl(id, steps))
  }

  lemma {:induction false} PresenceGrows(w: World, v: View, v': View, file: string, node: TypeNode, steps: seq<Step>,
                                         k: nat)
    requires w.Valid() && Within(v, v') && Present#[k](w, v, file, node, steps)
    ensures Present(w, v', file, node, steps)
    decreases k, 0
  {
    if steps != [] {
      match node {
        case Literal(members) =>
          if steps[0].Member? { PresenceBelowGrows(w, v, v', file, node, members, steps, k - 1); }
        case Parenthesized(inner) => PresenceGrows(w, v, v', file, inner, steps, k - 1);
        case Intersection(parts) => PresenceOfPartsGrows(w, v, v', file, parts, steps, k - 1);
        case Union(parts) =>
          PresenceOfPartsGrows(w, v, v', file, parts, steps, k - 1);
          assert v.reading.Everywhere? && parts != [] ==> Present#[k - 1](w, v, file, parts[0], steps);
        case ArrayOf(element) =>
          if steps[0].ArrayHop? { PresenceGrows(w, v, v', file, element, steps[1..], k - 1); }
        case Operator(_, operand) => PresenceGrows(w, v, v', file, operand, steps, k - 1);
        case IndexedAccess(owner, index) =>
          if index.Some? { PresenceGrows(w, v, v', file, owner, [Member(index.value)] + steps, k - 1); }
        case Reference(head, qualified, argument) =>
          if argument.Some? && KeepsMembers(head) {
            PresenceGrows(w, v, v', file, argument.value, steps, k - 1);
          } else if argument.Some? && IsArrayName(head) {
            if steps[0].ArrayHop? { PresenceGrows(w, v, v', file, argument.value, steps[1..], k - 1); }
          } else if !qualified && (file, head) in w.resolve {
            PresenceInDeclGrows(w, v, v', w.resolve[(file, head)], steps, k - 1);
          }
        case Opaque =>
      }
    }
  }

  lemma {:induction false} PresenceOfPartsGrows(w: World, v: View, v': View, file: string, parts: seq<TypeNode>,
                                                steps: seq<Step>, k: nat)
    requires w.Valid() && Within(v, v')
    ensures forall i :: 0 <= i < |parts| && Present#[k](w, v, file, parts[i], steps) ==>
      Present(w, v', file, parts[i], steps)
    decreases k, 1
  {
    forall i | 0 <= i < |parts| && Present#[k](w, v, file, parts[i], steps)
      ensures Present(w, v', file, parts[i], steps)
    {
      PresenceGrows(w, v, v', file, parts[i], steps, k);
    }
  }

  lemma {:induction false} PresenceBelowGrows(w: World, v: View, v': View, file: string, owner: TypeNode,
                                              members: seq<MemberDecl>, steps: seq<Step>, k: nat)
    requires w.Valid() && Within(v, v') && steps != [] && steps[0].Member?
    requires PresentBelow#[k](w, v, file, owner, members, steps)
    ensures PresentBelow(w, v', file, owner, members, steps)
    decreases k
  {
    var m := FirstNamed(members, steps[0].name);
    if |steps| > 1 && m.Some? && m.value.Property? && m.value.typ.Some? {
      PresenceGrows(w, v, v', file, m.value.typ.value, steps[1..], k - 1);
    }
  }

  lemma {:induction false} PresenceInDeclGrows(w: World, v: View, v': View, id: DeclId, steps: seq<Step>, k: nat)
    requires w.Valid() && Within(v, v') && id in w.decls && PresentInDecl#[k](w, v, id, steps)
    ensures PresentInDecl(w, v', id, steps)
    decreases k
  {
    if steps != [] {
      var (file, decl) := w.decls[id];
      match decl {
        case EnumDecl =>
        case Alias(body) => PresenceGrows(w, v, v', file, body, steps, k - 1);
        case Interface(members, bases) =>
          if steps[0].Member? {
            if Declares(members, steps[0].name) {
              PresenceBelowGrows(w, v, v', file, Literal(members), members, steps, k - 1);
            } else {
              var i :| 0 <= i < |bases| && PresentInBase#[k - 1](w, v, id, file, bases[i], steps);
              PresenceInBaseGrows(w, v, v', id, file, bases[i], steps, k - 1);
            }
          }
      }
    }
  }

  lemma {:induction false} PresenceInBaseGrows(w: World, v: View, v': View, id: DeclId, file: string,
                                               base: Option<string>, steps: seq<Step>, k: nat)
    requires w.Valid() && Within(v, v') && PresentInBase#[k](w, v, id, file, base, steps)
    ensures PresentInBase(w, v', id, file, base, steps)
    decreases k
  {
    if base.Some? && (file, base.value) in w.resolve {
      PresenceInDeclGrows(w, v, v', w.resolve[(file, base.value)], steps, k - 1);
    }
  }

  /** The view that grants least, and the one that grants most. */
  const STRICT: View := View(Everywhere, (_, _, _) => false, (_, _) => false)
  const LENIENT: View := View(Somewhere, (_, _, _) => true, (_, _) => true)

  /** Present whatever the parts out of reach are, in every branch. */
  ghost predicate Certain(w: World, file: string, node: TypeNode, steps: seq<Step>)
    requires w.Valid()
  {
    forall v :: Present(w, v, file, node, steps)
  }

  /** Present for some truth about the parts out of reach, in some branch. */
  ghost predicate Possible(w: World, file: string, node: TypeNode, steps: seq<Step>)
    requires w.Valid()
  {
    exists v :: Present(w, v, file, node, steps)
  }

  lemma CertainIffStrict(w: World, file: string, node: TypeNode, steps: seq<Step>)
    requires w.Valid()
    ensures Certain(w, file, node, steps) <==> Present(w, STRICT, file, node, steps)
    ensures Possible(w, file, node, steps) <==> Present(w, LENIENT, file, node, steps)
  {
    if Present(w, STRICT, file, node, steps) {
      var k: nat :| Present#[k](w, STRICT, file, node, steps);
      forall v ensures Present(w, v, file, node, steps) { PresenceGrows(w, STRICT, v, file, node, steps, k); }
    }
    forall v | Present(w, v, file, node, steps) ensures Present(w, LENIENT, file, node, steps) {
      var k: nat :| Present#[k](w, v, file, node, steps);
      PresenceGrows(w, v, LENIENT, file, node, steps, k);
    }
  }
}
