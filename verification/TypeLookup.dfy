/**
  The three-valued presence check of a key path against a cyclic graph of type declarations.
  What the walk cannot see through is an arbitrary truth; a definite answer agrees with all of them.
 */
module TypeLookup {
  import opened Wrappers

  // ---- the syntax the walk reads ----

  datatype Step = Member(name: string) | ArrayHop

  type DeclId = nat

  /** `written` is a property name's source text, quotes included; `name` is the key it declares. */
  datatype MemberDecl =
    | Property(written: string, name: string, typ: Option<TypeNode>)
    | OtherMember(name: string)
    | IndexSignature

  datatype TypeOperator = ReadonlyOp | KeyofOp | UniqueOp

  datatype TypeNode =
    | Literal(members: seq<MemberDecl>)
    | Parenthesized(inner: TypeNode)
    | Intersection(parts: seq<TypeNode>)
    | Union(parts: seq<TypeNode>)
    | ArrayOf(element: TypeNode)
    | Operator(op: TypeOperator, operand: TypeNode)
    | IndexedAccess(owner: TypeNode, index: Option<string>)
    | Reference(head: string, qualified: bool, argument: Option<TypeNode>)
    | Opaque

  /** A heritage expression that is not a plain identifier is `None`. */
  datatype Decl =
    | Interface(members: seq<MemberDecl>, bases: seq<Option<string>>)
    | Alias(body: TypeNode)
    | EnumDecl

  /** Declarations with their files, and the declaration each type name of a file resolves to, if any. */
  datatype World = World(decls: map<DeclId, (string, Decl)>, resolve: map<(string, string), DeclId>) {
    ghost predicate Valid() {
      forall key :: key in resolve ==> resolve[key] in decls
    }
  }

  const PASSTHROUGH_WRAPPERS: set<string> := {"Partial", "Required", "Readonly", "NonNullable"}
  const ARRAY_WRAPPERS: set<string> := {"Array", "ReadonlyArray"}

  // ---- the walk ----

  datatype Answer = Found | Missing | Unknown

  type Seen = set<(DeclId, nat)>

  /** The guard's key: a declaration and how many steps are left. */
  function Key(id: DeclId, steps: seq<Step>): (DeclId, nat) { (id, |steps|) }

  /** The member loop: the first property signature whose source text is the step. */
  function FindProperty(members: seq<MemberDecl>, x: string): (m: Option<MemberDecl>)
    ensures m.Some? ==> m.value in members && m.value.Property? && m.value.written == x
    ensures m.None? ==> forall d :: d in members && d.Property? ==> d.written != x
  {
    if members == [] then None
    else if members[0].Property? && members[0].written == x then Some(members[0])
    else FindProperty(members[1..], x)
  }

  function Combine(answers: seq<Answer>): Answer {
    if Found in answers then Found
    else if Unknown in answers then Unknown
    else Missing
  }

  function CombineUnion(answers: seq<Answer>): Answer {
    if forall r :: r in answers ==> r == Found then Found
    else if forall r :: r in answers ==> r == Missing then Missing
    else Unknown
  }

  /** Where the walk goes from a type node; every kind of syntax it does not know is out of reach. */
  datatype Move =
    | OutOfReach
    | Members(members: seq<MemberDecl>)
    | Through(node: TypeNode, steps: seq<Step>)
    | AllOf(parts: seq<TypeNode>)
    | OneOf(parts: seq<TypeNode>)
    | Named(id: DeclId)

  function MoveFrom(w: World, file: string, node: TypeNode, steps: seq<Step>): (r: Move)
    requires w.Valid() && steps != []
    ensures r.Named? ==> r.id in w.decls
    ensures r.Members? ==> steps[0].Member?
  {
    match node
    case Literal(members) => if steps[0].ArrayHop? then OutOfReach else Members(members)
    case Parenthesized(inner) => Through(inner, steps)
    case Intersection(parts) => AllOf(parts)
    case Union(parts) => OneOf(parts)
    case ArrayOf(element) => if steps[0].ArrayHop? then Through(element, steps[1..]) else OutOfReach
    case Operator(_, operand) => Through(operand, steps)
    case IndexedAccess(owner, index) =>
      if index.Some? then Through(owner, [Member(index.value)] + steps) else OutOfReach
    case Reference(head, qualified, argument) =>
      if head in PASSTHROUGH_WRAPPERS && argument.Some? then Through(argument.value, steps)
      else if head in ARRAY_WRAPPERS && argument.Some? then
        if steps[0].ArrayHop? then Through(argument.value, steps[1..]) else OutOfReach
      else if qualified || (file, head) !in w.resolve then OutOfReach
      else Named(w.resolve[(file, head)])
    case Opaque => OutOfReach
  }

  /** `lookupPath` on a type node; `None` when `fuel` calls do not suffice. */
  function Lookup(w: World, file: string, node: TypeNode, steps: seq<Step>, seen: Seen, fuel: nat)
      : (r: Option<(Answer, Seen)>)
    requires w.Valid()
    decreases fuel, 0
  {
    if steps == [] then Some((Found, seen))
    else if fuel == 0 then None
    else
      match MoveFrom(w, file, node, steps)
      case OutOfReach => Some((Unknown, seen))
      case Members(members) =>
        var m := FindProperty(members, steps[0].name);
        if m.None? then Some((Missing, seen)) else LookupMember(w, file, m.value, steps, seen, fuel)
      case Through(inner, rest) => Lookup(w, file, inner, rest, seen, fuel - 1)
      case AllOf(parts) =>
        var r := LookupAll(w, file, parts, steps, seen, fuel - 1);
        if r.None? then None else Some((Combine(r.value.0), r.value.1))
      case OneOf(parts) =>
        var r := LookupAll(w, file, parts, steps, seen, fuel - 1);
        if r.None? then None else Some((CombineUnion(r.value.0), r.value.1))
      case Named(id) => LookupDecl(w, id, steps, seen, fuel - 1)
  }

  /** The rest of the path below a property signature that matched the first step. */
  function LookupMember(w: World, file: string, m: MemberDecl, steps: seq<Step>, seen: Seen, fuel: nat)
      : Option<(Answer, Seen)>
    requires w.Valid() && steps != [] && fuel > 0 && m.Property?
    decreases fuel - 1, 1
  {
    if |steps| == 1 then Some((Found, seen))
    else if m.typ.None? then Some((Unknown, seen))
    else Lookup(w, file, m.typ.value, steps[1..], seen, fuel - 1)
  }

  /** `lookupPath` on a named declaration: the only place the guard applies. */
  function LookupDecl(w: World, id: DeclId, steps: seq<Step>, seen: Seen, fuel: nat): Option<(Answer, Seen)>
    requires w.Valid() && id in w.decls
    decreases fuel, 0
  {
    var (file, decl) := w.decls[id];
    if steps == [] then Some((Found, seen))
    else if fuel == 0 then None
    else if decl.EnumDecl? then Some((Unknown, seen))
    else if Key(id, steps) in seen then Some((Unknown, seen))
    else
      var marked := seen + {Key(id, steps)};
      match decl
      case Alias(body) => Lookup(w, file, body, steps, marked, fuel - 1)
      case Interface(members, bases) =>
        if steps[0].ArrayHop? then Some((Unknown, marked))
        else
          var m := FindProperty(members, steps[0].name);
          if m.Some? then LookupMember(w, file, m.value, steps, marked, fuel)
          else if bases == [] then Some((Missing, marked))
          else
            var r := LookupBases(w, file, bases, steps, marked, fuel - 1);
            if r.None? then None else Some((Combine(r.value.0), r.value.1))
  }

  function LookupAll(w: World, file: string, parts: seq<TypeNode>, steps: seq<Step>, seen: Seen, fuel: nat)
      : (r: Option<(seq<Answer>, Seen)>)
    requires w.Valid()
    ensures r.Some? ==> |r.value.0| == |parts|
    decreases fuel, 1 + |parts|
  {
    if parts == [] then Some(([], seen))
    else
      var first := Lookup(w, file, parts[0], steps, seen, fuel);
      if first.None? then None
      else
        var rest := LookupAll(w, file, parts[1..], steps, first.value.1, fuel);
        if rest.None? then None else Some(([first.value.0] + rest.value.0, rest.value.1))
  }

  function LookupBase(w: World, file: string, base: Option<string>, steps: seq<Step>, seen: Seen, fuel: nat)
      : Option<(Answer, Seen)>
    requires w.Valid()
    decreases fuel, 1
  {
    if base.None? || (file, base.value) !in w.resolve then Some((Unknown, seen))
    else LookupDecl(w, w.resolve[(file, base.value)], steps, seen, fuel)
  }

  function LookupBases(w: World, file: string, bases: seq<Option<string>>, steps: seq<Step>, seen: Seen, fuel: nat)
      : (r: Option<(seq<Answer>, Seen)>)
    requires w.Valid()
    ensures r.Some? ==> |r.value.0| == |bases|
    decreases fuel, 2 + |bases|
  {
    if bases == [] then Some(([], seen))
    else
      var first := LookupBase(w, file, bases[0], steps, seen, fuel);
      if first.None? then None
      else
        var rest := LookupBases(w, file, bases[1..], steps, first.value.1, fuel);
        if rest.None? then None else Some(([first.value.0] + rest.value.0, rest.value.1))
  }

  // ---- shapes of types ----

  /** `p` holds of a node and of every node below it. */
  predicate All(node: TypeNode, p: TypeNode -> bool) {
    p(node) &&
    match node
    case Literal(members) => AllMembers(members, p)
    case Parenthesized(inner) => All(inner, p)
    case Intersection(parts) => forall t :: t in parts ==> All(t, p)
    case Union(parts) => forall t :: t in parts ==> All(t, p)
    case ArrayOf(element) => All(element, p)
    case Operator(_, operand) => All(operand, p)
    case IndexedAccess(owner, _) => All(owner, p)
    case Reference(_, _, argument) => argument.Some? ==> All(argument.value, p)
    case Opaque => true
  }

  predicate AllMembers(members: seq<MemberDecl>, p: TypeNode -> bool) {
    forall m :: m in members && m.Property? && m.typ.Some? ==> All(m.typ.value, p)
  }

  ghost predicate AllDecls(w: World, p: TypeNode -> bool) {
    forall id :: id in w.decls ==>
      match w.decls[id].1
      case Interface(members, _) => p(Literal(members)) && AllMembers(members, p)
      case Alias(body) => All(body, p)
      case EnumDecl => true
  }

  // ---- the budget ----

  /** An answer does not depend on the budget: once there is one, every larger budget gives the same. */
  lemma {:induction false} MoreFuelSameAnswer(w: World, file: string, node: TypeNode, steps: seq<Step>, seen: Seen,
                                              fuel: nat, more: nat)
    requires w.Valid() && fuel <= more && Lookup(w, file, node, steps, seen, fuel).Some?
    ensures Lookup(w, file, node, steps, seen, more) == Lookup(w, file, node, steps, seen, fuel)
    decreases fuel, 0
  {
    if steps != [] {
      match MoveFrom(w, file, node, steps) {
        case OutOfReach =>
        case Members(members) =>
          var m := FindProperty(members, steps[0].name);
          if m.Some? { MoreFuelMember(w, file, m.value, steps, seen, fuel, more); }
        case Through(inner, rest) => MoreFuelSameAnswer(w, file, inner, rest, seen, fuel - 1, more - 1);
        case AllOf(parts) => MoreFuelParts(w, file, parts, steps, seen, fuel - 1, more - 1);
        case OneOf(parts) => MoreFuelParts(w, file, parts, steps, seen, fuel - 1, more - 1);
        case Named(id) => MoreFuelDecl(w, id, steps, seen, fuel - 1, more - 1);
      }
    }
  }

  lemma {:induction false} MoreFuelMember(w: World, file: string, m: MemberDecl, steps: seq<Step>, seen: Seen,
                                          fuel: nat, more: nat)
    requires w.Valid() && steps != [] && 0 < fuel <= more && m.Property?
    requires LookupMember(w, file, m, steps, seen, fuel).Some?
    ensures LookupMember(w, file, m, steps, seen, more) == LookupMember(w, file, m, steps, seen, fuel)
    decreases fuel - 1, 1
  {
    if |steps| > 1 && m.typ.Some? { MoreFuelSameAnswer(w, file, m.typ.value, steps[1..], seen, fuel - 1, more - 1); }
  }

  lemma {:induction false} MoreFuelDecl(w: World, id: DeclId, steps: seq<Step>, seen: Seen, fuel: nat, more: nat)
    requires w.Valid() && id in w.decls && fuel <= more && LookupDecl(w, id, steps, seen, fuel).Some?
    ensures LookupDecl(w, id, steps, seen, more) == LookupDecl(w, id, steps, seen, fuel)
    decreases fuel, 0
  {
    var (file, decl) := w.decls[id];
    if steps != [] && !decl.EnumDecl? && Key(id, steps) !in seen {
      var marked := seen + {Key(id, steps)};
      if decl.Alias? {
        MoreFuelSameAnswer(w, file, decl.body, steps, marked, fuel - 1, more - 1);
      } else if steps[0].Member? {
        var m := FindProperty(decl.members, steps[0].name);
        if m.Some? {
          MoreFuelMember(w, file, m.value, steps, marked, fuel, more);
        } else {
          MoreFuelBases(w, file, decl.bases, steps, marked, fuel - 1, more - 1);
        }
      }
    }
  }

  lemma {:induction false} MoreFuelParts(w: World, file: string, parts: seq<TypeNode>, steps: seq<Step>, seen: Seen,
                                         fuel: nat, more: nat)
    requires w.Valid() && fuel <= more && LookupAll(w, file, parts, steps, seen, fuel).Some?
    ensures LookupAll(w, file, parts, steps, seen, more) == LookupAll(w, file, parts, steps, seen, fuel)
    decreases fuel, 1 + |parts|
  {
    if parts != [] {
      MoreFuelSameAnswer(w, file, parts[0], steps, seen, fuel, more);
      MoreFuelParts(w, file, parts[1..], steps, Lookup(w, file, parts[0], steps, seen, fuel).value.1, fuel, more);
    }
  }

  lemma {:induction false} MoreFuelBases(w: World, file: string, bases: seq<Option<string>>, steps: seq<Step>,
                                         seen: Seen, fuel: nat, more: nat)
    requires w.Valid() && fuel <= more && LookupBases(w, file, bases, steps, seen, fuel).Some?
    ensures LookupBases(w, file, bases, steps, seen, more) == LookupBases(w, file, bases, steps, seen, fuel)
    decreases fuel, 2 + |bases|
  {
    if bases != [] {
      var base := bases[0];
      if base.Some? && (file, base.value) in w.resolve {
        MoreFuelDecl(w, w.resolve[(file, base.value)], steps, seen, fuel, more);
      }
      MoreFuelBases(w, file, bases[1..], steps, LookupBase(w, file, base, steps, seen, fuel).value.1, fuel, more);
    }
  }
}
