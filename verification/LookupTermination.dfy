/**
  When the lookup walk ends. The guard lets a declaration be entered once per path length, and between
  two entries types get smaller, so a walk ends if its paths stay bounded.
 */
module LookupTermination {
  import opened Wrappers
  import opened TypeLookup

  function Height(node: TypeNode): (h: nat)
    ensures h >= 1
  {
    1 + match node
        case Literal(members) => MembersHeight(members)
        case Parenthesized(inner) => Height(inner)
        case Intersection(parts) => PartsHeight(parts)
        case Union(parts) => PartsHeight(parts)
        case ArrayOf(element) => Height(element)
        case Operator(_, operand) => Height(operand)
        case IndexedAccess(owner, _) => Height(owner)
        case Reference(_, _, argument) => if argument.Some? then Height(argument.value) else 0
        case Opaque => 0
  }

  function PartsHeight(parts: seq<TypeNode>): (h: nat)
    ensures forall t :: t in parts ==> Height(t) <= h
  {
    if parts == [] then 0 else
      var rest := PartsHeight(parts[1..]);
      assert forall t :: t in parts ==> t == parts[0] || t in parts[1..];
      if Height(parts[0]) > rest then Height(parts[0]) else rest
  }

  function MembersHeight(members: seq<MemberDecl>): (h: nat)
    ensures forall m :: m in members && m.Property? && m.typ.Some? ==> Height(m.typ.value) <= h
  {
    if members == [] then 0 else
      var rest := MembersHeight(members[1..]);
      var m := members[0];
      assert forall d :: d in members ==> d == m || d in members[1..];
      if m.Property? && m.typ.Some? && Height(m.typ.value) > rest then Height(m.typ.value) else rest
  }

  function DeclHeight(decl: Decl): nat {
    match decl
    case Interface(members, _) => MembersHeight(members)
    case Alias(body) => Height(body)
    case EnumDecl => 0
  }

  ghost predicate Shallow(w: World, height: nat) {
    forall id :: id in w.decls ==> DeclHeight(w.decls[id].1) <= height
  }

  lemma {:induction false} HeightExists(decls: map<DeclId, (string, Decl)>) returns (height: nat)
    ensures forall id :: id in decls ==> DeclHeight(decls[id].1) <= height
    decreases decls.Keys
  {
    if decls.Keys == {} { return 0; }
    var id :| id in decls;
    var rest := decls - {id};
    assert rest.Keys == decls.Keys - {id};
    height := HeightExists(rest);
    assert forall x :: x in decls && x != id ==> x in rest && rest[x] == decls[x];
    if DeclHeight(decls[id].1) > height { height := DeclHeight(decls[id].1); }
  }

  // ---- how much a path can grow ----

  /** What a path can still grow by once a declaration is entered; declarations without a price are not entered. */
  type Prices = map<DeclId, nat>

  /**
    A path grows by at most `n` steps below `node`: an indexed access adds one, a member and an array
    element take one off again, and a reference costs the price of its declaration.
   */
  predicate GrowsBy(w: World, prices: Prices, file: string, node: TypeNode, n: nat) {
    match node
    case Literal(members) =>
      forall m :: m in members && m.Property? && m.typ.Some? ==> GrowsBy(w, prices, file, m.typ.value, n + 1)
    case Parenthesized(inner) => GrowsBy(w, prices, file, inner, n)
    case Intersection(parts) => forall t :: t in parts ==> GrowsBy(w, prices, file, t, n)
    case Union(parts) => forall t :: t in parts ==> GrowsBy(w, prices, file, t, n)
    case ArrayOf(element) => GrowsBy(w, prices, file, element, n + 1)
    case Operator(_, operand) => GrowsBy(w, prices, file, operand, n)
    case IndexedAccess(owner, index) => index.Some? ==> n >= 1 && GrowsBy(w, prices, file, owner, n - 1)
    case Reference(head, qualified, argument) =>
      if head in PASSTHROUGH_WRAPPERS && argument.Some? then GrowsBy(w, prices, file, argument.value, n)
      else if head in ARRAY_WRAPPERS && argument.Some? then GrowsBy(w, prices, file, argument.value, n + 1)
      else !qualified && (file, head) in w.resolve ==> Affords(prices, w.resolve[(file, head)], n)
    case Opaque => true
  }

  predicate Affords(prices: Prices, id: DeclId, n: nat) { id in prices && prices[id] <= n }

  predicate DeclGrowsBy(w: World, prices: Prices, id: DeclId, n: nat)
    requires id in w.decls
  {
    var (file, decl) := w.decls[id];
    match decl
    case EnumDecl => true
    case Alias(body) => GrowsBy(w, prices, file, body, n)
    case Interface(members, bases) =>
      GrowsBy(w, prices, file, Literal(members), n)
      && forall base :: base in bases && base.Some? && (file, base.value) in w.resolve ==>
           Affords(prices, w.resolve[(file, base.value)], n)
  }

  /** Every priced declaration keeps to its price. */
  ghost predicate Priced(w: World, prices: Prices) {
    forall id :: id in prices ==> id in w.decls && DeclGrowsBy(w, prices, id, prices[id])
  }

  // ---- the walk ends ----

  /** Calls that suffice when `unseen` guard keys are still free and declarations are at most `height` deep. */
  function Budget(unseen: nat, height: nat): (b: nat)
    ensures b >= 1
  {
    if unseen == 0 then 1 else height + 2 + Budget(unseen - 1, height)
  }

  /** Every key of a priced declaration that the guard has not marked yet is free. */
  ghost predicate Covered(prices: Prices, limit: nat, seen: Seen, free: Seen) {
    forall id, k: nat :: id in prices && 1 <= k <= limit ==> (id, k) in seen || (id, k) in free
  }

  /** Every move leads to a smaller type, and keeps the path and its growth together within the limit. */
  lemma MoveShrinks(w: World, prices: Prices, file: string, node: TypeNode, steps: seq<Step>, n: nat)
      returns (m: nat)
    requires w.Valid() && steps != [] && GrowsBy(w, prices, file, node, n)
    ensures var move := MoveFrom(w, file, node, steps);
      && (move.Members? ==> MembersHeight(move.members) < Height(node))
      && (move.Members? ==> GrowsBy(w, prices, file, Literal(move.members), n))
      && (move.Through? ==> Height(move.node) < Height(node) && |move.steps| + m <= |steps| + n)
      && (move.Through? ==> GrowsBy(w, prices, file, move.node, m))
      && (move.AllOf? || move.OneOf? ==> PartsHeight(move.parts) < Height(node))
      && (move.AllOf? || move.OneOf? ==> forall t :: t in move.parts ==> GrowsBy(w, prices, file, t, n))
      && (move.Named? ==> Affords(prices, move.id, n))
  {
    var move := MoveFrom(w, file, node, steps);
    m := if move.Through? then |steps| + n - |move.steps| else 0;
  }

  /** A walk whose path cannot outgrow the limit ends, however the declarations refer to each other. */
  lemma {:induction false} WalkTerminates(w: World, prices: Prices, file: string, node: TypeNode, n: nat,
                                          steps: seq<Step>, seen: Seen, fuel: nat, limit: nat, height: nat, free: Seen)
    requires w.Valid() && Priced(w, prices) && GrowsBy(w, prices, file, node, n) && Shallow(w, height)
    requires |steps| + n <= limit && fuel >= Height(node) + Budget(|free|, height) && Covered(prices, limit, seen, free)
    ensures var r := Lookup(w, file, node, steps, seen, fuel); r.Some? && seen <= r.value.1
    decreases fuel, 0
  {
    if steps != [] {
      var m := MoveShrinks(w, prices, file, node, steps, n);
      match MoveFrom(w, file, node, steps) {
        case OutOfReach =>
        case Members(members) => MembersTerminate(w, prices, file, members, n, steps, seen, fuel, limit, height, free);
        case Through(inner, rest) =>
          WalkTerminates(w, prices, file, inner, m, rest, seen, fuel - 1, limit, height, free);
        case AllOf(parts) => PartsTerminate(w, prices, file, parts, n, steps, seen, fuel - 1, limit, height, free);
        case OneOf(parts) => PartsTerminate(w, prices, file, parts, n, steps, seen, fuel - 1, limit, height, free);
        case Named(id) => DeclTerminates(w, prices, id, steps, seen, fuel - 1, limit, height, free);
      }
    }
  }

  lemma {:induction false} MembersTerminate(w: World, prices: Prices, file: string, members: seq<MemberDecl>, n: nat,
                                            steps: seq<Step>, seen: Seen, fuel: nat, limit: nat, height: nat,
                                            free: Seen)
    requires w.Valid() && Priced(w, prices) && GrowsBy(w, prices, file, Literal(members), n) && Shallow(w, height)
    requires steps != [] && steps[0].Member? && |steps| + n <= limit && Covered(prices, limit, seen, free)
    requires fuel > MembersHeight(members) + Budget(|free|, height)
    ensures var m := FindProperty(members, steps[0].name);
      m.Some? ==> var r := LookupMember(w, file, m.value, steps, seen, fuel); r.Some? && seen <= r.value.1
    decreases fuel - 1, 1
  {
    var m := FindProperty(members, steps[0].name);
    if m.Some? && |steps| > 1 && m.value.typ.Some? {
      WalkTerminates(w, prices, file, m.value.typ.value, n + 1, steps[1..], seen, fuel - 1, limit, height, free);
    }
  }

  lemma {:induction false} DeclTerminates(w: World, prices: Prices, id: DeclId, steps: seq<Step>, seen: Seen,
                                          fuel: nat, limit: nat, height: nat, free: Seen)
    requires w.Valid() && Priced(w, prices) && id in prices && Shallow(w, height)
    requires |steps| + prices[id] <= limit && fuel >= Budget(|free|, height) && Covered(prices, limit, seen, free)
    ensures var r := LookupDecl(w, id, steps, seen, fuel); r.Some? && seen <= r.value.1
    decreases fuel, 0
  {
    var (file, decl) := w.decls[id];
    var n := prices[id];
    if steps != [] && !decl.EnumDecl? && Key(id, steps) !in seen {
      var marked, left := seen + {Key(id, steps)}, free - {Key(id, steps)};
      match decl {
        case Alias(body) => WalkTerminates(w, prices, file, body, n, steps, marked, fuel - 1, limit, height, left);
        case Interface(members, bases) =>
          if steps[0].Member? {
            MembersTerminate(w, prices, file, members, n, steps, marked, fuel, limit, height, left);
            if FindProperty(members, steps[0].name).None? {
              BasesTerminate(w, prices, file, bases, n, steps, marked, fuel - 1, limit, height, left);
            }
          }
      }
    }
  }

  lemma {:induction false} PartsTerminate(w: World, prices: Prices, file: string, parts: seq<TypeNode>, n: nat,
                                          steps: seq<Step>, seen: Seen, fuel: nat, limit: nat, height: nat, free: Seen)
    requires w.Valid() && Priced(w, prices) && Shallow(w, height)
    requires forall t :: t in parts ==> GrowsBy(w, prices, file, t, n)
    requires |steps| + n <= limit && fuel >= PartsHeight(parts) + Budget(|free|, height)
    requires Covered(prices, limit, seen, free)
    ensures var r := LookupAll(w, file, parts, steps, seen, fuel); r.Some? && seen <= r.value.1
    decreases fuel, 1 + |parts|
  {
    if parts != [] {
      assert parts[0] in parts;
      WalkTerminates(w, prices, file, parts[0], n, steps, seen, fuel, limit, height, free);
      var next := Lookup(w, file, parts[0], steps, seen, fuel).value.1;
      PartsTerminate(w, prices, file, parts[1..], n, steps, next, fuel, limit, height, free);
    }
  }

  lemma {:induction false} BasesTerminate(w: World, prices: Prices, file: string, bases: seq<Option<string>>, n: nat,
                                          steps: seq<Step>, seen: Seen, fuel: nat, limit: nat, height: nat, free: Seen)
    requires w.Valid() && Priced(w, prices) && Shallow(w, height)
    requires forall base :: base in bases && base.Some? && (file, base.value) in w.resolve ==>
      Affords(prices, w.resolve[(file, base.value)], n)
    requires |steps| + n <= limit && fuel >= Budget(|free|, height) && Covered(prices, limit, seen, free)
    ensures var r := LookupBases(w, file, bases, steps, seen, fuel); r.Some? && seen <= r.value.1
    decreases fuel, 2 + |bases|
  {
    if bases != [] {
      var base := bases[0];
      assert base in bases;
      if base.Some? && (file, base.value) in w.resolve {
        DeclTerminates(w, prices, w.resolve[(file, base.value)], steps, seen, fuel, limit, height, free);
      }
      var next := LookupBase(w, file, base, steps, seen, fuel).value.1;
      BasesTerminate(w, prices, file, bases[1..], n, steps, next, fuel, limit, height, free);
    }
  }

  /**
    Wherever the growth of paths can be priced, every path has an answer, and only one: it does not
    depend on the budget.
   */
  lemma PricedWorldsAnswer(w: World, prices: Prices, file: string, node: TypeNode, n: nat, steps: seq<Step>)
      returns (fuel: nat)
    requires w.Valid() && Priced(w, prices) && GrowsBy(w, prices, file, node, n)
    ensures Lookup(w, file, node, steps, {}, fuel).Some?
    ensures forall more :: fuel <= more ==>
      Lookup(w, file, node, steps, {}, more) == Lookup(w, file, node, steps, {}, fuel)
  {
    var height := HeightExists(w.decls);
    var limit := |steps| + n;
    var free := set id, k: nat | id in prices && 1 <= k <= limit :: (id, k);
    fuel := Height(node) + Budget(|free|, height);
    WalkTerminates(w, prices, file, node, n, steps, {}, fuel, limit, height, free);
    forall more | fuel <= more
      ensures Lookup(w, file, node, steps, {}, more) == Lookup(w, file, node, steps, {}, fuel)
    {
      MoreFuelSameAnswer(w, file, node, steps, {}, fuel, more);
    }
  }

  // ---- worlds without indexed access ----

  /** An indexed access by anything but a string literal ends the walk. */
  predicate NoIndexedAccess(node: TypeNode) { node.IndexedAccess? ==> node.index.None? }

  lemma {:induction false} NothingGrows(w: World, file: string, node: TypeNode, n: nat)
    requires w.Valid() && All(node, NoIndexedAccess)
    ensures GrowsBy(w, map id | id in w.decls :: 0, file, node, n)
  {
    match node {
      case Literal(members) =>
        forall m | m in members && m.Property? && m.typ.Some?
          ensures GrowsBy(w, map id | id in w.decls :: 0, file, m.typ.value, n + 1)
        {
          NothingGrows(w, file, m.typ.value, n + 1);
        }
      case Parenthesized(inner) => NothingGrows(w, file, inner, n);
      case Intersection(parts) =>
        forall t | t in parts ensures GrowsBy(w, map id | id in w.decls :: 0, file, t, n) {
          NothingGrows(w, file, t, n);
        }
      case Union(parts) =>
        forall t | t in parts ensures GrowsBy(w, map id | id in w.decls :: 0, file, t, n) {
          NothingGrows(w, file, t, n);
        }
      case ArrayOf(element) => NothingGrows(w, file, element, n + 1);
      case Operator(_, operand) => NothingGrows(w, file, operand, n);
      case IndexedAccess(_, _) => assert NoIndexedAccess(node);
      case Reference(_, _, argument) =>
        if argument.Some? {
          NothingGrows(w, file, argument.value, n);
          NothingGrows(w, file, argument.value, n + 1);
        }
      case Opaque =>
    }
  }

  /** Every indexed-access-free world and path has an answer, and only one. */
  lemma IndexFreeWorldsAnswer(w: World, file: string, node: TypeNode, steps: seq<Step>) returns (fuel: nat)
    requires w.Valid() && AllDecls(w, NoIndexedAccess) && All(node, NoIndexedAccess)
    ensures Lookup(w, file, node, steps, {}, fuel).Some?
    ensures forall more :: fuel <= more ==>
      Lookup(w, file, node, steps, {}, more) == Lookup(w, file, node, steps, {}, fuel)
  {
    var prices: Prices := map id | id in w.decls :: 0;
    forall id | id in w.decls ensures DeclGrowsBy(w, prices, id, 0) {
      var (declFile, decl) := w.decls[id];
      if decl.Alias? { NothingGrows(w, declFile, decl.body, 0); }
      if decl.Interface? { NothingGrows(w, declFile, Literal(decl.members), 0); }
    }
    NothingGrows(w, file, node, 0);
    fuel := PricedWorldsAnswer(w, prices, file, node, 0, steps);
  }
}
