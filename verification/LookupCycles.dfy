/**
  Endless walks: a chain of type aliases that leads back to its start with steps added is never answered,
  whatever the path, and where aliases read no member there is no other way for a walk not to end.
 */
module LookupCycles {
  import opened Wrappers
  import opened TypeLookup
  import opened LookupTermination
  import opened Digraph
  import opened Sequences
  import opened Worklist

  // ---- alias chains ----

  /** The walk comes from the type to the declaration without reading a step, having put `added` steps in front. */
  ghost predicate Leads(w: World, file: string, node: TypeNode, id: DeclId, added: nat) {
    match node
    case Literal(_) => false
    case Parenthesized(inner) => Leads(w, file, inner, id, added)
    case Intersection(parts) => exists t :: t in parts && Leads(w, file, t, id, added)
    case Union(parts) => exists t :: t in parts && Leads(w, file, t, id, added)
    case ArrayOf(_) => false
    case Operator(_, operand) => Leads(w, file, operand, id, added)
    case IndexedAccess(owner, index) => index.Some? && added >= 1 && Leads(w, file, owner, id, added - 1)
    case Reference(head, qualified, argument) =>
      if head in PASSTHROUGH_WRAPPERS && argument.Some? then Leads(w, file, argument.value, id, added)
      else if head in ARRAY_WRAPPERS && argument.Some? then false
      else !qualified && (file, head) in w.resolve && w.resolve[(file, head)] == id && added == 0
    case Opaque => false
  }

  /** The declarations a type leads to. */
  function Targets(w: World, file: string, node: TypeNode): seq<DeclId> {
    match node
    case Literal(_) => []
    case Parenthesized(inner) => Targets(w, file, inner)
    case Intersection(parts) => TargetsOfAll(w, file, parts)
    case Union(parts) => TargetsOfAll(w, file, parts)
    case ArrayOf(_) => []
    case Operator(_, operand) => Targets(w, file, operand)
    case IndexedAccess(owner, index) => if index.Some? then Targets(w, file, owner) else []
    case Reference(head, qualified, argument) =>
      if head in PASSTHROUGH_WRAPPERS && argument.Some? then Targets(w, file, argument.value)
      else if head in ARRAY_WRAPPERS && argument.Some? then []
      else if !qualified && (file, head) in w.resolve then [w.resolve[(file, head)]] else []
    case Opaque => []
  }

  function TargetsOfAll(w: World, file: string, parts: seq<TypeNode>): seq<DeclId> {
    if parts == [] then [] else Targets(w, file, parts[0]) + TargetsOfAll(w, file, parts[1..])
  }

  ghost predicate LeadsTo(w: World, file: string, node: TypeNode, id: DeclId) {
    exists added: nat :: Leads(w, file, node, id, added)
  }

  lemma {:induction false} TargetsAreLed(w: World, file: string, node: TypeNode, id: DeclId)
    ensures id in Targets(w, file, node) <==> LeadsTo(w, file, node, id)
  {
    match node {
      case Literal(_) =>
      case Parenthesized(inner) =>
        TargetsAreLed(w, file, inner, id);
        assert forall added: nat :: Leads(w, file, node, id, added) <==> Leads(w, file, inner, id, added);
      case Intersection(parts) => TargetsOfAllAreLed(w, file, parts, id); PartsLead(w, file, node, parts, id);
      case Union(parts) => TargetsOfAllAreLed(w, file, parts, id); PartsLead(w, file, node, parts, id);
      case ArrayOf(_) =>
      case Operator(_, operand) =>
        TargetsAreLed(w, file, operand, id);
        assert forall added: nat :: Leads(w, file, node, id, added) <==> Leads(w, file, operand, id, added);
      case IndexedAccess(owner, index) =>
        TargetsAreLed(w, file, owner, id);
        if index.Some? && LeadsTo(w, file, owner, id) {
          var added: nat :| Leads(w, file, owner, id, added);
          assert Leads(w, file, node, id, added + 1);
        }
        if LeadsTo(w, file, node, id) {
          var added: nat :| Leads(w, file, node, id, added);
          assert Leads(w, file, owner, id, added - 1);
        }
      case Reference(head, _, argument) =>
        if head in PASSTHROUGH_WRAPPERS && argument.Some? {
          TargetsAreLed(w, file, argument.value, id);
          assert forall added: nat :: Leads(w, file, node, id, added) <==> Leads(w, file, argument.value, id, added);
        } else if id in Targets(w, file, node) {
          assert Leads(w, file, node, id, 0);
        }
      case Opaque =>
    }
  }

  lemma PartsLead(w: World, file: string, node: TypeNode, parts: seq<TypeNode>, id: DeclId)
    requires node == Intersection(parts) || node == Union(parts)
    ensures LeadsTo(w, file, node, id) <==> exists t :: t in parts && LeadsTo(w, file, t, id)
  {
    if LeadsTo(w, file, node, id) {
      var added: nat :| Leads(w, file, node, id, added);
      var t :| t in parts && Leads(w, file, t, id, added);
      assert LeadsTo(w, file, t, id);
    }
    if t :| t in parts && LeadsTo(w, file, t, id) {
      var added: nat :| Leads(w, file, t, id, added);
      assert Leads(w, file, node, id, added);
    }
  }

  lemma {:induction false} TargetsOfAllAreLed(w: World, file: string, parts: seq<TypeNode>, id: DeclId)
    ensures id in TargetsOfAll(w, file, parts) <==> exists t :: t in parts && LeadsTo(w, file, t, id)
  {
    if parts != [] {
      TargetsAreLed(w, file, parts[0], id);
      TargetsOfAllAreLed(w, file, parts[1..], id);
      assert forall t :: t in parts <==> t == parts[0] || t in parts[1..];
    }
  }

  /** From alias to declaration. */
  ghost function Follows(w: World): Graph<DeclId> {
    map id | id in w.decls ::
      if w.decls[id].1.Alias? then Targets(w, w.decls[id].0, w.decls[id].1.body) else []
  }

  ghost predicate IsAlias(w: World, id: DeclId) { id in w.decls && w.decls[id].1.Alias? }

  ghost predicate AliasLeads(w: World, a: DeclId, b: DeclId, added: nat)
    requires IsAlias(w, a)
  {
    Leads(w, w.decls[a].0, w.decls[a].1.body, b, added)
  }

  lemma EdgeLeads(w: World, a: DeclId, b: DeclId)
    ensures Edge(Follows(w), a, b) <==>
      IsAlias(w, a) && LeadsTo(w, w.decls[a].0, w.decls[a].1.body, b)
  {
    if IsAlias(w, a) { TargetsAreLed(w, w.decls[a].0, w.decls[a].1.body, b); }
  }

  /** One turn of a growing cycle: the alias leads to `b` with steps added, and `b` leads back to it. */
  ghost predicate GrowsAround(w: World, a: DeclId, b: DeclId, added: nat) {
    IsAlias(w, a) && added > 0 && AliasLeads(w, a, b, added) && (b == a || Reaches(Follows(w), b, a))
  }

  ghost predicate GrowingCycleAhead(w: World, file: string, node: TypeNode) {
    exists a: DeclId, b: DeclId, added: nat ::
      FromRoots(Follows(w), Targets(w, file, node), a) && GrowsAround(w, a, b, added)
  }

  // ---- a finished walk has visited everything its aliases lead to ----

  /** Every alias the type leads to has been entered, or met, with the path it is entered with. */
  ghost predicate Visited(w: World, file: string, node: TypeNode, length: nat, seen: Seen) {
    forall id: DeclId, added: nat :: Leads(w, file, node, id, added) && IsAlias(w, id) ==> (id, length + added) in seen
  }

  ghost predicate VisitedAlias(w: World, key: (DeclId, nat), seen: Seen)
    requires IsAlias(w, key.0)
  {
    Visited(w, w.decls[key.0].0, w.decls[key.0].1.body, key.1, seen)
  }

  /** The walk added keys only, and went on from each alias among them. */
  ghost predicate Pursued(w: World, seen: Seen, seen': Seen) {
    seen <= seen' && forall key :: key in seen' && key !in seen && IsAlias(w, key.0) ==> VisitedAlias(w, key, seen')
  }

  lemma {:induction false} WalkPursues(w: World, file: string, node: TypeNode, steps: seq<Step>, seen: Seen, fuel: nat)
    requires w.Valid() && Lookup(w, file, node, steps, seen, fuel).Some?
    ensures var seen' := Lookup(w, file, node, steps, seen, fuel).value.1;
      Pursued(w, seen, seen') && (steps != [] ==> Visited(w, file, node, |steps|, seen'))
    decreases fuel, 0
  {
    if steps != [] {
      match MoveFrom(w, file, node, steps) {
        case OutOfReach =>
        case Members(members) =>
          var m := FindProperty(members, steps[0].name);
          if m.Some? { MemberPursues(w, file, m.value, steps, seen, fuel); }
        case Through(inner, rest) => WalkPursues(w, file, inner, rest, seen, fuel - 1);
        case AllOf(parts) => PartsPursue(w, file, parts, steps, seen, fuel - 1);
        case OneOf(parts) => PartsPursue(w, file, parts, steps, seen, fuel - 1);
        case Named(id) => DeclPursues(w, id, steps, seen, fuel - 1);
      }
    }
  }

  lemma {:induction false} MemberPursues(w: World, file: string, m: MemberDecl, steps: seq<Step>, seen: Seen, fuel: nat)
    requires w.Valid() && steps != [] && fuel > 0 && m.Property?
    requires LookupMember(w, file, m, steps, seen, fuel).Some?
    ensures Pursued(w, seen, LookupMember(w, file, m, steps, seen, fuel).value.1)
    decreases fuel - 1, 1
  {
    if |steps| > 1 && m.typ.Some? { WalkPursues(w, file, m.typ.value, steps[1..], seen, fuel - 1); }
  }

  lemma {:induction false} DeclPursues(w: World, id: DeclId, steps: seq<Step>, seen: Seen, fuel: nat)
    requires w.Valid() && id in w.decls && LookupDecl(w, id, steps, seen, fuel).Some?
    ensures var seen' := LookupDecl(w, id, steps, seen, fuel).value.1;
      Pursued(w, seen, seen') && (steps != [] && IsAlias(w, id) ==> Key(id, steps) in seen')
    decreases fuel, 0
  {
    var (file, decl) := w.decls[id];
    if steps != [] && !decl.EnumDecl? && Key(id, steps) !in seen {
      var marked := seen + {Key(id, steps)};
      match decl {
        case Alias(body) => WalkPursues(w, file, body, steps, marked, fuel - 1);
        case Interface(members, bases) =>
          if steps[0].Member? {
            var m := FindProperty(members, steps[0].name);
            if m.Some? {
              MemberPursues(w, file, m.value, steps, marked, fuel);
            } else if bases != [] {
              BasesPursue(w, file, bases, steps, marked, fuel - 1);
            }
          }
      }
    }
  }

  lemma PursuedOn(w: World, a: Seen, b: Seen, c: Seen)
    requires Pursued(w, a, b) && Pursued(w, b, c)
    ensures Pursued(w, a, c)
  {
    forall key | key in c && key !in a && IsAlias(w, key.0) ensures VisitedAlias(w, key, c) {
      if key in b { assert VisitedAlias(w, key, b); }
    }
  }

  lemma {:induction false} PartsPursue(w: World, file: string, parts: seq<TypeNode>, steps: seq<Step>, seen: Seen,
                                       fuel: nat)
    requires w.Valid() && steps != [] && LookupAll(w, file, parts, steps, seen, fuel).Some?
    ensures var seen' := LookupAll(w, file, parts, steps, seen, fuel).value.1;
      Pursued(w, seen, seen') && forall t :: t in parts ==> Visited(w, file, t, |steps|, seen')
    decreases fuel, 1 + |parts|
  {
    if parts != [] {
      var next := Lookup(w, file, parts[0], steps, seen, fuel).value.1;
      WalkPursues(w, file, parts[0], steps, seen, fuel);
      PartsPursue(w, file, parts[1..], steps, next, fuel);
      PursuedOn(w, seen, next, LookupAll(w, file, parts, steps, seen, fuel).value.1);
      assert forall t :: t in parts ==> t == parts[0] || t in parts[1..];
    }
  }

  lemma {:induction false} BasesPursue(w: World, file: string, bases: seq<Option<string>>, steps: seq<Step>,
                                       seen: Seen, fuel: nat)
    requires w.Valid() && LookupBases(w, file, bases, steps, seen, fuel).Some?
    ensures Pursued(w, seen, LookupBases(w, file, bases, steps, seen, fuel).value.1)
    decreases fuel, 2 + |bases|
  {
    if bases != [] {
      var base := bases[0];
      var next := LookupBase(w, file, base, steps, seen, fuel).value.1;
      if base.Some? && (file, base.value) in w.resolve {
        DeclPursues(w, w.resolve[(file, base.value)], steps, seen, fuel);
      }
      BasesPursue(w, file, bases[1..], steps, next, fuel);
      PursuedOn(w, seen, next, LookupBases(w, file, bases, steps, seen, fuel).value.1);
    }
  }

  // ---- growing cycles ----

  /** Met with a path of at least this length; declarations other than aliases lead nowhere. */
  ghost predicate MetAbove(w: World, seen: Seen, floor: nat, id: DeclId) {
    IsAlias(w, id) ==> exists k :: k >= floor && (id, k) in seen
  }

  lemma MetAheadToo(w: World, seen: Seen, seen': Seen, floor: nat, a: DeclId, b: DeclId)
    requires Pursued(w, seen, seen') && (forall key :: key in seen ==> key.1 < floor)
    requires MetAbove(w, seen', floor, a) && Reaches(Follows(w), a, b)
    ensures MetAbove(w, seen', floor, b)
  {
    var met := iset x | MetAbove(w, seen', floor, x);
    forall x: DeclId, y: DeclId | x in met && Edge(Follows(w), x, y) ensures y in met {
      EdgeLeads(w, x, y);
      var added: nat :| Leads(w, w.decls[x].0, w.decls[x].1.body, y, added);
      var k :| k >= floor && (x, k) in seen';
      assert VisitedAlias(w, (x, k), seen');
      if IsAlias(w, y) { assert (y, k + added) in seen'; }
    }
    ClosedSetContainsReachable(Follows(w), met, a, b);
  }

  lemma HighestKey(seen: Seen, id: DeclId, k: nat) returns (top: nat)
    requires (id, k) in seen
    ensures top >= k && (id, top) in seen && forall l :: (id, l) in seen ==> l <= top
    decreases seen
  {
    top := k;
    if l :| (id, l) in seen && l > k {
      var rest := seen - {(id, k)};
      top := HighestKey(rest, id, l);
      forall m | (id, m) in seen ensures m <= top {
        if m != k { assert (id, m) in rest; }
      }
    }
  }

  /** Whatever the path and the rest of the world, a walk with a growing cycle ahead has no answer. */
  lemma GrowingCyclesNeverAnswer(w: World, file: string, node: TypeNode, steps: seq<Step>, seen: Seen, fuel: nat)
    requires w.Valid() && steps != [] && GrowingCycleAhead(w, file, node)
    requires forall key :: key in seen ==> key.1 < |steps|
    ensures Lookup(w, file, node, steps, seen, fuel).None?
  {
    var r := Lookup(w, file, node, steps, seen, fuel);
    if r.Some? {
      WalkPursues(w, file, node, steps, seen, fuel);
      var a: DeclId, b: DeclId, added: nat :|
        FromRoots(Follows(w), Targets(w, file, node), a) && GrowsAround(w, a, b, added);
      RootsAreMet(w, file, node, |steps|, seen, r.value.1, a);
      var k :| k >= |steps| && (a, k) in r.value.1;
      var top := HighestKey(r.value.1, a, k);
      var higher := CycleClimbs(w, seen, r.value.1, |steps|, a, b, added, top);
      assert false;
    }
  }

  lemma RootsAreMet(w: World, file: string, node: TypeNode, length: nat, seen: Seen, seen': Seen, a: DeclId)
    requires Pursued(w, seen, seen') && (forall key :: key in seen ==> key.1 < length)
    requires Visited(w, file, node, length, seen') && FromRoots(Follows(w), Targets(w, file, node), a)
    ensures MetAbove(w, seen', length, a)
  {
    forall root | root in Targets(w, file, node) ensures MetAbove(w, seen', length, root) {
      TargetsAreLed(w, file, node, root);
      var added: nat :| Leads(w, file, node, root, added);
      if IsAlias(w, root) { assert (root, length + added) in seen'; }
    }
    if a !in Targets(w, file, node) {
      var root :| root in Targets(w, file, node) && Reaches(Follows(w), root, a);
      MetAheadToo(w, seen, seen', length, root, a);
    }
  }

  /** One turn around the cycle leads to a longer path. */
  lemma CycleClimbs(w: World, seen: Seen, seen': Seen, floor: nat, a: DeclId, b: DeclId, added: nat, k: nat)
      returns (higher: nat)
    requires Pursued(w, seen, seen') && (forall key :: key in seen ==> key.1 < floor)
    requires GrowsAround(w, a, b, added) && k >= floor && (a, k) in seen'
    ensures higher > k && (a, higher) in seen'
  {
    assert VisitedAlias(w, (a, k), seen');
    if b != a {
      var next := ReachesFirstEdge(Follows(w), b, a);
      EdgeLeads(w, b, next);
      assert (b, k + added) in seen' && MetAbove(w, seen', k + added, b);
      MetAheadToo(w, seen, seen', k + added, b, a);
    }
    higher :| higher >= k + added && (a, higher) in seen';
  }

  // ---- aliases that read no member ----

  /** Nothing on the walk's way through the type reads a step. */
  predicate ReadsNothing(node: TypeNode) {
    match node
    case Literal(_) => false
    case Parenthesized(inner) => ReadsNothing(inner)
    case Intersection(parts) => forall t :: t in parts ==> ReadsNothing(t)
    case Union(parts) => forall t :: t in parts ==> ReadsNothing(t)
    case ArrayOf(_) => false
    case Operator(_, operand) => ReadsNothing(operand)
    case IndexedAccess(owner, index) => index.Some? ==> ReadsNothing(owner)
    case Reference(head, _, argument) =>
      if head in PASSTHROUGH_WRAPPERS && argument.Some? then ReadsNothing(argument.value)
      else head in ARRAY_WRAPPERS ==> argument.None?
    case Opaque => true
  }

  /** Every declaration ahead is an enum or an alias that reads no step. */
  ghost predicate ReadsNothingAhead(w: World, file: string, node: TypeNode) {
    ReadsNothing(node)
    && forall id :: id in w.decls && FromRoots(Follows(w), Targets(w, file, node), id) ==>
         w.decls[id].1.EnumDecl? || (w.decls[id].1.Alias? && ReadsNothing(w.decls[id].1.body))
  }

  lemma {:induction false} AddedIsLow(w: World, file: string, node: TypeNode, id: DeclId, added: nat)
    requires w.Valid() && Leads(w, file, node, id, added)
    ensures added < Height(node) && id in w.decls
  {
    match node {
      case Parenthesized(inner) => AddedIsLow(w, file, inner, id, added);
      case Intersection(parts) =>
        var t :| t in parts && Leads(w, file, t, id, added);
        AddedIsLow(w, file, t, id, added);
      case Union(parts) =>
        var t :| t in parts && Leads(w, file, t, id, added);
        AddedIsLow(w, file, t, id, added);
      case Operator(_, operand) => AddedIsLow(w, file, operand, id, added);
      case IndexedAccess(owner, _) => AddedIsLow(w, file, owner, id, added - 1);
      case Reference(head, _, argument) =>
        if head in PASSTHROUGH_WRAPPERS && argument.Some? { AddedIsLow(w, file, argument.value, id, added); }
    }
  }

  /** A type that reads nothing grows by what it adds on the way to a declaration and that declaration's price. */
  lemma {:induction false} GrowsByChains(w: World, prices: Prices, file: string, node: TypeNode, n: nat)
    requires w.Valid() && ReadsNothing(node) && Height(node) <= n && ChainsAfforded(w, prices, file, node, n)
    ensures GrowsBy(w, prices, file, node, n)
    decreases node, 0
  {
    match node {
      case Parenthesized(inner) => PartByChains(w, prices, file, node, inner, n);
      case Intersection(parts) =>
        forall t | t in parts ensures GrowsBy(w, prices, file, t, n) { PartByChains(w, prices, file, node, t, n); }
      case Union(parts) =>
        forall t | t in parts ensures GrowsBy(w, prices, file, t, n) { PartByChains(w, prices, file, node, t, n); }
      case Operator(_, operand) => PartByChains(w, prices, file, node, operand, n);
      case IndexedAccess(owner, index) =>
        if index.Some? {
          forall id: DeclId, added: nat | Leads(w, file, owner, id, added)
            ensures id in prices && prices[id] + added <= n - 1
          {
            assert Leads(w, file, node, id, added + 1);
          }
          GrowsByChains(w, prices, file, owner, n - 1);
        }
      case Reference(head, qualified, argument) =>
        if head in PASSTHROUGH_WRAPPERS && argument.Some? {
          PartByChains(w, prices, file, node, argument.value, n);
        } else if !qualified && (file, head) in w.resolve {
          assert Leads(w, file, node, w.resolve[(file, head)], 0);
        }
      case Opaque =>
    }
  }

  ghost predicate ChainsAfforded(w: World, prices: Prices, file: string, node: TypeNode, n: nat) {
    forall id: DeclId, added: nat :: Leads(w, file, node, id, added) ==> id in prices && prices[id] + added <= n
  }

  lemma {:induction false} PartByChains(w: World, prices: Prices, file: string, node: TypeNode, part: TypeNode, n: nat)
    requires w.Valid() && ReadsNothing(part) && Height(part) < Height(node) <= n
    requires part < node && ChainsAfforded(w, prices, file, node, n)
    requires forall id: DeclId, added: nat :: Leads(w, file, part, id, added) ==> Leads(w, file, node, id, added)
    ensures GrowsBy(w, prices, file, part, n)
    decreases part, 1
  {
    GrowsByChains(w, prices, file, part, n);
  }

  // ---- prices without growing cycles ----

  /** A declaration and those it leads to. */
  ghost function Ahead(w: World, id: DeclId): set<DeclId> {
    set x | x in w.decls && (x == id || Reaches(Follows(w), id, x))
  }

  /** Going on along an alias leaves no more ahead, and less if steps were added, as there is no way back. */
  lemma AheadShrinks(w: World, a: DeclId, b: DeclId, added: nat)
    requires IsAlias(w, a) && b in w.decls && AliasLeads(w, a, b, added) && !GrowsAround(w, a, b, added)
    ensures |Ahead(w, b)| + (if added > 0 then 1 else 0) <= |Ahead(w, a)|
  {
    assert LeadsTo(w, w.decls[a].0, w.decls[a].1.body, b);
    EdgeLeads(w, a, b);
    EdgeReaches(Follows(w), a, b);
    forall x | x in Ahead(w, b) ensures x in Ahead(w, a) {
      if x != b { ReachesTransitive(Follows(w), a, b, x); }
    }
    assert a in Ahead(w, a) && (added > 0 ==> a !in Ahead(w, b));
    SubsetSize(Ahead(w, b), Ahead(w, a));
  }

  ghost function PriceList(w: World, file: string, node: TypeNode, height: nat): Prices {
    map id | id in w.decls && FromRoots(Follows(w), Targets(w, file, node), id) :: Times(height, |Ahead(w, id)|)
  }

  lemma PriceOfAlias(w: World, file: string, node: TypeNode, height: nat, a: DeclId)
    requires w.Valid() && ReadsNothingAhead(w, file, node) && !GrowingCycleAhead(w, file, node)
    requires height >= 1 && Shallow(w, height) && a in PriceList(w, file, node, height) && IsAlias(w, a)
    ensures DeclGrowsBy(w, PriceList(w, file, node, height), a, PriceList(w, file, node, height)[a])
  {
    var prices, body := PriceList(w, file, node, height), w.decls[a].1.body;
    assert a in Ahead(w, a);
    assert |Ahead(w, a)| >= 1;
    forall b: DeclId, added: nat | Leads(w, w.decls[a].0, body, b, added)
      ensures b in prices && prices[b] + added <= prices[a]
    {
      AddedIsLow(w, w.decls[a].0, body, b, added);
      assert AliasLeads(w, a, b, added) && LeadsTo(w, w.decls[a].0, body, b);
      EdgeLeads(w, a, b);
      StepFromRoots(Follows(w), Targets(w, file, node), a, b);
      AheadShrinks(w, a, b, added);
      Scaled(height, |Ahead(w, b)|, |Ahead(w, a)|, added);
    }
    Scaled(height, 0, |Ahead(w, a)|, height);
    GrowsByChains(w, prices, w.decls[a].0, body, prices[a]);
  }

  function Times(height: nat, count: nat): nat {
    if count == 0 then 0 else height + Times(height, count - 1)
  }

  lemma {:induction false} Scaled(height: nat, low: nat, high: nat, added: nat)
    requires added <= height && low + (if added > 0 then 1 else 0) <= high
    ensures Times(height, low) + added <= Times(height, high)
  {
    if high > low + 1 || (high > low && added == 0) { Scaled(height, low, high - 1, added); }
  }

  /** Without a growing cycle ahead, paths stay bounded. */
  lemma AliasesCanBePriced(w: World, file: string, node: TypeNode) returns (prices: Prices, n: nat)
    requires w.Valid() && ReadsNothingAhead(w, file, node) && !GrowingCycleAhead(w, file, node)
    ensures Priced(w, prices) && GrowsBy(w, prices, file, node, n)
  {
    var height := HeightExists(w.decls);
    height := height + 1;
    prices := PriceList(w, file, node, height);
    forall id | id in prices ensures DeclGrowsBy(w, prices, id, prices[id]) {
      if IsAlias(w, id) { PriceOfAlias(w, file, node, height, id); }
    }
    n := Height(node) + Times(height, |w.decls|);
    forall id: DeclId, added: nat | Leads(w, file, node, id, added) ensures id in prices && prices[id] + added <= n {
      AddedIsLow(w, file, node, id, added);
      TargetsAreLed(w, file, node, id);
      assert LeadsTo(w, file, node, id);
      SubsetSize(Ahead(w, id), w.decls.Keys);
      Scaled(height, |Ahead(w, id)|, |w.decls|, 0);
    }
    GrowsByChains(w, prices, file, node, n);
  }

  /**
    Where nothing ahead reads a step, a walk ends exactly when no growing cycle lies ahead: no alias leads,
    through an indexed access, to a declaration that leads back to it.
   */
  lemma AliasWorldsAnswerIff(w: World, file: string, node: TypeNode, steps: seq<Step>)
    requires w.Valid() && steps != [] && ReadsNothingAhead(w, file, node)
    ensures (exists fuel: nat :: Lookup(w, file, node, steps, {}, fuel).Some?) <==> !GrowingCycleAhead(w, file, node)
  {
    if GrowingCycleAhead(w, file, node) {
      forall fuel: nat ensures Lookup(w, file, node, steps, {}, fuel).None? {
        GrowingCyclesNeverAnswer(w, file, node, steps, {}, fuel);
      }
    } else {
      var prices, n := AliasesCanBePriced(w, file, node);
      var fuel := PricedWorldsAnswer(w, prices, file, node, n, steps);
    }
  }

  /** The smallest growing cycle: `type A = A['x']`. */
  ghost function SelfIndexing(): World {
    World(map[0 := ("f", Alias(IndexedAccess(Reference("A", false, None), Some("x"))))], map[("f", "A") := 0])
  }

  lemma SelfIndexingNeverAnswers(steps: seq<Step>, fuel: nat)
    requires SelfIndexing().Valid() && steps != []
    ensures Lookup(SelfIndexing(), "f", Reference("A", false, None), steps, {}, fuel).None?
  {
    var w, a := SelfIndexing(), Reference("A", false, None);
    assert Leads(w, "f", a, 0, 0) && Leads(w, "f", IndexedAccess(a, Some("x")), 0, 1);
    assert Targets(w, "f", a) == [0];
    assert GrowsAround(w, 0, 0, 1) && FromRoots(Follows(w), Targets(w, "f", a), 0);
    GrowingCyclesNeverAnswer(w, "f", a, steps, {}, fuel);
  }
}
