/**
  Dependency-safe package order: sorted by the longest chain of dependencies, then by the
  comparator. The sort fails naming exactly the packages that reach a cycle or an absent one.
 */
module PackageOrder {
  import opened Wrappers
  import opened Digraph
  import opened Sequences

  datatype Package = Package(short: string, group: string, deps: seq<string>)

  // ---- the comparator ----

  const MAX_SAFE_INTEGER: int := 0x1F_FFFF_FFFF_FFFF

  function IndexOf(names: seq<string>, name: string): (r: int)
    ensures -1 <= r < |names|
  {
    if names == [] then -1
    else if names[0] == name then 0
    else
      var later := IndexOf(names[1..], name);
      if later == -1 then -1 else later + 1
  }

  function GroupRank(groupOrder: seq<string>, group: string): int {
    var i := IndexOf(groupOrder, group);
    if i == -1 then MAX_SAFE_INTEGER else i
  }

  /** `localeCompare`: a total order of strings, whatever the locale. */
  ghost predicate IsCollation(compare: (string, string) -> int) {
    && (forall a, b :: compare(a, b) == 0 <==> a == b)
    && (forall a, b :: compare(a, b) < 0 <==> compare(b, a) > 0)
    && (forall a, b, c :: compare(a, b) < 0 && compare(b, c) < 0 ==> compare(a, c) < 0)
  }

  function ComparePackages(compare: (string, string) -> int, groupOrder: seq<string>, a: Package, b: Package): int {
    var ranks := GroupRank(groupOrder, a.group) - GroupRank(groupOrder, b.group);
    if ranks != 0 then ranks
    else if compare(a.group, b.group) != 0 then compare(a.group, b.group)
    else compare(a.short, b.short)
  }

  ghost predicate IsStrictOrder(less: (Package, Package) -> bool) {
    && (forall a, b, c :: less(a, b) && less(b, c) ==> less(a, c))
    && (forall a: Package, b: Package :: a.short != b.short ==> less(a, b) || less(b, a))
    && (forall a, b :: less(a, b) ==> !less(b, a))
  }

  function Before(compare: (string, string) -> int, groupOrder: seq<string>): (Package, Package) -> bool {
    (a, b) => ComparePackages(compare, groupOrder, a, b) < 0
  }

  lemma ComparatorIsStrictOrder(compare: (string, string) -> int, groupOrder: seq<string>)
    requires IsCollation(compare)
    ensures IsStrictOrder(Before(compare, groupOrder))
  {
    var less := Before(compare, groupOrder);
    forall a, b, c | less(a, b) && less(b, c) ensures less(a, c) { }
    forall a, b | less(a, b) ensures !less(b, a) { }
  }

  /** The first mention of one group comes before any mention of the other. */
  predicate ListedBefore(groupOrder: seq<string>, x: string, y: string) {
    exists i :: 0 <= i < |groupOrder| && groupOrder[i] == x && y !in groupOrder[..i + 1]
  }

  lemma {:induction false} IndexOfFirst(names: seq<string>, name: string)
    ensures var i := IndexOf(names, name); i == -1 || names[i] == name
    ensures forall j :: 0 <= j < |names| && names[j] == name ==> 0 <= IndexOf(names, name) <= j
  {
    if names != [] {
      IndexOfFirst(names[1..], name);
      assert forall j :: 1 <= j < |names| ==> names[1..][j - 1] == names[j];
    }
  }

  lemma ListedBeforeIff(names: seq<string>, x: string, y: string)
    ensures ListedBefore(names, x, y)
      <==> IndexOf(names, x) != -1 && (IndexOf(names, y) == -1 || IndexOf(names, x) < IndexOf(names, y))
  {
    IndexOfFirst(names, x);
    IndexOfFirst(names, y);
    forall i {:trigger names[i]} | 0 <= i < |names|
      ensures y !in names[..i + 1] <==> IndexOf(names, y) == -1 || i < IndexOf(names, y)
    {
      if 0 <= IndexOf(names, y) <= i { assert names[..i + 1][IndexOf(names, y)] == y; }
    }
  }

  /** Listed groups come first, in the order of the list; then group names decide, then package names. */
  lemma ComparatorIff(compare: (string, string) -> int, groupOrder: seq<string>, a: Package, b: Package)
    requires IsCollation(compare) && |groupOrder| <= MAX_SAFE_INTEGER
    ensures Before(compare, groupOrder)(a, b) <==>
      || ListedBefore(groupOrder, a.group, b.group)
      || (a.group !in groupOrder && b.group !in groupOrder && compare(a.group, b.group) < 0)
      || (a.group == b.group && compare(a.short, b.short) < 0)
  {
    IndexOfFirst(groupOrder, a.group);
    IndexOfFirst(groupOrder, b.group);
    ListedBeforeIff(groupOrder, a.group, b.group);
  }

  // ---- sorted lists ----

  function Names(list: seq<Package>): seq<string> {
    seq(|list|, i requires 0 <= i < |list| => list[i].short)
  }

  ghost predicate Sorted(less: (Package, Package) -> bool, list: seq<Package>) {
    forall i, j :: 0 <= i < j < |list| ==> less(list[i], list[j])
  }

  ghost predicate Lists(list: seq<Package>, packages: set<Package>) {
    forall p :: p in list <==> p in packages
  }

  ghost predicate DistinctNames(packages: set<Package>) {
    forall p, q :: p in packages && q in packages && p.short == q.short ==> p == q
  }

  /** A set of packages has one sorted list. */
  lemma {:induction false} SortedListIsUnique(less: (Package, Package) -> bool, a: seq<Package>, b: seq<Package>,
      packages: set<Package>)
    requires IsStrictOrder(less) && Sorted(less, a) && Sorted(less, b) && Lists(a, packages) && Lists(b, packages)
    ensures a == b
    decreases |a|
  {
    EmptyLists(a, packages);
    EmptyLists(b, packages);
    if a != [] {
      FirstIsLeast(less, a, b, packages);
      var rest := packages - {a[0]};
      TailLists(less, a, packages);
      TailLists(less, b, packages);
      SortedListIsUnique(less, a[1..], b[1..], rest);
      assert a == [a[0]] + a[1..] && b == [b[0]] + b[1..];
    }
  }

  lemma EmptyLists(list: seq<Package>, packages: set<Package>)
    requires Lists(list, packages)
    ensures list == [] <==> packages == {}
  {
    if list != [] { assert list[0] in list; }
  }

  lemma FirstIsLeast(less: (Package, Package) -> bool, a: seq<Package>, b: seq<Package>, packages: set<Package>)
    requires IsStrictOrder(less) && Sorted(less, a) && Sorted(less, b) && Lists(a, packages) && Lists(b, packages)
      && a != []
    ensures b != [] && a[0] == b[0]
  {
    EmptyLists(a, packages);
    EmptyLists(b, packages);
    assert a[0] in a && b[0] in b;
  }

  lemma TailLists(less: (Package, Package) -> bool, list: seq<Package>, packages: set<Package>)
    requires IsStrictOrder(less) && Sorted(less, list) && Lists(list, packages) && list != []
    ensures Sorted(less, list[1..]) && Lists(list[1..], packages - {list[0]})
  {
    assert list == [list[0]] + list[1..];
    forall i | 0 <= i < |list[1..]| ensures list[1..][i] != list[0] {
      assert less(list[0], list[i + 1]);
    }
  }

  /** `sort` of any listing of the packages. */
  method Sort(less: (Package, Package) -> bool, packages: set<Package>) returns (list: seq<Package>)
    requires IsStrictOrder(less) && DistinctNames(packages)
    ensures Sorted(less, list) && Lists(list, packages)
  {
    list := [];
    var rest := packages;
    while rest != {}
      invariant rest <= packages && Sorted(less, list) && Lists(list, packages - rest)
      decreases rest
    {
      var p :| p in rest;
      list := Insert(less, list, p, packages - rest);
      rest := rest - {p};
    }
  }

  method Insert(less: (Package, Package) -> bool, list: seq<Package>, p: Package, ghost packages: set<Package>)
      returns (r: seq<Package>)
    requires IsStrictOrder(less) && Sorted(less, list) && Lists(list, packages)
    requires forall q :: q in packages ==> q.short != p.short
    ensures Sorted(less, r) && Lists(r, packages + {p})
  {
    var i := 0;
    while i < |list| && less(list[i], p)
      invariant i <= |list| && forall j :: 0 <= j < i ==> less(list[j], p)
    {
      i := i + 1;
    }
    r := list[..i] + [p] + list[i..];
    InsertedSorted(less, list, p, i, packages);
    assert list == list[..i] + list[i..];
  }

  lemma InsertedSorted(less: (Package, Package) -> bool, list: seq<Package>, p: Package, i: nat, packages: set<Package>)
    requires IsStrictOrder(less) && Sorted(less, list) && Lists(list, packages) && i <= |list|
    requires forall q :: q in packages ==> q.short != p.short
    requires (forall j :: 0 <= j < i ==> less(list[j], p)) && (i < |list| ==> !less(list[i], p))
    ensures Sorted(less, list[..i] + [p] + list[i..])
  {
    forall j | i <= j < |list| ensures less(p, list[j]) {
      assert list[i] in list && less(p, list[i]);
      if j > i { assert less(list[i], list[j]); }
    }
  }

  // ---- the graph ----

  ghost predicate Keyed(packages: map<string, Package>) {
    forall name :: name in packages ==> packages[name].short == name
  }

  function Dependencies(packages: map<string, Package>): Graph<string> {
    map name | name in packages :: packages[name].deps
  }

  /** The package, or one it depends on, is absent or depends on itself. */
  ghost predicate Blocked(g: Graph<string>, name: string) {
    exists end :: (end == name || Reaches(g, name, end)) && (end !in g || Reaches(g, end, end))
  }

  lemma BlockedIsInherited(g: Graph<string>, name: string, dep: string)
    requires Edge(g, name, dep) && Blocked(g, dep)
    ensures Blocked(g, name)
  {
    var end :| (end == dep || Reaches(g, dep, end)) && (end !in g || Reaches(g, end, end));
    EdgeReaches(g, name, dep);
    if end != dep { ReachesTransitive(g, name, dep, end); }
  }

  /** Descent: a blocked package that is listed has a blocked dependency, or depends on itself or on an absent one. */
  lemma BlockedHasBlockedDependency(g: Graph<string>, name: string)
    requires name in g && Blocked(g, name)
    ensures exists dep :: Edge(g, name, dep) && (dep !in g || Blocked(g, dep))
  {
    var end :| (end == name || Reaches(g, name, end)) && (end !in g || Reaches(g, end, end));
    assert Reaches(g, name, end);
    var dep := ReachesFirstEdge(g, name, end);
    assert dep == end || Reaches(g, dep, end);
  }

  lemma {:induction false} NoCycleInside(g: Graph<string>, part: Graph<string>, a: string)
    requires part.Keys <= g.Keys && (forall n :: n in part ==> part[n] == g[n]) && Reaches(part, a, a)
    ensures a in part && Reaches(g, a, a)
  {
    var walk :| |walk| >= 2 && WalkFromTo(part, walk, a, a);
    assert Edge(part, walk[0], walk[1]);
    forall i, j | 0 <= i < j < |walk| && j == i + 1 ensures Edge(g, walk[i], walk[j]) {
      assert Edge(part, walk[i], walk[j]);
    }
    assert WalkFromTo(g, walk, a, a);
  }

  /** Packages each with a dependency among themselves or absent are all blocked. */
  lemma StuckAreBlocked(g: Graph<string>, stuck: set<string>, name: string)
    requires stuck <= g.Keys && name in stuck
    requires forall n :: n in stuck ==> exists d :: d in g[n] && (d in stuck || d !in g)
    ensures Blocked(g, name)
  {
    if !Blocked(g, name) {
      var free := set n | n in stuck && !Blocked(g, n);
      var part := map n | n in free :: g[n];
      forall a ensures !Reaches(part, a, a) {
        if Reaches(part, a, a) { NoCycleInside(g, part, a); }
      }
      assert name in free;
      var m := MinimalMember(part, free);
      var d :| d in g[m] && (d in stuck || d !in g);
      assert Edge(g, m, d);
      assert d !in free && Blocked(g, d);
      BlockedIsInherited(g, m, d);
    }
  }

  /** Packages listed after all their dependencies are not blocked. */
  lemma ListedAreNotBlocked(g: Graph<string>, order: seq<string>, i: nat)
    requires i < |order| && forall j, d :: 0 <= j < |order| && order[j] in g && d in g[order[j]] ==> d in order[..j]
    requires forall j :: 0 <= j < |order| ==> order[j] in g
    ensures !Blocked(g, order[i])
  {
    if Blocked(g, order[i]) {
      BlockedHasBlockedDependency(g, order[i]);
      var dep :| Edge(g, order[i], dep) && (dep !in g || Blocked(g, dep));
      var j :| 0 <= j < i && order[..i][j] == dep;
      ListedAreNotBlocked(g, order, j);
    }
  }

  // ---- depth ----

  /** Some chain of n dependencies starts at a package; an absent package is as deep as can be. */
  ghost predicate HasChain(g: Graph<string>, name: string, n: nat)
    decreases n
  {
    n == 0 || name !in g || exists dep :: dep in g[name] && HasChain(g, dep, n - 1)
  }

  /** The longest chain of dependencies of a package; -1 when there is none. */
  ghost function Depth(g: Graph<string>, name: string): int {
    if exists n: nat :: HasChain(g, name, n) && !HasChain(g, name, n + 1)
    then var n: nat :| HasChain(g, name, n) && !HasChain(g, name, n + 1); n
    else -1
  }

  lemma {:induction false} ShorterChain(g: Graph<string>, name: string, n: nat, m: nat)
    requires HasChain(g, name, n) && m <= n
    ensures HasChain(g, name, m)
    decreases n
  {
    if m > 0 && name in g {
      var dep :| dep in g[name] && HasChain(g, dep, n - 1);
      ShorterChain(g, dep, n - 1, m - 1);
    }
  }

  lemma DepthIs(g: Graph<string>, name: string, n: nat)
    requires HasChain(g, name, n) && !HasChain(g, name, n + 1)
    ensures Depth(g, name) == n
  {
    var m: nat :| HasChain(g, name, m) && !HasChain(g, name, m + 1) && Depth(g, name) == m;
    if m < n { ShorterChain(g, name, n, m + 1); }
    if n < m { ShorterChain(g, name, m, n + 1); }
  }

  /** A depth is zero without dependencies and otherwise one more than the largest depth of a dependency. */
  lemma DepthIff(g: Graph<string>, name: string, n: nat)
    requires name in g && forall dep :: dep in g[name] ==> Depth(g, dep) >= 0
    ensures Depth(g, name) == n <==>
      && (forall dep :: dep in g[name] ==> Depth(g, dep) < n)
      && (n == 0 || exists dep :: dep in g[name] && Depth(g, dep) == n - 1)
  {
    forall dep | dep in g[name]
      ensures HasChain(g, dep, Depth(g, dep)) && !HasChain(g, dep, Depth(g, dep) + 1) { }
    var most := MostDepth(g, g[name]);
    assert HasChain(g, name, most + 1) ==> exists dep :: dep in g[name] && HasChain(g, dep, most);
    forall dep | dep in g[name] && HasChain(g, dep, most) ensures false {
      ShorterChain(g, dep, most, Depth(g, dep) + 1);
    }
    DepthIs(g, name, most);
  }

  /** One more than the largest depth of some packages. */
  lemma {:induction false} MostDepth(g: Graph<string>, deps: seq<string>) returns (most: nat)
    requires forall dep :: dep in deps ==> Depth(g, dep) >= 0
    ensures forall dep :: dep in deps ==> Depth(g, dep) < most
    ensures most == 0 || exists dep :: dep in deps && Depth(g, dep) == most - 1
  {
    most := 0;
    if deps != [] {
      most := MostDepth(g, deps[1..]);
      assert deps == [deps[0]] + deps[1..];
      most := if Depth(g, deps[0]) >= most then Depth(g, deps[0]) + 1 else most;
    }
  }

  /** By depth first, then by the comparator. */
  ghost function DepthFirst(less: (Package, Package) -> bool, g: Graph<string>): (Package, Package) -> bool {
    (a: Package, b: Package) =>
      Depth(g, a.short) < Depth(g, b.short) || (Depth(g, a.short) == Depth(g, b.short) && less(a, b))
  }

  lemma DepthFirstIsStrictOrder(less: (Package, Package) -> bool, g: Graph<string>)
    requires IsStrictOrder(less)
    ensures IsStrictOrder(DepthFirst(less, g))
  {
    var deeper := DepthFirst(less, g);
    forall a, b, c | deeper(a, b) && deeper(b, c) ensures deeper(a, c) { }
    forall a, b | deeper(a, b) ensures !deeper(b, a) { }
  }

  /** The remaining packages all of whose dependencies are placed. */
  function Ready(remaining: map<string, Package>, placed: set<string>): set<string> {
    set name | name in remaining && forall i :: 0 <= i < |remaining[name].deps| ==> remaining[name].deps[i] in placed
  }

  function Values(packages: map<string, Package>, names: set<string>): set<Package> {
    set name | name in names && name in packages :: packages[name]
  }

  // ---- the sort ----

  function ByName(packages: seq<Package>): map<string, Package> {
    if packages == [] then map[]
    else ByName(packages[..|packages| - 1])[packages[|packages| - 1].short := packages[|packages| - 1]]
  }

  lemma {:induction false} ByNameIsKeyed(packages: seq<Package>)
    ensures Keyed(ByName(packages))
    ensures forall name :: name in ByName(packages) ==> ByName(packages)[name] in packages
    ensures forall i :: 0 <= i < |packages| ==> packages[i].short in ByName(packages)
  {
    if packages != [] {
      ByNameIsKeyed(packages[..|packages| - 1]);
      assert packages == packages[..|packages| - 1] + [packages[|packages| - 1]];
    }
  }

  /** Of several packages with one name, the last one stands for it. */
  lemma {:induction false} LastNamesake(packages: seq<Package>, i: nat)
    requires i < |packages| && forall j :: i < j < |packages| ==> packages[j].short != packages[i].short
    ensures packages[i].short in ByName(packages) && ByName(packages)[packages[i].short] == packages[i]
  {
    if i < |packages| - 1 { LastNamesake(packages[..|packages| - 1], i); }
  }

  /** What the loop has listed: packages of the graph, each once, after all their dependencies. */
  ghost predicate ListedSoFar(all: map<string, Package>, placed: set<string>, names: seq<string>) {
    && (forall name :: name in placed <==> name in names)
    && Distinct(names)
    && (forall i :: 0 <= i < |names| ==> names[i] in all)
    && (forall i, d :: 0 <= i < |names| && names[i] in all && d in all[names[i]].deps ==> d in names[..i])
  }

  lemma ListLayer(all: map<string, Package>, placed: set<string>, names: seq<string>, layer: set<string>,
      added: seq<string>)
    requires ListedSoFar(all, placed, names) && Distinct(added)
    requires forall name :: name in added <==> name in layer
    requires forall name :: name in layer ==> name in all && name !in placed
    requires forall name, d :: name in layer && d in all[name].deps ==> d in placed
    ensures ListedSoFar(all, placed + layer, names + added)
  {
    var more := names + added;
    forall i, d | 0 <= i < |more| && more[i] in all && d in all[more[i]].deps ensures d in more[..i] {
      if i < |names| {
        assert more[..i] == names[..i];
      } else {
        assert more[i] in added && d in placed;
        assert more[..i] == names + added[..i - |names|];
      }
    }
    forall i, j | 0 <= i < j < |more| ensures more[i] != more[j] {
      if i < |names| <= j { assert more[j] in added && more[i] in names; }
    }
  }

  lemma NamesOfLayer(remaining: map<string, Package>, layer: set<string>, list: seq<Package>, less: (Package,
      Package) -> bool)
    requires Keyed(remaining) && layer <= remaining.Keys && Lists(list, Values(remaining, layer))
    requires IsStrictOrder(less) && Sorted(less, list)
    ensures Distinct(Names(list)) && forall name :: name in Names(list) <==> name in layer
  {
    var names := Names(list);
    forall name ensures name in names <==> name in layer {
      if name in layer {
        assert remaining[name] in list;
        var i :| 0 <= i < |list| && list[i] == remaining[name];
        assert names[i] == name;
      }
      if name in names {
        var i :| 0 <= i < |names| && names[i] == name;
        assert list[i] in list;
      }
    }
    forall i, j | 0 <= i < j < |names| ensures names[i] != names[j] {
      assert less(list[i], list[j]) && list[i] in list && list[j] in list;
    }
  }

  /** What is listed after k rounds: the packages of depth less than k, by depth and comparator. */
  ghost predicate ListedByDepth(less: (Package, Package) -> bool, all: map<string, Package>,
      remaining: map<string, Package>, placed: set<string>, list: seq<Package>, k: nat)
  {
    var g := Dependencies(all);
    && (forall name :: name in placed ==> 0 <= Depth(g, name) < k)
    && (forall name :: name in remaining ==> HasChain(g, name, k))
    && Sorted(DepthFirst(less, g), list) && Lists(list, Values(all, placed))
  }

  /** The loop's invariant. */
  ghost predicate AfterRounds(less: (Package, Package) -> bool, all: map<string, Package>,
      remaining: map<string, Package>, placed: set<string>, list: seq<Package>, k: nat)
  {
    Halfway(all, remaining, placed, list) && ListedByDepth(less, all, remaining, placed, list, k)
  }

  lemma NothingListed(less: (Package, Package) -> bool, all: map<string, Package>)
    ensures AfterRounds(less, all, all, {}, [], 0)
  {
  }

  /** What is ready has the next depth, and what is not is deeper. */
  lemma ReadyIsNextDepth(all: map<string, Package>, remaining: map<string, Package>, placed: set<string>, k: nat,
      name: string)
    requires name in remaining && remaining.Keys <= all.Keys && remaining[name] == all[name]
    requires remaining.Keys == all.Keys - placed
    requires forall n :: n in placed ==> 0 <= Depth(Dependencies(all), n) < k
    requires forall n :: n in remaining ==> HasChain(Dependencies(all), n, k)
    ensures var g := Dependencies(all);
      if name in Ready(remaining, placed) then Depth(g, name) == k else HasChain(g, name, k + 1)
  {
    var g := Dependencies(all);
    if name in Ready(remaining, placed) {
      forall dep | dep in g[name] ensures !HasChain(g, dep, k) {
        assert dep in placed;
        if HasChain(g, dep, k) { ShorterChain(g, dep, k, Depth(g, dep) + 1); }
      }
      DepthIs(g, name, k);
    } else {
      var i :| 0 <= i < |all[name].deps| && all[name].deps[i] !in placed;
      var dep := all[name].deps[i];
      assert dep in g[name] && HasChain(g, dep, k);
    }
  }

  lemma AppendDeeper(deeper: (Package, Package) -> bool, list: seq<Package>, added: seq<Package>)
    requires Sorted(deeper, list) && Sorted(deeper, added)
    requires forall a, b :: a in list && b in added ==> deeper(a, b)
    ensures Sorted(deeper, list + added)
  {
    var all := list + added;
    forall i, j | 0 <= i < j < |all| ensures deeper(all[i], all[j]) {
      if i < |list| <= j { assert all[i] in list && all[j] in added; }
    }
  }

  lemma LayerSorted(less: (Package, Package) -> bool, g: Graph<string>, list: seq<Package>, k: int)
    requires Sorted(less, list) && forall p :: p in list ==> Depth(g, p.short) == k
    ensures Sorted(DepthFirst(less, g), list)
  {
    forall i, j | 0 <= i < j < |list| ensures DepthFirst(less, g)(list[i], list[j]) {
      assert list[i] in list && list[j] in list;
    }
  }

  lemma ListsBoth(all: map<string, Package>, remaining: map<string, Package>, placed: set<string>,
      layer: set<string>, list: seq<Package>, added: seq<Package>)
    requires layer <= remaining.Keys <= all.Keys && forall name :: name in remaining ==> remaining[name] == all[name]
    requires Lists(list, Values(all, placed)) && Lists(added, Values(remaining, layer))
    ensures Lists(list + added, Values(all, placed + layer))
  {
    assert Values(all, placed + layer) == Values(all, placed) + Values(remaining, layer);
    forall p ensures p in list + added <==> p in list || p in added { }
  }

  lemma ListNextDepth(less: (Package, Package) -> bool, all: map<string, Package>, remaining: map<string, Package>,
      placed: set<string>, list: seq<Package>, k: nat, layer: set<string>, added: seq<Package>)
    requires Keyed(all) && Halfway(all, remaining, placed, list) && layer == Ready(remaining, placed)
    requires ListedByDepth(less, all, remaining, placed, list, k)
    requires Sorted(less, added) && Lists(added, Values(remaining, layer))
    ensures ListedByDepth(less, all, remaining - layer, placed + layer, list + added, k + 1)
  {
    var g := Dependencies(all);
    forall name | name in remaining
      ensures if name in layer then Depth(g, name) == k else HasChain(g, name, k + 1)
    {
      ReadyIsNextDepth(all, remaining, placed, k, name);
    }
    LayerSorted(less, g, added, k);
    forall p | p in list ensures Depth(g, p.short) < k { }
    AppendDeeper(DepthFirst(less, g), list, added);
    ListsBoth(all, remaining, placed, layer, list, added);
  }

  lemma NamesConcat(a: seq<Package>, b: seq<Package>)
    ensures Names(a + b) == Names(a) + Names(b)
  {
  }

  /** The loop's state: what is listed, and what of the whole map remains. */
  ghost predicate Halfway(all: map<string, Package>, remaining: map<string, Package>, placed: set<string>,
      list: seq<Package>) {
    && remaining.Keys == all.Keys - placed && placed <= all.Keys
    && (forall name :: name in remaining ==> remaining[name] == all[name])
    && ListedSoFar(all, placed, Names(list))
  }

  lemma LayerStep(less: (Package, Package) -> bool, all: map<string, Package>, remaining: map<string, Package>,
      placed: set<string>,
      list: seq<Package>, layer: set<string>, added: seq<Package>)
    requires IsStrictOrder(less) && Keyed(all) && Halfway(all, remaining, placed, list)
      && layer == Ready(remaining, placed)
    requires Sorted(less, added) && Lists(added, Values(remaining, layer))
    ensures Halfway(all, remaining - layer, placed + layer, list + added)
  {
    NamesOfLayer(remaining, layer, added, less);
    ListLayer(all, placed, Names(list), layer, Names(added));
    NamesConcat(list, added);
  }

  /** Nothing listed is blocked; everything stuck is. */
  lemma StuckExactlyBlocked(all: map<string, Package>, remaining: map<string, Package>, placed: set<string>,
      list: seq<Package>)
    requires Halfway(all, remaining, placed, list) && Ready(remaining, placed) == {}
    ensures forall name :: name in all ==> (Blocked(Dependencies(all), name) <==> name in remaining)
  {
    var g := Dependencies(all);
    var names := Names(list);
    forall name | name in remaining ensures exists d :: d in g[name] && (d in remaining.Keys || d !in g) {
      assert name !in Ready(remaining, placed);
      var i :| 0 <= i < |all[name].deps| && all[name].deps[i] !in placed;
      assert all[name].deps[i] in g[name];
    }
    forall name | name in all ensures Blocked(g, name) <==> name in remaining {
      if name in remaining {
        StuckAreBlocked(g, remaining.Keys, name);
      } else {
        var i :| 0 <= i < |names| && names[i] == name;
        ListedAreNotBlocked(g, names, i);
      }
    }
  }

  lemma NextRound(less: (Package, Package) -> bool, all: map<string, Package>, remaining: map<string, Package>,
      placed: set<string>, list: seq<Package>, k: nat, layer: set<string>, added: seq<Package>)
    requires IsStrictOrder(less) && Keyed(all) && AfterRounds(less, all, remaining, placed, list, k)
    requires layer == Ready(remaining, placed)
    requires Sorted(less, added) && Lists(added, Values(remaining, layer))
    ensures AfterRounds(less, all, remaining - layer, placed + layer, list + added, k + 1)
  {
    LayerStep(less, all, remaining, placed, list, layer, added);
    ListNextDepth(less, all, remaining, placed, list, k, layer, added);
  }

  /** Exactly the packages of a map, by depth and comparator, none of them blocked. */
  ghost predicate InDepthOrder(less: (Package, Package) -> bool, all: map<string, Package>, list: seq<Package>) {
    var g := Dependencies(all);
    && Sorted(DepthFirst(less, g), list) && Lists(list, Values(all, all.Keys))
    && forall name :: name in all ==> !Blocked(g, name) && Depth(g, name) >= 0
  }

  lemma LastRound(less: (Package, Package) -> bool, all: map<string, Package>, placed: set<string>,
      list: seq<Package>, k: nat)
    requires AfterRounds(less, all, map[], placed, list, k)
    ensures InDepthOrder(less, all, list) && ListedSoFar(all, all.Keys, Names(list))
  {
    assert placed == all.Keys;
    StuckExactlyBlocked(all, map[], placed, list);
  }

  /**
    On success every package is listed once, by depth first and by the comparator within one
    depth. On failure the error names exactly the blocked packages, and there are some.
   */
  method SortLayers(less: (Package, Package) -> bool, all: map<string, Package>)
      returns (r: Result<seq<Package>, set<string>>)
    requires IsStrictOrder(less) && Keyed(all)
    ensures r.Ok? ==> InDepthOrder(less, all, r.value) && ListedSoFar(all, all.Keys, Names(r.value))
    ensures r.Err? ==> r.error != {}
    ensures r.Err? ==> forall name :: name in r.error <==> name in all && Blocked(Dependencies(all), name)
  {
    var remaining := all;
    var placed: set<string> := {};
    var list: seq<Package> := [];
    ghost var k: nat := 0;
    NothingListed(less, all);
    while remaining != map[]
      invariant AfterRounds(less, all, remaining, placed, list, k)
      decreases remaining.Keys
    {
      var layer := Ready(remaining, placed);
      if layer == {} {
        StuckExactlyBlocked(all, remaining, placed, list);
        return Err(remaining.Keys);
      }
      var added := Sort(less, Values(remaining, layer));
      NextRound(less, all, remaining, placed, list, k, layer, added);
      list := list + added;
      placed := placed + layer;
      remaining := remaining - layer;
      k := k + 1;
    }
    LastRound(less, all, placed, list, k);
    return Ok(list);
  }

  /** The sort of the manifests as they are read. */
  method TopoSort(less: (Package, Package) -> bool, packages: seq<Package>)
      returns (r: Result<seq<Package>, set<string>>)
    requires IsStrictOrder(less)
    ensures r.Ok? ==> InDepthOrder(less, ByName(packages), r.value)
    ensures r.Ok? ==> ListedSoFar(ByName(packages), ByName(packages).Keys, Names(r.value))
    ensures r.Err? ==> r.error != {}
    ensures r.Err? ==>
      forall name :: name in r.error <==> name in ByName(packages) && Blocked(Dependencies(ByName(packages)), name)
  {
    ByNameIsKeyed(packages);
    r := SortLayers(less, ByName(packages));
  }

  /** Whatever the order in which the manifests are read, the packages come out in the same order. */
  lemma OrderIndependent(less: (Package, Package) -> bool, a: seq<Package>, b: seq<Package>, listA: seq<Package>,
      listB: seq<Package>)
    requires IsStrictOrder(less) && multiset(a) == multiset(b) && Distinct(Names(a))
    requires InDepthOrder(less, ByName(a), listA) && InDepthOrder(less, ByName(b), listB)
    ensures listA == listB
  {
    ByNamePermuted(a, b);
    var all := ByName(a);
    DepthFirstIsStrictOrder(less, Dependencies(all));
    SortedListIsUnique(DepthFirst(less, Dependencies(all)), listA, listB, Values(all, all.Keys));
  }

  lemma ByNamePermuted(a: seq<Package>, b: seq<Package>)
    requires multiset(a) == multiset(b) && Distinct(Names(a))
    ensures ByName(a) == ByName(b)
  {
    ByNameIsKeyed(a);
    ByNameIsKeyed(b);
    SameMembers(a, b);
    forall p, q | p in a && q in a && p.short == q.short ensures p == q { NameDetermines(a, p, q); }
  }

  lemma SameMembers(a: seq<Package>, b: seq<Package>)
    requires multiset(a) == multiset(b)
    ensures forall p :: p in a <==> p in b
  {
    forall p ensures p in a <==> p in b {
      assert p in a <==> p in multiset(a);
      assert p in b <==> p in multiset(b);
    }
  }

  lemma NameDetermines(list: seq<Package>, p: Package, q: Package)
    requires Distinct(Names(list)) && p in list && q in list && p.short == q.short
    ensures p == q
  {
    var i :| 0 <= i < |list| && list[i] == p;
    var j :| 0 <= j < |list| && list[j] == q;
    assert Names(list)[i] == Names(list)[j];
  }
}
