/**
  Resolution of an exported type name through re-export chains: a depth-first search over
  (file, name) pairs with one shared set of visited pairs. A file forwards a name it does not declare
  itself, under the same name or another; chains may run in circles. Each pair is entered once, so the
  search ends, and what a failed search has visited is closed under forwarding, so it misses nothing.
 */
module ExportSearch {
  import opened Wrappers
  import opened Sequences

  type Key = (string, string)
  type Seen = set<Key>

  /** One entry of an export list, `propertyName as name` or just `name`. */
  datatype Element = Element(name: string, propertyName: Option<string>)

  /** `export * from 'target'`, or `export { … } from 'target'`. */
  datatype ExportFrom = Star(target: string) | Named(target: string, elements: seq<Element>)

  datatype SourceFile = SourceFile(declared: map<string, nat>, exports: seq<ExportFrom>)

  type Files = map<string, SourceFile>

  /** The name an entry has in the file it comes from. */
  function Original(e: Element): string {
    if e.propertyName.Some? then e.propertyName.value else e.name
  }

  function FindElement(elements: seq<Element>, name: string): Option<Element> {
    if elements == [] then None
    else if elements[0].name == name then Some(elements[0])
    else FindElement(elements[1..], name)
  }

  /** The pair one export statement forwards `name` to, if it forwards it at all. */
  function Forward(stmt: ExportFrom, name: string): Option<Key> {
    match stmt
    case Star(target) => Some((target, name))
    case Named(target, elements) =>
      var e := FindElement(elements, name);
      if e.None? then None else Some((target, Original(e.value)))
  }

  /**
    A star passes the name on as it is. A list passes on a name it exports: under the name before
    `as`, or as it is, and of several entries the first counts.
   */
  ghost predicate Reexports(stmt: ExportFrom, name: string, to: Key) {
    to.0 == stmt.target
    && (stmt.Star? ==> to.1 == name)
    && (stmt.Named? ==> exists i :: 0 <= i < |stmt.elements| && ListsFirst(stmt.elements, i, name, to.1))
  }

  ghost predicate ListsFirst(elements: seq<Element>, i: nat, name: string, original: string)
    requires i < |elements|
  {
    && (elements[i] == Element(name, Some(original)) || (elements[i] == Element(name, None) && original == name))
    && forall j :: 0 <= j < i ==> elements[j].name != name
  }

  lemma {:induction false} FindElementIff(elements: seq<Element>, name: string, original: string)
    ensures (FindElement(elements, name).Some? && Original(FindElement(elements, name).value) == original)
      <==> exists i :: 0 <= i < |elements| && ListsFirst(elements, i, name, original)
    ensures FindElement(elements, name).Some? ==> FindElement(elements, name).value in elements
  {
    if elements != [] {
      if elements[0].name == name {
        assert Original(elements[0]) == original ==> ListsFirst(elements, 0, name, original);
      } else {
        FindElementIff(elements[1..], name, original);
        if i :| 0 <= i < |elements[1..]| && ListsFirst(elements[1..], i, name, original) {
          assert elements[1..][i] == elements[i + 1];
          assert forall j :: 1 <= j < i + 1 ==> elements[j] == elements[1..][j - 1];
          assert ListsFirst(elements, i + 1, name, original);
        }
        if i :| 0 <= i < |elements| && ListsFirst(elements, i, name, original) {
          assert elements[1..][i - 1] == elements[i];
          assert ListsFirst(elements[1..], i - 1, name, original);
        }
      }
    }
  }

  lemma ForwardIff(stmt: ExportFrom, name: string, to: Key)
    ensures Forward(stmt, name) == Some(to) <==> Reexports(stmt, name, to)
  {
    if stmt.Named? { FindElementIff(stmt.elements, name, to.1); }
  }

  /** Every file that some export statement takes a name from exists. */
  ghost predicate TargetsExist(files: Files) {
    forall f, stmt :: f in files && stmt in files[f].exports && (stmt.Star? || stmt.elements != []) ==>
      stmt.target in files
  }

  /** The names a chain can go on with: the one it carries, and those that renaming exports introduce. */
  ghost function Names(files: Files, name: string): set<string> {
    {name} + set f, stmt, e | f in files && stmt in files[f].exports && stmt.Named? && e in stmt.elements :: Original(e)
  }

  ghost function Unseen(files: Files, name: string, seen: Seen): set<Key> {
    (set f, n | f in files && n in Names(files, name) :: (f, n)) - seen
  }

  lemma NextName(files: Files, key: Key, next: Key, stmt: ExportFrom)
    requires key.0 in files && stmt in files[key.0].exports && Forward(stmt, key.1) == Some(next)
    ensures Names(files, next.1) <= Names(files, key.1)
  {
    if stmt.Named? { FindElementIff(stmt.elements, key.1, next.1); }
    assert next.1 in Names(files, key.1);
  }

  lemma UnseenShrinks(files: Files, key: Key, next: Key, stmt: ExportFrom, seen: Seen, seen': Seen)
    requires key.0 in files && stmt in files[key.0].exports && Forward(stmt, key.1) == Some(next) && seen <= seen'
    ensures |Unseen(files, next.1, seen)| <= |Unseen(files, key.1, seen)|
    ensures |Unseen(files, key.1, seen')| <= |Unseen(files, key.1, seen)|
  {
    NextName(files, key, next, stmt);
    SubsetSize(Unseen(files, next.1, seen), Unseen(files, key.1, seen));
    SubsetSize(Unseen(files, key.1, seen'), Unseen(files, key.1, seen));
  }

  lemma MarkUsesKey(files: Files, seen: Seen, key: Key)
    requires key.0 in files && key !in seen
    ensures |Unseen(files, key.1, seen + {key})| < |Unseen(files, key.1, seen)|
  {
    assert key in Unseen(files, key.1, seen);
    assert Unseen(files, key.1, seen + {key}) == Unseen(files, key.1, seen) - {key};
  }

  /** `findExportedTypeDecl`: the declaration's key and id, and the visited pairs. */
  function Search(files: Files, key: Key, seen: Seen): (r: (Option<(Key, nat)>, Seen))
    requires TargetsExist(files) && key.0 in files
    ensures seen <= r.1
    decreases |Unseen(files, key.1, seen)|, 0
  {
    if key in seen then (None, seen)
    else
      var marked := seen + {key};
      var file := files[key.0];
      if key.1 in file.declared then (Some((key, file.declared[key.1])), marked)
      else
        MarkUsesKey(files, seen, key);
        SearchExports(files, key, file.exports, marked)
  }

  function SearchExports(files: Files, key: Key, exports: seq<ExportFrom>, seen: Seen)
      : (r: (Option<(Key, nat)>, Seen))
    requires TargetsExist(files) && key.0 in files
    requires forall stmt :: stmt in exports ==> stmt in files[key.0].exports
    ensures seen <= r.1
    decreases |Unseen(files, key.1, seen)|, 1 + |exports|
  {
    if exports == [] then (None, seen)
    else
      var next := Forward(exports[0], key.1);
      assert exports[0] in exports;
      if next.None? then SearchExports(files, key, exports[1..], seen)
      else
        UnseenShrinks(files, key, next.value, exports[0], seen, seen);
        var hit := Search(files, next.value, seen);
        if hit.0.Some? then hit
        else
          UnseenShrinks(files, key, next.value, exports[0], seen, hit.1);
          SearchExports(files, key, exports[1..], hit.1)
  }

  // ---- export chains ----

  ghost predicate Forwards(files: Files, a: Key, b: Key) {
    a.0 in files && a.1 !in files[a.0].declared
    && exists stmt :: stmt in files[a.0].exports && Reexports(stmt, a.1, b)
  }

  /** Consecutive pairs are forwarded by a file that does not itself declare the name. */
  ghost predicate Chain(files: Files, chain: seq<Key>, from: Key, to: Key) {
    |chain| >= 1 && chain[0] == from && chain[|chain| - 1] == to
    && forall i, j :: 0 <= i < j < |chain| && j == i + 1 ==> Forwards(files, chain[i], chain[j])
  }

  ghost predicate Declares(files: Files, key: Key) {
    key.0 in files && key.1 in files[key.0].declared
  }

  ghost predicate Exported(files: Files, from: Key, to: Key) {
    Declares(files, to) && exists chain :: Chain(files, chain, from, to)
  }

  lemma ForwardExported(files: Files, a: Key, b: Key, c: Key)
    requires Forwards(files, a, b) && Exported(files, b, c)
    ensures Exported(files, a, c)
  {
    var chain :| Chain(files, chain, b, c);
    var longer := [a] + chain;
    assert forall i :: 1 <= i < |longer| ==> longer[i] == chain[i - 1];
    assert Chain(files, longer, a, c);
  }

  lemma {:induction false} HitIsExported(files: Files, key: Key, seen: Seen)
    requires TargetsExist(files) && key.0 in files
    requires Search(files, key, seen).0.Some?
    ensures var hit := Search(files, key, seen).0.value;
      Exported(files, key, hit.0) && files[hit.0.0].declared[hit.0.1] == hit.1
    decreases |Unseen(files, key.1, seen)|, 0
  {
    if Declares(files, key) {
      assert Chain(files, [key], key, key);
    } else {
      MarkUsesKey(files, seen, key);
      HitBelowIsExported(files, key, files[key.0].exports, seen + {key});
    }
  }

  lemma {:induction false} HitBelowIsExported(files: Files, key: Key, exports: seq<ExportFrom>,
                                              seen: Seen)
    requires TargetsExist(files) && key.0 in files && !Declares(files, key)
    requires forall stmt :: stmt in exports ==> stmt in files[key.0].exports
    requires SearchExports(files, key, exports, seen).0.Some?
    ensures var hit := SearchExports(files, key, exports, seen).0.value;
      Exported(files, key, hit.0) && files[hit.0.0].declared[hit.0.1] == hit.1
    decreases |Unseen(files, key.1, seen)|, 1 + |exports|
  {
    var next := Forward(exports[0], key.1);
    assert exports[0] in exports;
    if next.None? {
      HitBelowIsExported(files, key, exports[1..], seen);
    } else {
      UnseenShrinks(files, key, next.value, exports[0], seen, seen);
      var hit := Search(files, next.value, seen);
      if hit.0.Some? {
        HitIsExported(files, next.value, seen);
        ForwardIff(exports[0], key.1, next.value);
        assert Forwards(files, key, next.value);
        ForwardExported(files, key, next.value, hit.0.value.0);
      } else {
        UnseenShrinks(files, key, next.value, exports[0], seen, hit.1);
        HitBelowIsExported(files, key, exports[1..], hit.1);
      }
    }
  }

  /** Pairs a failed search has finished with: they declare nothing and everything they forward to was visited. */
  ghost predicate Exhausted(files: Files, a: Key, seen: Seen) {
    !Declares(files, a) && forall b :: Forwards(files, a, b) ==> b in seen
  }

  lemma {:induction false} MissExhausts(files: Files, key: Key, seen: Seen)
    requires TargetsExist(files) && key.0 in files
    requires Search(files, key, seen).0.None?
    ensures var seen' := Search(files, key, seen).1;
      key in seen' && forall a :: a in seen' && a !in seen ==> Exhausted(files, a, seen')
    decreases |Unseen(files, key.1, seen)|, 0
  {
    if key !in seen {
      MarkUsesKey(files, seen, key);
      var marked := seen + {key};
      var seen' := Search(files, key, seen).1;
      MissBelowExhausts(files, key, files[key.0].exports, marked);
      forall stmt, b | stmt in files[key.0].exports && Reexports(stmt, key.1, b) ensures b in seen' {
        ForwardIff(stmt, key.1, b);
      }
      assert Exhausted(files, key, seen');
    }
  }

  lemma {:induction false} MissBelowExhausts(files: Files, key: Key, exports: seq<ExportFrom>,
                                             seen: Seen)
    requires TargetsExist(files) && key.0 in files
    requires forall stmt :: stmt in exports ==> stmt in files[key.0].exports
    requires SearchExports(files, key, exports, seen).0.None?
    ensures var seen' := SearchExports(files, key, exports, seen).1;
      && (forall stmt :: stmt in exports && Forward(stmt, key.1).Some? ==> Forward(stmt, key.1).value in seen')
      && (forall a :: a in seen' && a !in seen ==> Exhausted(files, a, seen'))
    decreases |Unseen(files, key.1, seen)|, 1 + |exports|
  {
    if exports != [] {
      var next := Forward(exports[0], key.1);
      assert exports[0] in exports;
      assert forall stmt :: stmt in exports ==> stmt == exports[0] || stmt in exports[1..];
      if next.None? {
        MissBelowExhausts(files, key, exports[1..], seen);
      } else {
        UnseenShrinks(files, key, next.value, exports[0], seen, seen);
        var middle := Search(files, next.value, seen).1;
        MissExhausts(files, next.value, seen);
        UnseenShrinks(files, key, next.value, exports[0], seen, middle);
        MissBelowExhausts(files, key, exports[1..], middle);
      }
    }
  }

  lemma {:induction false} ChainStaysSeen(files: Files, chain: seq<Key>, from: Key, to: Key, seen: Seen, k: nat)
    requires Chain(files, chain, from, to) && from in seen && k < |chain|
    requires forall a :: a in seen ==> Exhausted(files, a, seen)
    ensures chain[k] in seen
  {
    if k > 0 {
      ChainStaysSeen(files, chain, from, to, seen, k - 1);
      assert Forwards(files, chain[k - 1], chain[k]);
    }
  }

  /** The search finds a declaration exactly when some export chain leads to one. */
  lemma FoundIffExported(files: Files, key: Key)
    requires TargetsExist(files) && key.0 in files
    ensures Search(files, key, {}).0.Some? <==> exists to :: Exported(files, key, to)
    ensures var r := Search(files, key, {}).0; r.Some? ==>
      Exported(files, key, r.value.0) && files[r.value.0.0].declared[r.value.0.1] == r.value.1
  {
    var r := Search(files, key, {});
    if r.0.Some? {
      HitIsExported(files, key, {});
    } else {
      MissExhausts(files, key, {});
      forall to | Exported(files, key, to) ensures false {
        var chain :| Chain(files, chain, key, to);
        ChainStaysSeen(files, chain, key, to, r.1, |chain| - 1);
      }
    }
  }
}
