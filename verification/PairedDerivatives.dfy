/**
  Telling copied code blocks of Chinese documents from the primary ones. A document is a
  derivative when its whole block sequence equals that of its unsuffixed sibling; following
  siblings always ends at a primary document with the same sequence.
 */
module PairedDerivatives {
  import opened Wrappers

  datatype Block = Block(doc: string, fingerprint: string)

  predicate IsChinese(doc: string) { |doc| >= 6 && doc[|doc| - 6..] == ".zh.md" }

  function Sibling(doc: string): (r: Option<string>)
    ensures r.Some? ==> |r.value| < |doc|
    ensures r.Some? <==> exists stem :: doc == stem + ".zh.md"
    ensures forall stem :: doc == stem + ".zh.md" ==> r == Some(stem + ".md")
  {
    assert IsChinese(doc) ==> doc == doc[..|doc| - 6] + ".zh.md";
    if IsChinese(doc) then Some(doc[..|doc| - 6] + ".md") else None
  }

  /** The fingerprints of a document's blocks, in order. */
  function Prints(blocks: seq<Block>, doc: string): seq<string> {
    if blocks == [] then []
    else
      var last := blocks[|blocks| - 1];
      Prints(blocks[..|blocks| - 1], doc) + (if last.doc == doc then [last.fingerprint] else [])
  }

  /** A derivative repeats its sibling's blocks. */
  predicate IsDerivative(blocks: seq<Block>, doc: string) {
    Sibling(doc).Some? && Prints(blocks, Sibling(doc).value) != []
      && Prints(blocks, doc) == Prints(blocks, Sibling(doc).value)
  }

  function Select(blocks: seq<Block>, all: seq<Block>, derivatives: bool): seq<Block> {
    if blocks == [] then []
    else
      var last := blocks[|blocks| - 1];
      Select(blocks[..|blocks| - 1], all, derivatives)
        + (if IsDerivative(all, last.doc) == derivatives then [last] else [])
  }

  method GroupByDoc(blocks: seq<Block>) returns (groups: map<string, seq<string>>)
    ensures forall doc :: doc in groups <==> Prints(blocks, doc) != []
    ensures forall doc :: doc in groups ==> groups[doc] == Prints(blocks, doc)
  {
    groups := map[];
    for i := 0 to |blocks|
      invariant forall doc :: doc in groups <==> Prints(blocks[..i], doc) != []
      invariant forall doc :: doc in groups ==> groups[doc] == Prints(blocks[..i], doc)
    {
      var block := blocks[i];
      assert blocks[..i + 1][..i] == blocks[..i];
      var group := if block.doc in groups then groups[block.doc] else [];
      groups := groups[block.doc := group + [block.fingerprint]];
    }
    assert blocks[..|blocks|] == blocks;
  }

  /** Both lists keep the order of the blocks, and each block is in exactly one. */
  method Partition(blocks: seq<Block>) returns (primary: seq<Block>, derivatives: seq<Block>)
    ensures primary == Select(blocks, blocks, false) && derivatives == Select(blocks, blocks, true)
  {
    var groups := GroupByDoc(blocks);
    var derivativeDocs := set doc | doc in groups && Sibling(doc).Some? && Sibling(doc).value in groups
      && groups[doc] == groups[Sibling(doc).value];
    primary, derivatives := [], [];
    for i := 0 to |blocks|
      invariant primary == Select(blocks[..i], blocks, false) && derivatives == Select(blocks[..i], blocks, true)
    {
      assert blocks[..i + 1][..i] == blocks[..i];
      HasPrints(blocks, i);
      if blocks[i].doc in derivativeDocs {
        derivatives := derivatives + [blocks[i]];
      } else {
        primary := primary + [blocks[i]];
      }
    }
    assert blocks[..|blocks|] == blocks;
  }

  lemma {:induction false} HasPrints(blocks: seq<Block>, i: nat)
    requires i < |blocks|
    ensures Prints(blocks, blocks[i].doc) != []
  {
    if i < |blocks| - 1 { HasPrints(blocks[..|blocks| - 1], i); }
  }

  /** A list keeps, in order, exactly the blocks that belong to it. */
  lemma {:induction false} SelectKeepsOrder(blocks: seq<Block>, all: seq<Block>, derivatives: bool)
      returns (at: seq<nat>)
    ensures forall i, j :: 0 <= i < j < |at| ==> at[i] < at[j]
    ensures forall i: nat :: i in at <==> i < |blocks| && IsDerivative(all, blocks[i].doc) == derivatives
    ensures |Select(blocks, all, derivatives)| == |at|
    ensures forall i :: 0 <= i < |at| ==> at[i] < |blocks| && Select(blocks, all, derivatives)[i] == blocks[at[i]]
  {
    at := [];
    if blocks != [] {
      var front := |blocks| - 1;
      at := SelectKeepsOrder(blocks[..front], all, derivatives);
      assert forall i :: 0 <= i < |at| ==> at[i] in at;
      if IsDerivative(all, blocks[front].doc) == derivatives { at := at + [front]; }
    }
  }

  /** Together the lists are the blocks, no more and no fewer. */
  lemma {:induction false} SelectsSplit(blocks: seq<Block>, all: seq<Block>)
    ensures multiset(Select(blocks, all, false)) + multiset(Select(blocks, all, true)) == multiset(blocks)
  {
    if blocks != [] {
      var front, last := blocks[..|blocks| - 1], blocks[|blocks| - 1];
      assert blocks == front + [last];
      SelectsSplit(front, all);
      AppendToOne(Select(front, all, false), Select(front, all, true), last);
    }
  }

  lemma AppendToOne(a: seq<Block>, b: seq<Block>, block: Block)
    ensures multiset(a + [block]) + multiset(b + []) == multiset(a) + multiset(b) + multiset{block}
    ensures multiset(a + []) + multiset(b + [block]) == multiset(a) + multiset(b) + multiset{block}
  {
    assert a + [] == a && b + [] == b;
  }

  /** Following siblings, here for chains such as `x.zh.zh.md`, ends at a primary document with the same blocks. */
  lemma {:induction false} DerivativeHasPrimary(blocks: seq<Block>, doc: string) returns (original: string)
    requires IsDerivative(blocks, doc)
    ensures !IsDerivative(blocks, original) && Prints(blocks, original) == Prints(blocks, doc) != []
    decreases |doc|
  {
    original := Sibling(doc).value;
    if IsDerivative(blocks, original) { original := DerivativeHasPrimary(blocks, original); }
  }

  lemma {:induction false} PrintsFromBlock(blocks: seq<Block>, doc: string) returns (i: nat)
    requires Prints(blocks, doc) != []
    ensures i < |blocks| && blocks[i].doc == doc
  {
    i := |blocks| - 1;
    if blocks[i].doc != doc { i := PrintsFromBlock(blocks[..|blocks| - 1], doc); }
  }

  lemma {:induction false} SelectMembers(blocks: seq<Block>, all: seq<Block>, derivatives: bool, block: Block)
    ensures block in Select(blocks, all, derivatives) <==>
      block in blocks && IsDerivative(all, block.doc) == derivatives
  {
    if blocks != [] {
      SelectMembers(blocks[..|blocks| - 1], all, derivatives, block);
      assert blocks == blocks[..|blocks| - 1] + [blocks[|blocks| - 1]];
    }
  }

  /** Every block set aside as a derivative is covered by a document all of whose blocks stay primary. */
  lemma DerivativesAreCovered(blocks: seq<Block>, block: Block) returns (original: string)
    requires block in Select(blocks, blocks, true)
    ensures Prints(blocks, original) == Prints(blocks, block.doc) && (exists b :: b in blocks && b.doc == original)
    ensures forall b :: b in blocks && b.doc == original ==> b in Select(blocks, blocks, false)
  {
    SelectMembers(blocks, blocks, true, block);
    original := DerivativeHasPrimary(blocks, block.doc);
    var i := PrintsFromBlock(blocks, original);
    assert blocks[i] in blocks;
    forall b | b in blocks && b.doc == original ensures b in Select(blocks, blocks, false) {
      SelectMembers(blocks, blocks, false, b);
    }
  }
}
