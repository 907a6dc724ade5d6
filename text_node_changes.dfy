/**
 * Comparing the text nodes of two documents (`analyzeTextNodeChanges.js`):
 * the list of text nodes a traversal visits, and the index-wise diff of two
 * such lists.
 */
module TextNodeChanges {
  import opened Types

  /** `{ position, text, length, type }` */
  datatype TextNodeInfo = TextNodeInfo(position: int, text: string, length: nat, typeName: string)

  /** One entry of the diff. */
  datatype Change =
    | CountChange(oldCount: nat, newCount: nat)
    | Added(index: nat, node: TextNodeInfo)
    | Removed(index: nat, node: TextNodeInfo)
    | Modified(index: nat, oldNode: TextNodeInfo, newNode: TextNodeInfo, oldText: string, newText: string)

  function InfoOf(n: DocNode): TextNodeInfo {
    TextNodeInfo(n.pos, n.text, |n.text|, n.typeName)
  }

  /** The text nodes among `nodes[from..]`, in traversal order. */
  function TextNodesFrom(nodes: seq<DocNode>, from: nat): seq<TextNodeInfo>
    requires from <= |nodes|
    decreases |nodes| - from
  {
    if from == |nodes| then []
    else (if nodes[from].isText then [InfoOf(nodes[from])] else []) + TextNodesFrom(nodes, from + 1)
  }

  /** `extractTextNodes(doc)` over the traversal `nodes`. */
  method ExtractTextNodes(nodes: seq<DocNode>) returns (textNodes: seq<TextNodeInfo>)
    ensures textNodes == TextNodesFrom(nodes, 0)
  {
    textNodes := [];
    var i := 0;
    while i < |nodes|
      invariant 0 <= i <= |nodes|
      invariant textNodes + TextNodesFrom(nodes, i) == TextNodesFrom(nodes, 0)
    {
      var node := nodes[i];
      ghost var before := textNodes;
      ghost var step := if node.isText then [InfoOf(node)] else [];
      assert TextNodesFrom(nodes, i) == step + TextNodesFrom(nodes, i + 1);
      if node.isText {
        textNodes := textNodes + [TextNodeInfo(node.pos, node.text, |node.text|, node.typeName)];
      }
      assert textNodes == before + step;
      assert before + (step + TextNodesFrom(nodes, i + 1)) == (before + step) + TextNodesFrom(nodes, i + 1);
      i := i + 1;
    }
  }

  /** Exactly the text nodes are kept, each with its position, text, type
      and `length == |text|`; their order is `TextNodesInOrder`. */
  lemma {:induction false} TextNodesSubsequence(nodes: seq<DocNode>, from: nat)
    requires from <= |nodes|
    ensures var out := TextNodesFrom(nodes, from);
            && |out| <= |nodes| - from
            && (forall n :: n in nodes[from..] && n.isText ==> InfoOf(n) in out)
            && (forall t :: t in out ==>
                  (t.length == |t.text| && exists i :: from <= i < |nodes| && nodes[i].isText && t == InfoOf(nodes[i])))
    decreases |nodes| - from
  {
    if from < |nodes| {
      TextNodesSubsequence(nodes, from + 1);
      var out := TextNodesFrom(nodes, from);
      var rest := TextNodesFrom(nodes, from + 1);
      assert nodes[from..] == [nodes[from]] + nodes[from + 1..];
      forall t | t in out
        ensures t.length == |t.text| && exists i :: from <= i < |nodes| && nodes[i].isText && t == InfoOf(nodes[i])
      {
        if t !in rest {
          assert t == InfoOf(nodes[from]);
        } else {
          var i :| from + 1 <= i < |nodes| && nodes[i].isText && t == InfoOf(nodes[i]);
        }
      }
    }
  }

  /** The traversal indices of the text nodes among `nodes[from..]`. */
  function TextIndicesFrom(nodes: seq<DocNode>, from: nat): seq<nat>
    requires from <= |nodes|
    decreases |nodes| - from
  {
    if from == |nodes| then []
    else (if nodes[from].isText then [from] else []) + TextIndicesFrom(nodes, from + 1)
  }

  /** The kept nodes are the text nodes in traversal order: the `j`-th entry
      is the node at the `j`-th text index, the indices strictly increase,
      and every text node's index is listed. */
  lemma TextNodesInOrder(nodes: seq<DocNode>, from: nat)
    requires from <= |nodes|
    ensures var idx := TextIndicesFrom(nodes, from);
            var out := TextNodesFrom(nodes, from);
            && |idx| == |out|
            && (forall j :: 0 <= j < |idx| ==>
                  from <= idx[j] < |nodes| && nodes[idx[j]].isText && out[j] == InfoOf(nodes[idx[j]]))
            && (forall j, k :: 0 <= j < k < |idx| ==> idx[j] < idx[k])
            && (forall i :: from <= i < |nodes| && nodes[i].isText ==> i in idx)
  {
    TextIndicesSorted(nodes, from);
    TextIndicesMatch(nodes, from);
    TextIndicesComplete(nodes, from);
  }

  predicate IndicesWithin(idx: seq<nat>, lo: int, hi: int) {
    forall j :: 0 <= j < |idx| ==> lo <= idx[j] < hi
  }

  predicate StrictlyIncreasing(idx: seq<nat>) {
    forall j, k :: 0 <= j < k < |idx| ==> idx[j] < idx[k]
  }

  /** Each entry of `out` is the node at the matching index of `idx`. */
  predicate EntriesMatch(nodes: seq<DocNode>, idx: seq<nat>, out: seq<TextNodeInfo>) {
    |idx| == |out| &&
    forall j :: 0 <= j < |idx| ==> idx[j] < |nodes| && nodes[idx[j]].isText && out[j] == InfoOf(nodes[idx[j]])
  }

  lemma IncreasingCons(x: nat, rest: seq<nat>, hi: int)
    requires x < hi && IndicesWithin(rest, x + 1, hi) && StrictlyIncreasing(rest)
    ensures IndicesWithin([x] + rest, x, hi) && StrictlyIncreasing([x] + rest)
  {
    var idx := [x] + rest;
    forall j, k | 0 <= j < k < |idx| ensures idx[j] < idx[k] {
      assert idx[k] == rest[k - 1];
      if j > 0 {
        assert idx[j] == rest[j - 1];
      }
    }
  }

  lemma MatchCons(nodes: seq<DocNode>, i: nat, idx: seq<nat>, out: seq<TextNodeInfo>)
    requires i < |nodes| && nodes[i].isText && EntriesMatch(nodes, idx, out)
    ensures EntriesMatch(nodes, [i] + idx, [InfoOf(nodes[i])] + out)
  {
    var idx', out' := [i] + idx, [InfoOf(nodes[i])] + out;
    forall j | 0 <= j < |idx'|
      ensures idx'[j] < |nodes| && nodes[idx'[j]].isText && out'[j] == InfoOf(nodes[idx'[j]])
    {
      if j > 0 {
        assert idx'[j] == idx[j - 1] && out'[j] == out[j - 1];
      }
    }
  }

  lemma {:induction false} TextIndicesSorted(nodes: seq<DocNode>, from: nat)
    requires from <= |nodes|
    ensures IndicesWithin(TextIndicesFrom(nodes, from), from, |nodes|)
    ensures StrictlyIncreasing(TextIndicesFrom(nodes, from))
    decreases |nodes| - from
  {
    if from < |nodes| {
      TextIndicesSorted(nodes, from + 1);
      var rest := TextIndicesFrom(nodes, from + 1);
      if nodes[from].isText {
        assert TextIndicesFrom(nodes, from) == [from] + rest;
        IncreasingCons(from, rest, |nodes|);
      } else {
        assert TextIndicesFrom(nodes, from) == rest;
      }
    }
  }

  lemma {:induction false} TextIndicesMatch(nodes: seq<DocNode>, from: nat)
    requires from <= |nodes|
    ensures EntriesMatch(nodes, TextIndicesFrom(nodes, from), TextNodesFrom(nodes, from))
    decreases |nodes| - from
  {
    if from < |nodes| {
      TextIndicesMatch(nodes, from + 1);
      var restIdx := TextIndicesFrom(nodes, from + 1);
      var restOut := TextNodesFrom(nodes, from + 1);
      if nodes[from].isText {
        assert TextIndicesFrom(nodes, from) == [from] + restIdx;
        assert TextNodesFrom(nodes, from) == [InfoOf(nodes[from])] + restOut;
        MatchCons(nodes, from, restIdx, restOut);
      } else {
        assert TextIndicesFrom(nodes, from) == restIdx;
        assert TextNodesFrom(nodes, from) == restOut;
      }
    }
  }

  lemma {:induction false} TextIndicesComplete(nodes: seq<DocNode>, from: nat)
    requires from <= |nodes|
    ensures forall i :: from <= i < |nodes| && nodes[i].isText ==> i in TextIndicesFrom(nodes, from)
    decreases |nodes| - from
  {
    if from < |nodes| {
      TextIndicesComplete(nodes, from + 1);
      var headIdx: seq<nat> := if nodes[from].isText then [from] else [];
      var restIdx := TextIndicesFrom(nodes, from + 1);
      assert TextIndicesFrom(nodes, from) == headIdx + restIdx;
      forall i | from <= i < |nodes| && nodes[i].isText ensures i in headIdx + restIdx {
        if i == from {
          assert i in headIdx;
        } else {
          assert i in restIdx;
        }
      }
    }
  }

  // ---------------------------------------------------------------------
  // The diff
  // ---------------------------------------------------------------------

  function Max(a: nat, b: nat): nat {
    if a < b then b else a
  }

  /** The entry for index `i`, if any: an added node past the end of the old
      list, a removed node past the end of the new one, or a changed text. */
  function EntryAt(oldNodes: seq<TextNodeInfo>, newNodes: seq<TextNodeInfo>, i: nat): seq<Change> {
    if i >= |oldNodes| && i < |newNodes| then [Added(i, newNodes[i])]
    else if i < |oldNodes| && i >= |newNodes| then [Removed(i, oldNodes[i])]
    else if i < |oldNodes| && i < |newNodes| && oldNodes[i].text != newNodes[i].text then
      [Modified(i, oldNodes[i], newNodes[i], oldNodes[i].text, newNodes[i].text)]
    else []
  }

  /** The per-index entries for indices `from` up to the longer length. */
  function EntriesFrom(oldNodes: seq<TextNodeInfo>, newNodes: seq<TextNodeInfo>, from: nat): seq<Change>
    decreases Max(|oldNodes|, |newNodes|) - from
  {
    if from >= Max(|oldNodes|, |newNodes|) then []
    else EntryAt(oldNodes, newNodes, from) + EntriesFrom(oldNodes, newNodes, from + 1)
  }

  /** The specification of `findTextNodeChanges`. */
  function Changes(oldNodes: seq<TextNodeInfo>, newNodes: seq<TextNodeInfo>): seq<Change> {
    (if |oldNodes| != |newNodes| then [CountChange(|oldNodes|, |newNodes|)] else [])
    + EntriesFrom(oldNodes, newNodes, 0)
  }

  /** `findTextNodeChanges(oldNodes, newNodes)`. */
  method FindTextNodeChanges(oldNodes: seq<TextNodeInfo>, newNodes: seq<TextNodeInfo>) returns (changes: seq<Change>)
    ensures changes == Changes(oldNodes, newNodes)
  {
    changes := [];
    if |oldNodes| != |newNodes| {
      changes := changes + [CountChange(|oldNodes|, |newNodes|)];
    }
    var maxLength := Max(|oldNodes|, |newNodes|);
    ghost var head := changes;
    for i := 0 to maxLength
      invariant changes + EntriesFrom(oldNodes, newNodes, i) == head + EntriesFrom(oldNodes, newNodes, 0)
    {
      EntriesStep(oldNodes, newNodes, i, changes);
      if i >= |oldNodes| && i < |newNodes| {
        changes := changes + [Added(i, newNodes[i])];
      } else if i < |oldNodes| && i >= |newNodes| {
        changes := changes + [Removed(i, oldNodes[i])];
      } else if i < |oldNodes| && i < |newNodes| && oldNodes[i].text != newNodes[i].text {
        changes := changes + [Modified(i, oldNodes[i], newNodes[i], oldNodes[i].text, newNodes[i].text)];
      } else {
        assert changes + [] == changes;
      }
    }
    assert changes + [] == changes;
  }

  /** One step of the diff loop appends the entry of index `i`. */
  lemma EntriesStep(oldNodes: seq<TextNodeInfo>, newNodes: seq<TextNodeInfo>, i: nat, acc: seq<Change>)
    requires i < Max(|oldNodes|, |newNodes|)
    ensures acc + EntriesFrom(oldNodes, newNodes, i)
         == (acc + EntryAt(oldNodes, newNodes, i)) + EntriesFrom(oldNodes, newNodes, i + 1)
  {
  }

  /** The index an entry is about; the count entry is about none. */
  function IndexOf(c: Change): int {
    match c
    case CountChange(_, _) => -1
    case Added(i, _) => i
    case Removed(i, _) => i
    case Modified(i, _, _, _, _) => i
  }

  /** Per-index entries only, each about an index in `[lo, hi)`. */
  predicate EntriesWithin(es: seq<Change>, lo: int, hi: int) {
    forall j :: 0 <= j < |es| ==> !es[j].CountChange? && lo <= IndexOf(es[j]) < hi
  }

  /** Strictly increasing indices. */
  predicate IncreasingIndices(es: seq<Change>) {
    forall j, k :: 0 <= j < k < |es| ==> IndexOf(es[j]) < IndexOf(es[k])
  }

  lemma EntryAtShape(oldNodes: seq<TextNodeInfo>, newNodes: seq<TextNodeInfo>, i: nat)
    ensures var e := EntryAt(oldNodes, newNodes, i);
            |e| <= 1 && EntriesWithin(e, i, i + 1) && (e != [] ==> i < Max(|oldNodes|, |newNodes|))
  {
  }

  lemma EntriesConcat(e: seq<Change>, rest: seq<Change>, lo: int, hi: int)
    requires |e| <= 1 && EntriesWithin(e, lo, lo + 1)
    requires EntriesWithin(rest, lo + 1, hi) && IncreasingIndices(rest) && lo < hi
    ensures EntriesWithin(e + rest, lo, hi) && IncreasingIndices(e + rest)
  {
    var es := e + rest;
    forall j | 0 <= j < |es|
      ensures !es[j].CountChange? && lo <= IndexOf(es[j]) < hi
    {
      if j < |e| {
        assert es[j] == e[j];
      } else {
        assert es[j] == rest[j - |e|];
      }
    }
    forall j, k | 0 <= j < k < |es|
      ensures IndexOf(es[j]) < IndexOf(es[k])
    {
      assert es[k] == rest[k - |e|];
      if j < |e| {
        assert es[j] == e[j];
      } else {
        assert es[j] == rest[j - |e|];
      }
    }
  }

  /** The per-index entries are about indices in `[from, max)`, in
      increasing order, at most one per index. */
  lemma {:induction false} EntriesFromShape(oldNodes: seq<TextNodeInfo>, newNodes: seq<TextNodeInfo>, from: nat)
    requires from <= Max(|oldNodes|, |newNodes|)
    ensures var es := EntriesFrom(oldNodes, newNodes, from);
            && |es| <= Max(|oldNodes|, |newNodes|) - from
            && EntriesWithin(es, from, Max(|oldNodes|, |newNodes|))
            && IncreasingIndices(es)
    decreases Max(|oldNodes|, |newNodes|) - from
  {
    if from < Max(|oldNodes|, |newNodes|) {
      EntriesFromShape(oldNodes, newNodes, from + 1);
      EntryAtShape(oldNodes, newNodes, from);
      var e := EntryAt(oldNodes, newNodes, from);
      var rest := EntriesFrom(oldNodes, newNodes, from + 1);
      assert EntriesFrom(oldNodes, newNodes, from) == e + rest;
      EntriesConcat(e, rest, from, Max(|oldNodes|, |newNodes|));
    }
  }

  /** An entry gathered from index `from` on is the entry of some index. */
  lemma {:induction false} EntrySource(oldNodes: seq<TextNodeInfo>, newNodes: seq<TextNodeInfo>, from: nat, c: Change)
    returns (i: nat)
    requires from <= Max(|oldNodes|, |newNodes|) && c in EntriesFrom(oldNodes, newNodes, from)
    ensures from <= i < Max(|oldNodes|, |newNodes|) && c in EntryAt(oldNodes, newNodes, i)
    decreases Max(|oldNodes|, |newNodes|) - from
  {
    var e := EntryAt(oldNodes, newNodes, from);
    assert EntriesFrom(oldNodes, newNodes, from) == e + EntriesFrom(oldNodes, newNodes, from + 1);
    if c in e {
      i := from;
    } else {
      i := EntrySource(oldNodes, newNodes, from + 1, c);
    }
  }

  /** The entry of every index from `from` on is gathered. */
  lemma {:induction false} EntryIncluded(oldNodes: seq<TextNodeInfo>, newNodes: seq<TextNodeInfo>, from: nat, i: nat, c: Change)
    requires from <= i < Max(|oldNodes|, |newNodes|) && c in EntryAt(oldNodes, newNodes, i)
    ensures c in EntriesFrom(oldNodes, newNodes, from)
    decreases i - from
  {
    var rest := EntriesFrom(oldNodes, newNodes, from + 1);
    assert EntriesFrom(oldNodes, newNodes, from) == EntryAt(oldNodes, newNodes, from) + rest;
    if i > from {
      EntryIncluded(oldNodes, newNodes, from + 1, i, c);
    }
  }

  /** A count entry appears, and then first, exactly when the lengths
      differ; it is the only count entry; per-index entries follow in
      increasing index order, one at most per index, so there are at most
      `max(|old|, |new|) + 1` entries. */
  lemma ChangesShape(oldNodes: seq<TextNodeInfo>, newNodes: seq<TextNodeInfo>)
    ensures var cs := Changes(oldNodes, newNodes);
            && ((|cs| > 0 && cs[0].CountChange?) <==> |oldNodes| != |newNodes|)
            && (|cs| > 0 && cs[0].CountChange? ==> cs[0] == CountChange(|oldNodes|, |newNodes|))
            && (forall j :: 0 < j < |cs| ==> !cs[j].CountChange?)
            && (forall j, k :: 0 <= j < k < |cs| && !cs[j].CountChange? ==> IndexOf(cs[j]) < IndexOf(cs[k]))
            && |cs| <= Max(|oldNodes|, |newNodes|) + 1
  {
    EntriesFromShape(oldNodes, newNodes, 0);
    var es := EntriesFrom(oldNodes, newNodes, 0);
    var cs := Changes(oldNodes, newNodes);
    if |oldNodes| != |newNodes| {
      assert cs == [CountChange(|oldNodes|, |newNodes|)] + es;
      forall j | 0 < j < |cs| ensures cs[j] == es[j - 1] && !cs[j].CountChange? {
        assert !es[j - 1].CountChange?;
      }
      forall j, k | 0 <= j < k < |cs| && !cs[j].CountChange? ensures IndexOf(cs[j]) < IndexOf(cs[k]) {
        assert cs[j] == es[j - 1] && cs[k] == es[k - 1];
      }
    } else {
      assert cs == [] + es;
    }
  }

  /** Every entry but the count entry is the entry of its own index. */
  lemma EntriesMembership(oldNodes: seq<TextNodeInfo>, newNodes: seq<TextNodeInfo>, c: Change)
    requires !c.CountChange?
    ensures c in Changes(oldNodes, newNodes) <==>
            0 <= IndexOf(c) < Max(|oldNodes|, |newNodes|) && c in EntryAt(oldNodes, newNodes, IndexOf(c))
  {
    var es := EntriesFrom(oldNodes, newNodes, 0);
    assert Changes(oldNodes, newNodes) == (if |oldNodes| != |newNodes| then [CountChange(|oldNodes|, |newNodes|)] else []) + es;
    assert c in Changes(oldNodes, newNodes) <==> c in es;
    if c in es {
      var k := EntrySource(oldNodes, newNodes, 0, c);
      EntryAtShape(oldNodes, newNodes, k);
      assert c == EntryAt(oldNodes, newNodes, k)[0];
    }
    if 0 <= IndexOf(c) < Max(|oldNodes|, |newNodes|) && c in EntryAt(oldNodes, newNodes, IndexOf(c)) {
      EntryIncluded(oldNodes, newNodes, 0, IndexOf(c), c);
    }
  }

  /** An `added` entry is reported exactly for each index in `[|old|, |new|)`,
      carrying the new node. */
  lemma AddedIff(oldNodes: seq<TextNodeInfo>, newNodes: seq<TextNodeInfo>, i: nat, x: TextNodeInfo)
    ensures Added(i, x) in Changes(oldNodes, newNodes) <==> |oldNodes| <= i < |newNodes| && x == newNodes[i]
  {
    EntriesMembership(oldNodes, newNodes, Added(i, x));
  }

  /** A `removed` entry is reported exactly for each index in `[|new|, |old|)`,
      carrying the old node. */
  lemma RemovedIff(oldNodes: seq<TextNodeInfo>, newNodes: seq<TextNodeInfo>, i: nat, x: TextNodeInfo)
    ensures Removed(i, x) in Changes(oldNodes, newNodes) <==> |newNodes| <= i < |oldNodes| && x == oldNodes[i]
  {
    EntriesMembership(oldNodes, newNodes, Removed(i, x));
  }

  /** A `modified` entry is reported exactly for each index both lists have
      whose texts differ; positions and types are not compared. */
  lemma ModifiedIff(oldNodes: seq<TextNodeInfo>, newNodes: seq<TextNodeInfo>, i: nat,
                    a: TextNodeInfo, b: TextNodeInfo, ta: string, tb: string)
    ensures Modified(i, a, b, ta, tb) in Changes(oldNodes, newNodes) <==>
            && i < |oldNodes| && i < |newNodes|
            && a == oldNodes[i] && b == newNodes[i] && ta == a.text && tb == b.text
            && ta != tb
  {
    EntriesMembership(oldNodes, newNodes, Modified(i, a, b, ta, tb));
  }

  lemma {:induction false} EntriesFromEmpty(oldNodes: seq<TextNodeInfo>, newNodes: seq<TextNodeInfo>, from: nat)
    requires forall i :: from <= i < Max(|oldNodes|, |newNodes|) ==> EntryAt(oldNodes, newNodes, i) == []
    ensures EntriesFrom(oldNodes, newNodes, from) == []
    decreases Max(|oldNodes|, |newNodes|) - from
  {
    if from < Max(|oldNodes|, |newNodes|) {
      EntriesFromEmpty(oldNodes, newNodes, from + 1);
    }
  }

  /** Nothing is reported exactly when both lists have the same length and
      the same texts index by index. */
  lemma NoChangesIff(oldNodes: seq<TextNodeInfo>, newNodes: seq<TextNodeInfo>)
    ensures Changes(oldNodes, newNodes) == [] <==>
            |oldNodes| == |newNodes| && forall i :: 0 <= i < |oldNodes| ==> oldNodes[i].text == newNodes[i].text
  {
    EntriesFromShape(oldNodes, newNodes, 0);
    var es := EntriesFrom(oldNodes, newNodes, 0);
    if |oldNodes| == |newNodes| {
      assert Changes(oldNodes, newNodes) == es;
      if exists i :: 0 <= i < |oldNodes| && oldNodes[i].text != newNodes[i].text {
        var i :| 0 <= i < |oldNodes| && oldNodes[i].text != newNodes[i].text;
        var c := Modified(i, oldNodes[i], newNodes[i], oldNodes[i].text, newNodes[i].text);
        assert c in EntryAt(oldNodes, newNodes, i);
        EntryIncluded(oldNodes, newNodes, 0, i, c);
      } else {
        forall i | 0 <= i < |oldNodes| ensures EntryAt(oldNodes, newNodes, i) == [] { }
        EntriesFromEmpty(oldNodes, newNodes, 0);
      }
    }
  }
}
