/**
 * Scanning the document (`checkAllTextNodes.js`): every non-blank text node
 * is split into sentences, each sentence is checked with the anchor
 * `nodePos + sentence.offset`, the ranges are gathered, and the ranges that
 * lie inside the document become highlight decorations.
 *
 * The source fans the checks out concurrently and gathers the ranges in
 * completion order; the model performs them one after another, in
 * traversal and sentence order, which is one of those orders.
 */
module DocumentScan {
  import opened Text
  import opened Types
  import opened Sentences
  import opened SentenceCheck

  const HighlightClass: string := "syntax-error-highlight"

  /** An inline decoration over `[from, to)` with its CSS class and the spec
      fields `errorAction` and `errorRange`. */
  datatype Decoration = Decoration(from: int, to: int, cssClass: string, errorAction: Action, errorRange: Span)

  /** The bounds test applied before a decoration is made. */
  predicate ValidRange(r: ErrorRange, docSize: int) {
    r.from >= 0 && r.to <= docSize && r.from < r.to
  }

  function DecorationOf(r: ErrorRange): Decoration {
    Decoration(r.from, r.to, HighlightClass, r.action, Span(r.from, r.to))
  }

  /** The range a decoration was made from, read back from its spec. */
  function RangeOf(d: Decoration): ErrorRange {
    ErrorRange(d.errorRange.from, d.errorRange.to, d.errorAction)
  }

  /** A decoration has the shape `getSyntaxErrorDecorations` gives it. */
  predicate WellFormed(d: Decoration) {
    d.cssClass == HighlightClass && d.errorRange == Span(d.from, d.to)
  }

  /** The decoration keeps the whole range: reading it back gives the range. */
  lemma DecorationRoundTrip(r: ErrorRange, d: Decoration)
    ensures RangeOf(DecorationOf(r)) == r && WellFormed(DecorationOf(r))
    ensures WellFormed(d) ==> DecorationOf(RangeOf(d)) == d
  {
  }

  /** The decorations of the valid ranges among `ranges[from..]`, in order. */
  function DecorationsFrom(docSize: int, ranges: seq<ErrorRange>, from: nat): seq<Decoration>
    requires from <= |ranges|
    decreases |ranges| - from
  {
    if from == |ranges| then []
    else (if ValidRange(ranges[from], docSize) then [DecorationOf(ranges[from])] else [])
         + DecorationsFrom(docSize, ranges, from + 1)
  }

  function Decorations(docSize: int, ranges: seq<ErrorRange>): seq<Decoration> {
    DecorationsFrom(docSize, ranges, 0)
  }

  /** `getSyntaxErrorDecorations(doc, ranges)` for a document of content
      size `docSize`; the result is the list handed to `DecorationSet.create`. */
  method GetSyntaxErrorDecorations(docSize: int, ranges: seq<ErrorRange>) returns (decorations: seq<Decoration>)
    ensures decorations == Decorations(docSize, ranges)
  {
    decorations := [];
    var i := 0;
    while i < |ranges|
      invariant 0 <= i <= |ranges|
      invariant decorations + DecorationsFrom(docSize, ranges, i) == Decorations(docSize, ranges)
    {
      var range := ranges[i];
      ghost var before := decorations;
      if range.from >= 0 && range.to <= docSize && range.from < range.to {
        decorations := decorations + [Decoration(range.from, range.to, HighlightClass, range.action, Span(range.from, range.to))];
      }
      assert before + DecorationsFrom(docSize, ranges, i) == decorations + DecorationsFrom(docSize, ranges, i + 1);
      i := i + 1;
    }
  }

  /** Every decoration built from index `from` on comes from one particular
      valid range at or after `from`. */
  lemma {:induction false} DecorationSource(docSize: int, ranges: seq<ErrorRange>, from: nat, d: Decoration)
    returns (i: nat)
    requires from <= |ranges| && d in DecorationsFrom(docSize, ranges, from)
    ensures from <= i < |ranges| && ValidRange(ranges[i], docSize) && d == DecorationOf(ranges[i])
    decreases |ranges| - from
  {
    var head := if ValidRange(ranges[from], docSize) then [DecorationOf(ranges[from])] else [];
    var rest := DecorationsFrom(docSize, ranges, from + 1);
    assert DecorationsFrom(docSize, ranges, from) == head + rest;
    if d in head {
      i := from;
    } else {
      assert d in rest;
      i := DecorationSource(docSize, ranges, from + 1, d);
    }
  }

  /** Every valid range at or after `from` yields its decoration. */
  lemma {:induction false} DecorationIncluded(docSize: int, ranges: seq<ErrorRange>, from: nat, i: nat)
    requires from <= i < |ranges| && ValidRange(ranges[i], docSize)
    ensures DecorationOf(ranges[i]) in DecorationsFrom(docSize, ranges, from)
    decreases i - from
  {
    var head := if ValidRange(ranges[from], docSize) then [DecorationOf(ranges[from])] else [];
    var rest := DecorationsFrom(docSize, ranges, from + 1);
    assert DecorationsFrom(docSize, ranges, from) == head + rest;
    if i == from {
      assert DecorationOf(ranges[i]) in head;
    } else {
      DecorationIncluded(docSize, ranges, from + 1, i);
      assert DecorationOf(ranges[i]) in rest;
    }
  }

  lemma DecorationsFromMembership(docSize: int, ranges: seq<ErrorRange>, from: nat, d: Decoration)
    requires from <= |ranges|
    ensures d in DecorationsFrom(docSize, ranges, from) <==>
            exists i :: from <= i < |ranges| && ValidRange(ranges[i], docSize) && d == DecorationOf(ranges[i])
  {
    if d in DecorationsFrom(docSize, ranges, from) {
      var i := DecorationSource(docSize, ranges, from, d);
    }
    if exists i :: from <= i < |ranges| && ValidRange(ranges[i], docSize) && d == DecorationOf(ranges[i]) {
      var i :| from <= i < |ranges| && ValidRange(ranges[i], docSize) && d == DecorationOf(ranges[i]);
      DecorationIncluded(docSize, ranges, from, i);
    }
  }

  /** A decoration is produced iff it is the well-formed decoration of a
      range in the input that passes the bounds test. */
  lemma DecorationsMembership(docSize: int, ranges: seq<ErrorRange>, d: Decoration)
    ensures d in Decorations(docSize, ranges) <==>
            WellFormed(d) && RangeOf(d) in ranges && ValidRange(RangeOf(d), docSize)
  {
    DecorationsFromMembership(docSize, ranges, 0, d);
    if WellFormed(d) && RangeOf(d) in ranges && ValidRange(RangeOf(d), docSize) {
      var i :| 0 <= i < |ranges| && ranges[i] == RangeOf(d);
      assert d == DecorationOf(ranges[i]);
    }
  }

  /** Every decoration lies inside the document and is non-empty. */
  lemma DecorationsInBounds(docSize: int, ranges: seq<ErrorRange>)
    ensures forall d :: d in Decorations(docSize, ranges) ==>
              0 <= d.from < d.to <= docSize && WellFormed(d) && RangeOf(d) in ranges
  {
    forall d | d in Decorations(docSize, ranges)
      ensures 0 <= d.from < d.to <= docSize && WellFormed(d) && RangeOf(d) in ranges
    {
      DecorationsMembership(docSize, ranges, d);
    }
  }

  lemma {:induction false} DecorationsFromAppend(docSize: int, a: seq<ErrorRange>, b: seq<ErrorRange>, from: nat)
    requires from <= |a|
    ensures DecorationsFrom(docSize, a + b, from) == DecorationsFrom(docSize, a, from) + Decorations(docSize, b)
    decreases |a| - from
  {
    if from < |a| {
      DecorationsFromAppend(docSize, a, b, from + 1);
      assert (a + b)[from] == a[from];
    } else {
      DecorationsFromShift(docSize, a, b, 0);
    }
  }

  lemma {:induction false} DecorationsFromShift(docSize: int, a: seq<ErrorRange>, b: seq<ErrorRange>, j: nat)
    requires j <= |b|
    ensures DecorationsFrom(docSize, a + b, |a| + j) == DecorationsFrom(docSize, b, j)
    decreases |b| - j
  {
    if j < |b| {
      DecorationsFromShift(docSize, a, b, j + 1);
      assert (a + b)[|a| + j] == b[j];
    }
  }

  /** The bounds filter works range by range: it keeps the input order and
      what one part of the input yields does not depend on the rest. */
  lemma DecorationsAppend(docSize: int, a: seq<ErrorRange>, b: seq<ErrorRange>)
    ensures Decorations(docSize, a + b) == Decorations(docSize, a) + Decorations(docSize, b)
  {
    DecorationsFromAppend(docSize, a, b, 0);
  }

  // ---------------------------------------------------------------------
  // Aggregation over sentences and text nodes
  // ---------------------------------------------------------------------

  /** The ranges of the sentences `ss[from..]` of a node at `nodePos`. */
  function SentencesRangesFrom(ss: seq<Sentence>, from: nat, nodePos: int, ignored: set<ErrorKey>,
                               checker: string -> Option<Response>): seq<ErrorRange>
    requires from <= |ss|
    decreases |ss| - from
  {
    if from == |ss| then []
    else SentenceRanges(checker(ss[from].text), nodePos + ss[from].offset, ignored)
         + SentencesRangesFrom(ss, from + 1, nodePos, ignored, checker)
  }

  /** What `fetchTextNodeSyntaxCheck(nodeText, nodePos)` gathers. */
  function NodeRanges(nodeText: string, nodePos: int, ignored: set<ErrorKey>,
                      checker: string -> Option<Response>): seq<ErrorRange> {
    SentencesRangesFrom(Split(nodeText), 0, nodePos, ignored, checker)
  }

  /** The traversal's filter: a text node with a non-blank text. */
  predicate IsChecked(n: DocNode) {
    n.isText && n.text != [] && Trim(n.text) != []
  }

  function DocRangesFrom(nodes: seq<DocNode>, from: nat, ignored: set<ErrorKey>,
                         checker: string -> Option<Response>): seq<ErrorRange>
    requires from <= |nodes|
    decreases |nodes| - from
  {
    if from == |nodes| then []
    else (if IsChecked(nodes[from]) then NodeRanges(nodes[from].text, nodes[from].pos, ignored, checker) else [])
         + DocRangesFrom(nodes, from + 1, ignored, checker)
  }

  /** What `checkAllTextNodes(doc)` gathers for the traversal `nodes`. */
  function DocRanges(nodes: seq<DocNode>, ignored: set<ErrorKey>,
                     checker: string -> Option<Response>): seq<ErrorRange> {
    DocRangesFrom(nodes, 0, ignored, checker)
  }

  /** `fetchTextNodeSyntaxCheck(nodeText, nodePos)`: every sentence is
      checked with the anchor `nodePos + sentence.offset`. With a cache that
      agrees with the checker, the result is the per-sentence ranges in
      sentence order, and the texts sent are sentences of the node. */
  method FetchTextNodeSyntaxCheck(client: GrammarCheckClient, nodeText: string, nodePos: int,
                                  ignored: set<ErrorKey>, checker: string -> Option<Response>)
    returns (allRanges: seq<ErrorRange>)
    modifies client
    ensures old(client.Consistent(checker)) ==>
              client.Consistent(checker) && allRanges == NodeRanges(nodeText, nodePos, ignored, checker)
    ensures old(client.sent) <= client.sent
    ensures forall i :: |old(client.sent)| <= i < |client.sent| ==> IsTextOf(client.sent[i], Split(nodeText))
    ensures forall r :: r in allRanges ==> KeyOf(r.action) !in ignored
  {
    var sentences := SplitIntoSentences(nodeText);
    SentencesTrimmed(nodeText, 0);
    allRanges := GatherSentences(client, sentences, nodePos, ignored, checker);
  }

  /** The loop of `fetchTextNodeSyntaxCheck` over already split sentences,
      each checked with the anchor `nodePos + offset`. */
  method GatherSentences(client: GrammarCheckClient, sentences: seq<Sentence>, nodePos: int,
                         ignored: set<ErrorKey>, checker: string -> Option<Response>)
    returns (allRanges: seq<ErrorRange>)
    requires forall s :: s in sentences ==> Trim(s.text) == s.text
    modifies client
    ensures old(client.Consistent(checker)) ==>
              client.Consistent(checker) && allRanges == SentencesRangesFrom(sentences, 0, nodePos, ignored, checker)
    ensures old(client.sent) <= client.sent
    ensures forall i :: |old(client.sent)| <= i < |client.sent| ==> IsTextOf(client.sent[i], sentences)
    ensures forall r :: r in allRanges ==> KeyOf(r.action) !in ignored
  {
    ghost var consistent := old(client.Consistent(checker));
    ghost var whole := SentencesRangesFrom(sentences, 0, nodePos, ignored, checker);
    allRanges := [];
    var i := 0;
    while i < |sentences|
      invariant 0 <= i <= |sentences|
      invariant consistent ==> client.Consistent(checker)
      invariant consistent ==> allRanges + SentencesRangesFrom(sentences, i, nodePos, ignored, checker) == whole
      invariant old(client.sent) <= client.sent
      invariant forall j :: |old(client.sent)| <= j < |client.sent| ==> IsTextOf(client.sent[j], sentences)
      invariant forall r :: r in allRanges ==> KeyOf(r.action) !in ignored
    {
      var sentence := sentences[i];
      assert sentence in sentences && Trim(sentence.text) == sentence.text;
      assert IsTextOf(sentence.text, sentences);
      SentencesRangesStep(sentences, i, nodePos, ignored, checker, allRanges);
      ghost var sentBefore := client.sent;
      var ranges := client.FetchSentenceSyntaxCheck(sentence.text, nodePos + sentence.offset, ignored, checker);
      SentLogGrows(old(client.sent), sentBefore, client.sent, sentence.text, sentences);
      if consistent {
        assert ranges == SentenceRanges(checker(sentence.text), nodePos + sentence.offset, ignored);
      }
      allRanges := allRanges + ranges;
      i := i + 1;
    }
    assert allRanges + [] == allRanges;
  }

  /** One step of the gathering loop. */
  lemma SentencesRangesStep(ss: seq<Sentence>, i: nat, nodePos: int, ignored: set<ErrorKey>,
                            checker: string -> Option<Response>, acc: seq<ErrorRange>)
    requires i < |ss|
    ensures acc + SentencesRangesFrom(ss, i, nodePos, ignored, checker)
         == (acc + SentenceRanges(checker(ss[i].text), nodePos + ss[i].offset, ignored))
            + SentencesRangesFrom(ss, i + 1, nodePos, ignored, checker)
  {
  }

  /** The request log keeps its old entries and gains at most the text just
      checked. */
  lemma SentLogGrows(start: seq<string>, before: seq<string>, after: seq<string>, x: string, ss: seq<Sentence>)
    requires start <= before
    requires forall j :: |start| <= j < |before| ==> IsTextOf(before[j], ss)
    requires after == before || after == before + [x]
    requires IsTextOf(x, ss)
    ensures start <= after
    ensures forall j :: |start| <= j < |after| ==> IsTextOf(after[j], ss)
  {
    if after != before {
      forall j | |start| <= j < |after| ensures IsTextOf(after[j], ss) {
        if j < |before| {
          assert after[j] == before[j];
        }
      }
    }
  }

  /** `t` is the text of one of the sentences `ss`. */
  predicate IsTextOf(t: string, ss: seq<Sentence>) {
    exists s :: s in ss && s.text == t
  }

  /** `checkAllTextNodes(doc)` over the traversal `nodes`: only non-blank
      text nodes are checked, each at its own position. */
  method CheckAllTextNodes(client: GrammarCheckClient, nodes: seq<DocNode>,
                           ignored: set<ErrorKey>, checker: string -> Option<Response>)
    returns (allRanges: seq<ErrorRange>)
    modifies client
    ensures old(client.Consistent(checker)) ==>
              client.Consistent(checker) && allRanges == DocRanges(nodes, ignored, checker)
    ensures old(client.sent) <= client.sent
    ensures forall r :: r in allRanges ==> KeyOf(r.action) !in ignored
  {
    ghost var consistent := old(client.Consistent(checker));
    allRanges := [];
    var i := 0;
    while i < |nodes|
      invariant 0 <= i <= |nodes|
      invariant consistent ==> client.Consistent(checker)
      invariant consistent ==>
                  allRanges + DocRangesFrom(nodes, i, ignored, checker) == DocRanges(nodes, ignored, checker)
      invariant old(client.sent) <= client.sent
      invariant forall r :: r in allRanges ==> KeyOf(r.action) !in ignored
    {
      var node := nodes[i];
      DocRangesStep(nodes, i, ignored, checker, allRanges);
      if node.isText && node.text != [] && Trim(node.text) != [] {
        var ranges := FetchTextNodeSyntaxCheck(client, node.text, node.pos, ignored, checker);
        allRanges := allRanges + ranges;
      } else {
        assert allRanges + [] == allRanges;
      }
      i := i + 1;
    }
  }

  /** One step of the traversal loop. */
  lemma DocRangesStep(nodes: seq<DocNode>, i: nat, ignored: set<ErrorKey>,
                      checker: string -> Option<Response>, acc: seq<ErrorRange>)
    requires i < |nodes|
    ensures acc + DocRangesFrom(nodes, i, ignored, checker)
         == (acc + (if IsChecked(nodes[i]) then NodeRanges(nodes[i].text, nodes[i].pos, ignored, checker) else []))
            + DocRangesFrom(nodes, i + 1, ignored, checker)
  {
    var step := if IsChecked(nodes[i]) then NodeRanges(nodes[i].text, nodes[i].pos, ignored, checker) else [];
    var rest := DocRangesFrom(nodes, i + 1, ignored, checker);
    assert DocRangesFrom(nodes, i, ignored, checker) == step + rest;
    AppendAssoc(acc, step, rest);
  }

  // ---------------------------------------------------------------------
  // Properties of the scan
  // ---------------------------------------------------------------------

  /** A range gathered from the sentences from `from` on comes from one of them. */
  lemma {:induction false} SentencesRangesSource(ss: seq<Sentence>, from: nat, nodePos: int, ignored: set<ErrorKey>,
                                                 checker: string -> Option<Response>, r: ErrorRange) returns (i: nat)
    requires from <= |ss| && r in SentencesRangesFrom(ss, from, nodePos, ignored, checker)
    ensures from <= i < |ss| && r in SentenceRanges(checker(ss[i].text), nodePos + ss[i].offset, ignored)
    decreases |ss| - from
  {
    assert SentencesRangesFrom(ss, from, nodePos, ignored, checker) != [];
    var head := SentenceRanges(checker(ss[from].text), nodePos + ss[from].offset, ignored);
    var rest := SentencesRangesFrom(ss, from + 1, nodePos, ignored, checker);
    assert SentencesRangesFrom(ss, from, nodePos, ignored, checker) == head + rest;
    if r in head {
      i := from;
    } else {
      assert r in rest;
      i := SentencesRangesSource(ss, from + 1, nodePos, ignored, checker, r);
    }
  }

  /** Every range of a sentence from `from` on is gathered. */
  lemma {:induction false} SentencesRangesInclude(ss: seq<Sentence>, from: nat, i: nat, nodePos: int, ignored: set<ErrorKey>,
                                                  checker: string -> Option<Response>, r: ErrorRange)
    requires from <= i < |ss| && r in SentenceRanges(checker(ss[i].text), nodePos + ss[i].offset, ignored)
    ensures r in SentencesRangesFrom(ss, from, nodePos, ignored, checker)
    decreases i - from
  {
    var head := SentenceRanges(checker(ss[from].text), nodePos + ss[from].offset, ignored);
    var rest := SentencesRangesFrom(ss, from + 1, nodePos, ignored, checker);
    assert SentencesRangesFrom(ss, from, nodePos, ignored, checker) == head + rest;
    if i > from {
      SentencesRangesInclude(ss, from + 1, i, nodePos, ignored, checker, r);
    }
  }

  /** The ranges of a node are exactly the ranges of its sentences. */
  lemma SentencesRangesSeqMembership(ss: seq<Sentence>, nodePos: int, ignored: set<ErrorKey>,
                                     checker: string -> Option<Response>, r: ErrorRange)
    ensures r in SentencesRangesFrom(ss, 0, nodePos, ignored, checker) <==>
            exists s :: s in ss && r in SentenceRanges(checker(s.text), nodePos + s.offset, ignored)
  {
    if r in SentencesRangesFrom(ss, 0, nodePos, ignored, checker) {
      var i := SentencesRangesSource(ss, 0, nodePos, ignored, checker, r);
      assert ss[i] in ss;
    }
    if exists s :: s in ss && r in SentenceRanges(checker(s.text), nodePos + s.offset, ignored) {
      var s :| s in ss && r in SentenceRanges(checker(s.text), nodePos + s.offset, ignored);
      var i :| 0 <= i < |ss| && ss[i] == s;
      SentencesRangesInclude(ss, 0, i, nodePos, ignored, checker, r);
    }
  }

  /** A node's ranges are exactly the ranges of its sentences, each parsed
      with the anchor `nodePos + offset`. */
  lemma NodeRangesMembership(nodeText: string, nodePos: int, ignored: set<ErrorKey>,
                             checker: string -> Option<Response>, r: ErrorRange)
    ensures r in NodeRanges(nodeText, nodePos, ignored, checker) <==>
            exists s :: s in Split(nodeText) && r in SentenceRanges(checker(s.text), nodePos + s.offset, ignored)
  {
    SentencesRangesSeqMembership(Split(nodeText), nodePos, ignored, checker, r);
  }

  lemma {:induction false} DocRangesMembership(nodes: seq<DocNode>, from: nat, ignored: set<ErrorKey>,
                                               checker: string -> Option<Response>, r: ErrorRange)
    requires from <= |nodes|
    ensures r in DocRangesFrom(nodes, from, ignored, checker) <==>
            exists i :: from <= i < |nodes| && IsChecked(nodes[i]) && r in NodeRanges(nodes[i].text, nodes[i].pos, ignored, checker)
    decreases |nodes| - from
  {
    if from < |nodes| {
      DocRangesMembership(nodes, from + 1, ignored, checker, r);
      var head := if IsChecked(nodes[from]) then NodeRanges(nodes[from].text, nodes[from].pos, ignored, checker) else [];
      var rest := DocRangesFrom(nodes, from + 1, ignored, checker);
      if r in head + rest && r !in head {
        var i :| from + 1 <= i < |nodes| && IsChecked(nodes[i]) && r in NodeRanges(nodes[i].text, nodes[i].pos, ignored, checker);
        assert from <= i < |nodes|;
      }
      if exists i :: from <= i < |nodes| && IsChecked(nodes[i]) && r in NodeRanges(nodes[i].text, nodes[i].pos, ignored, checker) {
        var i :| from <= i < |nodes| && IsChecked(nodes[i]) && r in NodeRanges(nodes[i].text, nodes[i].pos, ignored, checker);
        if i == from {
          assert r in head;
        } else {
          assert r in rest;
        }
      }
    }
  }

  /** The document's ranges are exactly those of the non-blank text nodes:
      no other node is looked at and none of them is lost. */
  lemma DocRangesFromCheckedNodes(nodes: seq<DocNode>, ignored: set<ErrorKey>,
                                  checker: string -> Option<Response>, r: ErrorRange)
    ensures r in DocRanges(nodes, ignored, checker) <==>
            exists n :: n in nodes && IsChecked(n) && r in NodeRanges(n.text, n.pos, ignored, checker)
  {
    DocRangesMembership(nodes, 0, ignored, checker, r);
    if exists n :: n in nodes && IsChecked(n) && r in NodeRanges(n.text, n.pos, ignored, checker) {
      var n :| n in nodes && IsChecked(n) && r in NodeRanges(n.text, n.pos, ignored, checker);
      var i :| 0 <= i < |nodes| && nodes[i] == n;
    }
  }

  /** Nothing gathered from a list of sentences is ignored, and every range
      carries its own absolute position in its action. */
  lemma SentencesRangesNotIgnored(ss: seq<Sentence>, nodePos: int, ignored: set<ErrorKey>,
                                  checker: string -> Option<Response>)
    ensures forall r :: r in SentencesRangesFrom(ss, 0, nodePos, ignored, checker) ==>
              KeyOf(r.action) !in ignored
              && r.action.absoluteStart == Some(r.from) && r.action.absoluteEnd == Some(r.to)
  {
    forall r | r in SentencesRangesFrom(ss, 0, nodePos, ignored, checker)
      ensures KeyOf(r.action) !in ignored
      ensures r.action.absoluteStart == Some(r.from) && r.action.absoluteEnd == Some(r.to)
    {
      SentencesRangesSeqMembership(ss, nodePos, ignored, checker, r);
      var s :| s in ss && r in SentenceRanges(checker(s.text), nodePos + s.offset, ignored);
      ParsedRangesAnchored(ActionsOf(checker(s.text)), nodePos + s.offset, ignored);
    }
  }

  /** Nothing the scan gathers is in the ignored registry, and every range
      carries its own absolute position in its action. */
  lemma DocRangesNotIgnored(nodes: seq<DocNode>, ignored: set<ErrorKey>, checker: string -> Option<Response>)
    ensures forall r :: r in DocRanges(nodes, ignored, checker) ==>
              KeyOf(r.action) !in ignored
              && r.action.absoluteStart == Some(r.from) && r.action.absoluteEnd == Some(r.to)
  {
    forall r | r in DocRanges(nodes, ignored, checker)
      ensures KeyOf(r.action) !in ignored
      ensures r.action.absoluteStart == Some(r.from) && r.action.absoluteEnd == Some(r.to)
    {
      DocRangesFromCheckedNodes(nodes, ignored, checker, r);
      var n :| n in nodes && IsChecked(n) && r in NodeRanges(n.text, n.pos, ignored, checker);
      SentencesRangesNotIgnored(Split(n.text), n.pos, ignored, checker);
    }
  }

  /** For one list of sentences: a checker that fails on some texts yields a
      subset of the ranges. */
  lemma SentencesFailuresOnlyDrop(ss: seq<Sentence>, nodePos: int, ignored: set<ErrorKey>,
                                  checker: string -> Option<Response>, flaky: string -> Option<Response>)
    requires forall t :: flaky(t) == checker(t) || flaky(t) == None
    ensures forall r :: r in SentencesRangesFrom(ss, 0, nodePos, ignored, flaky) ==>
              r in SentencesRangesFrom(ss, 0, nodePos, ignored, checker)
  {
    forall r | r in SentencesRangesFrom(ss, 0, nodePos, ignored, flaky)
      ensures r in SentencesRangesFrom(ss, 0, nodePos, ignored, checker)
    {
      SentencesRangesSeqMembership(ss, nodePos, ignored, flaky, r);
      var s :| s in ss && r in SentenceRanges(flaky(s.text), nodePos + s.offset, ignored);
      assert flaky(s.text) == checker(s.text);
      SentencesRangesSeqMembership(ss, nodePos, ignored, checker, r);
    }
  }

  /** A checker that fails on some texts (and otherwise answers as before)
      only removes ranges: a failing sentence contributes nothing, and the
      ranges of the others are still gathered. */
  lemma FailuresOnlyDrop(nodes: seq<DocNode>, ignored: set<ErrorKey>,
                         checker: string -> Option<Response>, flaky: string -> Option<Response>)
    requires forall t :: flaky(t) == checker(t) || flaky(t) == None
    ensures forall r :: r in DocRanges(nodes, ignored, flaky) ==> r in DocRanges(nodes, ignored, checker)
    ensures forall n, s, r ::
              (n in nodes && IsChecked(n) && s in Split(n.text) && flaky(s.text) == checker(s.text)
               && r in SentenceRanges(checker(s.text), n.pos + s.offset, ignored))
              ==> r in DocRanges(nodes, ignored, flaky)
  {
    forall n, s, r | n in nodes && IsChecked(n) && s in Split(n.text) && flaky(s.text) == checker(s.text)
                     && r in SentenceRanges(checker(s.text), n.pos + s.offset, ignored)
      ensures r in DocRanges(nodes, ignored, flaky)
    {
      SentenceRangeGathered(nodes, n, s, r, ignored, flaky);
    }
    forall r | r in DocRanges(nodes, ignored, flaky)
      ensures r in DocRanges(nodes, ignored, checker)
    {
      DocRangesFromCheckedNodes(nodes, ignored, flaky, r);
      var n :| n in nodes && IsChecked(n) && r in NodeRanges(n.text, n.pos, ignored, flaky);
      SentencesFailuresOnlyDrop(Split(n.text), n.pos, ignored, checker, flaky);
      DocRangesFromCheckedNodes(nodes, ignored, checker, r);
    }
  }

  /** A range of one sentence of a checked node is in the document result. */
  lemma SentenceRangeGathered(nodes: seq<DocNode>, n: DocNode, s: Sentence, r: ErrorRange,
                              ignored: set<ErrorKey>, checker: string -> Option<Response>)
    requires n in nodes && IsChecked(n) && s in Split(n.text)
    requires r in SentenceRanges(checker(s.text), n.pos + s.offset, ignored)
    ensures r in DocRanges(nodes, ignored, checker)
  {
    SentenceInListGathered(Split(n.text), s, n.pos, ignored, checker, r);
    var k :| 0 <= k < |nodes| && nodes[k] == n;
    DocRangesInclude(nodes, 0, k, ignored, checker, r);
  }

  /** Every range of a sentence in the list is gathered. */
  lemma SentenceInListGathered(ss: seq<Sentence>, s: Sentence, nodePos: int, ignored: set<ErrorKey>,
                               checker: string -> Option<Response>, r: ErrorRange)
    requires s in ss && r in SentenceRanges(checker(s.text), nodePos + s.offset, ignored)
    ensures r in SentencesRangesFrom(ss, 0, nodePos, ignored, checker)
  {
    var j :| 0 <= j < |ss| && ss[j] == s;
    SentencesRangesInclude(ss, 0, j, nodePos, ignored, checker, r);
  }

  /** Every range of a checked node from `from` on is gathered. */
  lemma {:induction false} DocRangesInclude(nodes: seq<DocNode>, from: nat, i: nat, ignored: set<ErrorKey>,
                                            checker: string -> Option<Response>, r: ErrorRange)
    requires from <= i < |nodes| && IsChecked(nodes[i])
    requires r in NodeRanges(nodes[i].text, nodes[i].pos, ignored, checker)
    ensures r in DocRangesFrom(nodes, from, ignored, checker)
    decreases i - from
  {
    var head := if IsChecked(nodes[from]) then NodeRanges(nodes[from].text, nodes[from].pos, ignored, checker) else [];
    var rest := DocRangesFrom(nodes, from + 1, ignored, checker);
    assert DocRangesFrom(nodes, from, ignored, checker) == head + rest;
    if i == from {
      assert r in head;
    } else {
      DocRangesInclude(nodes, from + 1, i, ignored, checker, r);
      assert r in rest;
    }
  }

  // ---------------------------------------------------------------------
  // Moving a node
  // ---------------------------------------------------------------------

  function ShiftOpt(o: Option<int>, d: int): Option<int> {
    if o.Some? then Some(o.value + d) else None
  }

  /** An error key moved by `d` positions. */
  function ShiftKey(k: ErrorKey, d: int): ErrorKey {
    ErrorKey(ShiftOpt(k.start, d), ShiftOpt(k.end, d), k.original)
  }

  function ShiftKeys(ks: set<ErrorKey>, d: int): set<ErrorKey> {
    set k | k in ks :: ShiftKey(k, d)
  }

  /** A range moved by `d` positions, its action's absolute positions too. */
  function ShiftRange(r: ErrorRange, d: int): ErrorRange {
    ErrorRange(r.from + d, r.to + d,
               r.action.(absoluteStart := ShiftOpt(r.action.absoluteStart, d),
                         absoluteEnd := ShiftOpt(r.action.absoluteEnd, d)))
  }

  function ShiftRanges(rs: seq<ErrorRange>, d: int): (out: seq<ErrorRange>)
    ensures |out| == |rs|
    ensures forall i :: 0 <= i < |rs| ==> out[i] == ShiftRange(rs[i], d)
  {
    if rs == [] then [] else [ShiftRange(rs[0], d)] + ShiftRanges(rs[1..], d)
  }

  lemma ShiftRangesAppend(a: seq<ErrorRange>, b: seq<ErrorRange>, d: int)
    ensures ShiftRanges(a + b, d) == ShiftRanges(a, d) + ShiftRanges(b, d)
  {
    assert |ShiftRanges(a + b, d)| == |ShiftRanges(a, d) + ShiftRanges(b, d)|;
    forall i | 0 <= i < |a + b|
      ensures ShiftRanges(a + b, d)[i] == (ShiftRanges(a, d) + ShiftRanges(b, d))[i]
    {
      if i < |a| {
        assert (a + b)[i] == a[i];
      } else {
        assert (a + b)[i] == b[i - |a|];
      }
    }
  }

  /** Moving keys is one-to-one, so a moved key is in the moved registry
      exactly when the key is in the registry. */
  lemma ShiftKeyIn(k: ErrorKey, ks: set<ErrorKey>, d: int)
    ensures ShiftKey(k, d) in ShiftKeys(ks, d) <==> k in ks
  {
    if ShiftKey(k, d) in ShiftKeys(ks, d) {
      var k' :| k' in ks && ShiftKey(k', d) == ShiftKey(k, d);
      assert ShiftKey(ShiftKey(k', d), -d) == k';
      assert ShiftKey(ShiftKey(k, d), -d) == k;
    }
  }

  /** Parsing with the anchor and the registry both moved by `d` gives the
      same ranges moved by `d`. */
  lemma {:induction false} ParsedFromShift(actions: seq<Action>, from: nat, pos: int, ignored: set<ErrorKey>, d: int)
    requires from <= |actions|
    ensures ParsedFrom(actions, from, pos + d, ShiftKeys(ignored, d))
         == ShiftRanges(ParsedFrom(actions, from, pos, ignored), d)
    decreases |actions| - from
  {
    if from < |actions| {
      var a := actions[from];
      ParsedFromShift(actions, from + 1, pos, ignored, d);
      var head := if Kept(a, pos, ignored) then [RangeFor(a, pos)] else [];
      var head' := if Kept(a, pos + d, ShiftKeys(ignored, d)) then [RangeFor(a, pos + d)] else [];
      if HasTokens(a) {
        var k := ErrorKey(Some(pos + a.tokenStart.value), Some(pos + a.tokenEnd.value), Interpolate(a.original));
        assert ShiftKey(k, d) == ErrorKey(Some(pos + d + a.tokenStart.value), Some(pos + d + a.tokenEnd.value), Interpolate(a.original));
        ShiftKeyIn(k, ignored, d);
        assert RangeFor(a, pos + d) == ShiftRange(RangeFor(a, pos), d);
      }
      assert head' == ShiftRanges(head, d);
      ShiftRangesAppend(head, ParsedFrom(actions, from + 1, pos, ignored), d);
    }
  }

  lemma {:induction false} SentencesRangesShift(ss: seq<Sentence>, from: nat, nodePos: int, ignored: set<ErrorKey>,
                                                checker: string -> Option<Response>, d: int)
    requires from <= |ss|
    ensures SentencesRangesFrom(ss, from, nodePos + d, ShiftKeys(ignored, d), checker)
         == ShiftRanges(SentencesRangesFrom(ss, from, nodePos, ignored, checker), d)
    decreases |ss| - from
  {
    if from < |ss| {
      var reply := checker(ss[from].text);
      var pos := nodePos + ss[from].offset;
      SentencesRangesShift(ss, from + 1, nodePos, ignored, checker, d);
      SentencesRangesUnfold(ss, from, nodePos, ignored, checker);
      SentencesRangesUnfold(ss, from, nodePos + d, ShiftKeys(ignored, d), checker);
      assert (nodePos + d) + ss[from].offset == pos + d;
      SentenceRangesShift(reply, pos, ignored, d);
      ShiftConcat(SentenceRanges(reply, pos, ignored), SentencesRangesFrom(ss, from + 1, nodePos, ignored, checker),
                  SentenceRanges(reply, pos + d, ShiftKeys(ignored, d)),
                  SentencesRangesFrom(ss, from + 1, nodePos + d, ShiftKeys(ignored, d), checker), d);
    }
  }

  /** Shifting distributes over a concatenation, stated on its parts. */
  lemma ShiftConcat(a: seq<ErrorRange>, b: seq<ErrorRange>, a': seq<ErrorRange>, b': seq<ErrorRange>, d: int)
    requires a' == ShiftRanges(a, d) && b' == ShiftRanges(b, d)
    ensures a' + b' == ShiftRanges(a + b, d)
  {
    ShiftRangesAppend(a, b, d);
  }

  lemma SentencesRangesUnfold(ss: seq<Sentence>, from: nat, nodePos: int, ignored: set<ErrorKey>,
                              checker: string -> Option<Response>)
    requires from < |ss|
    ensures SentencesRangesFrom(ss, from, nodePos, ignored, checker)
         == SentenceRanges(checker(ss[from].text), nodePos + ss[from].offset, ignored)
            + SentencesRangesFrom(ss, from + 1, nodePos, ignored, checker)
  {
  }

  /** The ranges of one reply move with its anchor. */
  lemma SentenceRangesShift(reply: Option<Response>, pos: int, ignored: set<ErrorKey>, d: int)
    ensures SentenceRanges(reply, pos + d, ShiftKeys(ignored, d)) == ShiftRanges(SentenceRanges(reply, pos, ignored), d)
  {
    ParsedFromShift(ActionsOf(reply), 0, pos, ignored, d);
  }

  /** Two text nodes with the same text at positions `p` and `q` yield the
      same ranges moved by `q - p` (with the registry's keys moved alike):
      the result depends on where a node lies only through its anchor. */
  lemma NodeRangesShift(nodeText: string, p: int, q: int, ignored: set<ErrorKey>,
                        checker: string -> Option<Response>)
    ensures NodeRanges(nodeText, q, ShiftKeys(ignored, q - p), checker)
         == ShiftRanges(NodeRanges(nodeText, p, ignored, checker), q - p)
  {
    SentencesRangesShift(Split(nodeText), 0, p, ignored, checker, q - p);
    assert p + (q - p) == q;
  }
}
