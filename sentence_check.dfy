/**
 * Checking one sentence (`fetchSentenceSyntaxCheck.js`): the memoised call
 * to the remote grammar checker, the translation of the checker's token
 * spans into absolute document positions with the ignore filter, and the
 * rule that any failure yields no ranges.
 *
 * The remote checker is a parameter `checker: string -> Option<Response>`;
 * `None` stands for a call that throws (network failure, a reply that is
 * not JSON). The checker is a function, so it answers the same text the
 * same way, and the cache can be tied to it by `CacheAgrees`.
 */
module SentenceCheck {
  import opened Text
  import opened Types

  /** The checker's JSON reply; `actions` may be missing or not a list. */
  datatype Response = Response(actions: Option<seq<Action>>)

  /** `{ from, to, action }`: an error located in the document. */
  datatype ErrorRange = ErrorRange(from: int, to: int, action: Action)

  /** Both `token_start` and `token_end` are present. */
  predicate HasTokens(a: Action) {
    a.tokenStart.Some? && a.tokenEnd.Some?
  }

  /** The range an action yields for a sentence anchored at `pos`: the token
      span moved by `pos`, and the action copied with its absolute positions
      added. */
  function RangeFor(a: Action, pos: int): (r: ErrorRange)
    requires HasTokens(a)
    ensures r.from == pos + a.tokenStart.value && r.to == pos + a.tokenEnd.value
    ensures r.action.absoluteStart == Some(r.from) && r.action.absoluteEnd == Some(r.to)
    ensures r.action.(absoluteStart := a.absoluteStart, absoluteEnd := a.absoluteEnd) == a
  {
    var absoluteStart := pos + a.tokenStart.value;
    var absoluteEnd := pos + a.tokenEnd.value;
    ErrorRange(absoluteStart, absoluteEnd, a.(absoluteStart := Some(absoluteStart), absoluteEnd := Some(absoluteEnd)))
  }

  /** An action survives parsing: it has both token positions and its key
      is not in the ignored registry. */
  predicate Kept(a: Action, pos: int, ignored: set<ErrorKey>) {
    HasTokens(a)
    && ErrorKey(Some(pos + a.tokenStart.value), Some(pos + a.tokenEnd.value), Interpolate(a.original)) !in ignored
  }

  /** The key checked against the registry is the key of the range's action. */
  lemma KeptKey(a: Action, pos: int, ignored: set<ErrorKey>)
    requires HasTokens(a)
    ensures Kept(a, pos, ignored) <==> KeyOf(RangeFor(a, pos).action) !in ignored
  {
  }

  /** The ranges of `actions[from..]`, in order: the specification of the
      parsing loop. */
  function ParsedFrom(actions: seq<Action>, from: nat, pos: int, ignored: set<ErrorKey>): seq<ErrorRange>
    requires from <= |actions|
    decreases |actions| - from
  {
    if from == |actions| then []
    else (if Kept(actions[from], pos, ignored) then [RangeFor(actions[from], pos)] else [])
         + ParsedFrom(actions, from + 1, pos, ignored)
  }

  function ParsedRanges(actions: seq<Action>, pos: int, ignored: set<ErrorKey>): seq<ErrorRange> {
    ParsedFrom(actions, 0, pos, ignored)
  }

  /** `parseApiActionsToRanges(actions, sentenceAbsolutePos)`, reading the
      registry `ignored`. */
  method ParseApiActionsToRanges(actions: seq<Action>, pos: int, ignored: set<ErrorKey>)
    returns (ranges: seq<ErrorRange>)
    ensures ranges == ParsedRanges(actions, pos, ignored)
  {
    ranges := [];
    var i := 0;
    while i < |actions|
      invariant 0 <= i <= |actions|
      invariant ranges + ParsedFrom(actions, i, pos, ignored) == ParsedRanges(actions, pos, ignored)
    {
      var action := actions[i];
      ghost var before := ranges;
      if action.tokenEnd.Some? && action.tokenStart.Some? {
        var absoluteStart := pos + action.tokenStart.value;
        var absoluteEnd := pos + action.tokenEnd.value;
        var errorKey := ErrorKey(Some(absoluteStart), Some(absoluteEnd), Interpolate(action.original));
        if errorKey !in ignored {
          ranges := ranges + [ErrorRange(absoluteStart, absoluteEnd,
                                         action.(absoluteStart := Some(absoluteStart), absoluteEnd := Some(absoluteEnd)))];
        }
      }
      assert before + ParsedFrom(actions, i, pos, ignored) == ranges + ParsedFrom(actions, i + 1, pos, ignored);
      i := i + 1;
    }
  }

  // ---------------------------------------------------------------------
  // Properties of parsing
  // ---------------------------------------------------------------------

  /** A range is produced exactly for the kept actions: each range is the
      mapped form of some kept action, and every kept action is mapped. */
  lemma {:induction false} ParsedFromMembership(actions: seq<Action>, from: nat, pos: int, ignored: set<ErrorKey>, r: ErrorRange)
    requires from <= |actions|
    ensures r in ParsedFrom(actions, from, pos, ignored) <==>
            exists i :: from <= i < |actions| && Kept(actions[i], pos, ignored) && r == RangeFor(actions[i], pos)
    decreases |actions| - from
  {
    if from < |actions| {
      ParsedFromMembership(actions, from + 1, pos, ignored, r);
      var head := if Kept(actions[from], pos, ignored) then [RangeFor(actions[from], pos)] else [];
      var rest := ParsedFrom(actions, from + 1, pos, ignored);
      assert ParsedFrom(actions, from, pos, ignored) == head + rest;
      if r in head + rest {
        if r in head {
          assert from <= from < |actions| && Kept(actions[from], pos, ignored) && r == RangeFor(actions[from], pos);
        } else {
          var i :| from + 1 <= i < |actions| && Kept(actions[i], pos, ignored) && r == RangeFor(actions[i], pos);
          assert from <= i < |actions|;
        }
      }
      if exists i :: from <= i < |actions| && Kept(actions[i], pos, ignored) && r == RangeFor(actions[i], pos) {
        var i :| from <= i < |actions| && Kept(actions[i], pos, ignored) && r == RangeFor(actions[i], pos);
        if i == from {
          assert r in head;
        } else {
          assert r in rest;
        }
      }
    }
  }

  lemma ParsedRangesMembership(actions: seq<Action>, pos: int, ignored: set<ErrorKey>, r: ErrorRange)
    ensures r in ParsedRanges(actions, pos, ignored) <==>
            exists a :: a in actions && Kept(a, pos, ignored) && r == RangeFor(a, pos)
  {
    ParsedFromMembership(actions, 0, pos, ignored, r);
    if exists a :: a in actions && Kept(a, pos, ignored) && r == RangeFor(a, pos) {
      var a :| a in actions && Kept(a, pos, ignored) && r == RangeFor(a, pos);
      var i :| 0 <= i < |actions| && actions[i] == a;
    }
  }

  /** Every produced range sits at `pos` plus the token span of its action,
      carries those absolute positions in its action, and is not ignored. */
  lemma ParsedRangesAnchored(actions: seq<Action>, pos: int, ignored: set<ErrorKey>)
    ensures forall r :: r in ParsedRanges(actions, pos, ignored) ==>
              && r.action.tokenStart.Some? && r.action.tokenEnd.Some?
              && r.from == pos + r.action.tokenStart.value
              && r.to == pos + r.action.tokenEnd.value
              && r.action.absoluteStart == Some(r.from)
              && r.action.absoluteEnd == Some(r.to)
              && KeyOf(r.action) !in ignored
  {
    forall r | r in ParsedRanges(actions, pos, ignored)
      ensures r.action.tokenStart.Some? && r.action.tokenEnd.Some?
      ensures r.from == pos + r.action.tokenStart.value && r.to == pos + r.action.tokenEnd.value
      ensures r.action.absoluteStart == Some(r.from) && r.action.absoluteEnd == Some(r.to)
      ensures KeyOf(r.action) !in ignored
    {
      ParsedRangesMembership(actions, pos, ignored, r);
    }
  }

  /** The indices of the kept actions of `actions[from..]`. */
  function KeptFrom(actions: seq<Action>, from: nat, pos: int, ignored: set<ErrorKey>): seq<nat>
    requires from <= |actions|
    decreases |actions| - from
  {
    if from == |actions| then []
    else (if Kept(actions[from], pos, ignored) then [from] else []) + KeptFrom(actions, from + 1, pos, ignored)
  }

  /** Parsing is an order-preserving filter-map: the `j`-th range comes from
      the `j`-th kept action, kept indices strictly increase, every kept
      index is listed, and so there are at most as many ranges as actions. */
  lemma {:induction false} ParsedFromSubsequence(actions: seq<Action>, from: nat, pos: int, ignored: set<ErrorKey>)
    requires from <= |actions|
    ensures var idx := KeptFrom(actions, from, pos, ignored);
            var rs := ParsedFrom(actions, from, pos, ignored);
            && |idx| == |rs| <= |actions| - from
            && (forall j :: 0 <= j < |idx| ==>
                  from <= idx[j] < |actions| && Kept(actions[idx[j]], pos, ignored)
                  && rs[j] == RangeFor(actions[idx[j]], pos))
            && (forall j, k :: 0 <= j < k < |idx| ==> idx[j] < idx[k])
            && (forall i :: from <= i < |actions| && Kept(actions[i], pos, ignored) ==> i in idx)
    decreases |actions| - from
  {
    if from < |actions| {
      ParsedFromSubsequence(actions, from + 1, pos, ignored);
    }
  }

  lemma ParsedRangesSubsequence(actions: seq<Action>, pos: int, ignored: set<ErrorKey>)
    ensures var idx := KeptFrom(actions, 0, pos, ignored);
            var rs := ParsedRanges(actions, pos, ignored);
            && |idx| == |rs| <= |actions|
            && (forall j :: 0 <= j < |idx| ==>
                  idx[j] < |actions| && Kept(actions[idx[j]], pos, ignored)
                  && rs[j] == RangeFor(actions[idx[j]], pos))
            && (forall j, k :: 0 <= j < k < |idx| ==> idx[j] < idx[k])
            && (forall i :: 0 <= i < |actions| && Kept(actions[i], pos, ignored) ==> i in idx)
  {
    ParsedFromSubsequence(actions, 0, pos, ignored);
  }

  /** Parsing does not look at the order of the span: an action with both
      tokens and a key outside the registry yields its range even when
      `token_end <= token_start`. */
  lemma InvertedSpanKept(a: Action, pos: int, ignored: set<ErrorKey>)
    requires HasTokens(a) && a.tokenEnd.value <= a.tokenStart.value
    requires KeyOf(RangeFor(a, pos).action) !in ignored
    ensures ParsedRanges([a], pos, ignored) == [RangeFor(a, pos)]
    ensures ParsedRanges([a], pos, ignored)[0].to <= ParsedRanges([a], pos, ignored)[0].from
  {
    assert ParsedFrom([a], 1, pos, ignored) == [];
  }

  /** Adding a key to the registry removes exactly the ranges with that key. */
  lemma {:induction false} IgnoringFilters(actions: seq<Action>, from: nat, pos: int, ignored: set<ErrorKey>, k: ErrorKey)
    requires from <= |actions|
    ensures ParsedFrom(actions, from, pos, ignored + {k})
         == Without(ParsedFrom(actions, from, pos, ignored), k)
    decreases |actions| - from
  {
    if from < |actions| {
      var a := actions[from];
      IgnoringFilters(actions, from + 1, pos, ignored, k);
      var head := if Kept(a, pos, ignored) then [RangeFor(a, pos)] else [];
      var head' := if Kept(a, pos, ignored + {k}) then [RangeFor(a, pos)] else [];
      if HasTokens(a) {
        KeptKey(a, pos, ignored);
        KeptKey(a, pos, ignored + {k});
      }
      assert head' == Without(head, k) by {
        if head != [] {
          assert Without(head[1..], k) == [];
        }
      }
      WithoutAppend(head, ParsedFrom(actions, from + 1, pos, ignored), k);
    }
  }

  /** The ranges of `rs` whose key is not `k`, in order. */
  function Without(rs: seq<ErrorRange>, k: ErrorKey): (out: seq<ErrorRange>)
    ensures |out| <= |rs|
    ensures forall r :: r in out <==> r in rs && KeyOf(r.action) != k
  {
    if rs == [] then []
    else (if KeyOf(rs[0].action) == k then [] else [rs[0]]) + Without(rs[1..], k)
  }

  lemma {:induction false} WithoutAppend(a: seq<ErrorRange>, b: seq<ErrorRange>, k: ErrorKey)
    ensures Without(a + b, k) == Without(a, k) + Without(b, k)
  {
    if a != [] {
      var head := if KeyOf(a[0].action) == k then [] else [a[0]];
      assert (a + b)[0] == a[0];
      assert (a + b)[1..] == a[1..] + b;
      WithoutAppend(a[1..], b, k);
      calc {
        Without(a + b, k);
        head + Without(a[1..] + b, k);
        head + (Without(a[1..], k) + Without(b, k));
        (head + Without(a[1..], k)) + Without(b, k);
        Without(a, k) + Without(b, k);
      }
    } else {
      assert a + b == b;
    }
  }

  // ---------------------------------------------------------------------
  // The memoised checker call
  // ---------------------------------------------------------------------

  /** The actions of a reply, or none: a failed call, a reply without an
      `actions` list, and an empty list all make parsing yield nothing. */
  function ActionsOf(reply: Option<Response>): seq<Action> {
    if reply.Some? && reply.value.actions.Some? then reply.value.actions.value else []
  }

  /** The ranges `fetchSentenceSyntaxCheck` returns for a given reply. */
  function SentenceRanges(reply: Option<Response>, pos: int, ignored: set<ErrorKey>): seq<ErrorRange> {
    ParsedRanges(ActionsOf(reply), pos, ignored)
  }

  /** What `callGrammarCheckApi(text)` yields: the cached reply for the
      trimmed text, or else whatever the checker answers. */
  function Served(cache: map<string, Response>, text: string, checker: string -> Option<Response>): Option<Response> {
    if Trim(text) in cache then Some(cache[Trim(text)]) else checker(text)
  }

  /** Every cached reply is the one the checker gives for its key. */
  predicate CacheAgrees(cache: map<string, Response>, checker: string -> Option<Response>) {
    forall k :: k in cache ==> checker(k) == Some(cache[k])
  }

  /** The cache is invisible: for trimmed text (every sentence is), a cache
      that agrees with the checker serves exactly the checker's reply. */
  lemma ServedIsChecker(cache: map<string, Response>, text: string, checker: string -> Option<Response>)
    requires CacheAgrees(cache, checker) && Trim(text) == text
    ensures Served(cache, text, checker) == checker(text)
  {
  }

  /** Storing the checker's own reply under trimmed text keeps the cache in
      agreement. */
  lemma StoreAgrees(cache: map<string, Response>, text: string, checker: string -> Option<Response>)
    requires CacheAgrees(cache, checker) && Trim(text) == text && checker(text).Some?
    ensures CacheAgrees(cache[Trim(text) := checker(text).value], checker)
  {
  }

  /** A blank sentence: the checker answers with an empty action list (the
      server's rule for a sentence without tokens), so it yields nothing. */
  lemma BlankReplyYieldsNothing(reply: Option<Response>, pos: int, ignored: set<ErrorKey>)
    requires reply.Some? ==> reply.value.actions == Some([])
    ensures SentenceRanges(reply, pos, ignored) == []
  {
  }

  /** The module-level `grammarCheckApiCache`, together with a log of the
      texts sent to the checker. */
  class GrammarCheckClient {
    var cache: map<string, Response>
    var sent: seq<string>

    constructor ()
      ensures cache == map[] && sent == []
    {
      cache := map[];
      sent := [];
    }

    predicate Consistent(checker: string -> Option<Response>)
      reads this
    {
      CacheAgrees(cache, checker)
    }

    /** `callGrammarCheckApi(sentenceText)`: a hit returns the cached reply
        and sends nothing; a miss sends the text and caches a successful
        reply under the trimmed text; a failure caches nothing. */
    method CallGrammarCheckApi(sentenceText: string, checker: string -> Option<Response>)
      returns (reply: Option<Response>)
      modifies this
      ensures reply == Served(old(cache), sentenceText, checker)
      ensures Trim(sentenceText) in old(cache) ==> cache == old(cache) && sent == old(sent)
      ensures Trim(sentenceText) !in old(cache) ==>
                && sent == old(sent) + [sentenceText]
                && cache == (if reply.Some? then old(cache)[Trim(sentenceText) := reply.value] else old(cache))
      ensures reply.Some? ==> Trim(sentenceText) in cache && cache[Trim(sentenceText)] == reply.value
      ensures old(Consistent(checker)) && Trim(sentenceText) == sentenceText ==>
                Consistent(checker) && reply == checker(sentenceText)
    {
      var cacheKey := Trim(sentenceText);
      if cacheKey in cache {
        reply := Some(cache[cacheKey]);
        return;
      }
      sent := sent + [sentenceText];
      reply := checker(sentenceText);
      if reply.Some? {
        cache := cache[cacheKey := reply.value];
      }
    }

    /** `fetchSentenceSyntaxCheck(sentenceText, pos)`: the parsed ranges of
        the reply, and `[]` when the call fails or the reply has no action
        list. */
    method FetchSentenceSyntaxCheck(sentenceText: string, pos: int, ignored: set<ErrorKey>,
                                    checker: string -> Option<Response>)
      returns (ranges: seq<ErrorRange>)
      modifies this
      ensures ranges == SentenceRanges(Served(old(cache), sentenceText, checker), pos, ignored)
      ensures Trim(sentenceText) in old(cache) ==> cache == old(cache) && sent == old(sent)
      ensures Trim(sentenceText) !in old(cache) ==>
                && sent == old(sent) + [sentenceText]
                && cache == (if Served(old(cache), sentenceText, checker).Some?
                             then old(cache)[Trim(sentenceText) := Served(old(cache), sentenceText, checker).value]
                             else old(cache))
      ensures Served(old(cache), sentenceText, checker).Some? ==>
                Trim(sentenceText) in cache && cache[Trim(sentenceText)] == Served(old(cache), sentenceText, checker).value
      ensures old(Consistent(checker)) && Trim(sentenceText) == sentenceText ==> Consistent(checker)
      ensures old(Consistent(checker)) && Trim(sentenceText) == sentenceText ==>
                ranges == SentenceRanges(checker(sentenceText), pos, ignored)
      ensures forall r :: r in ranges ==> KeyOf(r.action) !in ignored
    {
      var data := CallGrammarCheckApi(sentenceText, checker);
      if data.None? || data.value.actions.None? {
        ranges := [];
        return;
      }
      ranges := ParseApiActionsToRanges(data.value.actions.value, pos, ignored);
      ParsedRangesAnchored(data.value.actions.value, pos, ignored);
    }
  }
}
