/**
 * Word-level highlighting (`highlightSuggestions.js`): the text is split
 * into words, each word index is marked by the last action that covers it,
 * and the words are laid out as HTML, marked words wrapped in a
 * `suggestion` span, separated by single spaces.
 */
module Highlight {
  import opened Text
  import opened Types

  // ---------------------------------------------------------------------
  // splitWords: `text.trim().split(/\s+/)`
  // ---------------------------------------------------------------------

  /** The first white-space index at or after `i`, or `|s|`. */
  function NextWhitespace(s: string, i: nat): (k: nat)
    requires i <= |s|
    ensures i <= k <= |s|
    ensures k < |s| ==> IsWhitespace(s[k])
    ensures forall j :: i <= j < k ==> !IsWhitespace(s[j])
    decreases |s| - i
  {
    if i == |s| || IsWhitespace(s[i]) then i else NextWhitespace(s, i + 1)
  }

  /** `s.split(/\s+/)` for a string that does not start with white space:
      the pieces between maximal runs of white space. */
  function Pieces(s: string): seq<string>
    decreases |s|
  {
    var k := NextWhitespace(s, 0);
    if k == |s| then [s]
    else
      var next := SkipWhitespace(s, k);
      assert next > k;
      [s[..k]] + Pieces(s[next..])
  }

  /** `splitWords(text)`. */
  function SplitWords(text: string): seq<string> {
    Pieces(Trim(text))
  }

  lemma {:induction false} PiecesHaveNoWhitespace(s: string)
    ensures |Pieces(s)| >= 1
    ensures forall w :: w in Pieces(s) ==> HasNoWhitespace(w)
    decreases |s|
  {
    var k := NextWhitespace(s, 0);
    forall j | 0 <= j < k ensures !IsWhitespace(s[..k][j]) {
      assert s[..k][j] == s[j];
    }
    if k < |s| {
      PiecesHaveNoWhitespace(s[SkipWhitespace(s, k)..]);
    } else {
      assert s[..k] == s;
    }
  }

  lemma {:induction false} PiecesNonEmpty(s: string)
    requires s != [] && !IsWhitespace(s[0]) && !IsWhitespace(s[|s| - 1])
    ensures forall w :: w in Pieces(s) ==> w != []
    decreases |s|
  {
    var k := NextWhitespace(s, 0);
    if k < |s| {
      var next := SkipWhitespace(s, k);
      var rest := s[next..];
      assert rest[0] == s[next] && rest[|rest| - 1] == s[|s| - 1];
      PiecesNonEmpty(rest);
    }
  }

  /** No word holds white space; a text with a character that is not white
      space yields only non-empty words; a blank text yields the single
      empty word. */
  lemma SplitWordsShape(text: string)
    ensures |SplitWords(text)| >= 1
    ensures forall w :: w in SplitWords(text) ==> HasNoWhitespace(w)
    ensures !IsBlank(text) ==> forall w :: w in SplitWords(text) ==> w != []
    ensures IsBlank(text) ==> SplitWords(text) == [""]
  {
    var t := Trim(text);
    TrimShape(text);
    PiecesHaveNoWhitespace(t);
    if !IsBlank(text) {
      PiecesNonEmpty(t);
    } else {
      assert t == [];
      assert NextWhitespace(t, 0) == 0;
    }
  }

  /** `words.join(' ')`, from index `i` on. */
  function JoinFrom(words: seq<string>, i: nat): string
    requires i <= |words|
    decreases |words| - i
  {
    if i == |words| then []
    else words[i] + (if i != |words| - 1 then " " else "") + JoinFrom(words, i + 1)
  }

  /** A list of words that `splitWords` can produce from a non-blank text. */
  predicate ProperWords(words: seq<string>) {
    |words| >= 1 && forall j :: 0 <= j < |words| ==> words[j] != [] && HasNoWhitespace(words[j])
  }

  /** A word without white space is a single piece. */
  lemma PiecesOfWord(w: string)
    requires HasNoWhitespace(w)
    ensures Pieces(w) == [w]
  {
  }

  /** A word, a space and a text that starts with a word split into the
      word followed by the pieces of the text. */
  lemma PiecesOfJoin(w: string, rest: string)
    requires HasNoWhitespace(w) && rest != [] && !IsWhitespace(rest[0])
    ensures Pieces(w + " " + rest) == [w] + Pieces(rest)
  {
    var s := w + " " + rest;
    assert forall j :: 0 <= j < |w| ==> s[j] == w[j];
    assert s[|w|] == ' ' && s[|w| + 1] == rest[0];
    assert NextWhitespace(s, 0) == |w|;
    assert SkipWhitespace(s, |w|) == |w| + 1;
    assert s[..|w|] == w && s[|w| + 1..] == rest;
  }

  lemma JoinFromLast(words: seq<string>, i: nat)
    requires i == |words| - 1
    ensures JoinFrom(words, i) == words[i]
  {
    assert JoinFrom(words, i + 1) == [];
    assert words[i] + "" + [] == words[i];
  }

  lemma {:induction false} SplitJoinFrom(words: seq<string>, i: nat)
    requires ProperWords(words) && i < |words|
    ensures Pieces(JoinFrom(words, i)) == words[i..]
    decreases |words| - i
  {
    var w := words[i];
    assert w != [] && HasNoWhitespace(w);
    if i == |words| - 1 {
      JoinFromLast(words, i);
      PiecesOfWord(w);
      assert words[i..] == [w];
    } else {
      var rest := JoinFrom(words, i + 1);
      assert JoinFrom(words, i) == w + " " + rest;
      JoinFromStartsWithWord(words, i + 1);
      PiecesOfJoin(w, rest);
      SplitJoinFrom(words, i + 1);
      assert words[i..] == [w] + words[i + 1..];
    }
  }

  lemma JoinFromStartsWithWord(words: seq<string>, i: nat)
    requires ProperWords(words) && i < |words|
    ensures JoinFrom(words, i) != [] && JoinFrom(words, i)[0] == words[i][0]
  {
  }

  /** Joining proper words with single spaces and splitting again gives the
      words back. */
  lemma SplitJoin(words: seq<string>)
    requires ProperWords(words)
    ensures SplitWords(JoinFrom(words, 0)) == words
  {
    var s := JoinFrom(words, 0);
    SplitJoinFrom(words, 0);
    JoinFromStartsWithWord(words, 0);
    JoinFromEndsWithWord(words, 0);
    TrimOfTrimmed(s);
    assert SplitWords(s) == Pieces(s);
  }

  lemma {:induction false} JoinFromEndsWithWord(words: seq<string>, i: nat)
    requires ProperWords(words) && i < |words|
    ensures JoinFrom(words, i) != [] && JoinFrom(words, i)[|JoinFrom(words, i)| - 1] == words[|words| - 1][|words[|words| - 1]| - 1]
    decreases |words| - i
  {
    JoinUnfold(words, i);
    if i < |words| - 1 {
      JoinFromEndsWithWord(words, i + 1);
      var rest := JoinFrom(words, i + 1);
      var whole := JoinFrom(words, i);
      assert whole == (words[i] + " ") + rest;
      assert whole[|whole| - 1] == rest[|rest| - 1];
    } else {
      assert JoinFrom(words, i + 1) == [];
      assert JoinFrom(words, i) == words[i] + "" + [];
    }
  }

  // ---------------------------------------------------------------------
  // escapeHtml and its inverse
  // ---------------------------------------------------------------------

  /** The replacement of one character: an entity starting with `&` for the
      five special characters, the character itself otherwise. */
  function EscapeChar(c: char): (e: string)
    ensures IsSpecial(c) <==> e != [c]
    ensures IsSpecial(c) ==> |e| > 1 && e[0] == '&'
  {
    if c == '&' then "&amp;"
    else if c == '<' then "&lt;"
    else if c == '>' then "&gt;"
    else if c == '"' then "&quot;"
    else if c == '\'' then "&#39;"
    else [c]
  }

  /** `escapeHtml(str)`. */
  function EscapeHtml(s: string): string {
    if s == [] then [] else EscapeChar(s[0]) + EscapeHtml(s[1..])
  }

  /** Decodes the five entities `escapeHtml` produces. */
  function UnescapeHtml(s: string): string
    decreases |s|
  {
    if s == [] then []
    else if s[0] != '&' then [s[0]] + UnescapeHtml(s[1..])
    else if StartsWith(s, "&amp;") then ['&'] + UnescapeHtml(s[5..])
    else if StartsWith(s, "&lt;") then ['<'] + UnescapeHtml(s[4..])
    else if StartsWith(s, "&gt;") then ['>'] + UnescapeHtml(s[4..])
    else if StartsWith(s, "&quot;") then ['"'] + UnescapeHtml(s[6..])
    else if StartsWith(s, "&#39;") then ['\''] + UnescapeHtml(s[5..])
    else [s[0]] + UnescapeHtml(s[1..])
  }

  predicate IsSpecial(c: char) {
    c == '&' || c == '<' || c == '>' || c == '"' || c == '\''
  }

  /** A prefix whose second character differs from that of `s` does not
      start `s`. */
  lemma NotStartsWith(s: string, prefix: string)
    requires |s| >= 2 && |prefix| >= 2 && s[1] != prefix[1]
    ensures !StartsWith(s, prefix)
  {
    if |prefix| <= |s| {
      assert s[..|prefix|][1] == s[1];
    }
  }

  lemma UnescapeEntity(entity: string, c: char, r: string)
    requires entity in ["&amp;", "&lt;", "&gt;", "&quot;", "&#39;"]
    requires c == UnescapeOf(entity)
    ensures UnescapeHtml(entity + r) == [c] + UnescapeHtml(r)
  {
    var s := entity + r;
    assert s[0] == '&' && s[1] == entity[1];
    assert s[..|entity|] == entity && s[|entity|..] == r;
    if entity != "&amp;" { NotStartsWith(s, "&amp;"); }
    if entity != "&amp;" && entity != "&lt;" { NotStartsWith(s, "&lt;"); }
    if entity == "&quot;" || entity == "&#39;" { NotStartsWith(s, "&gt;"); }
    if entity == "&#39;" { NotStartsWith(s, "&quot;"); }
  }

  /** The character an entity stands for. */
  function UnescapeOf(entity: string): char {
    if entity == "&amp;" then '&'
    else if entity == "&lt;" then '<'
    else if entity == "&gt;" then '>'
    else if entity == "&quot;" then '"'
    else '\''
  }

  lemma UnescapeChar(c: char, r: string)
    ensures UnescapeHtml(EscapeChar(c) + r) == [c] + UnescapeHtml(r)
  {
    if IsSpecial(c) {
      UnescapeEntity(EscapeChar(c), c, r);
    } else {
      var s := EscapeChar(c) + r;
      assert s[0] == c && s[1..] == r;
    }
  }

  lemma {:induction false} UnescapeEscapeAppend(a: string, b: string)
    ensures UnescapeHtml(EscapeHtml(a) + b) == a + UnescapeHtml(b)
  {
    if a != [] {
      var t := EscapeHtml(a[1..]) + b;
      EscapeCons(a, b);
      UnescapeChar(a[0], t);
      UnescapeEscapeAppend(a[1..], b);
      ConsRegroup(a, UnescapeHtml(b));
    } else {
      assert EscapeHtml(a) + b == b;
      assert a + UnescapeHtml(b) == UnescapeHtml(b);
    }
  }

  lemma EscapeCons(a: string, b: string)
    requires a != []
    ensures EscapeHtml(a) + b == EscapeChar(a[0]) + (EscapeHtml(a[1..]) + b)
  {
    assert EscapeHtml(a) == EscapeChar(a[0]) + EscapeHtml(a[1..]);
    AppendAssoc(EscapeChar(a[0]), EscapeHtml(a[1..]), b);
  }

  lemma ConsRegroup(a: string, x: string)
    requires a != []
    ensures [a[0]] + (a[1..] + x) == a + x
  {
    assert a == [a[0]] + a[1..];
  }

  /** Escaping loses nothing: unescaping gives the text back. */
  lemma EscapeRoundTrip(s: string)
    ensures UnescapeHtml(EscapeHtml(s)) == s
  {
    UnescapeEscapeAppend(s, []);
    assert EscapeHtml(s) + [] == EscapeHtml(s);
  }

  /** Escaping works character by character. */
  lemma {:induction false} EscapeAppend(a: string, b: string)
    ensures EscapeHtml(a + b) == EscapeHtml(a) + EscapeHtml(b)
  {
    if a != [] {
      assert (a + b)[0] == a[0] && (a + b)[1..] == a[1..] + b;
      EscapeAppend(a[1..], b);
      calc {
        EscapeHtml(a + b);
        EscapeChar(a[0]) + EscapeHtml(a[1..] + b);
        EscapeChar(a[0]) + (EscapeHtml(a[1..]) + EscapeHtml(b));
        (EscapeChar(a[0]) + EscapeHtml(a[1..])) + EscapeHtml(b);
      }
    } else {
      assert a + b == b;
    }
  }

  /** The escaped text holds no raw `<`, `>`, `"` or `'`, and a text without
      any of the five special characters is left as it is. */
  lemma {:induction false} EscapeIsSafe(s: string)
    ensures forall i :: 0 <= i < |EscapeHtml(s)| ==>
              EscapeHtml(s)[i] != '<' && EscapeHtml(s)[i] != '>' && EscapeHtml(s)[i] != '"' && EscapeHtml(s)[i] != '\''
    ensures (forall i :: 0 <= i < |s| ==> !IsSpecial(s[i])) ==> EscapeHtml(s) == s
  {
    if s != [] {
      EscapeIsSafe(s[1..]);
      var e := EscapeChar(s[0]);
      var rest := EscapeHtml(s[1..]);
      forall i | 0 <= i < |e + rest|
        ensures (e + rest)[i] != '<' && (e + rest)[i] != '>' && (e + rest)[i] != '"' && (e + rest)[i] != '\''
      {
        if i >= |e| {
          assert (e + rest)[i] == rest[i - |e|];
        }
      }
      if forall i :: 0 <= i < |s| ==> !IsSpecial(s[i]) {
        assert !IsSpecial(s[0]);
        assert forall i :: 0 <= i < |s[1..]| ==> !IsSpecial(s[1..][i]) by {
          forall i | 0 <= i < |s[1..]| ensures !IsSpecial(s[1..][i]) { assert s[1..][i] == s[i + 1]; }
        }
        assert s == [s[0]] + s[1..];
      }
    }
  }

  // ---------------------------------------------------------------------
  // Marking words
  // ---------------------------------------------------------------------

  /** An action as highlighting receives it: the fields it reads, `action`
      and the word indices `start` and `end`, and every other field as
      name/JSON-value pairs in the object's order, which only
      `JSON.stringify` sees. */
  datatype WordAction = WordAction(name: Option<string>, start: Option<int>, end: Option<int>,
                                   others: seq<(string, string)>)

  /** `action.action && action.action.startsWith('$APPEND_')` */
  predicate IsAppend(a: WordAction) {
    a.name.Some? && a.name.value != [] && StartsWith(a.name.value, AppendPrefix)
  }

  /** Whether action `a` marks word `i`: an insertion marks the word before
      its end; any other action marks the words in `[start, end)`. A missing
      bound compares false in JavaScript, so it marks nothing. */
  predicate Covers(a: WordAction, i: int) {
    if IsAppend(a) then a.end.Some? && i == a.end.value - 1
    else a.start.Some? && a.end.Some? && a.start.value <= i < a.end.value
  }

  /** The mark of word `i` once `actions[..k]` have been applied: the last of
      them that covers `i`. */
  function MarkAfter(actions: seq<WordAction>, k: nat, i: int): Option<WordAction>
    requires k <= |actions|
  {
    if k == 0 then None
    else if Covers(actions[k - 1], i) then Some(actions[k - 1])
    else MarkAfter(actions, k - 1, i)
  }

  /** When several actions cover a word the last one wins; a word no action
      covers stays unmarked. */
  lemma {:induction false} LastCoverWins(actions: seq<WordAction>, k: nat, i: int)
    requires k <= |actions|
    ensures MarkAfter(actions, k, i).None? <==> forall j :: 0 <= j < k ==> !Covers(actions[j], i)
    ensures MarkAfter(actions, k, i).Some? ==>
              exists j :: 0 <= j < k && MarkAfter(actions, k, i) == Some(actions[j]) && Covers(actions[j], i)
                          && forall l :: j < l < k ==> !Covers(actions[l], i)
  {
    if k > 0 && !Covers(actions[k - 1], i) {
      LastCoverWins(actions, k - 1, i);
      if MarkAfter(actions, k, i).Some? {
        var j :| 0 <= j < k - 1 && MarkAfter(actions, k - 1, i) == Some(actions[j]) && Covers(actions[j], i)
                 && forall l :: j < l < k - 1 ==> !Covers(actions[l], i);
        assert forall l :: j < l < k ==> !Covers(actions[l], i);
      }
    }
  }

  /** An insertion marks exactly the word before its end; any other action
      marks exactly the words of its span. */
  lemma SingleActionMarks(a: WordAction, i: int)
    ensures MarkAfter([a], 1, i) == Some(a) <==>
            if IsAppend(a) then a.end.Some? && i == a.end.value - 1
            else a.start.Some? && a.end.Some? && a.start.value <= i < a.end.value
  {
  }

  // ---------------------------------------------------------------------
  // Layout
  // ---------------------------------------------------------------------

  /** The HTML of one word; `stringify` stands for `JSON.stringify`. */
  function WordHtml(w: string, mark: Option<WordAction>, stringify: WordAction -> string): string {
    if mark.Some? then SuggestionSpan(stringify(mark.value), EscapeHtml(w)) else EscapeHtml(w)
  }

  /** The highlight element around a marked word, carrying the serialized
      action in its `data-action` attribute. */
  function SuggestionSpan(actionJson: string, inner: string): string {
    "<span class=\"suggestion\" data-action='" + actionJson + "'>" + inner + "</span>"
  }

  /** The HTML of each word under its mark. */
  function WordHtmls(words: seq<string>, marks: seq<Option<WordAction>>, stringify: WordAction -> string): seq<string>
    requires |words| == |marks|
  {
    seq(|words|, i requires 0 <= i < |words| => WordHtml(words[i], marks[i], stringify))
  }

  /** The new inner HTML: the words' HTML joined by single spaces. */
  function Layout(words: seq<string>, marks: seq<Option<WordAction>>, stringify: WordAction -> string): string
    requires |words| == |marks|
  {
    JoinFrom(WordHtmls(words, marks, stringify), 0)
  }

  /** The marks of the words once all actions are applied. */
  function Marks(actions: seq<WordAction>, n: nat): (marks: seq<Option<WordAction>>)
    ensures |marks| == n
    ensures forall i :: 0 <= i < n ==> marks[i] == MarkAfter(actions, |actions|, i)
  {
    seq(n, i requires 0 <= i < n => MarkAfter(actions, |actions|, i))
  }

  /** The `markMap` loop of `highlightSuggestions`: applies the actions in
      order, each overwriting the marks of the words it covers. */
  method MarkWords(wordCount: nat, actions: seq<WordAction>) returns (markMap: array<Option<WordAction>>)
    ensures fresh(markMap)
    ensures markMap[..] == Marks(actions, wordCount)
  {
    markMap := new Option<WordAction>[wordCount](_ => None);
    for k := 0 to |actions|
      invariant markMap.Length == wordCount
      invariant forall j :: 0 <= j < wordCount ==> markMap[j] == MarkAfter(actions, k, j)
    {
      var action := actions[k];
      for i := 0 to wordCount
        invariant forall j :: 0 <= j < i ==> markMap[j] == MarkAfter(actions, k + 1, j)
        invariant forall j :: i <= j < wordCount ==> markMap[j] == MarkAfter(actions, k, j)
      {
        if IsAppend(action) {
          if action.end.Some? && i == action.end.value - 1 {
            markMap[i] := Some(action);
          }
        } else {
          if action.start.Some? && action.end.Some? && i >= action.start.value && i < action.end.value {
            markMap[i] := Some(action);
          }
        }
      }
    }
  }

  /** The first `n` pieces joined by single spaces, each followed by a
      space unless it is the last piece: the join built from the left. */
  function JoinUpTo(pieces: seq<string>, n: nat): string
    requires n <= |pieces|
  {
    if n == 0 then []
    else JoinUpTo(pieces, n - 1) + pieces[n - 1] + (if n - 1 != |pieces| - 1 then " " else "")
  }

  /** Joining from the left and from the right agree: the join of the first
      `k` pieces followed by the join of the rest is the whole join. */
  lemma {:induction false} JoinSplit(pieces: seq<string>, k: nat)
    requires k <= |pieces|
    ensures JoinUpTo(pieces, k) + JoinFrom(pieces, k) == JoinFrom(pieces, 0)
  {
    if k == 0 {
      AppendNil(JoinFrom(pieces, 0));
    } else {
      JoinSplit(pieces, k - 1);
      JoinUnfold(pieces, k - 1);
      AppendRegroup(JoinUpTo(pieces, k - 1), pieces[k - 1], if k - 1 != |pieces| - 1 then " " else "",
                    JoinFrom(pieces, k));
    }
  }

  /** The HTML-building loop of `highlightSuggestions`. */
  method LayoutWords(words: seq<string>, markMap: array<Option<WordAction>>, stringify: WordAction -> string)
    returns (html: string)
    requires markMap.Length == |words|
    ensures html == Layout(words, markMap[..], stringify)
  {
    ghost var pieces := WordHtmls(words, markMap[..], stringify);
    html := "";
    for i := 0 to |words|
      invariant html == JoinUpTo(pieces, i)
    {
      var wordHtml := WordHtml(words[i], markMap[i], stringify);
      html := html + wordHtml;
      if i != |words| - 1 {
        html := html + " ";
      }
    }
    JoinSplit(pieces, |words|);
    AppendNil(html);
  }

  /** `highlightSuggestions(node, result)` on the node's text: `None` when
      `result.actions` is not a list (the node is left alone), otherwise the
      new inner HTML. */
  method HighlightSuggestions(text: string, actions: Option<seq<WordAction>>, stringify: WordAction -> string)
    returns (html: Option<string>)
    ensures actions.None? <==> html.None?
    ensures actions.Some? ==>
              var words := SplitWords(text);
              html == Some(Layout(words, Marks(actions.value, |words|), stringify))
  {
    if actions.None? {
      return None;
    }
    var words := SplitWords(text);
    var markMap := MarkWords(|words|, actions.value);
    var out := LayoutWords(words, markMap, stringify);
    return Some(out);
  }

  /** Without marks the layout is the escaped words joined by spaces. */
  lemma {:induction false} UnmarkedLayout(words: seq<string>, marks: seq<Option<WordAction>>, i: nat,
                                          stringify: WordAction -> string)
    requires i <= |words| == |marks|
    requires forall j :: 0 <= j < |marks| ==> marks[j].None?
    ensures JoinFrom(WordHtmls(words, marks, stringify), i) == EscapeHtml(JoinFrom(words, i))
    decreases |words| - i
  {
    var pieces := WordHtmls(words, marks, stringify);
    if i < |words| {
      EscapeJoinUnfold(words, i);
      UnmarkedLayout(words, marks, i + 1, stringify);
      JoinUnfold(pieces, i);
      assert pieces[i] == EscapeHtml(words[i]);
    } else {
      assert EscapeHtml([]) == [];
    }
  }

  /** Escaping the joined words escapes the first word, keeps the space and
      escapes the rest. */
  lemma EscapeJoinUnfold(words: seq<string>, i: nat)
    requires i < |words|
    ensures EscapeHtml(JoinFrom(words, i))
            == EscapeHtml(words[i]) + (if i != |words| - 1 then " " else "") + EscapeHtml(JoinFrom(words, i + 1))
  {
    var sep: string := if i != |words| - 1 then " " else "";
    JoinUnfold(words, i);
    EscapeSeparator(sep);
    EscapeAppend(words[i] + sep, JoinFrom(words, i + 1));
    EscapeAppend(words[i], sep);
  }

  lemma JoinUnfold(words: seq<string>, i: nat)
    requires i < |words|
    ensures JoinFrom(words, i) == words[i] + (if i != |words| - 1 then " " else "") + JoinFrom(words, i + 1)
  {
  }

  lemma EscapeSeparator(sep: string)
    requires sep == " " || sep == ""
    ensures EscapeHtml(sep) == sep
  {
    if sep == " " {
      assert sep[1..] == [];
    }
  }

  /** When no action marks a word of a non-blank text, the HTML's text is
      the words of the text joined by single spaces, and splitting it again
      gives the same words. */
  lemma UnmarkedHtmlKeepsWords(text: string, stringify: WordAction -> string)
    requires !IsBlank(text)
    ensures var words := SplitWords(text);
            var html := Layout(words, Marks([], |words|), stringify);
            UnescapeHtml(html) == JoinFrom(words, 0) && SplitWords(UnescapeHtml(html)) == words
  {
    var words := SplitWords(text);
    SplitWordsShape(text);
    UnmarkedLayout(words, Marks([], |words|), 0, stringify);
    EscapeRoundTrip(JoinFrom(words, 0));
    assert ProperWords(words) by {
      forall j | 0 <= j < |words| ensures words[j] != [] && HasNoWhitespace(words[j]) {
        assert words[j] in words;
      }
    }
    SplitJoin(words);
  }
}
