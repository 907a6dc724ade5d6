/**
 * The sentence segmenter (`splitIntoSentences`): a text is cut after every
 * run of `.`, `!` or `?`; each piece is trimmed, blank pieces are dropped,
 * and each sentence remembers the UNTRIMMED start of its piece.
 */
module Sentences {
  import opened Text

  /** `{ text, offset }`: a trimmed sentence and the start of its untrimmed piece. */
  datatype Sentence = Sentence(text: string, offset: nat)

  /** The character class of the pattern `/[.!?]+/`. */
  predicate IsTerminal(c: char) {
    c == '.' || c == '!' || c == '?'
  }

  predicate HasNoTerminal(s: string) {
    forall i :: 0 <= i < |s| ==> !IsTerminal(s[i])
  }

  /** Where the global pattern's next match starts when searching from
      `from`: the first terminal character at or after `from`, or `|text|`
      when there is none (the search fails). */
  function NextTerminal(text: string, from: nat): (k: nat)
    requires from <= |text|
    ensures from <= k <= |text|
    ensures k < |text| ==> IsTerminal(text[k])
    ensures forall j :: from <= j < k ==> !IsTerminal(text[j])
    decreases |text| - from
  {
    if from == |text| || IsTerminal(text[from]) then from else NextTerminal(text, from + 1)
  }

  /** Where a greedy match of `[.!?]+` that starts at `start` ends. */
  function RunEnd(text: string, start: nat): (e: nat)
    requires start <= |text|
    ensures start <= e <= |text|
    ensures forall j :: start <= j < e ==> IsTerminal(text[j])
    ensures e < |text| ==> !IsTerminal(text[e])
    decreases |text| - start
  {
    if start < |text| && IsTerminal(text[start]) then RunEnd(text, start + 1) else start
  }

  /** End of the piece that starts at `last`: the end of the next run of
      terminal characters, or `|text|` for the final remainder, which then
      holds no terminal character. */
  function PieceEnd(text: string, last: nat): (e: nat)
    requires last <= |text|
    ensures last <= e <= |text|
    ensures (e == |text| && forall j :: last <= j < |text| ==> !IsTerminal(text[j]))
         || (last < e && IsTerminal(text[e - 1]) && (e == |text| || !IsTerminal(text[e])))
  {
    var k := NextTerminal(text, last);
    if k == |text| then |text| else RunEnd(text, k)
  }

  /** The sentence the piece starting at `last` contributes: none when the
      piece is blank. */
  function PieceSentence(text: string, last: nat): seq<Sentence>
    requires last <= |text|
  {
    var sentence := Trim(text[last..PieceEnd(text, last)]);
    if |sentence| > 0 then [Sentence(sentence, last)] else []
  }

  /** The sentences of `text[last..]`, where `last` is where the previous
      match ended: the specification the segmenting loop is proved against. */
  function SplitFrom(text: string, last: nat): seq<Sentence>
    requires last <= |text|
    decreases |text| - last
  {
    var e := PieceEnd(text, last);
    if e == |text| then PieceSentence(text, last)
    else PieceSentence(text, last) + SplitFrom(text, e)
  }

  function Split(text: string): seq<Sentence> {
    SplitFrom(text, 0)
  }

  /** `splitIntoSentences(text)`: the regular-expression loop, with
      `lastIndex` advancing to the end of each match. */
  method SplitIntoSentences(text: string) returns (sentences: seq<Sentence>)
    ensures sentences == Split(text)
  {
    sentences := [];
    var lastIndex := 0;
    var matchIndex := NextTerminal(text, 0);
    while matchIndex < |text|
      invariant lastIndex <= matchIndex <= |text|
      invariant matchIndex == NextTerminal(text, lastIndex)
      invariant sentences + SplitFrom(text, lastIndex) == Split(text)
      decreases |text| - lastIndex
    {
      var endIndex := RunEnd(text, matchIndex);
      var sentence := Trim(text[lastIndex..endIndex]);
      MatchStep(text, lastIndex, sentences);
      if |sentence| > 0 {
        sentences := sentences + [Sentence(sentence, lastIndex)];
      }
      lastIndex := endIndex;
      matchIndex := NextTerminal(text, lastIndex);
    }
    FinalStep(text, lastIndex);
    var remaining := Trim(text[lastIndex..]);
    if |remaining| > 0 {
      sentences := sentences + [Sentence(remaining, lastIndex)];
    }
  }

  /** A match at `NextTerminal` ends the piece that starts at `last`. */
  lemma MatchEndsPiece(text: string, last: nat)
    requires last <= |text| && NextTerminal(text, last) < |text|
    ensures PieceEnd(text, last) == RunEnd(text, NextTerminal(text, last))
    ensures SplitFrom(text, last) == PieceSentence(text, last) + SplitFrom(text, PieceEnd(text, last))
  {
    var e := PieceEnd(text, last);
    if e == |text| {
      assert SplitFrom(text, e) == [] by {
        assert PieceEnd(text, e) == e;
        assert Trim(text[e..e]) == [];
      }
    }
  }

  /** One iteration of the loop, stated on what it has collected so far. */
  lemma MatchStep(text: string, last: nat, done: seq<Sentence>)
    requires last <= |text| && NextTerminal(text, last) < |text|
    ensures PieceEnd(text, last) == RunEnd(text, NextTerminal(text, last))
    ensures var e := PieceEnd(text, last);
            var sentence := Trim(text[last..e]);
            && (|sentence| > 0 ==> done + SplitFrom(text, last) == (done + [Sentence(sentence, last)]) + SplitFrom(text, e))
            && (|sentence| == 0 ==> done + SplitFrom(text, last) == done + SplitFrom(text, e))
  {
    MatchEndsPiece(text, last);
    var e := PieceEnd(text, last);
    var head := PieceSentence(text, last);
    var rest := SplitFrom(text, e);
    assert done + (head + rest) == (done + head) + rest;
    if |Trim(text[last..e])| > 0 {
      assert head == [Sentence(Trim(text[last..e]), last)];
    } else {
      assert head == [] && done + head == done;
    }
  }

  /** After the last match: the remainder is the final piece. */
  lemma FinalStep(text: string, last: nat)
    requires last <= |text| && NextTerminal(text, last) == |text|
    ensures var sentence := Trim(text[last..]);
            && (|sentence| > 0 ==> SplitFrom(text, last) == [Sentence(sentence, last)])
            && (|sentence| == 0 ==> SplitFrom(text, last) == [])
  {
    assert PieceEnd(text, last) == |text|;
    assert text[last..] == text[last..|text|];
  }

  // ---------------------------------------------------------------------
  // Properties of the segmentation
  // ---------------------------------------------------------------------

  /** What one piece contributes: at most one sentence, at the piece's
      start, whose text is the trim of the piece, is non-empty and carries
      no white space at either end. */
  lemma PieceSentenceShape(text: string, last: nat)
    requires last <= |text|
    ensures |PieceSentence(text, last)| <= 1
    ensures |PieceSentence(text, last)| == 1 <==> !IsBlank(text[last..PieceEnd(text, last)])
    ensures forall s :: s in PieceSentence(text, last) ==>
              && s.offset == last < PieceEnd(text, last)
              && s.text == Trim(text[last..PieceEnd(text, last)])
              && s.text != [] && !IsWhitespace(s.text[0]) && !IsWhitespace(s.text[|s.text| - 1])
              && Trim(s.text) == s.text
  {
    var piece := text[last..PieceEnd(text, last)];
    TrimShape(piece);
    TrimIdempotent(piece);
  }

  /** Unfolds `SplitFrom` once: the first piece's sentence, then the rest. */
  lemma SplitFromUnfold(text: string, last: nat)
    requires last <= |text|
    ensures PieceEnd(text, last) == |text| ==> SplitFrom(text, last) == PieceSentence(text, last)
    ensures PieceEnd(text, last) < |text| ==>
              SplitFrom(text, last) == PieceSentence(text, last) + SplitFrom(text, PieceEnd(text, last))
  {
  }

  /** Every sentence is non-empty and carries no white space at either end,
      so it is its own trim. */
  lemma {:induction false} SentencesTrimmed(text: string, last: nat)
    requires last <= |text|
    ensures forall s :: s in SplitFrom(text, last) ==>
              s.text != [] && !IsWhitespace(s.text[0]) && !IsWhitespace(s.text[|s.text| - 1])
              && Trim(s.text) == s.text
    decreases |text| - last
  {
    PieceSentenceShape(text, last);
    SplitFromUnfold(text, last);
    var e := PieceEnd(text, last);
    if e < |text| {
      SentencesTrimmed(text, e);
    }
  }

  /** The offsets of `ss` lie in `[lo, hi)` and strictly increase. */
  predicate IncreasingOffsets(ss: seq<Sentence>, lo: int, hi: int) {
    && (forall i :: 0 <= i < |ss| ==> lo <= ss[i].offset < hi)
    && (forall i, j :: 0 <= i < j < |ss| ==> ss[i].offset < ss[j].offset)
  }

  lemma IncreasingOffsetsConcat(head: seq<Sentence>, rest: seq<Sentence>, lo: int, mid: int, hi: int)
    requires IncreasingOffsets(head, lo, mid) && IncreasingOffsets(rest, mid, hi) && lo <= mid <= hi
    ensures IncreasingOffsets(head + rest, lo, hi)
  {
    var ss := head + rest;
    forall i | 0 <= i < |ss| ensures lo <= ss[i].offset < hi {
      if i < |head| { assert ss[i] == head[i]; } else { assert ss[i] == rest[i - |head|]; }
    }
    forall i, j | 0 <= i < j < |ss| ensures ss[i].offset < ss[j].offset {
      if j < |head| {
        assert ss[i] == head[i] && ss[j] == head[j];
      } else if i >= |head| {
        assert ss[i] == rest[i - |head|] && ss[j] == rest[j - |head|];
      } else {
        assert ss[i] == head[i] && ss[j] == rest[j - |head|];
      }
    }
  }

  /** Offsets strictly increase, start at or after `last` and stay inside
      the text. */
  lemma {:induction false} OffsetsIncrease(text: string, last: nat)
    requires last <= |text|
    ensures IncreasingOffsets(SplitFrom(text, last), last, |text|)
    decreases |text| - last
  {
    PieceSentenceShape(text, last);
    SplitFromUnfold(text, last);
    var e := PieceEnd(text, last);
    var head := PieceSentence(text, last);
    if |head| == 1 {
      assert head[0] in head;
    }
    assert IncreasingOffsets(head, last, e);
    if e < |text| {
      OffsetsIncrease(text, e);
      IncreasingOffsetsConcat(head, SplitFrom(text, e), last, e, |text|);
    }
  }


  /** Each sentence is the trim of the piece from its offset to the end of
      the next run of terminal characters (or to the end of the text); its
      offset is the untrimmed start of that piece. */
  lemma {:induction false} SentenceIsTrimmedPiece(text: string, last: nat)
    requires last <= |text|
    ensures forall s :: s in SplitFrom(text, last) ==>
              last <= s.offset <= |text| &&
              s.text == Trim(text[s.offset..PieceEnd(text, s.offset)])
    decreases |text| - last
  {
    PieceSentenceShape(text, last);
    SplitFromUnfold(text, last);
    var e := PieceEnd(text, last);
    if e < |text| {
      SentenceIsTrimmedPiece(text, e);
    }
  }

  /** Pieces are cut only between runs: a sentence starts at the beginning
      of the text or right after a terminal character that is not followed
      by another, and its piece ends at the end of the text or right after a
      terminal character that is not followed by another. A run such as
      `?!` or `...` is therefore never split across two sentences. */
  lemma {:induction false} RunsNeverSplit(text: string, last: nat)
    requires last < |text|
    requires last == 0 || (IsTerminal(text[last - 1]) && !IsTerminal(text[last]))
    ensures forall s :: s in SplitFrom(text, last) ==>
              && s.offset < |text|
              && (s.offset == 0 || (IsTerminal(text[s.offset - 1]) && !IsTerminal(text[s.offset])))
              && (PieceEnd(text, s.offset) == |text|
                  || (IsTerminal(text[PieceEnd(text, s.offset) - 1]) && !IsTerminal(text[PieceEnd(text, s.offset)])))
    decreases |text| - last
  {
    PieceSentenceShape(text, last);
    SplitFromUnfold(text, last);
    var e := PieceEnd(text, last);
    if e < |text| {
      RunsNeverSplit(text, e);
    }
  }

  /** Trimming adds no terminal character. */
  lemma TrimHasNoTerminal(piece: string)
    requires HasNoTerminal(piece)
    ensures HasNoTerminal(Trim(piece))
  {
    forall j | 0 <= j < |Trim(piece)| ensures !IsTerminal(Trim(piece)[j]) {
      TrimChars(piece, j);
    }
  }

  /** The sentence of one piece ends with a terminal character unless the
      piece is the final remainder, which holds none. */
  lemma PieceSentenceEnding(text: string, last: nat)
    requires last <= |text|
    ensures forall s :: s in PieceSentence(text, last) ==>
              s.text != [] &&
              (IsTerminal(s.text[|s.text| - 1])
               || (PieceEnd(text, last) == |text| && HasNoTerminal(s.text)))
  {
    var e := PieceEnd(text, last);
    var piece := text[last..e];
    var t := Trim(piece);
    if t != [] {
      assert PieceSentence(text, last) == [Sentence(t, last)];
      if last < e && IsTerminal(text[e - 1]) {
        assert IsTerminal(t[|t| - 1]) by {
          assert piece[|piece| - 1] == text[e - 1];
          TrimKeepsLast(piece);
        }
      } else {
        assert e == |text|;
        assert HasNoTerminal(t) by {
          assert HasNoTerminal(piece) by {
            forall j | 0 <= j < |piece| ensures !IsTerminal(piece[j]) {
              assert piece[j] == text[last + j];
            }
          }
          TrimHasNoTerminal(piece);
        }
      }
    } else {
      assert PieceSentence(text, last) == [];
    }
  }

  /** Every sentence of `ss` is non-empty and ends with `.`, `!` or `?`,
      except that the last one may instead contain none of them. */
  predicate ProperlyEnded(ss: seq<Sentence>) {
    forall i :: 0 <= i < |ss| ==>
      ss[i].text != [] &&
      (IsTerminal(ss[i].text[|ss[i].text| - 1]) || (i == |ss| - 1 && HasNoTerminal(ss[i].text)))
  }

  lemma ProperlyEndedConcat(head: seq<Sentence>, rest: seq<Sentence>)
    requires forall s :: s in head ==> s.text != [] && IsTerminal(s.text[|s.text| - 1])
    requires ProperlyEnded(rest)
    ensures ProperlyEnded(head + rest)
  {
    var ss := head + rest;
    forall i | 0 <= i < |ss|
      ensures ss[i].text != [] &&
              (IsTerminal(ss[i].text[|ss[i].text| - 1]) || (i == |ss| - 1 && HasNoTerminal(ss[i].text)))
    {
      if i < |head| {
        assert ss[i] == head[i] && head[i] in head;
      } else {
        assert ss[i] == rest[i - |head|];
      }
    }
  }

  /** Every sentence ends with `.`, `!` or `?`, except that the last one may
      instead be the final remainder, which contains none of them. */
  lemma {:induction false} SentenceEndings(text: string, last: nat)
    requires last <= |text|
    ensures ProperlyEnded(SplitFrom(text, last))
    decreases |text| - last
  {
    PieceSentenceShape(text, last);
    PieceSentenceEnding(text, last);
    SplitFromUnfold(text, last);
    var e := PieceEnd(text, last);
    var head := PieceSentence(text, last);
    if |head| == 1 {
      assert head[0] in head;
    }
    if e < |text| {
      SentenceEndings(text, e);
      ProperlyEndedConcat(head, SplitFrom(text, e));
    }
  }

  /** No character that is not white space is lost: each one lies inside
      the piece of some sentence. */
  lemma {:induction false} SentencesCoverText(text: string, last: nat, j: nat)
    requires last <= j < |text| && !IsWhitespace(text[j])
    ensures exists s :: s in SplitFrom(text, last) && s.offset <= j < PieceEnd(text, s.offset)
    decreases |text| - last
  {
    PieceSentenceShape(text, last);
    SplitFromUnfold(text, last);
    var e := PieceEnd(text, last);
    var piece := text[last..e];
    var head := PieceSentence(text, last);
    if j < e {
      assert piece[j - last] == text[j];
      assert |head| == 1;
      assert head[0] in SplitFrom(text, last);
    } else {
      SentencesCoverText(text, e, j);
    }
  }

  /** A blank remainder contributes no sentence. */
  lemma {:induction false} BlankRestHasNoSentences(text: string, last: nat)
    requires last <= |text|
    requires forall j :: last <= j < |text| ==> IsWhitespace(text[j])
    ensures SplitFrom(text, last) == []
    decreases |text| - last
  {
    PieceSentenceShape(text, last);
    SplitFromUnfold(text, last);
    var e := PieceEnd(text, last);
    var piece := text[last..e];
    forall i | 0 <= i < |piece| ensures IsWhitespace(piece[i]) {
      assert piece[i] == text[last + i];
    }
    if e < |text| {
      BlankRestHasNoSentences(text, e);
    }
  }

  /** Empty or blank text has no sentences. */
  lemma BlankHasNoSentences(text: string)
    requires IsBlank(text)
    ensures Split(text) == []
  {
    BlankRestHasNoSentences(text, 0);
  }

  /** Text with no terminal character and a non-blank body is one sentence,
      its trim, at offset 0. */
  lemma NoTerminalIsOneSentence(text: string)
    requires HasNoTerminal(text) && !IsBlank(text)
    ensures Split(text) == [Sentence(Trim(text), 0)]
  {
    assert NextTerminal(text, 0) == |text|;
    assert PieceEnd(text, 0) == |text|;
    assert text[0..|text|] == text;
    TrimShape(text);
  }

  lemma ExampleFirstPiece()
    ensures PieceEnd("Hi! Bye.", 0) == 3 && PieceSentence("Hi! Bye.", 0) == [Sentence("Hi!", 0)]
  {
    var t := "Hi! Bye.";
    assert NextTerminal(t, 0) == 2;
    assert RunEnd(t, 2) == 3;
    var first := t[0..3];
    assert SkipWhitespace(first, 0) == 0;
    assert DropTrailing(first, 0, 3) == 3;
    assert Trim(first) == "Hi!";
  }

  lemma ExampleSecondPiece()
    ensures PieceEnd("Hi! Bye.", 3) == 8 && PieceSentence("Hi! Bye.", 3) == [Sentence("Bye.", 3)]
  {
    var t := "Hi! Bye.";
    assert NextTerminal(t, 3) == 7;
    assert RunEnd(t, 7) == 8;
    var second := t[3..8];
    assert SkipWhitespace(second, 1) == 1;
    assert SkipWhitespace(second, 0) == 1;
    assert DropTrailing(second, 1, 5) == 5;
    assert Trim(second) == "Bye.";
  }

  /** The offset of the second sentence of "Hi! Bye." is 3, the position of
      the space, not 4: offsets are untrimmed. */
  lemma UntrimmedOffsetExample()
    ensures Split("Hi! Bye.") == [Sentence("Hi!", 0), Sentence("Bye.", 3)]
  {
    ExampleFirstPiece();
    ExampleSecondPiece();
    SplitFromUnfold("Hi! Bye.", 0);
    SplitFromUnfold("Hi! Bye.", 3);
  }
}
