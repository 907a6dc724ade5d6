# Grammar-suggestion overlay: a Dafny model of the client pipeline

The web client of the GECToR grammar checker works like this:

- **Sentences.** It splits every text node of the editor document into sentences at runs of `.`, `!` and `?`.
- **Checking.** It sends each trimmed sentence to a remote checker. Replies are memoised by trimmed text.
- **Positions.** It turns the checker's token spans into absolute document positions anchored at `node position + sentence offset`.
- **Ignored errors.** It drops errors whose key `start-end-original` the user has ignored.
- **Highlights.** It keeps only in-bounds, non-empty spans as highlight decorations.
- **Popover.** It shows one popover per suggestion, whose label and confidence band depend on the action. Applying a suggestion edits the document; ignoring it records its key and re-scans.
- **Fallback path.** A separate path marks words of a plain-text node by word index and lays them out as HTML.
- **Node diff.** A diff compares two lists of text nodes index by index.

This project models that pipeline in Dafny 4.11. There is one module per JavaScript file. Each module is written in the file's own form:

- **Loops** become methods with invariants, proved equal to a recursive specification function. Properties are then proved about that function.
- **Module-level state** becomes classes with `modifies` clauses:
  - the reply cache;
  - the ignored-error registry;
  - the editor view;
  - the popover slot.
- **Pure helpers** become functions.

| module | file | source |
|---|---|---|
| `Text` | text.dfy | JavaScript white space, `trim`, `startsWith` |
| `Types` | types.dfy | actions, edit kinds, error keys, document nodes |
| `Sentences` | sentences.dfy | app/src/utils/splitIntoSentences.js |
| `SentenceCheck` | sentence_check.dfy | app/src/utils/fetchSentenceSyntaxCheck.js |
| `DocumentScan` | document_scan.dfy | app/src/utils/checkAllTextNodes.js |
| `SuggestionActions` | suggestion_actions.dfy | app/src/utils/suggestionActions.js |
| `Highlight` | highlight.dfy | app/src/utils/highlightSuggestions.js |
| `TextNodeChanges` | text_node_changes.dfy | app/src/utils/analyzeTextNodeChanges.js |
| `Tooltip` | tooltip.dfy | app/src/utils/tooltip.js |

Stand-ins:

- **The remote checker** is a function parameter `checker: string -> Option<Response>`, where `None` is a failed request.
- **Replies** are memoised in `GrammarCheckClient.cache`. The client also logs what it sends in `sent`, so "no request on a cache hit" can be stated.
- **The ignored-error key** is the triple `ErrorKey(start, end, original)`. `original` is rendered as JavaScript's template literal does, with a missing value printed as `undefined`. The string key is injective on such triples for the integer positions used here.
- **The editor document** is a string. Its traversal for the re-scan is one text node at position 0.
- **`JSON.stringify`** in `highlightSuggestions` is a function parameter.

Three behaviours of the code worth knowing:

- **Sentence offsets.** A sentence's offset is the untrimmed start of its piece. For `"Hi! Bye."` the second sentence, `"Bye."`, has offset 3, the position of the space before it (`Sentences.UntrimmedOffsetExample`).
- **Inverted spans.** Parsing does not require `from < to`: inverted and empty spans pass it, and are dropped only when decorations are built (`SentenceCheck.InvertedSpanKept`, `DocumentScan.DecorationsMembership`).
- **Word splitting.** The trimmed text is split at runs of white space, so no word holds white space and the spacing of the original is not kept (`Highlight.SplitWordsShape`).

## Model

| member | source | states |
|---|---|---|
| Text.SkipWhitespace | app/src/utils/splitIntoSentences.js:13 | the first index at or after `i` that is not white space; everything skipped is white space |
| Text.DropTrailing | app/src/utils/splitIntoSentences.js:13 | the end of a string once trailing white space is dropped; everything dropped is white space |
| Text.TrimShape | app/src/utils/splitIntoSentences.js:13-14 | `trim` gives `''` exactly for blank text; otherwise the result starts and ends with a character that is not white space |
| Text.TrimOfTrimmed | app/src/utils/fetchSentenceSyntaxCheck.js:10 | a string that neither starts nor ends with white space is its own trim |
| Text.TrimIdempotent | app/src/utils/fetchSentenceSyntaxCheck.js:10 | trimming twice equals trimming once, so a trimmed sentence is its own cache key |
| Text.TrimKeepsLast | app/src/utils/splitIntoSentences.js:13 | trimming keeps a last character that is not white space |
| Text.TrimChars | app/src/utils/splitIntoSentences.js:13 | every character of the trimmed string comes from the original |
| Types.KindOf | app/src/utils/suggestionActions.js:18-24 | the edit kind is Append exactly for names with the `$APPEND_` prefix, Delete exactly for `$DELETE` without that prefix, Replace otherwise; exactly one kind is chosen |
| Sentences.NextTerminal | app/src/utils/splitIntoSentences.js:8-11 | the start of the next match of `/[.!?]+/g`: the first terminal at or after `from`, or the text's end when there is none |
| Sentences.RunEnd | app/src/utils/splitIntoSentences.js:8-12 | the end of a maximal run of terminals: every character of the run is a terminal and the next is not |
| Sentences.PieceEnd | app/src/utils/splitIntoSentences.js:11-20 | a piece ends either at the text's end with no terminal after `last`, or just after a maximal run of terminals |
| Sentences.SplitIntoSentences | app/src/utils/splitIntoSentences.js:6-30 | the loop over punctuation runs plus the remainder returns exactly `Split(text)` |
| Sentences.MatchEndsPiece | app/src/utils/splitIntoSentences.js:11-20 | one match consumes exactly one piece: its end is the end of the punctuation run |
| Sentences.MatchStep | app/src/utils/splitIntoSentences.js:13-20 | one loop step pushes the trimmed piece at offset `lastIndex` exactly when it is non-empty and moves `lastIndex` to the run's end |
| Sentences.FinalStep | app/src/utils/splitIntoSentences.js:22-28 | with no punctuation left, the remainder is pushed at `lastIndex` exactly when its trim is non-empty |
| Sentences.PieceSentenceShape | app/src/utils/splitIntoSentences.js:13-19 | a piece yields at most one sentence: exactly when it is not blank, with offset `last` and text `trim(piece)` |
| Sentences.SplitFromUnfold | app/src/utils/splitIntoSentences.js:11-28 | the sentences from `last` are the piece's sentence followed by the sentences after the piece |
| Sentences.SentencesTrimmed | app/src/utils/splitIntoSentences.js:13-23 | every sentence is non-empty, neither starts nor ends with white space, and is its own trim |
| Sentences.OffsetsIncrease | app/src/utils/splitIntoSentences.js:12-20 | offsets lie in `[last, |text|)` and are strictly increasing |
| Sentences.SentenceIsTrimmedPiece | app/src/utils/splitIntoSentences.js:13-26 | each sentence is `trim(text[offset..e])`, where `e` is the end of a punctuation run or of the text, and the offset is the untrimmed start |
| Sentences.RunsNeverSplit | app/src/utils/splitIntoSentences.js:8-12 | every sentence starts at 0 or just after a run of terminals, and its piece ends at the text's end or just after a whole run, so no run is split |
| Sentences.PieceSentenceEnding | app/src/utils/splitIntoSentences.js:13-22 | a piece's sentence ends with a terminal, or it is the remainder and holds no terminal |
| Sentences.SentenceEndings | app/src/utils/splitIntoSentences.js:8-22 | every sentence but the last ends with `.`, `!` or `?`; the last may instead be a remainder with none of them |
| Sentences.SentencesCoverText | app/src/utils/splitIntoSentences.js:11-28 | every character that is not white space lies in the piece of some sentence |
| Sentences.BlankRestHasNoSentences | app/src/utils/splitIntoSentences.js:14-23 | a blank rest of the text yields no sentences |
| Sentences.BlankHasNoSentences | app/src/utils/splitIntoSentences.js:9-28 | empty or blank input gives `[]` |
| Sentences.NoTerminalIsOneSentence | app/src/utils/splitIntoSentences.js:22-28 | a non-blank text without `.!?` is one sentence, `trim(text)`, at offset 0 |
| Sentences.TrimHasNoTerminal | app/src/utils/splitIntoSentences.js:22-23 | trimming a remainder without `.!?` leaves none |
| Sentences.ExampleFirstPiece | app/src/utils/splitIntoSentences.js:11-17 | in `"Hi! Bye."` the first piece ends at 3 and gives `"Hi!"` at 0 |
| Sentences.ExampleSecondPiece | app/src/utils/splitIntoSentences.js:11-17 | the second piece runs from 3 to 8 and gives `"Bye."` at 3, its untrimmed start |
| Sentences.UntrimmedOffsetExample | app/src/utils/splitIntoSentences.js:13-17 | `"Hi! Bye."` gives `"Hi!"` at 0 and `"Bye."` at 3, the untrimmed start |
| SentenceCheck.RangeFor | app/src/utils/fetchSentenceSyntaxCheck.js:39-53 | the range is `[pos + token_start, pos + token_end)`; its action is the input action with `absolute_token_start/end` set to `from` and `to`, and nothing else changed |
| SentenceCheck.KeptKey | app/src/utils/fetchSentenceSyntaxCheck.js:41-45 | an action is kept exactly when the key of its range's action is not ignored |
| SentenceCheck.ParseApiActionsToRanges | app/src/utils/fetchSentenceSyntaxCheck.js:35-58 | the loop returns exactly `ParsedRanges(actions, pos, ignored)` |
| SentenceCheck.ParsedFromMembership | app/src/utils/fetchSentenceSyntaxCheck.js:36-57 | a range is produced from index `from` on exactly when some later action is kept and maps to it |
| SentenceCheck.ParsedRangesMembership | app/src/utils/fetchSentenceSyntaxCheck.js:38-54 | a range is returned exactly when some action has both token fields, its key is not ignored, and the range is that action's range |
| SentenceCheck.ParsedRangesAnchored | app/src/utils/fetchSentenceSyntaxCheck.js:38-53 | every returned range has both token fields, `from = pos + token_start`, `to = pos + token_end`, the absolute fields equal `from`/`to`, and an unignored key |
| SentenceCheck.ParsedFromSubsequence | app/src/utils/fetchSentenceSyntaxCheck.js:36-57 | the ranges from index `from` are the images of a strictly increasing list of the kept indices, and every kept index is listed |
| SentenceCheck.ParsedRangesSubsequence | app/src/utils/fetchSentenceSyntaxCheck.js:36-57 | the output is an order-preserving image of the kept actions, so it is no longer than the input |
| SentenceCheck.InvertedSpanKept | app/src/utils/fetchSentenceSyntaxCheck.js:38-54 | an action with `token_end <= token_start` still yields its range: parsing does not require `from < to` |
| SentenceCheck.IgnoringFilters | app/src/utils/fetchSentenceSyntaxCheck.js:41-45 | ignoring one more key removes exactly the ranges with that key and keeps the rest in order |
| SentenceCheck.Without | app/src/utils/fetchSentenceSyntaxCheck.js:42-45 | filtering out key `k` keeps exactly the ranges whose key differs from `k` |
| SentenceCheck.WithoutAppend | app/src/utils/fetchSentenceSyntaxCheck.js:42-45 | filtering distributes over concatenation |
| SentenceCheck.ServedIsChecker | app/src/utils/fetchSentenceSyntaxCheck.js:10-13 | with a cache that agrees with the checker, a trimmed sentence is served exactly what the checker replies |
| SentenceCheck.StoreAgrees | app/src/utils/fetchSentenceSyntaxCheck.js:21 | storing a successful reply under the trimmed text keeps the cache in agreement with the checker |
| SentenceCheck.BlankReplyYieldsNothing | app.py:24-25 | a reply with an empty action list, which the server sends for a blank sentence, and a failed call both yield no ranges |
| SentenceCheck.GrammarCheckClient.constructor | app/src/utils/fetchSentenceSyntaxCheck.js:2 | the cache starts empty |
| SentenceCheck.GrammarCheckClient.CallGrammarCheckApi | app/src/utils/fetchSentenceSyntaxCheck.js:9-27 | the reply is the cached value for `trim(text)` if there is one, with no request and no change; otherwise one request is sent and the cache records its reply only on success; for a trimmed text, a consistent cache stays consistent and the reply is the checker's |
| SentenceCheck.GrammarCheckClient.FetchSentenceSyntaxCheck | app/src/utils/fetchSentenceSyntaxCheck.js:66-75 | the ranges are the parse of the served reply, `[]` when the call fails; a hit changes nothing and sends nothing; a miss sends the text once and caches a successful reply under `trim(text)`, so fetching the same text again sends nothing; for a trimmed text a consistent cache stays consistent and the ranges are those of the checker's reply; no returned range is ignored |
| DocumentScan.DecorationRoundTrip | app/src/utils/checkAllTextNodes.js:45-52 | a decoration spans exactly `[from, to)`, has class `syntax-error-highlight` and stores the action and `{from, to}`; range and decoration determine each other |
| DocumentScan.GetSyntaxErrorDecorations | app/src/utils/checkAllTextNodes.js:35-64 | the loop returns exactly `Decorations(docSize, ranges)` |
| DocumentScan.DecorationSource | app/src/utils/checkAllTextNodes.js:39-61 | every decoration built from index `from` on is the decoration of one particular valid range at or after `from` |
| DocumentScan.DecorationIncluded | app/src/utils/checkAllTextNodes.js:39-61 | every valid range at or after `from` yields its decoration |
| DocumentScan.DecorationsFromMembership | app/src/utils/checkAllTextNodes.js:39-61 | a decoration is produced from index `from` on exactly when it is the decoration of a later valid range |
| DocumentScan.DecorationsMembership | app/src/utils/checkAllTextNodes.js:43 | a range yields a decoration exactly when `0 <= from`, `to <= doc size` and `from < to` |
| DocumentScan.DecorationsInBounds | app/src/utils/checkAllTextNodes.js:43-52 | every decoration lies inside the document, is non-empty, is well formed, and comes from an input range |
| DocumentScan.DecorationsFromAppend | app/src/utils/checkAllTextNodes.js:39-61 | building decorations from index `from` over `a + b` is the decorations of `a` from `from`, followed by those of `b` |
| DocumentScan.DecorationsFromShift | app/src/utils/checkAllTextNodes.js:39-61 | building decorations from index `|a| + j` of `a + b` is building them from index `j` of `b` |
| DocumentScan.DecorationsAppend | app/src/utils/checkAllTextNodes.js:39-61 | invalid ranges are dropped and valid ones keep their input order: the decorations of `a + b` are those of `a` followed by those of `b` |
| DocumentScan.FetchTextNodeSyntaxCheck | app/src/utils/checkAllTextNodes.js:11-27 | with a consistent cache the node's ranges are `NodeRanges`, the concatenation of the per-sentence results anchored at `nodePos + offset`; requests are only sentences of the node; no range is ignored |
| DocumentScan.GatherSentences | app/src/utils/checkAllTextNodes.js:15-26 | the per-sentence loop appends each sentence's ranges in turn |
| DocumentScan.SentLogGrows | app/src/utils/checkAllTextNodes.js:15-19 | across one sentence's request the log keeps its earlier entries and gains at most that sentence's text, so every request is a sentence of the node |
| DocumentScan.SentencesRangesStep | app/src/utils/checkAllTextNodes.js:18 | one step of the per-sentence loop appends that sentence's ranges |
| DocumentScan.CheckAllTextNodes | app/src/utils/checkAllTextNodes.js:71-88 | with a consistent cache the result is `DocRanges`, the concatenation over the checked nodes; the request log only grows; no range is ignored |
| DocumentScan.SentencesRangesSource | app/src/utils/checkAllTextNodes.js:15-19 | every range gathered from the sentences comes from one particular sentence |
| DocumentScan.SentencesRangesInclude | app/src/utils/checkAllTextNodes.js:15-19 | every range of every sentence is gathered |
| DocumentScan.SentencesRangesSeqMembership | app/src/utils/checkAllTextNodes.js:15-19 | a range is in the result for a list of sentences exactly when it is in the result of one of them |
| DocumentScan.NodeRangesMembership | app/src/utils/checkAllTextNodes.js:12-19 | a range is in a node's result exactly when it comes from one of the node's sentences |
| DocumentScan.DocRangesMembership | app/src/utils/checkAllTextNodes.js:74-85 | a range is in the document result from node `from` on exactly when it is in the result of a later checked node |
| DocumentScan.DocRangesFromCheckedNodes | app/src/utils/checkAllTextNodes.js:75-76 | only text nodes with non-blank text are checked, and the document result is the union of their results |
| DocumentScan.SentencesRangesNotIgnored | app/src/utils/checkAllTextNodes.js:16-18 | no node range is ignored, and each carries its absolute positions |
| DocumentScan.DocRangesNotIgnored | app/src/utils/checkAllTextNodes.js:74-87 | no document range is ignored, and each carries its absolute positions |
| DocumentScan.SentencesFailuresOnlyDrop | app/src/utils/checkAllTextNodes.js:20-22 | a checker that fails on some sentences yields a subset of the node's ranges |
| DocumentScan.FailuresOnlyDrop | app/src/utils/checkAllTextNodes.js:20-22 | a checker that fails on some texts yields a subset of the document's ranges, and every range of a sentence it still answers as before, in a checked node, is still gathered |
| DocumentScan.SentenceInListGathered | app/src/utils/checkAllTextNodes.js:15-19 | every range of any sentence in the list is among the ranges gathered from the list |
| DocumentScan.DocRangesInclude | app/src/utils/checkAllTextNodes.js:74-85 | every range of a checked node at or after `from` is in the document result from `from` on |
| DocumentScan.SentenceRangeGathered | app/src/utils/checkAllTextNodes.js:15-19 | every range of every sentence of every checked node is in the document result |
| DocumentScan.ShiftRanges | app/src/utils/checkAllTextNodes.js:16 | shifting keeps the length and shifts every range by `d` |
| DocumentScan.ShiftRangesAppend | app/src/utils/checkAllTextNodes.js:18 | shifting distributes over concatenation |
| DocumentScan.ShiftKeyIn | app/src/utils/fetchSentenceSyntaxCheck.js:41-42 | a shifted key is among the shifted keys exactly when the key was among the keys |
| DocumentScan.ParsedFromShift | app/src/utils/fetchSentenceSyntaxCheck.js:39-45 | moving the anchor by `d` together with the ignored keys shifts every parsed range by `d` |
| DocumentScan.SentenceRangesShift | app/src/utils/fetchSentenceSyntaxCheck.js:66-75 | one sentence's ranges, moved by `d` together with the ignored keys, are its ranges shifted by `d` |
| DocumentScan.SentencesRangesShift | app/src/utils/checkAllTextNodes.js:16 | moving the node by `d` shifts every sentence's ranges by `d` |
| DocumentScan.NodeRangesShift | app/src/utils/checkAllTextNodes.js:16 | two nodes with the same text at `p` and `q` yield ranges that differ by a shift of `q - p` |
| SuggestionActions.IgnoredErrors.constructor | app/src/utils/suggestionActions.js:2 | the registry starts empty |
| SuggestionActions.IgnoredErrors.Add | app/src/utils/suggestionActions.js:42 | adding a key adds exactly that key, and adding a present key changes nothing |
| SuggestionActions.EditorView.constructor | app/src/utils/suggestionActions.js:10 | a view holds a document and no decorations |
| SuggestionActions.ApplyEdit | app/src/utils/suggestionActions.js:17-24 | an edit can be built exactly when its positions are inside the document and ordered, and an insertion or replacement has a non-empty replacement |
| SuggestionActions.AppendIgnoresFrom | app/src/utils/suggestionActions.js:18-19 | an insertion goes at `to` and does not read `from` |
| SuggestionActions.DeleteShortens | app/src/utils/suggestionActions.js:20-21 | a deletion keeps `doc[..from]` and `doc[to..]` and shortens the document by `to - from` |
| SuggestionActions.ReplaceUndo | app/src/utils/suggestionActions.js:22-23 | replacing the inserted text by the old span restores the document |
| SuggestionActions.DeleteUndo | app/src/utils/suggestionActions.js:20-21 | inserting the deleted text at `from` restores the document |
| SuggestionActions.AppendUndo | app/src/utils/suggestionActions.js:18-19 | deleting the inserted text restores the document |
| SuggestionActions.ApplySuggestion | app/src/utils/suggestionActions.js:10-31 | a missing action, range or view changes nothing; otherwise the document becomes the built edit, or stays as it is when building fails, the decorations are untouched and the popover is closed |
| SuggestionActions.IgnoreSuggestion | app/src/utils/suggestionActions.js:36-51 | a missing action changes nothing; otherwise exactly the action's key joins the registry and the popover is closed; with a view the document is unchanged, the decorations are in bounds and none is ignored, and with a consistent cache they are the re-scan's; the request log only grows, a consistent cache stays consistent, and without a view the client is untouched |
| Highlight.PiecesHaveNoWhitespace | app/src/utils/highlightSuggestions.js:3 | `split(/\s+/)` gives at least one piece, and no piece holds white space |
| Highlight.PiecesNonEmpty | app/src/utils/highlightSuggestions.js:3 | on a string that starts and ends with a character that is not white space, every piece is non-empty |
| Highlight.SplitWordsShape | app/src/utils/highlightSuggestions.js:1-4 | no word holds white space; a non-blank text gives only non-empty words; a blank text gives the single word `''` |
| Highlight.PiecesOfWord | app/src/utils/highlightSuggestions.js:3 | a word without white space is a single piece |
| Highlight.PiecesOfJoin | app/src/utils/highlightSuggestions.js:3 | a word, one space and a text starting with a word split into that word followed by the pieces of the text |
| Highlight.SplitJoinFrom | app/src/utils/highlightSuggestions.js:3 | splitting the space-join of proper words from index `i` gives back `words[i..]` |
| Highlight.SplitJoin | app/src/utils/highlightSuggestions.js:1-4 | `splitWords` inverts joining non-empty, whitespace-free words with single spaces |
| Highlight.EscapeChar | app/src/utils/highlightSuggestions.js:7-14 | exactly `& < > " '` are replaced, each by an entity starting with `&` |
| Highlight.UnescapeChar | app/src/utils/highlightSuggestions.js:7-14 | decoding reads one escaped character back, whatever follows it |
| Highlight.UnescapeEntity | app/src/utils/highlightSuggestions.js:8-14 | each of the five entities decodes to its character |
| Highlight.UnescapeEscapeAppend | app/src/utils/highlightSuggestions.js:6-16 | decoding an escaped text followed by anything gives the text, then the decoding of the rest |
| Highlight.EscapeRoundTrip | app/src/utils/highlightSuggestions.js:6-16 | escaping loses nothing: decoding gives the text back |
| Highlight.EscapeAppend | app/src/utils/highlightSuggestions.js:7 | escaping works character by character, so it distributes over concatenation |
| Highlight.EscapeIsSafe | app/src/utils/highlightSuggestions.js:6-16 | the output holds no raw `<`, `>`, `"` or `'`, and a text without the five characters is unchanged |
| Highlight.LastCoverWins | app/src/utils/highlightSuggestions.js:35-47 | a word is unmarked exactly when no action covers it; otherwise its mark is the last covering action |
| Highlight.SingleActionMarks | app/src/utils/highlightSuggestions.js:38-46 | an `$APPEND_` action marks exactly word `end - 1`; any other action marks exactly the words with `start <= i < end` |
| Highlight.Marks | app/src/utils/highlightSuggestions.js:34 | there is one mark per word, and each is the mark after all actions |
| Highlight.MarkWords | app/src/utils/highlightSuggestions.js:34-48 | `markMap` is a new array with one entry per word, each the mark left by the last covering action |
| Highlight.LayoutWords | app/src/utils/highlightSuggestions.js:49-57 | the HTML loop returns exactly `Layout(words, markMap)`: the HTML of each word (escaped, and wrapped in a `suggestion` span carrying the action's JSON when marked) joined by single spaces, with none trailing |
| Highlight.JoinSplit | app/src/utils/highlightSuggestions.js:50-56 | after `k` words the loop's output, followed by the join of the remaining pieces, is the whole join: the loop builds the join from left to right |
| Highlight.HighlightSuggestions | app/src/utils/highlightSuggestions.js:27-58 | nothing happens exactly when `result.actions` is not a list; otherwise the HTML is the layout of the words of the text with their final marks |
| Highlight.UnmarkedLayout | app/src/utils/highlightSuggestions.js:49-57 | without marks the HTML is the escape of the words joined by single spaces |
| Highlight.UnmarkedHtmlKeepsWords | app/src/utils/highlightSuggestions.js:30-57 | for a non-blank text without marks, the HTML decodes to the words joined by spaces, and splitting that gives the same words |
| TextNodeChanges.ExtractTextNodes | app/src/utils/analyzeTextNodeChanges.js:88-101 | the traversal loop returns exactly `TextNodesFrom(nodes, 0)` |
| TextNodeChanges.TextNodesSubsequence | app/src/utils/analyzeTextNodeChanges.js:89-100 | only text nodes are kept, every text node is kept, there are no more entries than nodes, and `length = |text|` |
| TextNodeChanges.TextNodesInOrder | app/src/utils/analyzeTextNodeChanges.js:89-100 | the kept nodes are the text nodes in traversal order: entry `j` is the node at the `j`-th text index, the indices strictly increase, and every text node's index is listed |
| TextNodeChanges.TextIndicesSorted | app/src/utils/analyzeTextNodeChanges.js:89-100 | the text indices from `from` on lie in `[from, |nodes|)` and strictly increase |
| TextNodeChanges.TextIndicesMatch | app/src/utils/analyzeTextNodeChanges.js:89-100 | entry `j` of the kept list is the text node at the `j`-th text index |
| TextNodeChanges.TextIndicesComplete | app/src/utils/analyzeTextNodeChanges.js:89-100 | every text node at or after `from` has its index listed |
| TextNodeChanges.FindTextNodeChanges | app/src/utils/analyzeTextNodeChanges.js:109-146 | the loop returns exactly `Changes(old, new)` |
| TextNodeChanges.EntriesFromShape | app/src/utils/analyzeTextNodeChanges.js:118-144 | entries from index `from` on are per-index entries (never `count_change`) at indices in `[from, max)`, in strictly increasing order, at most one per index |
| TextNodeChanges.EntrySource | app/src/utils/analyzeTextNodeChanges.js:119-144 | every entry from index `from` on is the entry of one particular index in `[from, max)` |
| TextNodeChanges.EntryIncluded | app/src/utils/analyzeTextNodeChanges.js:119-144 | the entry of every index in `[from, max)` is among the entries from `from` on |
| TextNodeChanges.ChangesShape | app/src/utils/analyzeTextNodeChanges.js:111-144 | a `count_change` entry appears, and appears first, exactly when the lengths differ; per-index entries are in strictly increasing order, at most `max(|old|, |new|) + 1` in all |
| TextNodeChanges.EntriesMembership | app/src/utils/analyzeTextNodeChanges.js:119-144 | a per-index entry is in the result exactly when it is the entry of some index below the larger length |
| TextNodeChanges.AddedIff | app/src/utils/analyzeTextNodeChanges.js:122-127 | `added(i, x)` appears exactly when `|old| <= i < |new|` and `x = new[i]` |
| TextNodeChanges.RemovedIff | app/src/utils/analyzeTextNodeChanges.js:128-133 | `removed(i, x)` appears exactly when `|new| <= i < |old|` and `x = old[i]` |
| TextNodeChanges.ModifiedIff | app/src/utils/analyzeTextNodeChanges.js:134-143 | `modified` appears exactly for indices below both lengths whose texts differ, carrying both nodes and texts; positions and types are not compared |
| TextNodeChanges.EntriesFromEmpty | app/src/utils/analyzeTextNodeChanges.js:119-144 | indices with no entry contribute nothing |
| TextNodeChanges.NoChangesIff | app/src/utils/analyzeTextNodeChanges.js:110-145 | the result is empty exactly when the lengths are equal and all texts are pairwise equal |
| Tooltip.GetDisplayTextForAction | app/src/utils/tooltip.js:222-229 | `此处` for an insertion; otherwise `original`, or `''` when it is missing or empty |
| Tooltip.ApplyLabelNamesKind | app/src/utils/tooltip.js:236-246 | the label is `应用修改` exactly for a missing action; otherwise `添加`, `删除` or `替换` exactly for the Append, Delete or Replace kind |
| Tooltip.ApplyLabelDeterminesKind | app/src/utils/tooltip.js:239-245 | two actions get the same label exactly when they are of the same kind |
| Tooltip.GetConfidenceClass | app/src/utils/tooltip.js:253-257 | high exactly for `>= 0.8`, medium exactly for `[0.6, 0.8)`, low exactly below 0.6 |
| Tooltip.ConfidenceClassMonotone | app/src/utils/tooltip.js:253-257 | a higher confidence never gets a lower class |
| Tooltip.CreateTooltipContent | app/src/utils/tooltip.js:11-93 | exactly one of the append, delete or replace sections, chosen with the precedence of `applySuggestion`; a confidence section exactly for a confidence other than 0, with its class; the button labels |
| Tooltip.ContentLabelMatchesInfo | app/src/utils/tooltip.js:19-86 | the apply button names the kind of the section shown |
| Tooltip.TooltipSlot.constructor | app/src/utils/tooltip.js:4 | the slot starts empty with no instance created |
| Tooltip.TooltipSlot.HideTooltip | app/src/utils/tooltip.js:210-215 | the live instance, if any, is destroyed and the slot left empty; on an empty slot nothing changes, so hiding is idempotent |
| Tooltip.TooltipSlot.ShowTooltip | app/src/utils/tooltip.js:131-205 | the previous instance is destroyed first, so at most one instance is alive; a new instance with `createTooltipContent(action)` is shown exactly when there is a view and a usable reference or fallback rectangle |

## Left out

- **HTTP and JSON.** `fetch`, `resp.json()` and `JSON.stringify` of the request (app/src/utils/fetchSentenceSyntaxCheck.js:15-20) are not modelled. The checker is an abstract function whose `None` stands for any thrown error; a reply whose `actions` is missing also yields `[]`.
- **Concurrency.** The `Promise.all` fan-out of the scans is modelled as a sequential fold. The source's result order is completion order; the model's order is document order, and its contracts on membership hold either way.
- **Requests within one scan.** In the real scan every cache lookup precedes every reply, so a sentence repeated within one scan is sent twice. The sequential model serves the repeat from the cache. The ranges are the same; only the request log differs.
- **Cache key.** The cache key is the trimmed text, but the request sends the text as given (app/src/utils/fetchSentenceSyntaxCheck.js:10, 15-21). For text that is not its own trim, the reply to the untrimmed text is stored under the trimmed key, so agreement of the cache with the checker is kept only for trimmed text. Every sentence the scan sends is trimmed (`Sentences.SentencesTrimmed`).
- **Re-scan race.** The re-scan after `ignoreSuggestion` is modelled as finishing at once. Its race with later edits is not modelled.
- DocumentScan.CheckAllTextNodes: the result is tied to `DocRanges` only when the cache agrees with the checker, because a cached reply need not be what the checker would now answer.
- DocumentScan.FetchTextNodeSyntaxCheck: the same condition on the cache applies.
- **ProseMirror positions.** ProseMirror's position model, `doc.descendants`, `Decoration.inline`, the sorting in `DecorationSet.create`, transactions, `setMeta` and the mapping of decorations after an edit are not modelled. The editor is one text block whose positions are string indices starting at 0, and its size is the text length.
- SuggestionActions.ApplySuggestion: the edit fails exactly on bad positions or a missing or empty replacement. ProseMirror's other reasons to throw are not modelled.
- SuggestionActions.ApplyEdit: the rule that a deletion or replacement with `from > to` fails is an assumption about ProseMirror's `tr.delete` and `tr.replaceWith`, whose code is not part of this model; the source itself does not test the order.
- Tooltip.TooltipSlot.ShowTooltip: the pixel rectangles of the range and the target element, `createVirtualReference`, `coordsAtPos`, tippy's options and the click handlers are not modelled. The outcomes of the source's rectangle tests are flags.
- Tooltip.CreateTooltipContent: the HTML markup is not modelled, and the percentage `Math.round(confidence * 100)` is floating-point and left out. The content is a datatype holding the section, the confidence class and the labels.
- **Confidence.** Confidence is an exact real; JavaScript's binary floating point is not modelled.
- **`null` values.** A token field that is `null` passes the source's `!== undefined` test; the model has only present or absent. A `null` `start` in `highlightSuggestions` compares as 0; the model treats it as absent.
- **Non-integer positions.** Non-integer positions and tokens are not modelled.
- **UTF-16 positions.** Sentences.Split, the sentence anchors `nodePos + offset` of DocumentScan.NodeRanges and the `length` of TextNodeChanges.ExtractTextNodes count characters (Unicode scalar values), where JavaScript's `lastIndex`, `match.index`, `slice` and `length` count UTF-16 code units. The two agree on text in the Basic Multilingual Plane. After a character outside it, such as an emoji, every source position is larger by one per such character: in `"😀 Hi. Bye."` the source gives the second sentence offset 6, the model 5.
- **DOM work.** `unwrapSuggestions` (app/src/utils/highlightSuggestions.js:18-25), reading `node.textContent` and assigning `innerHTML` are left out. Highlight.HighlightSuggestions takes the node's text and returns the new HTML.
- **Logging.** `analyzeTextNodeChanges` (app/src/utils/analyzeTextNodeChanges.js:7-81) only logs, so it is left out. So are all `console` calls.
- **The registry's home.** `states.js`, which holds `ignoredErrors`, is not part of this model. The registry is the class `IgnoredErrors`, passed explicitly.
- **Server and routing.** app.py (the Flask endpoint over the GECToR model) and app/src/router/index.js are not modelled. Only the server's reply to a blank sentence is used (`SentenceCheck.BlankReplyYieldsNothing`).
