/**
 * Acting on a suggestion (`suggestionActions.js`): applying it edits the
 * document; ignoring it records its key in the ignored registry and
 * re-scans the document without it. Both close the popover.
 *
 * The editor is a single block of text whose positions are string
 * indices; its traversal is one text node at position 0.
 */
module SuggestionActions {
  import opened Text
  import opened Types
  import opened SentenceCheck
  import opened DocumentScan
  import opened Tooltip

  /** The shared registry `ignoredErrors` of error keys. */
  class IgnoredErrors {
    var keys: set<ErrorKey>

    constructor ()
      ensures keys == {}
    {
      keys := {};
    }

    /** `ignoredErrors.add(key)`: adding a key that is already there changes
        nothing. */
    method Add(key: ErrorKey)
      modifies this
      ensures keys == old(keys) + {key}
      ensures key in old(keys) ==> keys == old(keys)
    {
      keys := keys + {key};
    }
  }

  /** The editor view: its document and the highlight decorations it shows. */
  class EditorView {
    var doc: string
    var decorations: seq<Decoration>

    constructor (text: string)
      ensures doc == text && decorations == []
    {
      doc := text;
      decorations := [];
    }

    /** `view.state.doc.descendants`: the document's single text node. */
    function Nodes(): seq<DocNode>
      reads this
    {
      [DocNode(0, true, doc, "text")]
    }
  }

  /** `schema.text(s)` refuses a missing or empty text. */
  predicate UsableText(s: Option<string>) {
    s.Some? && s.value != []
  }

  /** The document after the edit an action asks for, or `None` when
      building the transaction throws: a position outside the document, a
      span whose end precedes its start, or a missing or empty replacement
      for an insertion or a replacement. An insertion goes after `to`; a
      deletion and a replacement cover `[from, to)`. */
  function ApplyEdit(doc: string, a: Action, from: int, to: int): (r: Option<string>)
    ensures KindOf(a.name) == Append ==>
              (r.Some? <==> 0 <= to <= |doc| && UsableText(a.realReplacement))
    ensures KindOf(a.name) != Append ==>
              (r.Some? <==> 0 <= from <= to <= |doc| && (KindOf(a.name) == Delete || UsableText(a.realReplacement)))
  {
    match KindOf(a.name)
    case Append =>
      if 0 <= to <= |doc| && UsableText(a.realReplacement) then Some(doc[..to] + a.realReplacement.value + doc[to..])
      else None
    case Delete =>
      if 0 <= from <= to <= |doc| then Some(doc[..from] + doc[to..])
      else None
    case Replace =>
      if 0 <= from <= to <= |doc| && UsableText(a.realReplacement) then Some(doc[..from] + a.realReplacement.value + doc[to..])
      else None
  }

  /** An insertion does not look at `from`. */
  lemma AppendIgnoresFrom(doc: string, a: Action, from1: int, from2: int, to: int)
    requires KindOf(a.name) == Append
    ensures ApplyEdit(doc, a, from1, to) == ApplyEdit(doc, a, from2, to)
  {
  }

  /** A deletion keeps the text before `from` and after `to` and shortens the
      document by `to - from`. */
  lemma DeleteShortens(doc: string, a: Action, from: int, to: int)
    requires KindOf(a.name) == Delete && 0 <= from <= to <= |doc|
    ensures var r := ApplyEdit(doc, a, from, to);
            && r.Some? && |r.value| == |doc| - (to - from)
            && r.value[..from] == doc[..from] && r.value[from..] == doc[to..]
  {
    var r := ApplyEdit(doc, a, from, to).value;
    assert r == doc[..from] + doc[to..];
    assert r[..from] == doc[..from];
    assert r[from..] == doc[to..];
  }

  /** Undoing a replacement: replacing the inserted text by what was there
      before restores the document. */
  lemma ReplaceUndo(doc: string, a: Action, undo: Action, from: int, to: int)
    requires KindOf(a.name) == Replace && KindOf(undo.name) == Replace
    requires 0 <= from < to <= |doc| && UsableText(a.realReplacement)
    requires undo.realReplacement == Some(doc[from..to])
    ensures var r := ApplyEdit(doc, a, from, to);
            r.Some? && ApplyEdit(r.value, undo, from, from + |a.realReplacement.value|) == Some(doc)
  {
    var rep := a.realReplacement.value;
    var r := doc[..from] + rep + doc[to..];
    assert r[..from] == doc[..from];
    assert r[from + |rep|..] == doc[to..];
    assert doc[..from] + doc[from..to] + doc[to..] == doc;
  }

  /** Undoing a deletion: inserting the deleted text back after `from`
      restores the document. */
  lemma DeleteUndo(doc: string, a: Action, undo: Action, from: int, to: int)
    requires KindOf(a.name) == Delete && KindOf(undo.name) == Append
    requires 0 <= from < to <= |doc|
    requires undo.realReplacement == Some(doc[from..to])
    ensures var r := ApplyEdit(doc, a, from, to);
            r.Some? && ApplyEdit(r.value, undo, from, from) == Some(doc)
  {
    var r := doc[..from] + doc[to..];
    assert r[..from] == doc[..from];
    assert r[from..] == doc[to..];
    assert doc[..from] + doc[from..to] + doc[to..] == doc;
  }

  /** Undoing an insertion: deleting the inserted text restores the document. */
  lemma AppendUndo(doc: string, a: Action, undo: Action, from: int, to: int)
    requires KindOf(a.name) == Append && KindOf(undo.name) == Delete
    requires 0 <= to <= |doc| && UsableText(a.realReplacement)
    ensures var r := ApplyEdit(doc, a, from, to);
            r.Some? && ApplyEdit(r.value, undo, to, to + |a.realReplacement.value|) == Some(doc)
  {
    var rep := a.realReplacement.value;
    var r := doc[..to] + rep + doc[to..];
    assert r[..to] == doc[..to];
    assert r[to + |rep|..] == doc[to..];
    assert doc[..to] + doc[to..] == doc;
  }

  /** `applySuggestion(action, range, view)`. A missing action, range or view
      returns at once, leaving the popover open; otherwise the edit is made
      when it can be built (a failure is caught and changes nothing) and the
      popover is closed. */
  method ApplySuggestion(action: Option<Action>, range: Option<Span>, view: EditorView?, slot: TooltipSlot)
    requires slot.Valid()
    modifies view, slot
    ensures slot.Valid()
    ensures action.None? || range.None? || view == null ==>
              (view != null ==> unchanged(view)) && unchanged(slot)
    ensures action.Some? && range.Some? && view != null ==>
              && view.doc == (match ApplyEdit(old(view.doc), action.value, range.value.from, range.value.to)
                              case Some(d) => d
                              case None => old(view.doc))
              && view.decorations == old(view.decorations)
              && slot.current == None
  {
    if action.None? || range.None? || view == null {
      return;
    }
    var a := action.value;
    var from, to := range.value.from, range.value.to;
    var edited: Option<string>;
    if StartsWith(a.name, AppendPrefix) {
      if 0 <= to <= |view.doc| && a.realReplacement.Some? && a.realReplacement.value != [] {
        edited := Some(view.doc[..to] + a.realReplacement.value + view.doc[to..]);
      } else {
        edited := None;
      }
    } else if a.name == DeleteName {
      if 0 <= from <= to <= |view.doc| {
        edited := Some(view.doc[..from] + view.doc[to..]);
      } else {
        edited := None;
      }
    } else {
      if 0 <= from <= to <= |view.doc| && a.realReplacement.Some? && a.realReplacement.value != [] {
        edited := Some(view.doc[..from] + a.realReplacement.value + view.doc[to..]);
      } else {
        edited := None;
      }
    }
    if edited.Some? {
      view.doc := edited.value;
    }
    slot.HideTooltip();
  }

  /** `ignoreSuggestion(action, view)`. A missing action changes nothing.
      Otherwise the action's key joins the registry, the document is
      re-scanned with the enlarged registry and its decorations replaced
      (when there is a view), and the popover is closed. */
  method IgnoreSuggestion(action: Option<Action>, view: EditorView?, registry: IgnoredErrors,
                          client: GrammarCheckClient, checker: string -> Option<Response>, slot: TooltipSlot)
    requires slot.Valid()
    modifies view, registry, client, slot
    ensures slot.Valid()
    ensures action.None? ==>
              unchanged(registry) && unchanged(client) && unchanged(slot) && (view != null ==> unchanged(view))
    ensures view == null ==> unchanged(client)
    ensures old(client.sent) <= client.sent
    ensures old(client.Consistent(checker)) ==> client.Consistent(checker)
    ensures action.Some? ==>
              && registry.keys == old(registry.keys) + {KeyOf(action.value)}
              && slot.current == None
    ensures action.Some? && view != null ==>
              && view.doc == old(view.doc)
              && (old(client.Consistent(checker)) ==>
                    view.decorations == Decorations(|view.doc|, DocRanges(view.Nodes(), registry.keys, checker)))
              && (forall d :: d in view.decorations ==>
                    KeyOf(d.errorAction) !in registry.keys && 0 <= d.from < d.to <= |view.doc|)
  {
    if action.None? {
      return;
    }
    var errorKey := KeyOf(action.value);
    registry.Add(errorKey);
    if view != null {
      var ranges := CheckAllTextNodes(client, view.Nodes(), registry.keys, checker);
      var deco := GetSyntaxErrorDecorations(|view.doc|, ranges);
      DecorationsInBounds(|view.doc|, ranges);
      view.decorations := deco;
    }
    slot.HideTooltip();
  }
}
