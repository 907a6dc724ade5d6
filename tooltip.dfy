/**
 * The suggestion popover (`tooltip.js`): what it shows for an action, the
 * labels and confidence class it picks, and the single module-level slot
 * `currentTippyInstance` that holds the live popover.
 */
module Tooltip {
  import opened Text
  import opened Types

  const AppendContext: string := "此处"
  const DefaultApplyLabel: string := "应用修改"
  const AppendLabel: string := "添加"
  const DeleteLabel: string := "删除"
  const ReplaceLabel: string := "替换"
  const IgnoreLabel: string := "忽略"

  /** `getDisplayTextForAction(action)`: a generic place-holder for an
      insertion, otherwise the original text, or `''` when that is absent
      or empty (JavaScript's `action.original || ''`). */
  function GetDisplayTextForAction(a: Action): (t: string)
    ensures KindOf(a.name) == Append ==> t == AppendContext
    ensures KindOf(a.name) != Append ==> (t == [] || a.original == Some(t))
    ensures KindOf(a.name) != Append && a.original.Some? ==> t == a.original.value
  {
    if !StartsWith(a.name, AppendPrefix) then
      (if a.original.Some? && a.original.value != [] then a.original.value else [])
    else AppendContext
  }

  /** `getApplyButtonTextForAction(action)`; `None` is a missing action. */
  function GetApplyButtonTextForAction(a: Option<Action>): string {
    if a.None? then DefaultApplyLabel
    else if StartsWith(a.value.name, AppendPrefix) then AppendLabel
    else if a.value.name == DeleteName then DeleteLabel
    else ReplaceLabel
  }

  /** The label of the apply button names the edit kind that applying the
      action performs, and the label of a missing action is none of them. */
  lemma ApplyLabelNamesKind(a: Option<Action>)
    ensures a.None? <==> GetApplyButtonTextForAction(a) == DefaultApplyLabel
    ensures a.Some? ==>
              (GetApplyButtonTextForAction(a) == AppendLabel <==> KindOf(a.value.name) == Append)
              && (GetApplyButtonTextForAction(a) == DeleteLabel <==> KindOf(a.value.name) == Delete)
              && (GetApplyButtonTextForAction(a) == ReplaceLabel <==> KindOf(a.value.name) == Replace)
  {
  }

  /** Two actions get the same label exactly when they are of the same kind. */
  lemma ApplyLabelDeterminesKind(a: Action, b: Action)
    ensures GetApplyButtonTextForAction(Some(a)) == GetApplyButtonTextForAction(Some(b))
            <==> KindOf(a.name) == KindOf(b.name)
  {
    ApplyLabelNamesKind(Some(a));
    ApplyLabelNamesKind(Some(b));
  }

  /** The three confidence bands, in increasing order. */
  datatype ConfidenceClass = Low | Medium | High

  function CssName(c: ConfidenceClass): string {
    match c
    case High => "confidence-high"
    case Medium => "confidence-medium"
    case Low => "confidence-low"
  }

  function Rank(c: ConfidenceClass): nat {
    match c
    case Low => 0
    case Medium => 1
    case High => 2
  }

  /** `getConfidenceClass(confidence)`. */
  function GetConfidenceClass(confidence: real): (c: ConfidenceClass)
    ensures c == High <==> confidence >= 0.8
    ensures c == Medium <==> 0.6 <= confidence < 0.8
    ensures c == Low <==> confidence < 0.6
  {
    if confidence >= 0.8 then High
    else if confidence >= 0.6 then Medium
    else Low
  }

  /** A higher confidence never gets a lower class. */
  lemma ConfidenceClassMonotone(x: real, y: real)
    requires x <= y
    ensures Rank(GetConfidenceClass(x)) <= Rank(GetConfidenceClass(y))
  {
  }

  /** The action-info section of the popover, one variant per edit kind. */
  datatype ActionInfo =
    | AppendInfo(displayText: string, replacement: string)
    | DeleteInfo(original: string)
    | ReplaceInfo(original: string, replacement: string)

  /** The popover's content: the action info, the confidence bar when there
      is one, and the two buttons. */
  datatype TooltipContent = TooltipContent(
    info: ActionInfo,
    confidence: Option<ConfidenceClass>,
    applyLabel: string,
    ignoreLabel: string)

  /** The confidence bar is shown only for a truthy confidence, so a
      missing confidence and a confidence of 0 both show none. */
  predicate ShowsConfidence(a: Action) {
    a.confidence.Some? && a.confidence.value != 0.0
  }

  /** `createTooltipContent(action)`; template literals print a missing
      field as "undefined". */
  function CreateTooltipContent(a: Action): (c: TooltipContent)
    ensures c.info.AppendInfo? <==> KindOf(a.name) == Append
    ensures c.info.DeleteInfo? <==> KindOf(a.name) == Delete
    ensures c.info.ReplaceInfo? <==> KindOf(a.name) == Replace
    ensures c.confidence.Some? <==> ShowsConfidence(a)
    ensures c.confidence.Some? ==> c.confidence.value == GetConfidenceClass(a.confidence.value)
    ensures c.applyLabel == GetApplyButtonTextForAction(Some(a)) && c.ignoreLabel == IgnoreLabel
  {
    var isAppend := StartsWith(a.name, AppendPrefix);
    var isDelete := a.name == DeleteName;
    var info :=
      if isAppend then AppendInfo(GetDisplayTextForAction(a), Interpolate(a.realReplacement))
      else if isDelete then DeleteInfo(Interpolate(a.original))
      else ReplaceInfo(Interpolate(a.original), Interpolate(a.realReplacement));
    var confidence := if a.confidence.Some? && a.confidence.value != 0.0 then Some(GetConfidenceClass(a.confidence.value)) else None;
    TooltipContent(info, confidence, GetApplyButtonTextForAction(Some(a)), IgnoreLabel)
  }

  /** The apply button of a popover names the kind of its info section. */
  lemma ContentLabelMatchesInfo(a: Action)
    ensures var c := CreateTooltipContent(a);
            (c.applyLabel == AppendLabel <==> c.info.AppendInfo?)
            && (c.applyLabel == DeleteLabel <==> c.info.DeleteInfo?)
            && (c.applyLabel == ReplaceLabel <==> c.info.ReplaceInfo?)
  {
    ApplyLabelNamesKind(Some(a));
  }

  /** A popover instance: the number it was created with and its content. */
  datatype Instance = Instance(id: nat, content: TooltipContent)

  /** The module-level slot `currentTippyInstance`, with the history of the
      instances created and destroyed. */
  class TooltipSlot {
    var current: Option<Instance>
    var created: nat
    var destroyed: seq<nat>

    /** Instances are numbered in creation order and destroyed in that
        order; all but the newest are destroyed, and the slot holds the
        newest when it is alive. Hence at most one instance is alive. */
    predicate Valid()
      reads this
    {
      && (forall i :: 0 <= i < |destroyed| ==> destroyed[i] == i)
      && (current.None? ==> |destroyed| == created)
      && (current.Some? ==> |destroyed| + 1 == created && current.value.id == created - 1)
    }

    /** The number of instances alive. */
    function Alive(): nat
      reads this
      requires Valid()
    {
      created - |destroyed|
    }

    constructor ()
      ensures Valid() && current == None && created == 0 && destroyed == []
    {
      current := None;
      created := 0;
      destroyed := [];
    }

    /** `hideTooltip()`: destroys the live instance, if any, and empties the
        slot; on an empty slot it does nothing. */
    method HideTooltip()
      requires Valid()
      modifies this
      ensures Valid() && current == None && Alive() == 0
      ensures created == old(created)
      ensures old(current).Some? ==> destroyed == old(destroyed) + [old(current).value.id]
      ensures old(current).None? ==> destroyed == old(destroyed)
    {
      if current.Some? {
        destroyed := destroyed + [current.value.id];
        current := None;
      }
    }

    /** `showTooltip(action, range, targetElement, view, …)`. The popover is
        placed by pixel rectangles; the model takes the outcomes of the
        source's tests as flags: whether there is a view, whether the range's
        rectangle has zero width and zero height, whether there is a
        fallback element and whether its rectangle has a zero side. */
    method ShowTooltip(a: Action, hasView: bool, referenceCollapsed: bool,
                       hasTarget: bool, targetCollapsed: bool)
      requires Valid()
      modifies this
      ensures Valid() && Alive() <= 1
      ensures old(current).Some? ==> old(current).value.id in destroyed
      ensures var shown := hasView && (!referenceCollapsed || (hasTarget && !targetCollapsed));
              && (shown ==> current == Some(Instance(old(created), CreateTooltipContent(a))) && created == old(created) + 1)
              && (!shown ==> current == None && created == old(created))
    {
      HideTooltip();
      if !hasView {
        return;
      }
      if referenceCollapsed {
        if !hasTarget {
          return;
        }
        if targetCollapsed {
          return;
        }
      }
      var tooltipContent := CreateTooltipContent(a);
      current := Some(Instance(created, tooltipContent));
      created := created + 1;
    }
  }
}
