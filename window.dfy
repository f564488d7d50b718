/** The editor window's event list and selection: the state the window keeps
    between GUI callbacks and the operations its buttons and clicks perform. */
module Window {
  import opened Events
  import opened Clipboard
  import opened Selection
  import opened EventList

  /** The first event whose rectangle holds the mouse, if any. During a
      mouse-down the first such event uses up the GUI event, so those after
      it never see the click. */
  function FirstHit(hits: seq<bool>): (r: Option<nat>)
    ensures r.None? <==> forall j :: 0 <= j < |hits| ==> !hits[j]
    ensures r.Some? ==> r.value < |hits| && hits[r.value] && forall j :: 0 <= j < r.value ==> !hits[j]
  {
    if |hits| == 0 then None
    else if hits[0] then Some(0)
    else match FirstHit(hits[1..])
      case None => None
      case Some(p) => Some(p + 1)
  }

  /** Copying and then pasting through a coherent host gives back exactly
      the selected events, in selection order. */
  lemma {:induction false} CopyPasteRoundTrip(evs: seq<AnimationEvent>, sel: seq<int>,
                                              entries: seq<SerializedAnimationEvent>, t: ObjectTable)
    requires Coherent(t) && InRange(sel, |evs|) && |entries| == |sel|
    requires forall j :: 0 <= j < |sel| ==> entries[j] == Serialize(evs[sel[j]], t)
    ensures forall j :: 0 <= j < |sel| ==> ToAnimationEvent(entries[j], t) == evs[sel[j]]
  {
    forall j | 0 <= j < |sel|
      ensures ToAnimationEvent(entries[j], t) == evs[sel[j]]
    {
      RoundTrip(evs[sel[j]], t);
    }
  }

  class AnimationEventWindow {
    /** `mEvents`: the events of the clip being edited. */
    var events: seq<AnimationEvent>
    /** `mSelectedEvents`: indices into `events`, in the order they were selected. */
    var selected: seq<int>
    /** `mCopiedAnimationEvents`: what the clipboard held at the last layout pass. */
    var copiedEvents: Option<seq<AnimationEvent>>

    ghost predicate Valid()
      reads this
    {
      ValidSelection(selected, |events|)
    }

    constructor ()
      ensures Valid()
      ensures events == [] && selected == [] && copiedEvents == None
    {
      events := [];
      selected := [];
      copiedEvents := None;
    }

    /** `OnClipSelect`: another clip's events are loaded and the selection is reset. */
    method OnClipSelect(clipEvents: seq<AnimationEvent>)
      modifies this
      ensures Valid()
      ensures events == clipEvents && selected == [] && copiedEvents == old(copiedEvents)
    {
      events := clipEvents;
      selected := [];
    }

    /** `AddEvent` with the current normalized time `time`: one default event
      is appended, and nothing else changes. */
    method AddEvent(time: Float32)
      requires Valid()
      modifies this
      ensures Valid()
      ensures events == old(events) + [NewEvent(time)]
      ensures selected == old(selected) && copiedEvents == old(copiedEvents)
    {
      events := events + [NewEvent(time)];
    }

    /** `RemoveSeletedEvents`: sort the selection, remove from the highest
        index down, then clear it. Every removal index is in range (the
        precondition of `RemoveAt`), and what remains is exactly the
        unselected events in their original order. */
    method RemoveSelectedEvents()
      requires Valid()
      modifies this
      ensures Valid()
      ensures events == Unselected(old(events), old(selected))
      ensures |events| == |old(events)| - |old(selected)|
      ensures selected == [] && copiedEvents == old(copiedEvents)
    {
      ghost var original := events;
      SortValid(selected, |events|);
      selected := SortAscending(selected);
      UnselectedNone(original);
      assert selected[|selected|..] == [];
      var i := |selected| - 1;
      while i >= 0
        invariant -1 <= i < |selected|
        invariant selected == SortAscending(old(selected))
        invariant StrictlyAscending(selected) && InRange(selected, |original|)
        invariant events == Kept(original, selected[i + 1..], |original|)
        invariant copiedEvents == old(copiedEvents)
      {
        RemoveStep(original, selected, i);
        events := RemoveAt(events, selected[i]);
        i := i - 1;
      }
      assert selected[0..] == selected;
      KeptAgree(original, selected, old(selected), |original|);
      UnselectedLength(original, old(selected));
      selected := [];
    }

    /** `CopyAnimationEvents` up to the JSON text: one clipboard entry per
        selected index, in selection order. */
    method CopyAnimationEvents(t: ObjectTable) returns (entries: seq<SerializedAnimationEvent>)
      requires Valid()
      ensures |entries| == |selected|
      ensures forall j :: 0 <= j < |selected| ==> entries[j] == Serialize(events[selected[j]], t)
    {
      entries := [];
      for j := 0 to |selected|
        invariant |entries| == j
        invariant forall l :: 0 <= l < j ==> entries[l] == Serialize(events[selected[l]], t)
      {
        entries := entries + [Serialize(events[selected[j]], t)];
      }
    }

    /** The layout pass of the toolbar: read back what the clipboard holds. */
    method RefreshCopiedEvents(parsed: Option<seq<SerializedAnimationEvent>>, t: ObjectTable)
      requires Valid()
      modifies this
      ensures Valid()
      ensures events == old(events) && selected == old(selected)
      ensures copiedEvents.None? <==> parsed.None?
      ensures copiedEvents.Some? ==> |copiedEvents.value| == |parsed.value|
      ensures copiedEvents.Some? ==>
        forall i :: 0 <= i < |parsed.value| ==> copiedEvents.value[i] == ToAnimationEvent(parsed.value[i], t)
    {
      copiedEvents := GetCopiedAnimationEvents(parsed, t);
    }

    /** `PasteAnimationEvents`: the copied events are appended and become the
        selection. The Paste button is only enabled when some are copied. */
    method PasteAnimationEvents()
      requires Valid() && copiedEvents.Some?
      modifies this
      ensures Valid()
      ensures copiedEvents == old(copiedEvents)
      ensures events == old(events) + old(copiedEvents.value)
      ensures |selected| == |old(copiedEvents.value)|
      ensures forall k :: 0 <= k < |selected| ==> selected[k] == |old(events)| + k
    {
      var copied := copiedEvents.value;
      selected := [];
      for i := 0 to |copied|
        invariant events == old(events) + copied[..i]
        invariant copiedEvents == old(copiedEvents)
        invariant |selected| == i
        invariant forall k :: 0 <= k < i ==> selected[k] == |old(events)| + k
      {
        selected := selected + [|events|];
        events := events + [copied[i]];
        assert copied[..i + 1] == copied[..i] + [copied[i]];
      }
      assert copied[..|copied|] == copied;
    }

    /** The selection branch of `EventGUI`: a mouse-down inside event `index`. */
    method SelectEvent(index: int, control: bool, shift: bool)
      requires Valid() && 0 <= index < |events|
      modifies this
      ensures Valid()
      ensures selected == Clicked(old(selected), index, control, shift)
      ensures events == old(events) && copiedEvents == old(copiedEvents)
    {
      ClickKeepsValid(selected, |events|, index, control, shift);
      if control {
        if index in selected {
          selected := RemoveFirst(selected, index);
        } else {
          selected := selected + [index];
        }
      } else if shift && 0 < |selected| {
        var start := selected[0];
        if index != start {
          selected := [];
          var i := start;
          while i != index
            invariant start <= index ==> start <= i <= index
            invariant index < start ==> index <= i <= start
            invariant events == old(events) && copiedEvents == old(copiedEvents)
            invariant |selected| == Dist(start, i)
            invariant forall k :: 0 <= k < |selected| ==> selected[k] == Step(start, index, k)
            decreases Dist(i, index)
          {
            selected := selected + [i];
            i := if i < index then i + 1 else i - 1;
          }
          selected := selected + [index];
          assert selected == Run(start, index);
          RunValid(start, index, |events|);
        }
      } else {
        selected := [index];
      }
    }

    /** A mouse-down in the event list (the `EventGUI` loop of `OnGUI`
        followed by its background check). `consumed` says that a widget
        drawn before the checks (a toolbar button, one of an event's field
        editors or its SET button) already used the mouse-down; then no
        check sees it and the selection stays as it was. Otherwise `hits[i]`
        says whether event `i`'s rectangle holds the mouse: the first hit
        event handles the click, and if none does the selection is cleared. */
    method MouseDown(consumed: bool, hits: seq<bool>, control: bool, shift: bool)
      requires Valid() && |hits| == |events|
      modifies this
      ensures Valid()
      ensures events == old(events) && copiedEvents == old(copiedEvents)
      ensures consumed ==> selected == old(selected)
      ensures !consumed && FirstHit(hits).None? ==> selected == []
      ensures !consumed && FirstHit(hits).Some? ==>
        selected == Clicked(old(selected), FirstHit(hits).value, control, shift)
    {
      var used := consumed;
      var i := 0;
      while i < |events|
        invariant Valid() && 0 <= i <= |events|
        invariant events == old(events) && copiedEvents == old(copiedEvents)
        invariant consumed ==> used && selected == old(selected)
        invariant !consumed ==> (used <==> FirstHit(hits).Some? && FirstHit(hits).value < i)
        invariant !used ==> selected == old(selected)
        invariant !consumed && used ==> selected == Clicked(old(selected), FirstHit(hits).value, control, shift)
      {
        if !used && hits[i] {
          SelectEvent(i, control, shift);
          used := true;
        }
        i := i + 1;
      }
      if !used {
        selected := [];
      }
    }
  }
}
