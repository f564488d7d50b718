# Animation Event Editor: event list and selection model

A Dafny model of the host-independent part of `AnimationEventEditor`, a Unity
editor window for editing the animation events of a clip. The window keeps two
pieces of state that matter here:

- `mEvents`, the array of `AnimationEvent` records of the clip being edited;
- `mSelectedEvents`, a `List<int>` of indices into `mEvents`, in the order the
  user selected them.

The model covers the operations that change this state: a mouse-down on an
event (plain click, ctrl-click toggle, shift-click range), a mouse-down on the
background, Add, Remove, Copy, Paste, selecting another clip, and the clipboard
form of an event (`SerializedAnimationEvent`) with its conversions.

Layout:

- `events.dfy` (module `Events`): `AnimationEvent` as a datatype. Floats are
  kept as 32-bit patterns (`Float32`) because they are only ever copied.
  `Int32` is C#'s `int`. `UnityObject` is an abstract type. `ObjectTable` holds
  the host's `GetInstanceID` and `EditorUtility.InstanceIDToObject` as function
  values, and `Coherent` states what the host guarantees about them.
- `clipboard.dfy` (module `Clipboard`): `SerializedAnimationEvent`, its
  constructor (`Serialize`) and `ToAnimationEvent`, both round trips, and the
  decoding loop of `GetCopiedAnimatioEvents`.
- `selection.dfy` (module `Selection`): the selection invariant
  (`ValidSelection`: distinct indices, each below the event count). It also
  holds `List<int>.Remove` (`RemoveFirst`), `List<int>.Sort` (`SortAscending`),
  the shift-click range in closed form (`Run`), and `Clicked`, which says what
  a click on an event does to the selection.
- `eventlist.dfy` (module `EventList`): `ArrayUtility.RemoveAt`, and
  `Unselected`, the reference definition of what Remove must leave. It holds
  the lemmas that make the descending removal loop safe and exact.
- `window.dfy` (module `Window`): the class `AnimationEventWindow`. Its fields
  are `events`, `selected` and `copiedEvents` (`mCopiedAnimationEvents`). Its
  methods are the source's operations, with their loops and invariants. Every
  method keeps `Valid()`, the selection invariant.

`ArrayUtility.Add` and `RemoveAt` build a new array and assign it through
`ref`, so `mEvents` is a `seq` field that the methods reassign. The list and
selection logic stands on its own.

## Model

| member | source | states |
|---|---|---|
| `Events.NewEvent` | Editor/AnimationEventEditor.cs:365-366 | `new AnimationEvent()` with its time set: empty function name and string parameter, zero float and int parameters, no object. |
| `Clipboard.Serialize` | Editor/AnimationEventEditor.cs:113-121 | The clipboard entry of an event: its five plain fields, and the object's instance ID, or 0 for no object. |
| `Clipboard.ToAnimationEvent` | Editor/AnimationEventEditor.cs:123-133 | The event of a clipboard entry: its five plain fields, and no object for ID 0, else whatever the host resolves the ID to. |
| `Selection.RemoveFirst` | Editor/AnimationEventEditor.cs:570 | `List<int>.Remove`: a list without the value is returned as it is; otherwise the result is one shorter (the first occurrence is dropped, see `RemoveFirstSplit`). |
| `Selection.Toggled` | Editor/AnimationEventEditor.cs:566-576 | The ctrl-click branch: one shorter when the index was selected, otherwise the old selection with the index appended at the end. |
| `Selection.Run` | Editor/AnimationEventEditor.cs:582-589 | The selection the shift-click loop builds: Dist+1 indices from the anchor to the clicked index. |
| `Selection.SortAscending` | Editor/AnimationEventEditor.cs:374 | `List<int>.Sort`, as insertion sort (with `Insert`); proved a sorted permutation by `SortSpec`. |
| `Selection.Clicked` | Editor/AnimationEventEditor.cs:566-596 | The click branch as a value: ctrl gives `Toggled`; shift with a selection gives the old selection if the anchor is clicked, else `Run` from the anchor; otherwise just the clicked index. |
| `EventList.Kept` | Editor/AnimationEventEditor.cs:372-384 | Reference for removal: the first n events whose index is not selected, in order. |
| `EventList.Unselected` | Editor/AnimationEventEditor.cs:372-384 | Reference for removal: all events whose index is not selected, in their original order. |
| `EventList.RemoveAt` | Editor/AnimationEventEditor.cs:378 | `ArrayUtility.RemoveAt`: one element shorter; elements before k keep their place and those after k move down by one. |
| `Clipboard.RoundTripFields` | Editor/AnimationEventEditor.cs:113-133 | Converting an event to its clipboard entry and back keeps time, function name, float, int and string parameters, for any host. |
| `Clipboard.NullReferenceIsZero` | Editor/AnimationEventEditor.cs:120-131 | A null object reference is stored as instance ID 0, and ID 0 always converts back to null. |
| `Clipboard.RoundTrip` | Editor/AnimationEventEditor.cs:113-133 | With a coherent host, an event converted to an entry and back is the same modelled record, object reference included. In the host the round trip also resets `messageOptions`, which the model does not carry (see Left out). |
| `Clipboard.EntryRoundTrip` | Editor/AnimationEventEditor.cs:113-133 | An entry converted to an event and back is unchanged, except that an ID naming no live object becomes 0. |
| `Clipboard.GetCopiedAnimationEvents` | Editor/AnimationEventEditor.cs:193-216 | No parsed entries (empty clipboard, bad JSON, null array) gives null. Otherwise the result has one event per entry, and event i is `ToAnimationEvent` of entry i. |
| `Selection.IndexOf` | Editor/AnimationEventEditor.cs:570 | The first position of an index in the list. The index is there and occurs nowhere before it. |
| `Selection.RemoveFirstSplit` | Editor/AnimationEventEditor.cs:568-571 | `List.Remove` leaves a list without the index unchanged. Otherwise it cuts out exactly the first occurrence and keeps the order of the rest. |
| `Selection.InsertPermutes` | Editor/AnimationEventEditor.cs:374 | One insertion step of the sort adds exactly the inserted index (multiset). |
| `Selection.SortSpec` | Editor/AnimationEventEditor.cs:374 | `List.Sort` yields a permutation (same multiset) in ascending order. |
| `Selection.SortStrictly` | Editor/AnimationEventEditor.cs:374 | When no index repeats, the sorted order is strictly ascending. |
| `Selection.SortValid` | Editor/AnimationEventEditor.cs:374-378 | Sorting a valid selection keeps the same indices, all in range, in strictly ascending order. |
| `Selection.RunShape` | Editor/AnimationEventEditor.cs:577-591 | The shift-click run has length distance+1. It starts at the anchor `mSelectedEvents[0]`, ends at the clicked index and repeats nothing. It holds exactly the indices between the two. |
| `Selection.RunValid` | Editor/AnimationEventEditor.cs:577-591 | A run between two valid indices is a valid selection. |
| `Selection.ToggleFlips` | Editor/AnimationEventEditor.cs:566-576 | Ctrl-click on a distinct selection flips membership of the clicked index and of no other index. |
| `Selection.ClickKeepsValid` | Editor/AnimationEventEditor.cs:562-600 | Every kind of click (ctrl, shift, plain) on a valid index keeps the selection distinct and in range. |
| `EventList.KeptLength` | Editor/AnimationEventEditor.cs:376-379 | What is left has one element per index not selected. |
| `EventList.KeptAt` | Editor/AnimationEventEditor.cs:376-379 | Unselected event i lands at position i minus the number of selected indices below i, so the original order is kept. |
| `EventList.RemoveLowest` | Editor/AnimationEventEditor.cs:376-379 | If every index already removed is above k, then k is still in range and still holds event k. Removing it is the same as adding k to the removed set. |
| `EventList.RemoveStep` | Editor/AnimationEventEditor.cs:376-379 | One step of the descending removal loop over a strictly ascending selection is in range and removes exactly event `srt[i]`. |
| `EventList.UnselectedLength` | Editor/AnimationEventEditor.cs:372-384 | Removing a valid selection leaves as many events as there were, less one per selected index. |
| `EventList.UnselectedNone` | Editor/AnimationEventEditor.cs:372-384 | With nothing selected, Remove leaves the events unchanged. |
| `Window.FirstHit` | Editor/AnimationEventEditor.cs:275-278 | Gives the first event under the mouse, or none when the mouse is over no event. The first hit uses up the mouse-down. |
| `Window.CopyPasteRoundTrip` | Editor/AnimationEventEditor.cs:386-410 | Assuming the JSON encoding and decoding hand back the entries `CopyAnimationEvents` produced unchanged, and with a coherent host, those entries decode to exactly the selected events, in selection order. |
| `Window.AnimationEventWindow.constructor` | Editor/AnimationEventEditor.cs:87-94 | The window starts with no events, an empty selection and nothing copied. |
| `Window.AnimationEventWindow.OnClipSelect` | Editor/AnimationEventEditor.cs:495-502 | Selecting a clip loads its events and clears the selection. |
| `Window.AnimationEventWindow.AddEvent` | Editor/AnimationEventEditor.cs:363-370 | Add appends one default event at the given time. The existing events and the selection are untouched. |
| `Window.AnimationEventWindow.RemoveSelectedEvents` | Editor/AnimationEventEditor.cs:372-384 | Sort, then remove from the highest index down. Every `RemoveAt` is in range, the events left are exactly the unselected ones in original order (`Unselected`), and the selection is emptied. |
| `Window.AnimationEventWindow.CopyAnimationEvents` | Editor/AnimationEventEditor.cs:386-396 | One entry per selected index, in selection order. Entry j is serialized from `mEvents[mSelectedEvents[j]]`. |
| `Window.AnimationEventWindow.RefreshCopiedEvents` | Editor/AnimationEventEditor.cs:464-467 | The copied events are re-read from the clipboard. Null when nothing parses, else one decoded event per entry. |
| `Window.AnimationEventWindow.PasteAnimationEvents` | Editor/AnimationEventEditor.cs:398-410 | The new events are the old ones followed by the copied ones. With n old events and k copied ones, the selection is exactly the indices n, n+1, ..., n+k-1. |
| `Window.AnimationEventWindow.SelectEvent` | Editor/AnimationEventEditor.cs:562-600 | The new selection is `Clicked`: ctrl toggles, shift with a different anchor gives the run (loop proved to terminate), shift on the anchor changes nothing, otherwise `[index]`. Events are untouched. |
| `Window.AnimationEventWindow.MouseDown` | Editor/AnimationEventEditor.cs:275-293 | A mouse-down already used by a widget (toolbar button, field editor, SET button) leaves the selection unchanged. Otherwise the first event under the mouse handles the click as in `SelectEvent`, and a mouse-down no event took clears the selection. |

## Left out

- Reflection into editor internals is not modelled: locating the clip and importer editors, `GetEvents`/`SetEvents`, `GetTime`, `Revert`, `ApplyAndImport` and its tab workaround. These are calls into closed host code. `OnClipSelect` takes the clip's events as a parameter.
- `ApplyChanges` (pushing `mEvents` back to the host) and `GUIUtility.ExitGUI` are not modelled; they end each operation but do not change the modelled state.
- Immediate-mode GUI is not modelled: drawing, layout, `GUI.enabled`, focus, `Event.Use` and `Repaint`. Hit-testing an event's rectangle is the `hits` parameter of `MouseDown`, and a mouse-down that a widget used first is its `consumed` parameter.
- PasteAnimationEvents: the Paste button is enabled only when the copied events are non-null and non-empty; the precondition asks only for non-null, which is weaker and also covers an empty paste (the selection is cleared and no event is added).
- The writes of the field editors of `EventGUI` (Editor/AnimationEventEditor.cs:541-554) change event contents, never the number of events or the selection, and are not modelled. That such a widget can use up a mouse-down before the click check is modelled: it is `MouseDown`'s `consumed` parameter.
- The `Update`/`mPostImport`/`mRepaintFired` handshake is not modelled; it sequences host GUI callbacks.
- The system clipboard, `JsonUtility` encoding and decoding, and the try/catch of `GetCopiedAnimatioEvents` are not modelled; they are a foreign library. The parse result is the `parsed` parameter, and `CopyAnimationEvents` returns the entries it would encode.
- Time normalization (`NormalizeTime`, `UnnormalizeTime`, `Mathf.Clamp01`) is not modelled; it is float arithmetic and divides by zero when start and stop times agree. Add takes the new event's time as an opaque parameter.
- `GetInstanceID` and `EditorUtility.InstanceIDToObject` are host functions. They are parameters (`ObjectTable`), with `Coherent` as the assumed host contract.
- `AnimationEvent` is a reference type in the host; the model treats events as values, so aliasing between `mCopiedAnimationEvents` and `mEvents` after a paste is not captured.
- `AnimationEvent.messageOptions` is not modelled; the clipboard form does not carry it either.
- `SortAscending` is insertion sort, not the library's introsort. For a list of integers the sorted result is unique, so this changes nothing.
