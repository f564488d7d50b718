/** The clipboard form of an event (`SerializedAnimationEvent`) and the
    conversions between it and `AnimationEvent`. */
module Clipboard {
  import opened Events

  /** One clipboard entry: the event's fields, with the object reference
      replaced by its instance ID (0 for none). */
  datatype SerializedAnimationEvent = SerializedAnimationEvent(
    time: Float32,
    functionName: string,
    floatParameter: Float32,
    intParameter: Int32,
    stringParameter: string,
    objectInstanceId: Int32)

  /** The `SerializedAnimationEvent(AnimationEvent e)` constructor. */
  function Serialize(e: AnimationEvent, t: ObjectTable): SerializedAnimationEvent {
    SerializedAnimationEvent(
      e.time, e.functionName, e.floatParameter, e.intParameter, e.stringParameter,
      match e.objectReference
      case None => 0
      case Some(o) => t.instanceId(o))
  }

  /** `SerializedAnimationEvent.ToAnimationEvent`: ID 0 is a null reference,
      any other ID is looked up in the host. */
  function ToAnimationEvent(s: SerializedAnimationEvent, t: ObjectTable): AnimationEvent {
    AnimationEvent(
      s.time, s.functionName, s.floatParameter, s.intParameter, s.stringParameter,
      if s.objectInstanceId != 0 then t.resolve(s.objectInstanceId) else None)
  }

  /** Converting to the clipboard form and back keeps the five plain fields,
      whatever the host does with instance IDs. */
  lemma RoundTripFields(e: AnimationEvent, t: ObjectTable)
    ensures var back := ToAnimationEvent(Serialize(e, t), t);
      back.time == e.time && back.functionName == e.functionName &&
      back.floatParameter == e.floatParameter && back.intParameter == e.intParameter &&
      back.stringParameter == e.stringParameter
  {
  }

  /** A null reference is stored as ID 0, and ID 0 always comes back as null. */
  lemma NullReferenceIsZero(e: AnimationEvent, s: SerializedAnimationEvent, t: ObjectTable)
    ensures e.objectReference == None ==> Serialize(e, t).objectInstanceId == 0
    ensures s.objectInstanceId == 0 ==> ToAnimationEvent(s, t).objectReference == None
  {
  }

  /** With a coherent host, an event survives the round trip unchanged. */
  lemma RoundTrip(e: AnimationEvent, t: ObjectTable)
    requires Coherent(t)
    ensures ToAnimationEvent(Serialize(e, t), t) == e
  {
    if e.objectReference.Some? {
      var o := e.objectReference.value;
      assert t.instanceId(o) != 0 && t.resolve(t.instanceId(o)) == Some(o);
    }
  }

  /** The other direction: an entry survives conversion to an event and back,
      except that an ID that names no live object turns into 0. */
  lemma EntryRoundTrip(s: SerializedAnimationEvent, t: ObjectTable)
    requires Coherent(t)
    ensures Serialize(ToAnimationEvent(s, t), t) ==
      if s.objectInstanceId != 0 && t.resolve(s.objectInstanceId).None? then s.(objectInstanceId := 0) else s
  {
  }

  /** `GetCopiedAnimatioEvents` after the clipboard text has been parsed:
      `parsed` is `None` when the clipboard is empty, the JSON does not parse,
      or its `Events` array is null; each entry is then converted in order. */
  method GetCopiedAnimationEvents(parsed: Option<seq<SerializedAnimationEvent>>, t: ObjectTable)
    returns (r: Option<seq<AnimationEvent>>)
    ensures r.None? <==> parsed.None?
    ensures r.Some? ==> |r.value| == |parsed.value|
    ensures r.Some? ==> forall i :: 0 <= i < |r.value| ==> r.value[i] == ToAnimationEvent(parsed.value[i], t)
  {
    if parsed.None? {
      return None;
    }
    var entries := parsed.value;
    var result := new AnimationEvent[|entries|];
    var i := 0;
    while i < result.Length
      invariant 0 <= i <= result.Length == |entries|
      invariant forall j :: 0 <= j < i ==> result[j] == ToAnimationEvent(entries[j], t)
    {
      result[i] := ToAnimationEvent(entries[i], t);
      i := i + 1;
    }
    return Some(result[..]);
  }
}
