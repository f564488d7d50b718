/** The values an animation event is made of, and the event record itself. */
module Events {

  datatype Option<+T> = None | Some(value: T)

  /** A C# `float`, kept as its IEEE 754 single-precision bit pattern.
      The event editor only copies floats from one field to another, so no
      floating-point arithmetic is modelled. */
  type Float32 = bv32

  /** A C# `int`. */
  newtype Int32 = x: int | -0x8000_0000 <= x < 0x8000_0000

  /** A `UnityEngine.Object` that an event may refer to. Only its identity matters here. */
  type UnityObject(!new)

  /** The host's view of objects: `Object.GetInstanceID` and
      `EditorUtility.InstanceIDToObject` (which yields null, here `None`,
      for an ID that names no live object). Both are host functions, so
      they are parameters of the model. */
  datatype ObjectTable = ObjectTable(instanceId: UnityObject -> Int32, resolve: Int32 -> Option<UnityObject>)

  /** What the host guarantees about instance IDs: a live object never has ID 0,
      its ID resolves back to it, and an ID that resolves names the object it yields. */
  ghost predicate Coherent(t: ObjectTable) {
    (forall o: UnityObject :: t.instanceId(o) != 0 && t.resolve(t.instanceId(o)) == Some(o)) &&
    (forall id: Int32 :: t.resolve(id).Some? ==> id != 0 && t.instanceId(t.resolve(id).value) == id)
  }

  /** `UnityEngine.AnimationEvent`, with the fields the editor reads and writes.
      `objectReference == None` stands for a null `objectReferenceParameter`. */
  datatype AnimationEvent = AnimationEvent(
    time: Float32,
    functionName: string,
    floatParameter: Float32,
    intParameter: Int32,
    stringParameter: string,
    objectReference: Option<UnityObject>)

  /** `new AnimationEvent()` with its `time` set: every other field keeps
      its default (empty strings, zero numbers, no object). */
  function NewEvent(time: Float32): AnimationEvent {
    AnimationEvent(time, "", 0, 0, "", None)
  }
}
