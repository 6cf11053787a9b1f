/** Listener entries of the event bus, as Runtime/EventBusEntry.cs declares them. */
module Entries {

  /** The dispatch key: the static type argument `typeof(T)` of a generic call, taken as a plain tag. */
  datatype TypeTag = TypeTag(id: nat)

  /** A registered callback. Equality of two ids stands for delegate `==`. */
  datatype CallbackId = CallbackId(id: nat)

  /**
    One registration. The diagnostic `name`, the host `unityObject` and the editor `script`
    fields carry no behaviour and are not modelled.
   */
  datatype Entry = Entry(channel: int, eventType: TypeTag, action: CallbackId)

  datatype Option<+T> = None | Some(value: T)
}
