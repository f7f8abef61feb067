/** The runtime's events, as the observers of this repository read them. */
module Events {
  /** The kinds the trackers branch on; every other kind is carried by name. */
  datatype Kind = SpanStarted | SpanEnded | FiberStarted | FiberCompleted | OtherKind(name: string)

  datatype Status = NoStatus | Succeeded | Failed | Defective | Interrupted

  datatype Attribute = Attribute(key: string, value: string)

  /** An instant on the runtime's clock. */
  type Time = int

  /** The instant of an event that carries none, which is how an open span's end time reads. */
  const ZERO_TIME: Time := 0

  datatype Event = Event(
    kind: Kind, spanId: nat, parentId: nat, fiberId: nat, parentFiber: nat,
    operation: string, source: string, timestamp: Time, duration: int, delay: int,
    status: Status, attempt: nat, attributes: seq<Attribute>)
}
