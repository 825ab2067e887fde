/** Vocabulary shared by every part of the model: times, runtime states,
    attention conditions, delivery outcomes and events. */
module Domain {

  datatype Option<+T> = None | Some(value: T)

  /** Milliseconds of wall-clock time since the Unix epoch. */
  type Time = int

  /** The zero time: the first instant of year 1. */
  const ZERO_TIME: Time := -62135596800000

  function LaterOf(a: Time, b: Time): Time {
    if b > a then b else a
  }

  /** Runtime states. `Unstated` is the empty status of an event or a row that
      asserts none. */
  datatype Status =
    | Unstated
    | Active
    | IdleStatus
    | WaitingInput
    | RunningTool
    | Exited
    | UnknownStatus

  /** Attention conditions. */
  datatype Condition =
    | Exit
    | ObservationLost
    | InputRequested
    | Idle
    | NoProgress
    | Quiet
    | Overdue

  /** What one delivery attempt established. */
  datatype Outcome = Delivered | Failed | Uncertain | Suppressed | NoRecipient

  datatype EventKind = ObservationEvent | SessionFollowed

  /** One entry of the event feed, before a sequence number is assigned. The
      status is `Unstated` and the reason empty when the event carries none. */
  datatype Event = Event(
    target: string,
    kind: EventKind,
    source: string,
    machine: string,
    at: Time,
    session: string,
    generation: int,
    status: Status,
    reason: string,
    visibility: string,
    correlatedLoss: bool)
}
