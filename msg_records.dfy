/** The closed union of messages handled by the single reader (src/Dtos/MsgRecords.cs).
    Each control variant's completion handle is replaced by the value it is
    completed with, which the reader returns. */
module MsgRecords {

  import opened Wrappers

  /** The six sealed records deriving from `Msg`; `Event` is the host's log event. */
  datatype Msg<Event> =
    | LogEvt(event: Event)   // no completion: fire-and-forget
    | SnapshotReq            // completes with a list of lines
    | DrainReq               // completes with a list of lines
    | ClearReq               // completes with a flag
    | EnableReq              // completes with a flag
    | DisableReq             // completes with a flag

  /** A value a completion handle is resolved with. */
  datatype Reply = LinesReply(lines: seq<string>) | FlagReply(ok: bool)

  /** The type argument of each variant's `TaskCompletionSource`, or none. */
  datatype Completion = NoCompletion | LinesCompletion | FlagCompletion

  function CompletionOf<Event>(m: Msg<Event>): (c: Completion)
    ensures c == NoCompletion <==> m.LogEvt?
    ensures c == LinesCompletion <==> m.SnapshotReq? || m.DrainReq?
    ensures c == FlagCompletion <==> m.ClearReq? || m.EnableReq? || m.DisableReq?
  {
    match m
    case LogEvt(_) => NoCompletion
    case SnapshotReq => LinesCompletion
    case DrainReq => LinesCompletion
    case ClearReq => FlagCompletion
    case EnableReq => FlagCompletion
    case DisableReq => FlagCompletion
  }

  /** `r` is a reply of the type the message's completion handle carries. */
  predicate Answers<Event>(m: Msg<Event>, r: Option<Reply>) {
    match CompletionOf(m)
    case NoCompletion => r.None?
    case LinesCompletion => r.Some? && r.value.LinesReply?
    case FlagCompletion => r.Some? && r.value.FlagReply?
  }
}
