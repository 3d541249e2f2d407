/** The public surface of src/SerilogCacheSink.cs: constructor validation and
    the gating of each call on the `enabled` and `disposed` flags. */
module Facade {

  import opened Wrappers
  import opened MsgRecords
  import opened BoundedQueue

  /** `ArgumentOutOfRangeException` naming the offending parameter. */
  datatype ConfigError = CapacityOutOfRange | ByteBudgetOutOfRange

  /** The constructor's checks, capacity first: a negative value is refused,
      an absent or non-negative one is stored unchanged. */
  function Validate(capacity: Option<Int32>, byteBudget: Option<Int64>): (r: Result<Limits, ConfigError>)
    ensures r.Ok? ==> ValidLimits(r.value)
  {
    if capacity.Some? && capacity.value < 0 then Err(CapacityOutOfRange)
    else if byteBudget.Some? && byteBudget.value < 0 then Err(ByteBudgetOutOfRange)
    else Ok(Limits(capacity, byteBudget))
  }

  /** Validation accepts exactly the valid limits and keeps them as given; a
      refusal names the first negative parameter. */
  lemma ValidateAcceptsExactlyValid(capacity: Option<Int32>, byteBudget: Option<Int64>)
    ensures Validate(capacity, byteBudget).Ok? <==> ValidLimits(Limits(capacity, byteBudget))
    ensures Validate(capacity, byteBudget).Ok? ==> Validate(capacity, byteBudget).value == Limits(capacity, byteBudget)
    ensures capacity.Some? && capacity.value < 0 ==> Validate(capacity, byteBudget) == Err(CapacityOutOfRange)
    ensures (capacity.None? || capacity.value >= 0) && byteBudget.Some? && byteBudget.value < 0 ==>
      Validate(capacity, byteBudget) == Err(ByteBudgetOutOfRange)
  {
  }

  /** A call on the sink: the sink-interface `Emit` and the five control operations. */
  datatype Call<Event> = EmitCall(event: Event) | SnapshotCall | DrainCall | ClearCall | EnableCall | DisableCall

  /** What a call does: post a message to the reader, resolve its task at once, or drop the event. */
  datatype Gated<Event> = Post(msg: Msg<Event>) | Resolve(reply: Reply) | Drop

  /** The message a call posts when it is let through. */
  function Request<Event>(c: Call<Event>): Msg<Event> {
    match c
    case EmitCall(evt) => LogEvt(evt)
    case SnapshotCall => SnapshotReq
    case DrainCall => DrainReq
    case ClearCall => ClearReq
    case EnableCall => EnableReq
    case DisableCall => DisableReq
  }

  /** The flag checks at the top of each facade method. */
  function Gate<Event>(enabled: bool, disposed: bool, c: Call<Event>): Gated<Event> {
    match c
    case EmitCall(evt) => if !enabled || disposed then Drop else Post(LogEvt(evt))
    case SnapshotCall => if disposed then Resolve(LinesReply([])) else Post(SnapshotReq)
    case DrainCall => if disposed then Resolve(LinesReply([])) else Post(DrainReq)
    case ClearCall => if disposed then Resolve(FlagReply(true)) else Post(ClearReq)
    case EnableCall => if disposed then Resolve(FlagReply(false)) else Post(EnableReq)
    case DisableCall => if disposed then Resolve(FlagReply(false)) else Post(DisableReq)
  }

  /** A call posts exactly when the sink is not disposed and, for `Emit`, enabled;
      what it posts is its own request; only `Emit` ever drops. */
  lemma GatePosts<Event>(enabled: bool, disposed: bool, c: Call<Event>)
    ensures Gate(enabled, disposed, c).Post? <==> !disposed && (c.EmitCall? ==> enabled)
    ensures Gate(enabled, disposed, c).Post? ==> Gate(enabled, disposed, c).msg == Request(c)
    ensures Gate(enabled, disposed, c).Drop? <==> c.EmitCall? && (!enabled || disposed)
  {
  }

  /** After disposal nothing is posted: snapshot and drain resolve with no lines,
      clear with `true`, enable and disable with `false`, and an event is dropped. */
  lemma GateDisposed<Event>(enabled: bool, c: Call<Event>)
    ensures !Gate(enabled, true, c).Post?
    ensures (c.SnapshotCall? || c.DrainCall?) ==> Gate(enabled, true, c) == Resolve(LinesReply([]))
    ensures c.ClearCall? ==> Gate(enabled, true, c) == Resolve(FlagReply(true))
    ensures (c.EnableCall? || c.DisableCall?) ==> Gate(enabled, true, c) == Resolve(FlagReply(false))
    ensures c.EmitCall? ==> Gate(enabled, true, c) == Drop
  {
  }

  /** A task resolved at once carries a value of the type the posted request's
      completion would have carried. */
  lemma GateResolveMatchesCompletion<Event>(enabled: bool, disposed: bool, c: Call<Event>)
    ensures Gate(enabled, disposed, c).Resolve? ==> Answers(Request(c), Some(Gate(enabled, disposed, c).reply))
  {
  }
}
