/** The sink object of src/SerilogCacheSink.cs. The channel is the sequence of
    messages posted and not yet consumed; the facade methods append to it and
    `ReadLoop` consumes it front to back. Each facade call is one atomic step
    here, so the model covers the runs in which no call races with disposal or
    with a change of the `enabled` flag. */
module CacheSink {

  import opened Wrappers
  import opened LogEntry
  import opened MsgRecords
  import opened BoundedQueue
  import opened OwnerLoop
  import opened Facade

  class SerilogCacheSink<Event> {
    /** `_capacity` and `_byteBudget`, fixed at construction. */
    const limits: Limits
    /** The output-template formatter: renders an event to one text line. */
    const render: Event -> Line

    /** `_q`, the reader-owned queue, oldest entry first. */
    var q: seq<Entry>
    /** `_qBytes`, the running byte total of `_q`. */
    var qBytes: int
    var enabled: bool
    var disposed: bool
    /** `_ch`: messages written and not yet read, in arrival order. */
    var ch: seq<Msg<Event>>

    /** The running total matches the queue and every entry was built by `Entry`. */
    ghost predicate Consistent()
      reads this
    {
      AllWellSized(q) && qBytes == TotalBytes(q)
    }

    /** The object invariant between messages: consistent, validated limits, and
      both bounds hold. */
    ghost predicate Valid()
      reads this
    {
      Consistent() && ValidLimits(limits) && WithinLimits(q, limits)
    }

    /** The reader-owned state, as the owner loop's specification sees it. */
    ghost function State(): SinkState
      reads this
    {
      SinkState(q, enabled)
    }

    /** The constructor past validation: an empty cache, enabled, not disposed. */
    constructor (lim: Limits, fmt: Event -> Line)
      requires ValidLimits(lim)
      ensures Valid()
      ensures limits == lim && render == fmt
      ensures q == [] && qBytes == 0 && enabled && !disposed && ch == []
    {
      limits, render := lim, fmt;
      q, qBytes := [], 0;
      enabled, disposed := true, false;
      ch := [];
    }

    // ---- Reader-owned helpers ----

    /** Dequeue the oldest entry and subtract its size. */
    method EvictOne()
      requires Consistent() && |q| > 0
      modifies this`q, this`qBytes
      ensures Consistent()
      ensures q == old(q)[1..] && qBytes == old(qBytes) - old(q)[0].bytes
    {
      var e := q[0];
      q := q[1..];
      qBytes := qBytes - e.bytes;
      assert AllWellSized(q) by {
        forall i | 0 <= i < |q| ensures WellSized(q[i]) { assert q[i] == old(q)[i + 1]; }
      }
    }

    /** Enqueue the line's entry, then evict for the count limit, then for the byte limit. */
    method Append(line: Line)
      requires Valid()
      modifies this`q, this`qBytes
      ensures Valid()
      ensures q == AfterAppend(old(q), NewEntry(line), limits)
    {
      var e := NewEntry(line);
      ghost var s := q + [e];
      TotalBytesSnoc(q, e);
      q := q + [e];
      qBytes := qBytes + e.bytes;

      if limits.capacity.Some? && limits.capacity.value > 0 {
        while |q| > limits.capacity.value
          invariant Consistent()
          invariant CountEvict(q, limits.capacity) == CountEvict(s, limits.capacity)
          decreases |q|
        {
          EvictOne();
        }
      }
      ghost var c := q;
      assert c == CountEvict(s, limits.capacity);

      if limits.byteBudget.Some? && limits.byteBudget.value > 0 {
        while qBytes > limits.byteBudget.value && |q| > 0
          invariant Consistent()
          invariant ByteEvict(q, limits.byteBudget) == ByteEvict(c, limits.byteBudget)
          decreases |q|
        {
          EvictOne();
        }
      }
      AfterAppendWithinLimits(old(q), e, limits);
    }

    /** The current lines, oldest first; nothing changes. */
    method GetSnapshot() returns (res: seq<string>)
      ensures res == Lines(q)
    {
      res := [];
      var i := 0;
      while i < |q|
        invariant 0 <= i <= |q|
        invariant res == Lines(q[..i])
      {
        LinesConcat(q[..i], [q[i]]);
        assert q[..i + 1] == q[..i] + [q[i]];
        res := res + [q[i].line];
        i := i + 1;
      }
      assert q[..i] == q;
    }

    /** Dequeue every entry collecting its line, then reset the total. */
    method DrainInternal() returns (res: seq<string>)
      requires Valid()
      modifies this`q, this`qBytes
      ensures Valid()
      ensures res == Lines(old(q)) && q == [] && qBytes == 0
    {
      res := [];
      while |q| > 0
        invariant res + Lines(q) == Lines(old(q))
        decreases |q|
      {
        var e := q[0];
        LinesCons(q);
        assert (res + [e.line]) + Lines(q[1..]) == res + Lines(q);
        q := q[1..];
        res := res + [e.line];
      }
      assert Lines(q) == [];
      assert res == Lines(old(q));
      qBytes := 0;
      assert TotalBytes(q) == 0 && AllWellSized(q) && WithinLimits(q, limits);
    }

    /** Discard every entry and reset the total. */
    method ClearInternal()
      requires Valid()
      modifies this`q, this`qBytes
      ensures Valid()
      ensures q == [] && qBytes == 0
    {
      q := [];
      qBytes := 0;
    }

    // ---- The reader ----

    /** One pass of the reader's `switch`, as the owner loop's `Step` specifies. */
    method ProcessMsg(m: Msg<Event>) returns (reply: Option<Reply>)
      requires Valid()
      modifies this`q, this`qBytes, this`enabled
      ensures Valid()
      ensures (State(), reply) == Step(limits, render, old(State()), m)
    {
      match m
      case LogEvt(evt) =>
        var line := render(evt);
        Append(line);
        reply := None;
      case SnapshotReq =>
        var lines := GetSnapshot();
        reply := Some(LinesReply(lines));
      case DrainReq =>
        var lines := DrainInternal();
        reply := Some(LinesReply(lines));
      case ClearReq =>
        ClearInternal();
        reply := Some(FlagReply(true));
      case EnableReq =>
        enabled := true;
        reply := Some(FlagReply(true));
      case DisableReq =>
        enabled := false;
        reply := Some(FlagReply(true));
    }

    /** Consume every posted message in arrival order, each to completion; the
      replies are the values the messages' tasks are resolved with. */
    method ReadLoop() returns (replies: seq<Option<Reply>>)
      requires Valid()
      modifies this`q, this`qBytes, this`enabled, this`ch
      ensures Valid() && ch == []
      ensures (State(), replies) == Run(limits, render, old(State()), old(ch))
    {
      replies := [];
      assert [] + Run(limits, render, State(), ch).1 == Run(limits, render, State(), ch).1;
      while |ch| > 0
        invariant Valid()
        invariant Run(limits, render, old(State()), old(ch)) ==
          (Run(limits, render, State(), ch).0, replies + Run(limits, render, State(), ch).1)
        decreases |ch|
      {
        var m := ch[0];
        ghost var before := State();
        ghost var rest := ch[1..];
        assert ch == [m] + rest;
        RunCons(limits, render, before, m, rest);
        ch := ch[1..];
        ghost var done := replies;
        var r := ProcessMsg(m);
        replies := replies + [r];
        ghost var tl := Run(limits, render, State(), ch);
        assert Run(limits, render, before, [m] + rest) == (tl.0, [r] + tl.1);
        assert done + ([r] + tl.1) == replies + tl.1;
      }
      assert Run(limits, render, State(), ch) == (State(), []);
      assert replies + [] == replies;
    }

    // ---- The facade ----

    /** Post the event when enabled and not disposed; otherwise drop it. */
    method Emit(evt: Event)
      modifies this`ch
      ensures ch == Submitted(old(ch), Gate(enabled, disposed, EmitCall(evt)))
    {
      if !enabled || disposed {
        return;
      }
      ch := ch + [LogEvt(evt)];
    }

    method Snapshot() returns (done: Option<Reply>)
      modifies this`ch
      ensures ch == Submitted(old(ch), Gate(enabled, disposed, Call<Event>.SnapshotCall))
      ensures done == Resolved(Gate(enabled, disposed, Call<Event>.SnapshotCall))
    {
      if disposed {
        return Some(LinesReply([]));
      }
      ch := ch + [SnapshotReq];
      done := None;
    }

    method Drain() returns (done: Option<Reply>)
      modifies this`ch
      ensures ch == Submitted(old(ch), Gate(enabled, disposed, Call<Event>.DrainCall))
      ensures done == Resolved(Gate(enabled, disposed, Call<Event>.DrainCall))
    {
      if disposed {
        return Some(LinesReply([]));
      }
      ch := ch + [DrainReq];
      done := None;
    }

    method Clear() returns (done: Option<Reply>)
      modifies this`ch
      ensures ch == Submitted(old(ch), Gate(enabled, disposed, Call<Event>.ClearCall))
      ensures done == Resolved(Gate(enabled, disposed, Call<Event>.ClearCall))
    {
      if disposed {
        return Some(FlagReply(true));
      }
      ch := ch + [ClearReq];
      done := None;
    }

    method Enable() returns (done: Option<Reply>)
      modifies this`ch
      ensures ch == Submitted(old(ch), Gate(enabled, disposed, Call<Event>.EnableCall))
      ensures done == Resolved(Gate(enabled, disposed, Call<Event>.EnableCall))
    {
      if disposed {
        return Some(FlagReply(false));
      }
      ch := ch + [EnableReq];
      done := None;
    }

    method Disable() returns (done: Option<Reply>)
      modifies this`ch
      ensures ch == Submitted(old(ch), Gate(enabled, disposed, Call<Event>.DisableCall))
      ensures done == Resolved(Gate(enabled, disposed, Call<Event>.DisableCall))
    {
      if disposed {
        return Some(FlagReply(false));
      }
      ch := ch + [DisableReq];
      done := None;
    }

    /** First caller wins (`TrySetTrue`): only the first call marks the sink
      disposed and waits for the reader to finish the messages already posted,
      so every request posted before disposal is still answered (`replies`, one
      per posted message, in order); every later call returns at once and
      changes nothing. */
    method Dispose() returns (first: bool, replies: seq<Option<Reply>>)
      requires Valid()
      modifies this
      ensures Valid() && disposed
      ensures first == !old(disposed)
      ensures first ==> ch == [] && (State(), replies) == Run(limits, render, old(State()), old(ch))
      ensures first ==> |replies| == |old(ch)| && forall i :: 0 <= i < |old(ch)| ==> Answers(old(ch)[i], replies[i])
      ensures !first ==> replies == [] && q == old(q) && qBytes == old(qBytes) && enabled == old(enabled) && ch == old(ch)
    {
      first := !disposed;
      if !first {
        return first, [];
      }
      RunKeepsGoodAndAnswers(limits, render, State(), ch);
      disposed := true;
      replies := ReadLoop();
    }
  }

  /** The channel after a gated call: the posted message, if any, at the tail. */
  function Submitted<Event>(ch: seq<Msg<Event>>, g: Gated<Event>): seq<Msg<Event>> {
    if g.Post? then ch + [g.msg] else ch
  }

  /** The task value available at once: a resolved reply, or none while the request is posted. */
  function Resolved<Event>(g: Gated<Event>): Option<Reply> {
    if g.Resolve? then Some(g.reply) else None
  }

  /** Construction: validate, then build the empty sink. */
  method NewSink<Event>(capacity: Option<Int32>, byteBudget: Option<Int64>, fmt: Event -> Line)
    returns (r: Result<SerilogCacheSink<Event>, ConfigError>)
    ensures r.Err? <==> Validate(capacity, byteBudget).Err?
    ensures r.Err? ==> r.error == Validate(capacity, byteBudget).error
    ensures r.Ok? ==> (fresh(r.value) && r.value.Valid() &&
      r.value.limits == Limits(capacity, byteBudget) && r.value.render == fmt &&
      r.value.q == [] && r.value.enabled && !r.value.disposed && r.value.ch == [])
  {
    match Validate(capacity, byteBudget)
    case Err(e) => r := Err(e);
    case Ok(lim) =>
      var sink := new SerilogCacheSink(lim, fmt);
      r := Ok(sink);
  }

  /** Read-your-writes through the facade: an event emitted by an enabled,
      undisposed sink, followed by a drain from the same caller, is the newest
      line the drain returns once the reader has caught up, whatever was posted
      before (unless the line alone exceeds an active byte budget). */
  method EmitThenDrain<Event>(sink: SerilogCacheSink<Event>, evt: Event) returns (lines: seq<string>)
    requires sink.Valid() && sink.enabled && !sink.disposed
    requires !Active(sink.limits.byteBudget) || NewEntry(sink.render(evt)).bytes <= sink.limits.byteBudget.value
    modifies sink
    ensures sink.Valid() && sink.ch == [] && sink.q == []
    ensures |lines| > 0 && lines[|lines| - 1] == sink.render(evt)
  {
    ghost var pre := sink.ch;
    ghost var s0 := sink.State();
    sink.Emit(evt);
    var pending := sink.Drain();
    assert pending == None;
    assert sink.ch == pre + [LogEvt(evt), DrainReq];
    var replies := sink.ReadLoop();
    RunConcat(sink.limits, sink.render, s0, pre, [LogEvt(evt), DrainReq]);
    ghost var s1 := Run(sink.limits, sink.render, s0, pre).0;
    assert Good(s1, sink.limits) by {
      RunKeepsGoodAndAnswers(sink.limits, sink.render, s0, pre);
    }
    ghost var fin := Run(sink.limits, sink.render, s1, [LogEvt(evt), DrainReq]);
    assert fin.0.q == [] && |fin.1| == 2 && fin.1[1].Some? && fin.1[1].value.LinesReply? &&
           |fin.1[1].value.lines| > 0 && fin.1[1].value.lines[|fin.1[1].value.lines| - 1] == sink.render(evt) by {
      DrainSeesEarlierWrite(sink.limits, sink.render, s1, evt);
    }
    assert sink.State() == fin.0;
    assert replies == Run(sink.limits, sink.render, s0, pre).1 + fin.1;
    assert replies[|replies| - 1] == fin.1[1];
    lines := replies[|replies| - 1].value.lines;
  }

  /** Disabling stops acceptance: once the reader has processed a disable, an
      emitted event is dropped and nothing is posted. */
  method DisableThenEmit<Event>(sink: SerilogCacheSink<Event>, evt: Event)
    requires sink.Valid() && !sink.disposed
    modifies sink
    ensures sink.Valid() && !sink.enabled && sink.ch == []
  {
    ghost var pre := sink.ch;
    ghost var s0 := sink.State();
    var pending := sink.Disable();
    assert sink.ch == pre + [DisableReq];
    var _ := sink.ReadLoop();
    RunConcat(sink.limits, sink.render, s0, pre, [DisableReq]);
    ghost var s1 := Run(sink.limits, sink.render, s0, pre).0;
    ghost var none: seq<Msg<Event>> := [];
    RunCons(sink.limits, sink.render, s1, DisableReq, none);
    assert [DisableReq] == [DisableReq] + none;
    sink.Emit(evt);
  }

  /** Enabling resumes acceptance: once the reader has processed an enable, an
      emitted event is posted as a log write. */
  method EnableThenEmit<Event>(sink: SerilogCacheSink<Event>, evt: Event)
    requires sink.Valid() && !sink.disposed
    modifies sink
    ensures sink.Valid() && sink.enabled && sink.ch == [LogEvt(evt)]
  {
    ghost var pre := sink.ch;
    ghost var s0 := sink.State();
    var pending := sink.Enable();
    assert sink.ch == pre + [EnableReq];
    var _ := sink.ReadLoop();
    RunConcat(sink.limits, sink.render, s0, pre, [EnableReq]);
    ghost var s1 := Run(sink.limits, sink.render, s0, pre).0;
    ghost var none: seq<Msg<Event>> := [];
    RunCons(sink.limits, sink.render, s1, EnableReq, none);
    assert [EnableReq] == [EnableReq] + none;
    sink.Emit(evt);
  }
}
