/** The reader's `switch` (src/SerilogCacheSink.cs, `ReadLoop`) as a function on
    the reader-owned state, and the loop as that function folded over the
    channel's messages in arrival order. */
module OwnerLoop {

  import opened Wrappers
  import opened LogEntry
  import opened MsgRecords
  import opened BoundedQueue

  /** What the reader owns and mutates: the queue and the enabled flag. */
  datatype SinkState = SinkState(q: seq<Entry>, enabled: bool)

  /** The state between messages: well-sized entries within the limits. */
  predicate Good(s: SinkState, lim: Limits) {
    AllWellSized(s.q) && WithinLimits(s.q, lim)
  }

  /** Processing one message to completion: the new state and the value its
      completion handle is resolved with (none for a log write). */
  function Step<Event>(lim: Limits, render: Event -> Line, s: SinkState, m: Msg<Event>): (SinkState, Option<Reply>) {
    match m
    case LogEvt(evt) => (s.(q := AfterAppend(s.q, NewEntry(render(evt)), lim)), None)
    case SnapshotReq => (s, Some(LinesReply(Lines(s.q))))
    case DrainReq => (s.(q := []), Some(LinesReply(Lines(s.q))))
    case ClearReq => (s.(q := []), Some(FlagReply(true)))
    case EnableReq => (s.(enabled := true), Some(FlagReply(true)))
    case DisableReq => (s.(enabled := false), Some(FlagReply(true)))
  }

  /** The reader consuming `msgs` front to back: the final state and one reply per message. */
  function Run<Event>(lim: Limits, render: Event -> Line, s: SinkState, msgs: seq<Msg<Event>>): (SinkState, seq<Option<Reply>>)
    decreases |msgs|
  {
    if |msgs| == 0 then (s, [])
    else
      var first := Step(lim, render, s, msgs[0]);
      var rest := Run(lim, render, first.0, msgs[1..]);
      (rest.0, [first.1] + rest.1)
  }

  /** One unfolding of `Run` on the message at the head of the channel. */
  lemma RunCons<Event>(lim: Limits, render: Event -> Line, s: SinkState, m: Msg<Event>, msgs: seq<Msg<Event>>)
    ensures Run(lim, render, s, [m] + msgs) ==
      (Run(lim, render, Step(lim, render, s, m).0, msgs).0,
       [Step(lim, render, s, m).1] + Run(lim, render, Step(lim, render, s, m).0, msgs).1)
  {
  }

  /** Running a concatenation is running its halves one after the other. */
  lemma {:induction false} RunConcat<Event>(lim: Limits, render: Event -> Line, s: SinkState, a: seq<Msg<Event>>, b: seq<Msg<Event>>)
    ensures Run(lim, render, s, a + b) ==
      (Run(lim, render, Run(lim, render, s, a).0, b).0,
       Run(lim, render, s, a).1 + Run(lim, render, Run(lim, render, s, a).0, b).1)
    decreases |a|
  {
    if |a| > 0 {
      var s1 := Step(lim, render, s, a[0]).0;
      assert a == [a[0]] + a[1..];
      assert a + b == [a[0]] + (a[1..] + b);
      RunCons(lim, render, s, a[0], a[1..] + b);
      RunCons(lim, render, s, a[0], a[1..]);
      RunConcat(lim, render, s1, a[1..], b);
      var r1 := Step(lim, render, s, a[0]).1;
      var mid := Run(lim, render, s1, a[1..]);
      var tl := Run(lim, render, mid.0, b);
      assert Run(lim, render, s, a) == (mid.0, [r1] + mid.1);
      assert Run(lim, render, s1, a[1..] + b) == (tl.0, mid.1 + tl.1);
      assert Run(lim, render, s, a + b) == (tl.0, [r1] + (mid.1 + tl.1));
      assert [r1] + (mid.1 + tl.1) == ([r1] + mid.1) + tl.1;
    } else {
      assert a + b == b;
      assert Run(lim, render, s, a) == (s, []);
      assert [] + Run(lim, render, s, b).1 == Run(lim, render, s, b).1;
    }
  }

  // ---- One message ----

  /** Every message keeps the state good: the bounds hold between messages. */
  lemma StepKeepsGood<Event>(lim: Limits, render: Event -> Line, s: SinkState, m: Msg<Event>)
    requires Good(s, lim)
    ensures Good(Step(lim, render, s, m).0, lim)
  {
    match m
    case LogEvt(evt) =>
      AfterAppendKeepsGood(s.q, NewEntry(render(evt)), lim);
    case SnapshotReq =>
    case DrainReq =>
      assert TotalBytes([]) == 0;
    case ClearReq =>
      assert TotalBytes([]) == 0;
    case EnableReq =>
    case DisableReq =>
  }

  /** A drain replies what a snapshot would have replied, then leaves the queue
      empty, which is also the state a clear reaches. */
  lemma DrainIsSnapshotThenClear<Event>(lim: Limits, render: Event -> Line, s: SinkState)
    ensures Step(lim, render, s, DrainReq).1 == Step(lim, render, s, SnapshotReq).1
    ensures Step(lim, render, s, DrainReq).0 == Step(lim, render, s, ClearReq).0
    ensures Step(lim, render, s, DrainReq).0.q == [] && Step(lim, render, s, SnapshotReq).0 == s
  {
  }

  /** Enable and disable set the flag and succeed; the queue is untouched. */
  lemma ToggleSetsFlag<Event>(lim: Limits, render: Event -> Line, s: SinkState)
    ensures Step(lim, render, s, EnableReq) == (s.(enabled := true), Some(FlagReply(true)))
    ensures Step(lim, render, s, DisableReq) == (s.(enabled := false), Some(FlagReply(true)))
  {
  }

  // ---- Whole runs ----

  /** The loop keeps the state good, answers every message with a reply of the
      type its completion handle carries, and only enable and disable requests
      change the flag. */
  lemma {:induction false} RunKeepsGoodAndAnswers<Event>(lim: Limits, render: Event -> Line, s: SinkState, msgs: seq<Msg<Event>>)
    requires Good(s, lim)
    ensures var (s2, rs) := Run(lim, render, s, msgs);
            Good(s2, lim) && |rs| == |msgs| &&
            (forall i :: 0 <= i < |msgs| ==> Answers(msgs[i], rs[i])) &&
            ((forall i :: 0 <= i < |msgs| ==> !msgs[i].EnableReq? && !msgs[i].DisableReq?) ==> s2.enabled == s.enabled)
    decreases |msgs|
  {
    if |msgs| > 0 {
      var (s1, r) := Step(lim, render, s, msgs[0]);
      StepKeepsGood(lim, render, s, msgs[0]);
      RunKeepsGoodAndAnswers(lim, render, s1, msgs[1..]);
      var rs := Run(lim, render, s1, msgs[1..]).1;
      assert Run(lim, render, s, msgs).1 == [r] + rs;
      forall i | 0 <= i < |msgs| ensures Answers(msgs[i], ([r] + rs)[i]) {
        if i > 0 { assert msgs[1..][i - 1] == msgs[i]; }
      }
      if forall i :: 0 <= i < |msgs| ==> !msgs[i].EnableReq? && !msgs[i].DisableReq? {
        assert !msgs[0].EnableReq? && !msgs[0].DisableReq?;
        assert s1.enabled == s.enabled;
        assert forall i :: 0 <= i < |msgs[1..]| ==> msgs[1..][i] == msgs[i + 1];
      }
    }
  }

  /** The replies of `n` log writes: none each. */
  function NoReplies(n: nat): seq<Option<Reply>> {
    seq(n, _ => None)
  }

  /** The log-write messages for a sequence of events, in order. */
  function Logs<Event>(evts: seq<Event>): (ms: seq<Msg<Event>>)
    ensures |ms| == |evts|
    decreases |evts|
  {
    if |evts| == 0 then [] else [LogEvt(evts[0])] + Logs(evts[1..])
  }

  /** The entries the reader builds for a sequence of events, in order. */
  function Entries<Event>(render: Event -> Line, evts: seq<Event>): (es: seq<Entry>)
    ensures |es| == |evts|
    decreases |evts|
  {
    if |evts| == 0 then [] else [NewEntry(render(evts[0]))] + Entries(render, evts[1..])
  }

  /** The `i`-th entry built holds the `i`-th event's rendered line. */
  lemma {:induction false} EntriesAt<Event>(render: Event -> Line, evts: seq<Event>, i: nat)
    requires i < |evts|
    ensures Entries(render, evts)[i] == NewEntry(render(evts[i]))
    ensures Entries(render, evts)[i].line == render(evts[i])
    decreases |evts|
  {
    if i > 0 {
      EntriesAt(render, evts[1..], i - 1);
    }
  }

  /** One log write at the head of a run of log writes. */
  lemma RunLogsCons<Event>(lim: Limits, render: Event -> Line, s: SinkState, evts: seq<Event>)
    requires |evts| > 0
    ensures var s1 := s.(q := AfterAppend(s.q, NewEntry(render(evts[0])), lim));
            var tl := Run(lim, render, s1, Logs(evts[1..]));
            Run(lim, render, s, Logs(evts)) == (tl.0, [None] + tl.1)
  {
  }

  /** A run of log writes appends their rendered entries one by one, in arrival
      order, leaves the flag alone and, being fire-and-forget, replies nothing. */
  lemma {:induction false} RunLogs<Event>(lim: Limits, render: Event -> Line, s: SinkState, evts: seq<Event>)
    ensures Run(lim, render, s, Logs(evts)) ==
      (s.(q := AppendAll(s.q, Entries(render, evts), lim)), NoReplies(|evts|))
    decreases |evts|
  {
    if |evts| > 0 {
      var e := NewEntry(render(evts[0]));
      var s1 := s.(q := AfterAppend(s.q, e, lim));
      RunLogsCons(lim, render, s, evts);
      RunLogs(lim, render, s1, evts[1..]);
      assert Entries(render, evts) == [e] + Entries(render, evts[1..]);
      assert AppendAll(s.q, Entries(render, evts), lim) == AppendAll(s1.q, Entries(render, evts[1..]), lim);
      assert [None] + NoReplies(|evts| - 1) == NoReplies(|evts|);
    } else {
      assert Logs(evts) == [] && Entries(render, evts) == [];
      assert NoReplies(0) == [];
    }
  }

  /** Read-your-writes: a drain that arrives after a log write returns that
      write's line as its newest line, unless the line alone exceeds an active
      byte budget; the queue is empty afterwards. */
  lemma DrainSeesEarlierWrite<Event>(lim: Limits, render: Event -> Line, s: SinkState, evt: Event)
    requires Good(s, lim)
    requires !Active(lim.byteBudget) || NewEntry(render(evt)).bytes <= lim.byteBudget.value
    ensures var (s2, rs) := Run(lim, render, s, [LogEvt(evt), DrainReq]);
            s2.q == [] && |rs| == 2 && rs[0] == None && rs[1].Some? && rs[1].value.LinesReply? &&
            var lines := rs[1].value.lines; |lines| > 0 && lines[|lines| - 1] == render(evt)
  {
    var e := NewEntry(render(evt));
    AfterAppendKeepsNewest(s.q, e, lim);
    var s1 := Step(lim, render, s, LogEvt(evt)).0;
    RunCons(lim, render, s, LogEvt(evt), [DrainReq]);
    var none: seq<Msg<Event>> := [];
    RunCons(lim, render, s1, DrainReq, none);
    assert [LogEvt(evt), DrainReq] == [LogEvt(evt)] + [DrainReq];
    assert [DrainReq] == [DrainReq] + none;
  }

  /** The writes of the scenario below: four log writes under `capacity = 3`
      leave the newest three entries and reply nothing. */
  lemma CapacityThreeWrites()
    ensures var writes: seq<Line> := ["a", "b", "c", "d"];
            Run(Limits(Some(3), None), (l: Line) => l, SinkState([], true), Logs(writes)) ==
              (SinkState([NewEntry("b"), NewEntry("c"), NewEntry("d")], true), NoReplies(4))
  {
    var lim := Limits(Some(3), None);
    var id := (l: Line) => l;
    var writes: seq<Line> := ["a", "b", "c", "d"];
    var s0 := SinkState([], true);
    RunLogs(lim, id, s0, writes);
    var entries := Entries(id, writes);
    AppendAllCountLimit([], entries, lim);
    assert entries == [NewEntry("a"), NewEntry("b"), NewEntry("c"), NewEntry("d")];
    assert [] + entries == entries;
    assert Keep(entries, 3) == entries[1..];
  }

  /** The scenario `capacity = 3`: writing "a", "b", "c", "d" leaves
      ["b", "c", "d"]; a drain returns that list and a following snapshot is empty. */
  lemma CapacityThreeScenario()
    ensures var lim := Limits(Some(3), None);
            var id := (l: Line) => l;
            var writes: seq<Line> := ["a", "b", "c", "d"];
            var msgs := Logs(writes) + [SnapshotReq, DrainReq, SnapshotReq];
            Run(lim, id, SinkState([], true), msgs).1 ==
              [None, None, None, None,
               Some(LinesReply(["b", "c", "d"])), Some(LinesReply(["b", "c", "d"])), Some(LinesReply([]))]
  {
    var lim := Limits(Some(3), None);
    var id := (l: Line) => l;
    var writes: seq<Line> := ["a", "b", "c", "d"];
    var tail: seq<Msg<Line>> := [SnapshotReq, DrainReq, SnapshotReq];
    var s0 := SinkState([], true);
    RunConcat(lim, id, s0, Logs(writes), tail);
    CapacityThreeWrites();
    var s1 := Run(lim, id, s0, Logs(writes));
    assert Lines(s1.0.q) == ["b", "c", "d"];
    assert s1.1 == [None, None, None, None];
    assert tail[1..] == [DrainReq, SnapshotReq];
    assert tail[1..][1..] == [SnapshotReq];
    assert tail[1..][1..][1..] == [];
  }
}
