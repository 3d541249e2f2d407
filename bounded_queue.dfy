/** The reader-owned FIFO cache of src/SerilogCacheSink.cs as values: the
    running byte total, the lines a snapshot returns, and the two eviction
    loops of `Append`. The class in CacheSink is proved against these. */
module BoundedQueue {

  import opened Wrappers
  import opened LogEntry

  /** `long.MaxValue`: the running total `_qBytes` is a 64-bit signed integer. */
  const MaxInt64: int := 0x7FFF_FFFF_FFFF_FFFF
  const MinInt32: int := -0x8000_0000
  const MinInt64: int := -0x8000_0000_0000_0000

  type Int32 = x: int | MinInt32 <= x <= MaxInt32
  type Int64 = x: int | MinInt64 <= x <= MaxInt64

  /** The two optional limits: `int? capacity` and `long? byteBudget`. */
  datatype Limits = Limits(capacity: Option<Int32>, byteBudget: Option<Int64>)

  /** A limit takes part in eviction only when it is present and positive
      (`is > 0`): absent and zero both mean "no limit". */
  predicate Active(limit: Option<int>) {
    limit.Some? && limit.value > 0
  }

  /** Limits that passed the constructor's validation. */
  predicate ValidLimits(lim: Limits) {
    (lim.capacity.Some? ==> lim.capacity.value >= 0) &&
    (lim.byteBudget.Some? ==> lim.byteBudget.value >= 0)
  }

  /** Every queued entry was built by the `Entry` constructor. */
  predicate AllWellSized(q: seq<Entry>) {
    forall i :: 0 <= i < |q| ==> WellSized(q[i])
  }

  /** The sum of the sizes of the queued entries, oldest first. */
  function TotalBytes(q: seq<Entry>): int {
    if |q| == 0 then 0 else q[0].bytes + TotalBytes(q[1..])
  }

  /** The lines of the queued entries, in queue order. */
  function Lines(q: seq<Entry>): (r: seq<string>)
    ensures |r| == |q|
    ensures forall i :: 0 <= i < |q| ==> r[i] == q[i].line
  {
    seq(|q|, i requires 0 <= i < |q| => q[i].line)
  }

  /** The count bound and the byte bound, each where its limit is active. */
  predicate WithinLimits(q: seq<Entry>, lim: Limits) {
    (Active(lim.capacity) ==> |q| <= lim.capacity.value) &&
    (Active(lim.byteBudget) ==> TotalBytes(q) <= lim.byteBudget.value)
  }

  ghost predicate IsSuffix<T>(a: seq<T>, b: seq<T>) {
    |a| <= |b| && a == b[|b| - |a|..]
  }

  /** The first eviction loop: drop the head while the count exceeds an active capacity. */
  function CountEvict(q: seq<Entry>, capacity: Option<Int32>): seq<Entry>
    decreases |q|
  {
    if Active(capacity) && |q| > capacity.value then CountEvict(q[1..], capacity) else q
  }

  /** The second eviction loop: drop the head while the total exceeds an active
      budget and the queue is not empty. */
  function ByteEvict(q: seq<Entry>, budget: Option<Int64>): seq<Entry>
    decreases |q|
  {
    if Active(budget) && TotalBytes(q) > budget.value && |q| > 0 then ByteEvict(q[1..], budget) else q
  }

  /** The queue after `Append`: enqueue at the tail, then the count loop, then the byte loop. */
  function AfterAppend(q: seq<Entry>, e: Entry, lim: Limits): seq<Entry> {
    ByteEvict(CountEvict(q + [e], lim.capacity), lim.byteBudget)
  }

  /** The last `k` elements of `s`, or all of `s` when it has at most `k`. */
  function Keep<T>(s: seq<T>, k: nat): (r: seq<T>)
    ensures IsSuffix(r, s) && |r| == if |s| <= k then |s| else k
  {
    if |s| <= k then s else s[|s| - k..]
  }

  // ---- The byte total ----

  /** Enqueueing at the tail adds the entry's size to the total (`_qBytes += e.Bytes`). */
  lemma {:induction false} TotalBytesSnoc(q: seq<Entry>, e: Entry)
    ensures TotalBytes(q + [e]) == TotalBytes(q) + e.bytes
  {
    if |q| == 0 {
      assert q + [e] == [e];
    } else {
      assert (q + [e])[1..] == q[1..] + [e];
      TotalBytesSnoc(q[1..], e);
    }
  }

  /** Sizes are non-negative, so is the total, and it is at least the newest entry's size. */
  lemma {:induction false} TotalBytesAtLeastLast(q: seq<Entry>)
    requires AllWellSized(q)
    ensures TotalBytes(q) >= 0
    ensures |q| > 0 ==> TotalBytes(q) >= q[|q| - 1].bytes
  {
    if |q| > 0 {
      assert AllWellSized(q[1..]) by {
        forall i | 0 <= i < |q[1..]| ensures WellSized(q[1..][i]) { assert q[1..][i] == q[i + 1]; }
      }
      TotalBytesAtLeastLast(q[1..]);
      assert WellSized(q[0]);
    }
  }

  /** The 64-bit running total cannot overflow while the queue holds at most
      `int.MaxValue` entries (the most a `Queue<T>` can hold): each entry is at
      most `int.MaxValue` bytes. */
  lemma {:induction false} TotalBytesFitsInt64(q: seq<Entry>)
    requires AllWellSized(q) && |q| <= MaxInt32
    ensures 0 <= TotalBytes(q) <= MaxInt64
  {
    TotalBytesAtMost(q);
    assert |q| * MaxInt32 <= MaxInt32 * MaxInt32;
  }

  lemma {:induction false} TotalBytesAtMost(q: seq<Entry>)
    requires AllWellSized(q)
    ensures 0 <= TotalBytes(q) <= |q| * MaxInt32
  {
    if |q| > 0 {
      assert AllWellSized(q[1..]) by {
        forall i | 0 <= i < |q[1..]| ensures WellSized(q[1..][i]) { assert q[1..][i] == q[i + 1]; }
      }
      TotalBytesAtMost(q[1..]);
      assert WellSized(q[0]);
    }
  }

  /** Snapshot lines of a concatenation are the concatenation of the lines. */
  lemma LinesConcat(a: seq<Entry>, b: seq<Entry>)
    ensures Lines(a + b) == Lines(a) + Lines(b)
  {
  }

  /** Dequeueing the head takes its line off the front of the snapshot. */
  lemma LinesCons(q: seq<Entry>)
    requires |q| > 0
    ensures Lines(q) == [q[0].line] + Lines(q[1..])
  {
  }

  // ---- The count loop ----

  /** The count loop keeps exactly the newest `capacity` entries when the limit
      is active and exceeded, and changes nothing otherwise. */
  lemma {:induction false} CountEvictKeepsNewest(q: seq<Entry>, capacity: Option<Int32>)
    ensures CountEvict(q, capacity) ==
      if Active(capacity) && |q| > capacity.value then q[|q| - capacity.value..] else q
    decreases |q|
  {
    if Active(capacity) && |q| > capacity.value {
      var k := capacity.value;
      var rest := q[1..];
      assert |rest| == |q| - 1;
      CountEvictKeepsNewest(rest, capacity);
      if |rest| > k {
        assert rest[|rest| - k..] == q[|q| - k..];
      } else {
        assert rest == q[|q| - k..];
      }
    }
  }

  // ---- The byte loop ----

  /** The byte loop only removes from the head, and it stops at the first
      suffix that fits: every longer suffix exceeds an active budget. */
  lemma {:induction false} ByteEvictDropsOldestOnly(q: seq<Entry>, budget: Option<Int64>)
    ensures IsSuffix(ByteEvict(q, budget), q)
    ensures forall k :: 0 <= k < |q| - |ByteEvict(q, budget)| ==>
      Active(budget) && TotalBytes(q[k..]) > budget.value
    decreases |q|
  {
    if Active(budget) && TotalBytes(q) > budget.value && |q| > 0 {
      var r := ByteEvict(q[1..], budget);
      ByteEvictDropsOldestOnly(q[1..], budget);
      assert q[1..][|q[1..]| - |r|..] == q[|q| - |r|..];
      forall k | 0 <= k < |q| - |r|
        ensures TotalBytes(q[k..]) > budget.value
      {
        if k == 0 {
          assert q[0..] == q;
        } else {
          assert q[1..][k - 1..] == q[k..];
        }
      }
    }
  }

  /** With an active budget the byte loop ends with a total inside the budget. */
  lemma {:induction false} ByteEvictFits(q: seq<Entry>, budget: Option<Int64>)
    requires Active(budget)
    ensures TotalBytes(ByteEvict(q, budget)) <= budget.value
    decreases |q|
  {
    if TotalBytes(q) > budget.value && |q| > 0 {
      ByteEvictFits(q[1..], budget);
    }
  }

  /** The newest entry survives the byte loop when it fits in the budget on its own. */
  lemma {:induction false} ByteEvictKeepsLast(q: seq<Entry>, budget: Option<Int64>)
    requires AllWellSized(q) && |q| > 0
    requires !Active(budget) || q[|q| - 1].bytes <= budget.value
    ensures ByteEvict(q, budget) != [] && ByteEvict(q, budget)[|ByteEvict(q, budget)| - 1] == q[|q| - 1]
    decreases |q|
  {
    if |q| == 1 {
      assert q[1..] == [];
      assert TotalBytes(q) == q[0].bytes;
    } else if Active(budget) && TotalBytes(q) > budget.value {
      assert AllWellSized(q[1..]) by {
        forall i | 0 <= i < |q[1..]| ensures WellSized(q[1..][i]) { assert q[1..][i] == q[i + 1]; }
      }
      ByteEvictKeepsLast(q[1..], budget);
    }
  }

  /** A queue whose newest entry alone exceeds an active budget is emptied by the byte loop. */
  lemma {:induction false} ByteEvictOversized(q: seq<Entry>, budget: Option<Int64>)
    requires AllWellSized(q) && Active(budget)
    requires |q| > 0 ==> q[|q| - 1].bytes > budget.value
    ensures ByteEvict(q, budget) == []
    decreases |q|
  {
    if |q| > 0 {
      TotalBytesAtLeastLast(q);
      assert AllWellSized(q[1..]) by {
        forall i | 0 <= i < |q[1..]| ensures WellSized(q[1..][i]) { assert q[1..][i] == q[i + 1]; }
      }
      ByteEvictOversized(q[1..], budget);
    }
  }

  // ---- Append ----

  lemma SuffixWellSized(a: seq<Entry>, b: seq<Entry>)
    requires IsSuffix(a, b) && AllWellSized(b)
    ensures AllWellSized(a)
  {
  }

  /** A suffix of a suffix is a suffix. */
  lemma SuffixTransitive<T>(a: seq<T>, b: seq<T>, c: seq<T>)
    requires IsSuffix(a, b) && IsSuffix(b, c)
    ensures IsSuffix(a, c)
  {
    assert a == c[|c| - |b|..][|b| - |a|..];
  }

  /** `Append` preserves FIFO order: the new queue is a suffix of the old queue
      followed by the new entry, so eviction only ever removes the oldest lines. */
  lemma AfterAppendIsSuffix(q: seq<Entry>, e: Entry, lim: Limits)
    ensures IsSuffix(AfterAppend(q, e, lim), q + [e])
  {
    var s := q + [e];
    var c := CountEvict(s, lim.capacity);
    CountEvictKeepsNewest(s, lim.capacity);
    assert IsSuffix(c, s);
    ByteEvictDropsOldestOnly(c, lim.byteBudget);
    SuffixTransitive(AfterAppend(q, e, lim), c, s);
  }

  /** After `Append` the queue holds at most `capacity` entries and at most
      `byteBudget` bytes, for each limit that is active. */
  lemma AfterAppendWithinLimits(q: seq<Entry>, e: Entry, lim: Limits)
    ensures WithinLimits(AfterAppend(q, e, lim), lim)
  {
    var c := CountEvict(q + [e], lim.capacity);
    CountEvictKeepsNewest(q + [e], lim.capacity);
    ByteEvictDropsOldestOnly(c, lim.byteBudget);
    if Active(lim.byteBudget) {
      ByteEvictFits(c, lim.byteBudget);
    }
  }

  /** A well-sized entry appended to a well-sized queue leaves a well-sized
      queue within the limits. */
  lemma AfterAppendKeepsGood(q: seq<Entry>, e: Entry, lim: Limits)
    requires AllWellSized(q) && WellSized(e)
    ensures AllWellSized(AfterAppend(q, e, lim)) && WithinLimits(AfterAppend(q, e, lim), lim)
  {
    var r := AfterAppend(q, e, lim);
    AfterAppendWithinLimits(q, e, lim);
    AfterAppendIsSuffix(q, e, lim);
    assert IsSuffix(r, q + [e]);
    assert AllWellSized(q + [e]) by {
      forall i | 0 <= i < |q + [e]| ensures WellSized((q + [e])[i]) {
        if i < |q| { assert (q + [e])[i] == q[i]; }
      }
    }
    SuffixWellSized(r, q + [e]);
  }

  /** Without active limits `Append` only enqueues. */
  lemma AfterAppendUnbounded(q: seq<Entry>, e: Entry, lim: Limits)
    requires !Active(lim.capacity) && !Active(lim.byteBudget)
    ensures AfterAppend(q, e, lim) == q + [e]
  {
  }

  /** The newest line is always kept unless its own size exceeds an active budget. */
  lemma AfterAppendKeepsNewest(q: seq<Entry>, e: Entry, lim: Limits)
    requires AllWellSized(q) && WellSized(e)
    requires !Active(lim.byteBudget) || e.bytes <= lim.byteBudget.value
    ensures var r := AfterAppend(q, e, lim); r != [] && r[|r| - 1] == e
  {
    var s := q + [e];
    var c := CountEvict(s, lim.capacity);
    CountEvictKeepsNewest(s, lim.capacity);
    assert AllWellSized(s);
    SuffixWellSized(c, s);
    assert c[|c| - 1] == e;
    ByteEvictKeepsLast(c, lim.byteBudget);
  }

  /** An entry larger than an active budget leaves the queue empty. */
  lemma AfterAppendOversized(q: seq<Entry>, e: Entry, lim: Limits)
    requires AllWellSized(q) && WellSized(e)
    requires Active(lim.byteBudget) && e.bytes > lim.byteBudget.value
    ensures AfterAppend(q, e, lim) == []
  {
    var s := q + [e];
    var c := CountEvict(s, lim.capacity);
    CountEvictKeepsNewest(s, lim.capacity);
    assert AllWellSized(s);
    SuffixWellSized(c, s);
    ByteEvictOversized(c, lim.byteBudget);
  }

  /** With only a count limit, `Append` leaves the newest `capacity` entries of
      `q + [e]`. */
  lemma AfterAppendCountOnly(q: seq<Entry>, e: Entry, lim: Limits)
    requires Active(lim.capacity) && !Active(lim.byteBudget)
    ensures AfterAppend(q, e, lim) == Keep(q + [e], lim.capacity.value)
  {
    CountEvictKeepsNewest(q + [e], lim.capacity);
  }

  /** Appending entries one by one, in order. */
  function AppendAll(q: seq<Entry>, es: seq<Entry>, lim: Limits): seq<Entry>
    decreases |es|
  {
    if |es| == 0 then q else AppendAll(AfterAppend(q, es[0], lim), es[1..], lim)
  }

  /** FIFO: without active limits a batch of appends is cached exactly in order,
      after the entries already cached. */
  lemma {:induction false} AppendAllUnbounded(q: seq<Entry>, es: seq<Entry>, lim: Limits)
    requires !Active(lim.capacity) && !Active(lim.byteBudget)
    ensures AppendAll(q, es, lim) == q + es
    decreases |es|
  {
    if |es| == 0 {
      assert q + es == q;
    } else {
      AppendAllUnbounded(q + [es[0]], es[1..], lim);
      assert q + [es[0]] + es[1..] == q + es;
    }
  }

  /** Count eviction: with only a count limit `k`, a batch of appends to a queue
      within the limit leaves exactly the newest `k` of the old and new entries. */
  lemma {:induction false} AppendAllCountLimit(q: seq<Entry>, es: seq<Entry>, lim: Limits)
    requires Active(lim.capacity) && !Active(lim.byteBudget)
    requires |q| <= lim.capacity.value
    ensures AppendAll(q, es, lim) == Keep(q + es, lim.capacity.value)
    decreases |es|
  {
    var k := lim.capacity.value;
    if |es| == 0 {
      assert q + es == q;
    } else {
      var e := es[0];
      AfterAppendCountOnly(q, e, lim);
      AppendAllCountLimit(Keep(q + [e], k), es[1..], lim);
      KeepConcat(q + [e], es[1..], k);
      assert q + [e] + es[1..] == q + es;
    }
  }

  /** Keeping the newest `k` of a suffix that is long enough, or is the whole
      sequence, is keeping the newest `k` of the sequence. */
  lemma KeepSuffix<T>(x: seq<T>, y: seq<T>, k: nat)
    requires IsSuffix(x, y) && (k <= |x| || |x| == |y|)
    ensures Keep(x, k) == Keep(y, k)
  {
    if k <= |x| {
      assert x[|x| - k..] == y[|y| - k..];
    }
  }

  /** Keeping the newest `k` before appending a batch, and again after, is keeping them once. */
  lemma KeepConcat<T>(a: seq<T>, b: seq<T>, k: nat)
    ensures Keep(Keep(a, k) + b, k) == Keep(a + b, k)
  {
    var m := |Keep(a, k)|;
    assert Keep(a, k) + b == (a + b)[|a| - m..];
    KeepSuffix(Keep(a, k) + b, a + b, k);
  }

}
