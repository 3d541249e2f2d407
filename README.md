# Bounded log cache sink — a Dafny model

This project models the core of `SerilogCacheSink`, an in-memory Serilog sink
that caches rendered log lines in a bounded FIFO queue. A single reader task
owns the queue. Producers reach it only through messages on a channel:

- log writes (`LogEvt`), which are fire-and-forget;
- control requests (`SnapshotReq`, `DrainReq`, `ClearReq`, `EnableReq`, `DisableReq`), whose tasks the reader completes.

The queue has two optional limits. `capacity` bounds the number of entries and
`byteBudget` bounds their total size, counted as 2 bytes per UTF-16 code unit. After every enqueue the
oldest entries are evicted: first for the count limit, then for the byte limit.

The model has seven modules:

- `Wrappers`: `Option` and `Result`.
- `LogEntry`: the `Entry` struct and its size, twice the line's UTF-16 length (`Utf16Length`, where a character outside the Basic Multilingual Plane counts 2), in a 32-bit integer (src/Dtos/LogEntry.cs).
- `MsgRecords`: the six message variants as one datatype. Each completion handle is replaced by the type of value it is completed with (src/Dtos/MsgRecords.cs).
- `BoundedQueue`: the queue as values. It defines the running byte total, the snapshot lines and the two eviction loops (`CountEvict`, `ByteEvict`, `AfterAppend`), with lemmas for FIFO order, both bounds, and the corner cases of each loop.
- `OwnerLoop`: one pass of the reader's `switch` (`Step`) and the reader consuming the channel front to back (`Run`), with lemmas about whole runs.
- `Facade`: constructor validation and the `enabled`/`disposed` gating of each public call (`Gate`).
- `CacheSink`: the class `SerilogCacheSink`. Its fields are `q`, `qBytes`, `enabled`, `disposed` and the channel `ch`. Each method mirrors its C# counterpart, including the `while` eviction and drain loops and the `foreach` snapshot loop, and is proved against the specification functions above.

The channel is a `seq<Msg>`. Facade methods append to it, and `ReadLoop`
processes it in arrival order, each message to completion. Each facade call is
one atomic step, so the model covers the runs in which no call races with
`Dispose` or with a change of the `enabled` flag (see "## Left out"). A control call returns `None` when its
request was posted; its value is the reply that `ReadLoop` returns for that
message. The call returns `Some(reply)` when it resolved at once because the sink
was disposed. The output-template formatter is the constant `render: Event -> Line`.

Two behaviours of the code are worth stating on their own:

- A limit takes part only when it is `> 0` (src/SerilogCacheSink.cs:186, 192), so a capacity or budget of `0` means "no limit", the same as `null`. The interface documents only `null` as unbounded (src/Abstract/ISerilogCacheSink.cs:15-22).
- An entry that is larger than an active byte budget on its own empties the queue: the byte loop runs until the queue is empty (src/SerilogCacheSink.cs:192-196, `AfterAppendOversized`).

## Model

| member | source | states |
|---|---|---|
| `LogEntry.Utf16Length` | src/Dtos/LogEntry.cs:11 | `line.Length` counts UTF-16 code units: between one and two per character |
| `LogEntry.Utf16LengthConcat` | src/Dtos/LogEntry.cs:11 | the UTF-16 length of a concatenation is the sum of the lengths |
| `LogEntry.Utf16LengthBmp` | src/Dtos/LogEntry.cs:11 | the UTF-16 length equals the character count exactly when every character is in the Basic Multilingual Plane |
| `LogEntry.SupplementarySize` | src/Dtos/LogEntry.cs:11 | every single character outside the Basic Multilingual Plane (for example U+1F600) is a valid line sized 4 bytes |
| `LogEntry.NewEntry` | src/Dtos/LogEntry.cs:8-12 | the line is stored as given; the size is twice its UTF-16 length, so between 2 and 4 bytes per character, even and within `int` |
| `LogEntry.BytesMonotone` | src/Dtos/LogEntry.cs:11 | extending a line never gives a smaller size; size 0 exactly for the empty line |
| `MsgRecords.CompletionOf` | src/Dtos/MsgRecords.cs:8-20 | a log write has no completion; snapshot and drain complete with lines; clear, enable and disable complete with a flag (both directions) |
| `BoundedQueue.TotalBytes` | src/SerilogCacheSink.cs:180-203 | the value `_qBytes` tracks: the sum of the queued sizes; its properties are `TotalBytesSnoc`, `TotalBytesAtLeastLast` and `TotalBytesFitsInt64` |
| `BoundedQueue.CountEvict` | src/SerilogCacheSink.cs:186-190 | the count loop; its closed form is `CountEvictKeepsNewest` |
| `BoundedQueue.ByteEvict` | src/SerilogCacheSink.cs:192-196 | the byte loop; its properties are `ByteEvictDropsOldestOnly`, `ByteEvictFits`, `ByteEvictKeepsLast` and `ByteEvictOversized` |
| `BoundedQueue.AfterAppend` | src/SerilogCacheSink.cs:180-197 | enqueue, then the count loop, then the byte loop; its properties are the `AfterAppend*` lemmas below |
| `BoundedQueue.Lines` | src/SerilogCacheSink.cs:205-211 | the snapshot list has one line per entry, the `i`-th entry's line at position `i` |
| `BoundedQueue.TotalBytesSnoc` | src/SerilogCacheSink.cs:182-184 | enqueueing an entry adds exactly its size to the running total |
| `BoundedQueue.TotalBytesAtLeastLast` | src/SerilogCacheSink.cs:192-196 | the total of built entries is non-negative and at least the newest entry's size |
| `BoundedQueue.TotalBytesFitsInt64` | src/SerilogCacheSink.cs:36 | with at most `int.MaxValue` entries the 64-bit total cannot overflow |
| `BoundedQueue.CountEvictKeepsNewest` | src/SerilogCacheSink.cs:186-190 | the count loop keeps exactly the newest `capacity` entries when an active limit is exceeded, and changes nothing otherwise |
| `BoundedQueue.ByteEvictDropsOldestOnly` | src/SerilogCacheSink.cs:192-196 | the byte loop removes only from the head and stops at the first suffix that fits: every longer suffix exceeds the budget |
| `BoundedQueue.ByteEvictFits` | src/SerilogCacheSink.cs:192-196 | with an active budget the byte loop ends within the budget |
| `BoundedQueue.ByteEvictKeepsLast` | src/SerilogCacheSink.cs:192-196 | the newest entry survives the byte loop when it fits the budget on its own |
| `BoundedQueue.ByteEvictOversized` | src/SerilogCacheSink.cs:192-196 | a queue whose newest entry exceeds an active budget is emptied |
| `BoundedQueue.AfterAppendIsSuffix` | src/SerilogCacheSink.cs:180-197 | after `Append` the queue is a suffix of the old queue plus the new entry (FIFO, eviction from the head only) |
| `BoundedQueue.AfterAppendWithinLimits` | src/SerilogCacheSink.cs:180-197 | after `Append`, `|q| <= capacity` and total `<= byteBudget` for each active limit |
| `BoundedQueue.AfterAppendKeepsGood` | src/SerilogCacheSink.cs:180-197 | appending a well-sized entry to a well-sized queue leaves every entry well sized and both active limits satisfied |
| `BoundedQueue.AfterAppendUnbounded` | src/SerilogCacheSink.cs:186-196 | with no active limit (absent or 0) nothing is evicted |
| `BoundedQueue.AfterAppendKeepsNewest` | src/SerilogCacheSink.cs:180-197 | the new line is always the newest entry kept, unless it alone exceeds an active budget |
| `BoundedQueue.AfterAppendOversized` | src/SerilogCacheSink.cs:192-196 | an entry larger than an active budget leaves the queue empty |
| `BoundedQueue.AfterAppendCountOnly` | src/SerilogCacheSink.cs:186-190 | with only a count limit, `Append` leaves the newest `capacity` entries of `q + [e]` |
| `BoundedQueue.AppendAllUnbounded` | src/SerilogCacheSink.cs:180-197 | without limits, a batch of appends is cached exactly in order after the existing entries |
| `BoundedQueue.AppendAllCountLimit` | src/SerilogCacheSink.cs:186-190 | with only a count limit `k`, a batch of appends leaves exactly the newest `k` of the old and new entries |
| `OwnerLoop.Step` | src/SerilogCacheSink.cs:141-174 | one pass of the reader's `switch`; its properties are `StepKeepsGood`, `DrainIsSnapshotThenClear` and `ToggleSetsFlag` |
| `OwnerLoop.Run` | src/SerilogCacheSink.cs:136-176 | the reader consuming the channel front to back; its properties are `RunConcat`, `RunKeepsGoodAndAnswers`, `RunLogs` and `DrainSeesEarlierWrite` |
| `OwnerLoop.RunConcat` | src/SerilogCacheSink.cs:138-140 | consuming two batches of messages in turn is consuming their concatenation |
| `OwnerLoop.StepKeepsGood` | src/SerilogCacheSink.cs:141-174 | every message keeps the entries well sized and both bounds satisfied |
| `OwnerLoop.DrainIsSnapshotThenClear` | src/SerilogCacheSink.cs:152-163 | a drain replies what a snapshot would, then reaches the empty queue a clear reaches; a snapshot changes nothing |
| `OwnerLoop.ToggleSetsFlag` | src/SerilogCacheSink.cs:165-173 | enable/disable set the flag to true/false, leave the queue alone and resolve with `true` |
| `OwnerLoop.RunKeepsGoodAndAnswers` | src/SerilogCacheSink.cs:136-176 | the reader keeps the invariant, answers each message with a reply of its completion's type, and a run without enable or disable requests leaves the flag unchanged |
| `OwnerLoop.EntriesAt` | src/SerilogCacheSink.cs:143-148 | the `i`-th entry built holds the `i`-th event's rendered line |
| `OwnerLoop.RunLogs` | src/SerilogCacheSink.cs:136-150 | a run of log writes appends their rendered entries one by one in arrival order, leaves the flag alone and replies nothing |
| `OwnerLoop.DrainSeesEarlierWrite` | src/SerilogCacheSink.cs:143-158 | a drain arriving after a write returns that write's line as its newest line and empties the queue, when the entry fits an active byte budget on its own; otherwise the write empties the queue (`AfterAppendOversized`) |
| `OwnerLoop.CapacityThreeWrites` | src/SerilogCacheSink.cs:180-190 | with capacity 3, writing a,b,c,d leaves the entries for b,c,d and replies nothing |
| `OwnerLoop.CapacityThreeScenario` | src/SerilogCacheSink.cs:180-224 | with capacity 3, writing a,b,c,d then snapshot, drain, snapshot replies [b,c,d], [b,c,d], [] |
| `Facade.Validate` | src/SerilogCacheSink.cs:49-55 | accepted limits are valid (non-negative or absent) |
| `Facade.ValidateAcceptsExactlyValid` | src/SerilogCacheSink.cs:49-55 | accepts exactly non-negative or absent limits, stored unchanged; a negative capacity is reported first, then a negative budget |
| `Facade.Gate` | src/SerilogCacheSink.cs:63-134 | the `enabled`/`disposed` checks of each public call; its properties are `GatePosts`, `GateDisposed` and `GateResolveMatchesCompletion` |
| `Facade.GatePosts` | src/SerilogCacheSink.cs:63-134 | a call posts its own request exactly when not disposed and, for `Emit`, enabled; only `Emit` drops |
| `Facade.GateDisposed` | src/SerilogCacheSink.cs:71-134 | once disposed nothing is posted: snapshot/drain yield `[]`, clear `true`, enable/disable `false`, emit drops |
| `Facade.GateResolveMatchesCompletion` | src/SerilogCacheSink.cs:71-134 | a value returned at once has the type the request's completion carries |
| `CacheSink.SerilogCacheSink.constructor` | src/SerilogCacheSink.cs:47-61 | a valid configuration gives an empty, enabled, undisposed sink with an empty channel |
| `CacheSink.NewSink` | src/SerilogCacheSink.cs:47-61 | construction fails with the validation error, or yields a fresh empty sink holding the limits unchanged |
| `CacheSink.SerilogCacheSink.EvictOne` | src/SerilogCacheSink.cs:199-203 | dequeues the head and subtracts its size, keeping the total consistent |
| `CacheSink.SerilogCacheSink.Append` | src/SerilogCacheSink.cs:180-197 | the queue becomes `AfterAppend(old q, entry)` and the invariant (byte sum, both bounds) is kept |
| `CacheSink.SerilogCacheSink.GetSnapshot` | src/SerilogCacheSink.cs:205-211 | returns the lines oldest first and changes nothing |
| `CacheSink.SerilogCacheSink.DrainInternal` | src/SerilogCacheSink.cs:213-224 | returns exactly the snapshot of the old queue, then `q` is empty and the total 0 |
| `CacheSink.SerilogCacheSink.ClearInternal` | src/SerilogCacheSink.cs:226-230 | `q` becomes empty and the total 0 |
| `CacheSink.SerilogCacheSink.ProcessMsg` | src/SerilogCacheSink.cs:141-174 | one reader pass does exactly what `Step` specifies and keeps the invariant |
| `CacheSink.SerilogCacheSink.ReadLoop` | src/SerilogCacheSink.cs:136-176 | consumes the whole channel in order; final state and replies are `Run` of the old state and channel |
| `CacheSink.SerilogCacheSink.Emit` | src/SerilogCacheSink.cs:63-69 | posts the log write exactly when enabled and not disposed, otherwise changes nothing |
| `CacheSink.SerilogCacheSink.Snapshot` | src/SerilogCacheSink.cs:71-82 | when disposed, returns `[]` at once without posting; otherwise posts a snapshot request |
| `CacheSink.SerilogCacheSink.Drain` | src/SerilogCacheSink.cs:84-95 | when disposed, returns `[]` at once without posting; otherwise posts a drain request |
| `CacheSink.SerilogCacheSink.Clear` | src/SerilogCacheSink.cs:97-108 | when disposed, returns `true` at once without posting; otherwise posts a clear request |
| `CacheSink.SerilogCacheSink.Enable` | src/SerilogCacheSink.cs:110-121 | when disposed, returns `false` at once without posting; otherwise posts an enable request |
| `CacheSink.SerilogCacheSink.Disable` | src/SerilogCacheSink.cs:123-134 | when disposed, returns `false` at once without posting; otherwise posts a disable request |
| `CacheSink.SerilogCacheSink.Dispose` | src/SerilogCacheSink.cs:243-264 | only the first call wins and lets the reader finish the posted messages, returning one reply per posted message, each of its completion's type; later calls change nothing; the sink stays disposed |
| `CacheSink.EmitThenDrain` | src/SerilogCacheSink.cs:63-95 | an event emitted by an enabled, undisposed sink and followed by a drain is the newest line the drain returns once the reader catches up, when its entry fits an active byte budget on its own; otherwise the write empties the queue (`AfterAppendOversized`) |
| `CacheSink.DisableThenEmit` | src/SerilogCacheSink.cs:63-173 | once the reader has processed a disable, an emitted event is dropped: nothing is posted and the sink stays disabled |
| `CacheSink.EnableThenEmit` | src/SerilogCacheSink.cs:63-173 | once the reader has processed an enable, an emitted event is posted as a log write |

## Left out

- `System.Threading.Channels`, `Task.Run`, `async`/`await` and `TaskCompletionSource` are not modelled. The channel is a sequence. A control request's task value is the reply `ReadLoop` returns for its message.
- `AtomicBool` visibility between threads is not modelled: the flags are plain booleans. The relaxed read of `enabled` by producers is a concurrency concern, and so is an emit that races with a disable or a dispose.
- Channel completion (`TryComplete`) is not a separate field, and posting to a closed channel is not modelled. Every facade method checks `disposed`, and disposal sets that flag before completing the writer, so a caller that does not race with disposal never posts to a closed channel.
- A control call that races with `Dispose` is not modelled. The call checks `IsDisposed` and then posts as two steps (src/SerilogCacheSink.cs:74-81 and the same shape up to :134). If `Dispose` completes the writer between them (src/SerilogCacheSink.cs:245-248), `TryWrite` fails, its result is ignored, and the returned task never completes. In the model a facade call is atomic, so every posted request gets a reply.
- `DisposeAsync` has the same first-caller-wins transition as `Dispose` and is modelled by the one method `Dispose`. Disposing the string writer and swallowing reader exceptions are resource handling, so they are left out.
- `MessageTemplateTextFormatter` and `ReusableStringWriter` are not modelled. The formatter is the constant `render: Event -> Line`, and a formatter exception is not modelled.
- `NewEntry`: a C# string may hold an unpaired surrogate, which a Dafny `string` cannot. Such lines are out of the model; every other line is sized by its UTF-16 length as in the source.
- `NewEntry`: the `OverflowException` that `checked(line.Length * 2)` throws for lines longer than `int.MaxValue / 2` characters is excluded. The type `Line` excludes such lines, and the runtime's string length limit (just under 2^30 characters) keeps them out of reach.
- The 64-bit `_qBytes` is modelled as an unbounded integer. `TotalBytesFitsInt64` shows it cannot wrap while the queue holds at most `int.MaxValue` entries. A `Queue<T>` failing to grow past that many entries is not modelled.
- NewSink: construction allocates the queue with `capacity` slots up front (src/SerilogCacheSink.cs:57). A capacity above the runtime's array-length limit (0x7FFFFFC7) makes the source's constructor throw `OutOfMemoryException`, and a large capacity costs memory at construction. The model does not model memory and accepts every non-negative `Int32` capacity.
- The default output template and the format provider are not modelled. They configure the formatter only.
- src/Registrars/SerilogCacheSinkRegistrar.cs (dependency-injection registration) is not part of this model. src/Abstract/ISerilogCacheSink.cs is used only for the names of the members.
