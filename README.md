# Skylight trace recording and Tilde byte encoding, in Dafny

This project models two small parts of the Skylight Ruby agent and proves properties about them.

**`Skylight::Trace`** records one request as a sequence of timed spans. It appends a span for each operation. Each span points to its parent by position in the sequence. An `@parent` cursor names the innermost span that is still open.
- `start` opens a span under the cursor and moves the cursor to it.
- `record` appends a zero-duration leaf and leaves the cursor where it is.
- `stop` walks from the last span up the parent chain to the first open span. It closes that span and moves the cursor one level up.
- `commit` refuses a trace that still has an open span. It gives the trace an identifier if it has none, then freezes it.

**`Tilde::Util::Bytes`** appends unsigned 64-bit integers to a byte buffer as base-128 varints. This is unsigned LEB128 (section 7.6 of DWARF version 4), the same format as the Protocol Buffers varint. It appends strings as a varint byte length followed by the bytes.

Files:
- `wrappers.dfy`: `Option` and `Result`.
- `span_stack.dfy`, module `SpanStack`: spans and the span stack as values.
  - `Step` is one operation, done the way the Ruby code does it.
  - `WellFormed` is the invariant the operations keep.
  - The lemmas cover the walk in `stop`, depth, and balanced sequences of operations.
- `trace.dfy`, module `Skylight`: the `Trace` class. Its fields are the Ruby instance variables. Each mutating method is proved to change the span stack exactly as `Step` does. `Stop` has the real `while` loop over the parent chain.
- `bytes.dfy`, module `Bytes`:
  - `Varint`, the encoding as a function.
  - `ReadVarint` and `ReadString`, decoders for it.
  - The caller's buffer as `ByteBuffer`.
  - `AppendUint64` (the `while true` loop) and `AppendString`.
- `scenarios.dfy`, module `Scenarios`: short end-to-end runs, each proved from the method contracts.

How the model is shaped:
- The clock and the identifier generator are external, so they are method parameters. `Record`, `Start` and `Stop` take the timestamp `now`, which is what `Util.clock.now` would return. `Commit` takes `genIdent`, a function from the endpoint to an identifier. It stands for `Util::UUID.gen` applied to a prefix of the endpoint's MD5 digest.
- Timestamps are integers that the model never compares.
- Ruby's `freeze` is the `committed` flag. The methods that change a trace require that flag to be unset.
- `stop` finds the span to close with a walk. It then updates the cursor through a separate lookup, `@spans[@parent].parent`. The model keeps both steps as written. If the cursor were nil at that lookup, Ruby would raise a `TypeError`; the model calls this error `NilIndex`. `WalkFindsCursor` proves that under the invariant the walk finds exactly `@spans[@parent]`, so `NilIndex` never happens.
- `to` returns the `ended_at` of the last span in creation order, as the code does (lib/skylight/trace.rb:41-44). For an HTTP span with a nested database span, `to` is therefore the time the inner span closed, not the outer one. It is not the root span's end time; the model follows the code. `Scenarios.NestedStartStop` shows the difference.

## Model

| member | source | states |
|---|---|---|
| `SpanStack.Span.Key` | lib/skylight/trace.rb:19-21 | a span's key is the pair of its category and its description |
| `SpanStack.BuildSpan` | lib/skylight/trace.rb:105-107 | a new span is open, starts at `now`, has the current cursor as its parent and carries the caller's category, title, description and annotations |
| `SpanStack.Walk` | lib/skylight/trace.rb:66-70 | the walk of `stop` ends. What it returns is an open span on the chain from its start, with every span before it on that chain closed. When it returns nil, every span on the chain is closed |
| `SpanStack.Step` | lib/skylight/trace.rb:46-81 | `record`, `start` and `stop` as the code performs them; every successful step keeps parents pointing backward and the cursor in range |
| `SpanStack.Empty` | lib/skylight/trace.rb:30-33 | a new trace has no spans and no cursor, and satisfies the invariant |
| `SpanStack.ChainBelow` | lib/skylight/trace.rb:68-70 | every span on the parent chain from a span has an index no greater than that span's |
| `SpanStack.ReachesBelow` | lib/skylight/trace.rb:68-70 | following parents never moves forward, so parent chains are acyclic |
| `SpanStack.CursorIsOpen` | lib/skylight/trace.rb:55-58 | under the invariant, a set cursor names an open span, so every new span's parent is open when the span is created |
| `SpanStack.RecordAppendsLeaf` | lib/skylight/trace.rb:46-53 | `record` appends exactly one span, with the cursor as its parent and `ended_at` equal to `started_at`; the earlier spans and the cursor are unchanged |
| `SpanStack.StartAppendsOpen` | lib/skylight/trace.rb:55-63 | `start` appends exactly one open span whose parent is the old cursor; the cursor becomes the old span count; the earlier spans are unchanged |
| `SpanStack.WalkFindsCursor` | lib/skylight/trace.rb:65-78 | under the invariant, the walk from the last span finds exactly the span the cursor names, and finds nothing when the cursor is nil |
| `SpanStack.StopClosesCursor` | lib/skylight/trace.rb:65-78 | under the invariant, `stop` fails with `UnbalancedTrace` exactly when the cursor is nil. Otherwise it closes the open span the cursor names, keeps every other span and the span count, and moves the cursor to that span's parent. It never fails with `NilIndex` |
| `SpanStack.RecordPreserves` | lib/skylight/trace.rb:46-53 | `record` keeps the invariant: parents point backward, the cursor is on the chain from the last span, and the open spans are exactly the chain from the cursor |
| `SpanStack.StartPreserves` | lib/skylight/trace.rb:55-63 | `start` keeps the invariant |
| `SpanStack.StopPreserves` | lib/skylight/trace.rb:65-78 | a successful `stop` keeps the invariant |
| `SpanStack.Depth` | lib/skylight/trace.rb:58 | the length of the parent chain from the cursor is zero exactly when the cursor is nil |
| `SpanStack.DepthCountsOpen` | lib/skylight/trace.rb:55-78 | on a well-formed trace, the length of the chain from the cursor is exactly the number of open spans |
| `SpanStack.ChainSetFacts` | lib/skylight/trace.rb:58 | the chain from the cursor has `ChainLength` distinct positions, and they are exactly the spans the chain reaches |
| `SpanStack.StepDepth` | lib/skylight/trace.rb:46-78 | `record` keeps the depth, `start` adds one, and `stop` with a span open succeeds and removes one |
| `SpanStack.Run` | lib/skylight/trace.rb:46-81 | a sequence of operations, stopping at the first error; a successful run keeps the trace in shape |
| `SpanStack.RunClosesIffBalanced` | lib/skylight/trace.rb:55-85 | from a well-formed trace, a run succeeds and leaves the cursor nil, so that `commit` succeeds, if and only if the operations are balanced |
| `SpanStack.BalancedCommits` | lib/skylight/trace.rb:84-85 | any balanced sequence of `start`, `stop` and `record` on a new trace leaves it committable |
| `SpanStack.ClosedLogHasEnd` | lib/skylight/trace.rb:41-44 | on a trace with no open span, the last span is closed, so `to` is present |
| `Skylight.Trace.constructor` | lib/skylight/trace.rb:27-34 | a new trace has the given endpoint and identifier (defaults `"Unknown"` and nil), no spans and no cursor |
| `Skylight.Trace.SetEndpoint` | lib/skylight/trace.rb:25 | the endpoint of an uncommitted trace can be replaced |
| `Skylight.Trace.From` | lib/skylight/trace.rb:36-39 | `from` is the first span's `started_at`, and is nil exactly when there are no spans |
| `Skylight.Trace.To` | lib/skylight/trace.rb:41-44 | `to` is the last span's `ended_at`, nil on an empty trace |
| `Skylight.Trace.Record` | lib/skylight/trace.rb:46-53 | `record` changes the spans exactly as `Step` does and keeps the invariant |
| `Skylight.Trace.Start` | lib/skylight/trace.rb:55-63 | `start` changes the spans and the cursor exactly as `Step` does and keeps the invariant |
| `Skylight.Trace.Stop` | lib/skylight/trace.rb:65-81 | the walk loop followed by the close and the cursor update does exactly what `Step` does. It succeeds exactly when the cursor was set. On failure it raises `UnbalancedTrace` and changes nothing |
| `Skylight.Trace.Commit` | lib/skylight/trace.rb:84-93 | keeps the class invariant, under which a committed trace has no open span and has an identifier. `commit` fails with `UnbalancedTrace`, changing nothing, exactly when the cursor is set. Otherwise it keeps an existing identifier, or assigns `genIdent(endpoint)` when there is none, and freezes the trace |
| `Bytes.Varint` | lib/tilde/util/bytes.rb:10-19 | the encoding has at least one byte. Every byte but the last has 0x80 set, the last is below 0x80, and for a nonzero value the last byte is nonzero |
| `Bytes.ReadVarint` | lib/tilde/util/bytes.rb:10-19 | a decoder for the varint format that, when it succeeds, consumes at least one byte and no more than it is given; its correctness is `ReadVarintAppended` and `CanonicalIsVarint` |
| `Bytes.ReadVarintAppended` | lib/tilde/util/bytes.rb:10-19 | decoding the encoding of `n`, followed by any bytes, gives `n` and consumes exactly the encoding, so the encoding is self-delimiting |
| `Bytes.VarintRoundTrip` | lib/tilde/util/bytes.rb:10-19 | decoding the encoding of `n` gives back `n` |
| `Bytes.CanonicalIsVarint` | lib/tilde/util/bytes.rb:10-19 | minimality: the only complete encoding of a value with no zero last byte (except a lone zero) is the one `Varint` produces |
| `Bytes.VarintShort` | lib/tilde/util/bytes.rb:10-19 | a value below 128^k takes at most k bytes |
| `Bytes.VarintLong` | lib/tilde/util/bytes.rb:10-19 | a value of at least 128^(k-1) takes at least k bytes |
| `Bytes.VarintLengthBound` | lib/tilde/util/bytes.rb:5-19 | every value in `[0, 2^64-1]` takes from one to ten bytes, and values from 2^63 up take exactly ten |
| `Bytes.VarintExamples` | lib/tilde/util/bytes.rb:10-19 | 0 encodes as `[0x00]` and 300 as `[0xAC, 0x02]` |
| `Bytes.StrBytesize` | lib/tilde/util/bytes.rb:22-24 | the byte size of a string of bytes is its length |
| `Bytes.LengthPrefixed` | lib/tilde/util/bytes.rb:26-29 | a length-prefixed string is as long as the varint of its length plus the string, and it ends with the string's bytes unmodified |
| `Bytes.ReadString` | lib/tilde/util/bytes.rb:26-29 | a decoder for length-prefixed strings that never consumes more than it is given |
| `Bytes.ReadStringAppended` | lib/tilde/util/bytes.rb:26-29 | decoding a length-prefixed string, followed by any bytes, gives back the string and consumes exactly its encoding |
| `Bytes.AppendUint64` | lib/tilde/util/bytes.rb:5-20 | outside `[0, 2^64-1]` it raises `OutOfRange(n)` and appends nothing. Otherwise it appends exactly `Varint(n)`, and the old contents stay a prefix |
| `Bytes.AppendString` | lib/tilde/util/bytes.rb:26-29 | it appends the varint of the byte length and then the bytes unmodified. It fails, appending nothing, only when the length is beyond 2^64-1 |
| `Scenarios.NestedStartStop` | lib/skylight/trace.rb:36-93 | two nested spans, stopped twice. The inner span's parent is 0, both spans are closed, commit succeeds, `from` is the outer start and `to` is the inner end |
| `Scenarios.SingleRecord` | lib/skylight/trace.rb:46-53 | a single recorded leaf has no parent and zero duration, and the trace commits |
| `Scenarios.RecordInsideStart` | lib/skylight/trace.rb:65-78 | a leaf recorded inside an open span does not hide that span from `stop` |
| `Scenarios.Unbalanced` | lib/skylight/trace.rb:72-85 | committing with a span open fails; a second `stop` with nothing open fails |
| `Scenarios.KeepsIdent` | lib/skylight/trace.rb:87 | an identifier given at construction survives `commit` |
| `Scenarios.Encode300` | lib/tilde/util/bytes.rb:5-19 | appending 300 adds `0xAC 0x02` after the existing bytes, and appending -1 raises `OutOfRange(-1)` |

## Left out

- `Trace.current` and the thread-local slot (lib/skylight/trace.rb:3-7) are not modelled. They are thread-local storage, not trace logic.
- The "requires global synchronization" remark on `commit` is not modelled. Handing a trace to another thread is concurrency, which is out of scope.
- `now` and `gen_ident` are not modelled as code: their values are parameters. The clock, MD5 and the UUID generator are external code.
- Ruby's `freeze` is shallow: `record` on a committed trace would still append to the unfrozen `@spans` array. The model instead treats any mutation after `commit` as a caller error, so the mutating methods require `!committed`. A second `commit` is allowed and changes nothing, as in Ruby.
- Spans are values in a sequence, not shared `Struct` objects. A caller holding a `Span` reference would see `stop` set its `ended_at`; the model does not capture that aliasing.
- Annotations are a `map<string, string>`. Ruby allows arbitrary values, but the code never reads annotations.
- `Span#key` memoises its result in `@key`. The model computes the key each time; since the inputs do not change, the value is the same.
- `SpanStack.Step`: for the case where the walk finds an open span but the cursor is nil, Ruby has already set that span's `ended_at` before raising the `TypeError`. The model returns `Err(NilIndex)` without that partial change. The invariant rules this case out (`WalkFindsCursor`).
- The methods return `Result` values; Ruby returns `self` or raises.
- Strings are byte sequences. The character encoding behind `str.bytesize`, and how Ruby's `String#<<` appends an integer as a byte, are not modelled.
- `MinUint64` and `MaxUint64` are not defined in `bytes.rb`. The model takes them as 0 and 2^64-1.
