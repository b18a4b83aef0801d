# dd-trace-rb core: trace buffer, AWS propagation helpers, heap recorder pairing

A Dafny model of three small parts of the Datadog Ruby tracer:

- **`Datadog::TraceBuffer`** (`lib/ddtrace/buffer.rb`). It is a bounded store of finished traces. It has a one-way `closed` flag and four interval counters: accepted traces, accepted span total, dropped traces and buffered spans.
  - A push appends while there is room, or while the buffer is unbounded (`max_size <= 0`). When the buffer is full, the push overwrites a random slot.
  - A pop hands out the whole store and resets the counters.
  - Every operation runs under one mutex, so each is modelled as a pure transition on an immutable `Buffer` value. `rand(len)` becomes an explicit `replaceIndex` argument.
  - The counters and the store are related by invariants: the span counter equals the stored span total, and stored traces = accepted − dropped. Lemmas prove these invariants over every run in which reporting succeeds, and capacity (with equal span counters) over every run.
- **The AWS SNS/SQS tag handlers** (`lib/datadog/tracing/contrib/aws/service/{base,sns,sqs}.rb`):
  - trace-context injection into the `message_attributes` map, capped at 10 attributes;
  - extraction from the `message_attributes` parameter of a `receive_message` request;
  - the dispatch on operation and configuration;
  - the account/topic/queue tags parsed from a topic ARN or a queue URL.

  Ruby's `String#split` with a one-character separator other than a space (it drops trailing empty fields) and `Array#[]` (negative indices, `nil` when out of range) are modelled in `RubyString`.
- **The heap recorder's start/end pairing** (`ext/ddtrace_profiling_native_extension/heap_recorder.c`). The active recording is either `Qnil` or an object with a weight. `end` raises when nothing is active. A lemma characterises exactly which call sequences succeed.

Modules:
- `Wrappers`: `Option`, `Result`.
- `TraceBuffer`.
- `RubyString`.
- `AwsBase`.
- `AwsSns`.
- `AwsSqs`.
- `HeapRecorder`.

`Contrib.inject` is a foreign call. It is represented by a value `Injection(injected, payload)`: whether injection reports success, and the JSON text it produced. This value is taken to be the same for every call about the same trace.

### When reporting raises

The comment at `buffer.rb` lines 74-77 says the counters describe the buffer's activity since the last `pop`. In `buffer.rb` the single `rescue` of `measure_pop` (line 118) wraps the reset at lines 113-117 as well. So a raising metrics call skips the reset. The model follows the code:
- `Pop` takes a `Reporting` outcome (`Reported | ReportRaised`);
- the consistency invariant is proved for runs in which reporting succeeds;
- `TraceBuffer.PopRaisedBreaksConsistency` shows that a raising report leaves a buffer whose span counter still counts spans it no longer holds.

## Model

| member | source | states |
|---|---|---|
| TraceBuffer.New | lib/ddtrace/buffer.rb:9-21 | a new buffer is open, empty, keeps the given capacity and has all four counters zero |
| TraceBuffer.NewIsConsistent | lib/ddtrace/buffer.rb:9-21 | a fresh buffer satisfies the counter/store invariant for every capacity, including unbounded ones |
| TraceBuffer.Push | lib/ddtrace/buffer.rb:25-40 | closed: nothing changes. Room or unbounded: the trace is appended and counted as accepted without a drop. Full: the length stays, the chosen slot holds the new trace, and exactly one drop and one acceptance are counted. An open unbounded buffer grows by exactly one |
| TraceBuffer.OverflowReplacesOne | lib/ddtrace/buffer.rb:33-37 | an overflowing push changes only the chosen slot; the stored multiset loses exactly the evicted trace and gains the new one |
| TraceBuffer.MeasureAccept | lib/ddtrace/buffer.rb:79-85 | one more trace accepted and none dropped (stored count = accepted − dropped grows by one); both span counters grow by the trace's length; the store is untouched |
| TraceBuffer.MeasureDrop | lib/ddtrace/buffer.rb:87-96 | one drop and one acceptance, which cancel in accepted − dropped; both span counters move by the new length minus the replaced one; the store is untouched |
| TraceBuffer.PushKeepsSpanDrift | lib/ddtrace/buffer.rb:25-40 | every push, on any state, moves the span counter exactly as much as the stored span total, so a gap left by a raising report stays the same size |
| TraceBuffer.PushPreservesConsistent | lib/ddtrace/buffer.rb:79-96 | the accept/drop counter arithmetic keeps span counter = stored span total, accepted lengths = span counter, and stored count = accepted − dropped |
| TraceBuffer.PushPreservesBounds | lib/ddtrace/buffer.rb:28-37 | a push never takes a bounded buffer over capacity and keeps the two span counters equal |
| TraceBuffer.SpanTotalUpdate | lib/ddtrace/buffer.rb:87-96 | overwriting one stored trace changes the span total by the new length minus the old one, as `measure_drop` adjusts it |
| TraceBuffer.SpanTotalAppend | lib/ddtrace/buffer.rb:79-85 | appending a trace adds its length to the span total, as `measure_accept` does |
| TraceBuffer.Length | lib/ddtrace/buffer.rb:43-47 | zero exactly when nothing is stored; never above a positive capacity on a buffer within bounds |
| TraceBuffer.IsEmpty | lib/ddtrace/buffer.rb:50-54 | `empty?` holds exactly when `length` is zero; on a consistent buffer it also means no buffered spans and as many drops as acceptances |
| TraceBuffer.Pop | lib/ddtrace/buffer.rb:57-66 | returns exactly the previous store and leaves it empty, with capacity and flag kept; counters are zeroed when reporting succeeds and left as they were when it raises |
| TraceBuffer.PopReportedIsConsistent | lib/ddtrace/buffer.rb:113-117 | after a successful report the emptied buffer satisfies the invariant again |
| TraceBuffer.PopRaisedBreaksConsistency | lib/ddtrace/buffer.rb:98-120 | when reporting raises, the reset is skipped: a buffer that held spans is left empty with a non-zero span counter |
| TraceBuffer.PopTwice | lib/ddtrace/buffer.rb:57-66 | a second pop right after a first returns nothing, whatever either report did |
| TraceBuffer.Close | lib/ddtrace/buffer.rb:68-72 | `close` sets the flag and leaves the store, capacity and every counter untouched |
| TraceBuffer.CloseIdempotent | lib/ddtrace/buffer.rb:68-72 | closing twice is the same as closing once |
| TraceBuffer.RunPreservesBounds | lib/ddtrace/buffer.rb:25-72 | over any run of push/pop/close/length/empty? calls, including raising reports, capacity holds and the two span counters stay equal |
| TraceBuffer.RunPreservesConsistent | lib/ddtrace/buffer.rb:25-120 | over any run in which reporting succeeds, the counters agree with the store |
| TraceBuffer.CapacityFromNew | lib/ddtrace/buffer.rb:29-30 | with `max_size > 0`, every reachable buffer holds at most `max_size` traces |
| TraceBuffer.ConsistentFromNew | lib/ddtrace/buffer.rb:9-120 | every buffer reachable from `new` without a raising report has span counter = stored span total and stored count = accepted − dropped |
| TraceBuffer.ClosedStaysClosed | lib/ddtrace/buffer.rb:27 | once closed, no run reopens the buffer or lets it grow |
| TraceBuffer.PushesWithRoomAppend | lib/ddtrace/buffer.rb:29-31 | pushes into an open buffer with room for all of them append every trace in order |
| TraceBuffer.UnboundedLength | lib/ddtrace/buffer.rb:29-30 | with `max_size <= 0`, N pushes into a new buffer give length N |
| TraceBuffer.ExactDrainUnderCapacity | lib/ddtrace/buffer.rb:29-31 | pushing at most `max_size` traces and popping returns exactly those traces and leaves an empty, zeroed, consistent buffer |
| TraceBuffer.CapacityTwoExample | lib/ddtrace/buffer.rb:33-37 | capacity 2, pushes A, B, C: the result keeps C and whichever of A and B the eviction did not pick |
| TraceBuffer.CapacityOneExample | lib/ddtrace/buffer.rb:57-66 | capacity 1: push A then pop gives [A] and an empty buffer; a second pop gives nothing |
| RubyString.Split | lib/datadog/tracing/contrib/aws/service/sns.rb:37 | `split` yields separator-free fields, the last one non-empty; joined back with the separator they give the input up to a tail made only of separators |
| RubyString.At | lib/datadog/tracing/contrib/aws/service/sns.rb:38-39 | `xs[i]` is present exactly when `-len <= i < len`; a non-negative index counts from the front, a negative one from the end |
| RubyString.JoinFields | lib/datadog/tracing/contrib/aws/service/sqs.rb:42 | joining the untrimmed fields with the separator gives the input back |
| RubyString.FieldsJoin | lib/datadog/tracing/contrib/aws/service/sqs.rb:42 | cutting a joined list of separator-free fields gives the list back |
| RubyString.SplitWithTail | lib/datadog/tracing/contrib/aws/service/sns.rb:37-39 | splitting `prefix`, a separator and separator-free fields whose last is non-empty yields the prefix's fields followed by exactly those fields |
| AwsBase.InjectPropagation | lib/datadog/tracing/contrib/aws/service/base.rb:23-31 | a missing attribute map is created. At or over the limit, or when injection fails, the map keeps its contents. Otherwise exactly `_datadog` is added or overwritten, with the given data type and the payload, and every other key is kept. The limit is never exceeded |
| AwsBase.InjectPropagationIdempotent | lib/datadog/tracing/contrib/aws/service/base.rb:23-31 | injecting twice for the same trace is the same as injecting once |
| AwsBase.InjectWithoutWriteKeepsParams | lib/datadog/tracing/contrib/aws/service/base.rb:24-30 | with an existing map and no write (limit reached or injection failed), the parameters are unchanged |
| AwsBase.ExtractPropagation | lib/datadog/tracing/contrib/aws/service/base.rb:15-21 | something is extracted exactly when the attribute map exists and holds `_datadog`, and it is that entry |
| AwsBase.InjectThenExtract | lib/datadog/tracing/contrib/aws/service/base.rb:15-31 | what a successful injection under the limit writes is what extraction reads back |
| AwsSns.Process | lib/datadog/tracing/contrib/aws/service/sns.rb:15-30 | with propagation off the request is untouched; in every case only the attribute map can change |
| AwsSns.ProcessInjectsOnce | lib/datadog/tracing/contrib/aws/service/sns.rb:15-30 | with propagation on, every operation ends up as after a single `'Binary'` injection, whatever the batch setting |
| AwsSns.ProcessWritesBinary | lib/datadog/tracing/contrib/aws/service/sns.rb:15-30 | the resulting attribute map is the old one plus a `'Binary'` `_datadog` entry exactly when propagation is on, there is room and injection succeeds |
| AwsSns.ProcessWithoutRoomKeepsParams | spec/datadog/tracing/contrib/aws/service/sns_spec.rb:77-95 | with 10 attributes already set, or nothing to inject, `process` leaves the parameters unchanged |
| AwsSns.AddTags | lib/datadog/tracing/contrib/aws/service/sns.rb:32-43 | with a topic ARN the topic name is its last `:`-field and the account the one before, whatever `name` says. Without one the topic name is `name` (possibly `nil`) and the account tag is not set. Other tags are kept |
| AwsSns.AddTagsFromArn | lib/datadog/tracing/contrib/aws/service/sns.rb:32-43 | for any ARN `<prefix>:<account>:<topic>` the tags are exactly that account and topic |
| AwsSns.AddTagsExample | spec/datadog/tracing/contrib/aws/service/sns_spec.rb:14-23 | the ARN `arn:aws:sns:us-west-2:123456789012:my-topic-name` gives account `123456789012` and topic `my-topic-name` |
| AwsSqs.BeforeSpan | lib/datadog/tracing/contrib/aws/service/sqs.rb:13-21 | extraction happens exactly when propagation is on, the parentage style is `distributed`, the operation is `receive_message` and the message carries `_datadog` |
| AwsSqs.Process | lib/datadog/tracing/contrib/aws/service/sqs.rb:23-36 | only the attribute map can change. Nothing changes with propagation off or for operations other than `send_message`/`send_message_batch`. Those two, in both batch settings, are exactly one `'String'` injection: a missing map is created, and `_datadog` is written exactly when there is room and injection succeeds |
| AwsSqs.ProcessIgnoresBatchSetting | lib/datadog/tracing/contrib/aws/service/sqs.rb:29-34 | `batch_propagation` makes no difference to the result |
| AwsSqs.ProcessThenBeforeSpan | lib/datadog/tracing/contrib/aws/service/sqs.rb:13-36 | `before_span` (propagation on, distributed parentage, `receive_message`) on params holding what `process` wrote for `send_message` with room and a successful injection extracts exactly that attribute |
| AwsSqs.AddTags | lib/datadog/tracing/contrib/aws/service/sqs.rb:38-46 | with a queue URL the account and queue name are its `/`-fields 3 and 4 (`nil` when missing), overriding `queue_name`. Without one the queue name is `queue_name` and the account tag is not set. Other tags are kept |
| AwsSqs.AddTagsFromQueueUrl | lib/datadog/tracing/contrib/aws/service/sqs.rb:38-46 | for any URL `<scheme>//<host>/<account>/<queue>` the tags are exactly that account and queue |
| AwsSqs.AddTagsExample | lib/datadog/tracing/contrib/aws/service/sqs.rb:38-46 | the URL `https://sqs.us-east-1.amazonaws.com/123456789012/MyQueue` gives account `123456789012` and queue `MyQueue`, overriding a different `queue_name` |
| HeapRecorder.New | ext/ddtrace_profiling_native_extension/heap_recorder.c:29-38 | a new recorder has no active recording |
| HeapRecorder.Start | ext/ddtrace_profiling_native_extension/heap_recorder.c:44-51 | the active recording becomes exactly the given object and weight, whatever was there; it is active exactly when the object is not `Qnil` |
| HeapRecorder.StartOverwrites | ext/ddtrace_profiling_native_extension/heap_recorder.c:44-51 | a second `start` silently replaces the first one |
| HeapRecorder.End | ext/ddtrace_profiling_native_extension/heap_recorder.c:57-71 | raises "Ended a heap recording that was not started" exactly when nothing is active; otherwise leaves nothing active |
| HeapRecorder.StartThenEnd | ext/ddtrace_profiling_native_extension/heap_recorder.c:44-68 | starting with a real object and then ending always succeeds |
| HeapRecorder.EndTwiceRaises | ext/ddtrace_profiling_native_extension/heap_recorder.c:60-68 | `start; end; end` raises on the second `end` |
| HeapRecorder.StartNilThenEndRaises | ext/ddtrace_profiling_native_extension/heap_recorder.c:44-63 | starting with `Qnil` leaves the recorder inactive, so the next `end` raises |
| HeapRecorder.RunMatchesOpenAfter | ext/ddtrace_profiling_native_extension/heap_recorder.c:44-71 | a call sequence succeeds exactly when every `end` comes while the preceding calls left a recording open; the final active state is what the last call left |

## Left out

- The mutex of `TraceBuffer`. Every operation holds it for its whole body, so the model applies operations one at a time.
- `rand(len)`. It is the `replaceIndex` argument of `TraceBuffer.Push`, constrained to `[0, len)` only when the push overflows.
- The `Debug::Health` metrics calls and `measure_traces_size`/`measure_trace_size` (`ObjectSpace.estimate_bytesize`). They are foreign telemetry. Their only effect on the buffer is whether `measure_pop` raises, which is the `Reporting` argument of `TraceBuffer.Pop`.
- The `rescue` clauses of `measure_accept` and `measure_drop`. They fire only when a trace does not respond to `length` (a pushed `nil`, say), and then `measure_drop` leaves the counters half-updated. The model's `Trace` always has a length, so these paths are not modelled.
- Logging (`Datadog::Tracer.log`).
- Traces are sequences of opaque spans. Only their length enters the counters.
- A pushed trace is assumed never to change afterwards. The source keeps a reference to the caller's array and reads its length again on eviction, so a trace that gains spans after its push would make `@buffer_spans` differ from the stored span total.
- `Contrib.inject`, `Contrib.extract`, `Tracing.continue_trace!` and `to_json`. They are foreign propagation and serialisation code, represented by the `Injection` value and an opaque payload string. `AwsSqs.BeforeSpan` and `AwsBase.ExtractPropagation` return the attribute handed to extraction instead of continuing a trace.
- AwsSns.ProcessInjectsOnce: relies on `Contrib.inject` answering the same way for both injections of one `process` call. A propagation layer that answered differently the second time is not modelled.
- `span.set_tag` is a foreign call; the model's `SpanTags` map records only the last value passed to it for each tag.
- The tag-name constants of `Aws::Ext` are not part of this model. Tags are the enumeration `AwsAccount | TopicName | QueueName`.
- The insertion order of Ruby's attribute hash is not modelled: the attributes are a Dafny `map`, so `_datadog` being added after the existing keys is not stated, only which keys are present. Nothing in the handlers depends on that order.
- Ruby symbol keys versus string keys in the attribute hash are not distinguished. An attribute is a data type plus optional string and binary values.
- The base class's empty `process` and `add_tags` hooks.
- The heap recorder's memory management: `ruby_xmalloc`, `heap_recorder_free`.
- The heap recorder's unimplemented functions: `record_heap_free`, `heap_recorder_flush`, `heap_recorder_for_each_live_object`.
- The `locations` argument of `end_heap_allocation_recording`, which the function does not use yet.
- `rb_raise` is modelled as a `Failure` result carrying the message, and a run of calls stops at it.
- `lib/datadog/tracing/contrib/active_job/configuration/settings.rb` is declarative configuration and is not part of this model.
