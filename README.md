# Span bookkeeping of the dd-trace-php extension, in Dafny

This project models how the tracer's C extension keeps track of the spans of one request:

- **The span-id stack** (`src/ext/random.c`). A singly linked list holds the ids of the spans that are currently open. Beside it sits the `root_span_id` of the current trace.
  - Push turns one 64-bit draw of the pseudo-random generator into an id in [1, 2^63]. It sets the root id if the root id is still 0. (The comment at `random.c:36` calls these 63-bit ids, but the largest one, 2^63, needs the top bit of a `uint64_t`. It is still non-zero and fits, so nothing goes wrong.)
  - Pop removes the top id. It resets the root id when the stack becomes empty.
  - Peek reads the top id. Peek and pop report 0 on an empty stack.
- **The open and closed span stacks** (`src/ext/span.c`). These are two linked lists of span records.
  - Opening a span pushes a record whose parent id is the previous top id, whose span id is a freshly pushed id, and whose trace id is the root id.
  - Closing moves the top open record onto the closed stack and pops one id.
  - Serializing drains the closed stack, top first.

How the model is laid out:

- `uint64.dfy` (module `Uint64`) holds `uint64_t` as the newtype `u64` and C's wrapping subtraction.
- `span_ids.dfy` (module `SpanIds`) models `random.c`.
  - The value `IdStack(ids, rootSpanId)` is the specification state. `ids[0]` is the head of the list.
  - The functions `TopId`, `AfterPush`, `AfterPop` and `AfterFree` give the outcome of each call.
  - The predicate `Consistent` is the invariant that init, push, pop and peek maintain.
  - The class `SpanIdStack` holds the globals and updates them in place. Each of its methods is proved against those functions.
- `spans.dfy` (module `Spans`) models `span.c`.
  - The class `Span` is one span record. It is a class because `dd_trace_stop_span_time` writes its `duration` field through a pointer.
  - The class `SpanStacks` holds the open and closed lists as sequences whose element 0 is the head. It also holds a reference to the process's `SpanIdStack`.
  - `Valid()` says each record is on at most one stack, at most once.
  - `Linked()` says the open stack mirrors the span-id stack. `Mirrors` is the same statement on plain values. The stacks have equal heights. The record at each height carries the id at that height. Its parent id is the id just below it, or 0 at the bottom. Its trace id is the root id.

Every external input is a parameter:

- The generator's draw is the `draw` argument of push and open.
- The monotonic and real-time clock readings are arguments of open. The end reading is an argument of stop-time.

The repository's PHP test code (`isolateTracer`, span assertions) is not modelled.

## Model

| member | source | states |
|---|---|---|
| `Uint64.WrappingSub` | src/ext/span.c:74-76 | the `uint64_t` difference equals `a - b` when `b <= a`; otherwise it is that difference plus 2^64; adding `b` back modulo 2^64 always gives `a` |
| `SpanIds.SpanIdFromDraw` | src/ext/random.c:36-37 | an id derived from any 64-bit draw lies in [1, 2^63]: it is never 0 and never overflows |
| `SpanIds.EveryValidIdIsDrawn` | src/ext/random.c:36-37 | every id in [1, 2^63] is derived from some draw, so the id range is exactly [1, 2^63] |
| `SpanIds.TopId` | src/ext/random.c:62-67 | what peek (and pop) report: the head of a non-empty list, 0 for an empty one |
| `SpanIds.AfterPush` | src/ext/random.c:34-45 | the state after a push: one entry taller, the derived id on top of the old list, the root id never 0 afterwards; the root id is kept when it was non-zero and is the pushed id otherwise |
| `SpanIds.AfterPop` | src/ext/random.c:47-60 | the state after a pop: unchanged when empty; otherwise exactly the top entry is removed, the root id is 0 when the list became empty, and kept while entries remain |
| `SpanIds.AfterFree` | src/ext/random.c:26-32 | the state after free: no entries, peek reports 0, the root id is untouched, so the invariant holds afterwards exactly when the root id was already 0 |
| `SpanIds.Step` | src/ext/random.c:21-67 | one call of init, push, pop or peek; only a push makes the stack taller, by exactly one entry, and it puts the derived id on top |
| `SpanIds.Run` | src/ext/random.c:21-67 | a sequence of those calls, first call first; the stack ends no taller than its start plus the number of pushes |
| `SpanIds.InitIsConsistent` | src/ext/random.c:21-24 | after init the id stack is empty, the root id is 0, and the invariant holds |
| `SpanIds.PushMakesTop` | src/ext/random.c:34-45 | push makes the new non-zero id the top and keeps the rest of the stack; the root id takes the new id exactly when it was 0, and is unchanged otherwise |
| `SpanIds.PopEmptyChangesNothing` | src/ext/random.c:47-50 | pop on an empty stack reports 0 and leaves the stack and root id as they were |
| `SpanIds.PopRemovesTop` | src/ext/random.c:51-59 | pop reports the top id and removes exactly that entry; the root id becomes 0 only when the stack becomes empty (or was already 0) and is kept otherwise |
| `SpanIds.PushThenPop` | src/ext/random.c:34-60 | push followed by pop reports the pushed id and restores the list of ids on every state; it also restores the root id whenever the root id is 0 exactly on an empty stack |
| `SpanIds.PushKeepsConsistent` | src/ext/random.c:34-45 | push preserves the invariant: all ids valid, root 0 iff empty, root equal to the bottom id |
| `SpanIds.PopKeepsConsistent` | src/ext/random.c:47-60 | pop preserves the same invariant |
| `SpanIds.TopIdZeroIffEmpty` | src/ext/random.c:62-67 | on a consistent stack, peek reports 0 exactly when the stack is empty |
| `SpanIds.PushAfterFreeKeepsStaleRoot` | src/ext/random.c:26-32 | free empties the list but keeps a non-zero root id, which breaks the invariant; a later push without init keeps that stale root id |
| `SpanIds.StepKeepsConsistent` | src/ext/random.c:21-67 | each of init, push, pop and peek preserves the invariant |
| `SpanIds.RunKeepsConsistent` | src/ext/random.c:21-67 | any sequence of init, push, pop and peek preserves the invariant |
| `SpanIds.RunAfterInitIsConsistent` | src/ext/random.c:21-67 | after an init, under init, push, pop and peek only, from any prior state: root id 0 iff the stack is empty, otherwise the bottom id; every id non-zero |
| `SpanIds.SpanIdStack.constructor` | src/ext/random.c:21-24 | the zero-initialised globals are the empty stack with root id 0 |
| `SpanIds.SpanIdStack.Init` | src/ext/random.c:21-24 | the stack becomes empty and the root id 0, whatever came before |
| `SpanIds.SpanIdStack.Free` | src/ext/random.c:26-32 | the loop unlinks every node, leaving the list empty and the root id untouched |
| `SpanIds.SpanIdStack.Push` | src/ext/random.c:34-45 | returns the id derived from the draw, and the new state is `AfterPush` of the old one |
| `SpanIds.SpanIdStack.Pop` | src/ext/random.c:47-60 | returns the old top id (0 when empty), and the new state is `AfterPop` of the old one |
| `SpanIds.SpanIdStack.Peek` | src/ext/random.c:62-67 | returns the top id, or 0 on an empty stack, and modifies nothing |
| `Spans.Records` | src/ext/span.c:91-100 | the serialized records of a stack correspond one to one, in order, to its span records |
| `Spans.RecordsPush` | src/ext/span.c:53-56 | linking a record on top of a stack adds its record in front of the stack's records |
| `Spans.RecordsUnchanged` | src/ext/span.c:53-88 | records of spans that an operation does not touch are unchanged |
| `Spans.DistinctPush` | src/ext/span.c:53-56 | linking a record that is not yet on a duplicate-free stack keeps it duplicate-free |
| `Spans.DistinctPop` | src/ext/span.c:83-84 | unlinking the top of a duplicate-free stack keeps it duplicate-free, and the unlinked record is no longer on it |
| `Spans.InitMirrors` | src/ext/span.c:15-18 | an empty open stack mirrors a freshly initialised span-id stack |
| `Spans.OpenKeepsMirror` | src/ext/span.c:61-65 | a new record whose parent id is the prior top, whose span id is the pushed id and whose trace id is the root after the push keeps the open stack mirroring the id stack |
| `Spans.CloseKeepsMirror` | src/ext/span.c:83-85 | removing the top open record together with one pop keeps the mirror, so the two stacks stay the same height |
| `Spans.Span.constructor` | src/ext/span.c:54-71 | a new span record is zero-filled apart from its ids and timestamps, so its duration is 0 and it carries no exception |
| `Spans.StopSpanTime` | src/ext/span.c:74-76 | `duration` becomes the end reading minus `duration_start` in wrapping `uint64_t` arithmetic; it equals the plain difference when end ≥ start; nothing else in the record changes |
| `Spans.SpanStacks.constructor` | src/ext/span.c:15-18 | both stacks start empty and valid, and they mirror an empty span-id stack |
| `Spans.SpanStacks.Init` | src/ext/span.c:15-18 | both stacks become empty; the span-id stack is not touched |
| `Spans.SpanStacks.Free` | src/ext/span.c:30-43 | every record of the open stack and then of the closed stack is unlinked; both stacks end empty; the span-id stack is not touched |
| `Spans.SpanStacks.Open` | src/ext/span.c:53-72 | exactly one fresh record goes on top of the open stack, and the earlier open records and the closed stack keep their records; the id stack is pushed once; the new record has the prior top (0 when empty) as parent id, the pushed non-zero id as span id, the root after the push as trace id (its own span id when the root was 0), the two clock readings, duration 0 and no exception; validity and the mirror are kept whenever they held before |
| `Spans.SpanStacks.Close` | src/ext/span.c:78-89 | on an empty open stack nothing changes and no id is popped; otherwise the top open record moves unchanged onto the closed stack, exactly one id is popped, and validity and the mirror are kept whenever they held before |
| `Spans.SpanStacks.SerializeClosedSpans` | src/ext/span.c:91-101 | emits the record of every closed span exactly once, most recently closed first, then leaves the closed stack empty; the open stack and id stack are unchanged |

## Left out

- `ddtrace_seed_prng` and the MT19937-64 generator are configuration and a third-party generator. Each draw is an arbitrary `u64` parameter.
- `_get_nanoseconds` and `clock_gettime` are clock calls. Each reading is a `u64` parameter. A failed clock call reads as 0, which is one such value.
- The PHP `SpanData` object held in `span_data`, and its allocation and destruction (`object_init_ex`, `ecalloc`, `efree`, `ddtrace_zval_ptr_dtor`), are not part of this model.
- `_free_span` is modelled only as removal of the record from its stack. The release of memory is not modelled.
- `ddtrace_serialize_span_to_array` is not part of this model. Serializing appends the record's fields to the result sequence.
- The exception attached to a span is an opaque handle. Only `ddtrace_open_span` sets it in this core, to none. `_free_span` destroys it, which is part of the memory release that is not modelled.
- The thread-local globals (`DDTRACE_G`, `TSRMLS_*`) are plain fields of two objects. `SpanStacks` refers to its process's `SpanIdStack`. No concurrency is modelled.
- Spans.SpanStacks.Open: it keeps the open stack mirroring the id stack only when it already did. Code outside this core may push or pop span ids by itself, and `ddtrace_free_span_stacks` does not free the span-id stack.
- Spans.SpanStacks.Close: it keeps the mirror only when it already held, for the same reasons as open.
- The order of steps inside `ddtrace_open_span` is changed. The C code links the new node before it peeks and pushes. The model computes the ids first and then links the record. Nothing can observe the difference.
