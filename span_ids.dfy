/** The span-id stack of the tracer extension (src/ext/random.c).

    The extension keeps the ids of the spans that are currently open on a singly
    linked list whose head is the innermost span, together with the id of the
    root span of the current trace. Here the list is a sequence whose element 0
    is the head, and the 64-bit draw of the pseudo-random generator is a
    parameter of push. */
module SpanIds {
  import opened Uint64

  /** The largest id a push can produce: 2^63. */
  const MAX_SPAN_ID: u64 := 0x8000_0000_0000_0000

  /** An id a push can produce; 0 is reserved for "no span". */
  predicate ValidId(id: u64) {
    1 <= id <= MAX_SPAN_ID
  }

  /** The id a push derives from one draw: the draw shifted right by one bit
      (a value below 2^63), plus one so that it is never 0. The largest id,
      2^63, takes the top bit of a `uint64_t`. */
  function SpanIdFromDraw(draw: u64): (id: u64)
    ensures ValidId(id)
  {
    draw / 2 + 1
  }

  /** Every valid id is produced by some draw, so the ids are exactly [1, 2^63]. */
  lemma EveryValidIdIsDrawn(id: u64)
    requires ValidId(id)
    ensures SpanIdFromDraw(((id as int - 1) * 2) as u64) == id
  {
  }

  /** The span-id stack as a value: `ids[0]` is the top of the stack. */
  datatype IdStack = IdStack(ids: seq<u64>, rootSpanId: u64)

  /** The state `ddtrace_init_span_id_stack` establishes. */
  const Empty: IdStack := IdStack([], 0)

  /** What peek and pop report: the top id, or 0 for an empty stack. */
  function TopId(s: IdStack): (id: u64)
    ensures s.ids != [] ==> [id] + s.ids[1..] == s.ids
    ensures s.ids == [] ==> id == 0
  {
    if s.ids == [] then 0 else s.ids[0]
  }

  /** The stack after a push of the id derived from `draw`; the root id is
      taken from the pushed id only while it is still 0. */
  function AfterPush(s: IdStack, draw: u64): (t: IdStack)
    ensures |t.ids| == |s.ids| + 1 && t.ids[1..] == s.ids && TopId(t) == SpanIdFromDraw(draw)
    ensures t.rootSpanId != 0
    ensures s.rootSpanId != 0 ==> t.rootSpanId == s.rootSpanId
    ensures s.rootSpanId == 0 ==> t.rootSpanId == TopId(t)
  {
    var id := SpanIdFromDraw(draw);
    IdStack([id] + s.ids, if s.rootSpanId == 0 then id else s.rootSpanId)
  }

  /** The stack after a pop: nothing changes when it is empty; the root id is
      reset to 0 when the last entry goes. */
  function AfterPop(s: IdStack): (t: IdStack)
    ensures s.ids == [] ==> t == s
    ensures s.ids != [] ==> [TopId(s)] + t.ids == s.ids
    ensures s.ids != [] && t.ids == [] ==> t.rootSpanId == 0
    ensures t.ids != [] ==> t.rootSpanId == s.rootSpanId
  {
    if s.ids == [] then s
    else IdStack(s.ids[1..], if |s.ids| == 1 then 0 else s.rootSpanId)
  }

  /** The stack after `ddtrace_free_span_id_stack`: no entries, root id untouched. */
  function AfterFree(s: IdStack): (t: IdStack)
    ensures t.ids == [] && TopId(t) == 0
    ensures t.rootSpanId == s.rootSpanId
    ensures Consistent(t) <==> s.rootSpanId == 0
  {
    IdStack([], s.rootSpanId)
  }

  /** The invariant that init, push and pop keep: every id is valid, the root
      id is 0 exactly when the stack is empty, and otherwise it is the bottom id. */
  ghost predicate Consistent(s: IdStack) {
    (forall i :: 0 <= i < |s.ids| ==> ValidId(s.ids[i])) &&
    (s.rootSpanId == 0 <==> s.ids == []) &&
    (s.ids != [] ==> s.rootSpanId == s.ids[|s.ids| - 1])
  }

  lemma InitIsConsistent()
    ensures Consistent(Empty)
    ensures Empty.ids == [] && Empty.rootSpanId == 0
  {
  }

  /** Push makes the new id the top, keeps the rest of the stack, and sets the
      root id exactly when it was 0. */
  lemma PushMakesTop(s: IdStack, draw: u64)
    ensures TopId(AfterPush(s, draw)) == SpanIdFromDraw(draw) != 0
    ensures AfterPush(s, draw).ids[1..] == s.ids
    ensures s.rootSpanId == 0 ==> AfterPush(s, draw).rootSpanId == SpanIdFromDraw(draw)
    ensures s.rootSpanId != 0 ==> AfterPush(s, draw).rootSpanId == s.rootSpanId
  {
  }

  /** Pop on an empty stack reports 0 and changes nothing. */
  lemma PopEmptyChangesNothing(s: IdStack)
    requires s.ids == []
    ensures TopId(s) == 0 && AfterPop(s) == s
  {
  }

  /** Pop removes exactly the top entry; it resets the root id only when the
      stack becomes empty. */
  lemma PopRemovesTop(s: IdStack)
    requires s.ids != []
    ensures [TopId(s)] + AfterPop(s).ids == s.ids
    ensures AfterPop(s).rootSpanId == 0 <==> (|s.ids| == 1 || s.rootSpanId == 0)
    ensures |s.ids| > 1 ==> AfterPop(s).rootSpanId == s.rootSpanId
  {
  }

  /** Push then pop returns the pushed id and restores the previous ids; it
      restores the root id too whenever the root id is 0 exactly when the
      stack is empty. */
  lemma PushThenPop(s: IdStack, draw: u64)
    ensures TopId(AfterPush(s, draw)) == SpanIdFromDraw(draw)
    ensures AfterPop(AfterPush(s, draw)).ids == s.ids
    ensures (s.ids == [] <==> s.rootSpanId == 0) ==> AfterPop(AfterPush(s, draw)) == s
  {
    assert AfterPush(s, draw).ids[1..] == s.ids;
  }

  lemma PushKeepsConsistent(s: IdStack, draw: u64)
    requires Consistent(s)
    ensures Consistent(AfterPush(s, draw))
  {
    var t := AfterPush(s, draw);
    forall i | 0 <= i < |t.ids|
      ensures ValidId(t.ids[i])
    {
      if i > 0 {
        assert t.ids[i] == s.ids[i - 1];
      }
    }
  }

  lemma PopKeepsConsistent(s: IdStack)
    requires Consistent(s)
    ensures Consistent(AfterPop(s))
  {
    if s.ids != [] {
      var t := AfterPop(s);
      forall i | 0 <= i < |t.ids|
        ensures ValidId(t.ids[i])
      {
        assert t.ids[i] == s.ids[i + 1];
      }
    }
  }

  /** On a consistent stack peek reports 0 exactly when the stack is empty. */
  lemma TopIdZeroIffEmpty(s: IdStack)
    requires Consistent(s)
    ensures TopId(s) == 0 <==> s.ids == []
  {
    if s.ids != [] {
      assert ValidId(s.ids[0]);
    }
  }

  /** Free does not reset the root id, so until the next init a push keeps the
      stale root id instead of taking the new one. */
  lemma PushAfterFreeKeepsStaleRoot(s: IdStack, draw: u64)
    requires s.rootSpanId != 0
    ensures AfterFree(s).ids == [] && !Consistent(AfterFree(s))
    ensures AfterPush(AfterFree(s), draw).rootSpanId == s.rootSpanId
  {
  }

  /** The calls that make up the life of the span-id stack, free excluded. */
  datatype IdOp = InitOp | PushOp(draw: u64) | PopOp | PeekOp

  /** One call: only a push makes the stack taller, and by one entry. */
  function Step(s: IdStack, op: IdOp): (t: IdStack)
    ensures |t.ids| <= |s.ids| + 1
    ensures |t.ids| == |s.ids| + 1 <==> op.PushOp?
    ensures op.PushOp? ==> TopId(t) == SpanIdFromDraw(op.draw)
  {
    match op
    case InitOp => Empty
    case PushOp(draw) => AfterPush(s, draw)
    case PopOp => AfterPop(s)
    case PeekOp => s
  }

  /** The stack after running `ops` from `s`, first operation first; it is
      never taller than the number of pushes among `ops` allows. */
  function Run(s: IdStack, ops: seq<IdOp>): (t: IdStack)
    ensures |t.ids| <= |s.ids| + Pushes(ops)
    decreases |ops|
  {
    if ops == [] then s else Run(Step(s, ops[0]), ops[1..])
  }

  /** The number of pushes among `ops`. */
  function Pushes(ops: seq<IdOp>): nat {
    if ops == [] then 0 else (if ops[0].PushOp? then 1 else 0) + Pushes(ops[1..])
  }

  lemma StepKeepsConsistent(s: IdStack, op: IdOp)
    requires Consistent(s)
    ensures Consistent(Step(s, op))
  {
    match op
    case InitOp =>
    case PushOp(draw) => PushKeepsConsistent(s, draw);
    case PopOp => PopKeepsConsistent(s);
    case PeekOp =>
  }

  lemma {:induction false} RunKeepsConsistent(s: IdStack, ops: seq<IdOp>)
    requires Consistent(s)
    ensures Consistent(Run(s, ops))
    decreases |ops|
  {
    if ops != [] {
      StepKeepsConsistent(s, ops[0]);
      RunKeepsConsistent(Step(s, ops[0]), ops[1..]);
    }
  }

  /** Under init, push, pop and peek only, whatever came before the init: the
      root id is 0 exactly when the stack is empty, and otherwise it is the
      bottom id; every id on the stack is non-zero. */
  lemma RunAfterInitIsConsistent(s: IdStack, ops: seq<IdOp>)
    ensures Consistent(Run(s, [InitOp] + ops))
  {
    assert ([InitOp] + ops)[1..] == ops;
    RunKeepsConsistent(Empty, ops);
  }

  /** The span-id stack as the extension keeps it: the list of ids and the
      root span id, updated in place. */
  class SpanIdStack {
    var ids: seq<u64>
    var rootSpanId: u64

    function State(): IdStack
      reads this
    {
      IdStack(ids, rootSpanId)
    }

    /** The zero-initialised globals. */
    constructor ()
      ensures State() == Empty
    {
      ids := [];
      rootSpanId := 0;
    }

    /** `ddtrace_init_span_id_stack` */
    method Init()
      modifies this
      ensures State() == Empty
    {
      rootSpanId := 0;
      ids := [];
    }

    /** `ddtrace_free_span_id_stack`: unlinks and releases the top node until
        the list is empty. */
    method Free()
      modifies this
      ensures State() == AfterFree(old(State()))
    {
      while ids != []
        invariant rootSpanId == old(rootSpanId)
        decreases |ids|
      {
        ids := ids[1..];
      }
    }

    /** `ddtrace_push_span_id`, with the generator's draw as a parameter. */
    method Push(draw: u64) returns (id: u64)
      modifies this
      ensures id == SpanIdFromDraw(draw)
      ensures State() == AfterPush(old(State()), draw)
    {
      // shift to 63 bits and add one, since 0 means "no span"
      id := SpanIdFromDraw(draw);
      ids := [id] + ids;
      if rootSpanId == 0 {
        rootSpanId := id;
      }
    }

    /** `ddtrace_pop_span_id` */
    method Pop() returns (id: u64)
      modifies this
      ensures id == TopId(old(State()))
      ensures State() == AfterPop(old(State()))
    {
      if ids == [] {
        return 0;
      }
      id := ids[0];
      ids := ids[1..];
      if ids == [] {
        rootSpanId := 0;
      }
    }

    /** `ddtrace_peek_span_id`: a query; it changes nothing. */
    method Peek() returns (id: u64)
      ensures id == TopId(State())
    {
      if ids == [] {
        return 0;
      }
      id := ids[0];
    }
  }
}
