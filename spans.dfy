/** The open and closed span stacks of the tracer extension (src/ext/span.c).

    Opening a span pushes a new span record on the open stack and a new id on
    the span-id stack; closing moves the top open record onto the closed stack
    and pops one id; serializing drains the closed stack. Both stacks are
    singly linked lists whose head is the top; here they are sequences whose
    element 0 is the head. Clock readings are parameters. */
module Spans {
  import opened Uint64
  import opened SpanIds

  datatype Option<T> = None | Some(value: T)

  /** A reference to the PHP exception object attached to a span. */
  type ExceptionHandle = nat

  /** The fields of one span record as `ddtrace_serialize_span_to_array` reads them. */
  datatype SpanRecord = SpanRecord(
    spanId: u64,
    parentId: u64,
    traceId: u64,
    start: u64,
    durationStart: u64,
    duration: u64,
    exception: Option<ExceptionHandle>)

  /** One span record (`ddtrace_span_stack_t` without its link), updated in place. */
  class Span {
    var spanId: u64
    var parentId: u64
    var traceId: u64
    var start: u64
    var durationStart: u64
    var duration: u64
    var exception: Option<ExceptionHandle>

    function Record(): SpanRecord
      reads this
    {
      SpanRecord(spanId, parentId, traceId, start, durationStart, duration, exception)
    }

    /** A record allocated zero-filled (so its duration is 0) whose id
        fields, timestamps and exception are then set. */
    constructor (spanId: u64, parentId: u64, traceId: u64, durationStart: u64, start: u64)
      ensures Record() == SpanRecord(spanId, parentId, traceId, start, durationStart, 0, None)
    {
      this.duration := 0;
      this.parentId := parentId;
      this.spanId := spanId;
      this.traceId := traceId;
      this.durationStart := durationStart;
      this.exception := None;
      this.start := start;
    }
  }

  /** The records of `spans`, in the same order. */
  function Records(spans: seq<Span>): (r: seq<SpanRecord>)
    reads spans
    ensures |r| == |spans|
    ensures forall i :: 0 <= i < |spans| ==> r[i] == spans[i].Record()
  {
    if spans == [] then [] else [spans[0].Record()] + Records(spans[1..])
  }

  lemma RecordsPush(span: Span, spans: seq<Span>)
    ensures Records([span] + spans) == [span.Record()] + Records(spans)
  {
    assert ([span] + spans)[1..] == spans;
  }

  /** Records of spans that nothing modified are the same as before. */
  twostate lemma RecordsUnchanged(spans: seq<Span>)
    requires forall i :: 0 <= i < |spans| ==> old(allocated(spans[i])) && unchanged(spans[i])
    ensures Records(spans) == old(Records(spans))
  {
  }

  /** The records of an open stack mirror the span-id stack `s`: equal
      heights, each record carries the id at its own height, its parent id is
      the id just below (0 at the bottom), and its trace id is the root id. */
  ghost predicate Mirrors(records: seq<SpanRecord>, s: IdStack) {
    Consistent(s) &&
    |records| == |s.ids| &&
    forall i :: 0 <= i < |records| ==> MirrorsAt(records, s, i)
  }

  /** The mirror condition at height `i` (0 is the top). */
  ghost predicate MirrorsAt(records: seq<SpanRecord>, s: IdStack, i: int)
    requires 0 <= i < |records| == |s.ids|
  {
    records[i].spanId == s.ids[i] &&
    records[i].parentId == (if i + 1 < |s.ids| then s.ids[i + 1] else 0) &&
    records[i].traceId == s.rootSpanId
  }

  /** The record of an empty open stack mirrors the freshly initialised span-id stack. */
  lemma InitMirrors()
    ensures Mirrors([], Empty)
  {
  }

  /** Opening keeps the mirror: the new record takes its parent id from the
      top before the push, its span id from the push and its trace id from
      the root after the push. */
  lemma {:induction false} OpenKeepsMirror(records: seq<SpanRecord>, s: IdStack, draw: u64, r: SpanRecord)
    requires Mirrors(records, s)
    requires r.parentId == TopId(s)
    requires r.spanId == SpanIdFromDraw(draw)
    requires r.traceId == AfterPush(s, draw).rootSpanId
    ensures Mirrors([r] + records, AfterPush(s, draw))
  {
    var t := AfterPush(s, draw);
    PushKeepsConsistent(s, draw);
    var recs := [r] + records;
    forall i | 0 <= i < |recs|
      ensures MirrorsAt(recs, t, i)
    {
      if i == 0 {
        if s.ids != [] {
          assert t.ids[1] == s.ids[0];
        }
      } else {
        var j := i - 1;
        assert recs[i] == records[j] && t.ids[i] == s.ids[j];
        assert MirrorsAt(records, s, j);
        assert s.rootSpanId != 0;
        if j + 1 < |s.ids| {
          assert t.ids[i + 1] == s.ids[j + 1];
        }
      }
    }
  }

  /** Closing keeps the mirror: dropping the top record and popping one id. */
  lemma {:induction false} CloseKeepsMirror(records: seq<SpanRecord>, s: IdStack)
    requires Mirrors(records, s) && records != []
    ensures Mirrors(records[1..], AfterPop(s))
  {
    var t := AfterPop(s);
    PopKeepsConsistent(s);
    var recs := records[1..];
    forall i | 0 <= i < |recs|
      ensures MirrorsAt(recs, t, i)
    {
      var j := i + 1;
      assert recs[i] == records[j] && t.ids[i] == s.ids[j];
      assert |s.ids| > 1 && t.rootSpanId == s.rootSpanId;
      assert MirrorsAt(records, s, j);
      if j + 1 < |s.ids| {
        assert t.ids[i + 1] == s.ids[j + 1];
      }
    }
  }

  /** `dd_trace_stop_span_time`, with the monotonic clock reading as a
      parameter: the duration is the `uint64_t` difference of the end reading
      and the start reading, so an end reading below the start wraps around. */
  method StopSpanTime(span: Span, endReading: u64)
    modifies span
    ensures span.duration == WrappingSub(endReading, span.durationStart)
    ensures old(endReading >= span.durationStart) ==> span.duration as int == endReading as int - span.durationStart as int
    ensures span.Record() == old(span.Record()).(duration := span.duration)
  {
    span.duration := WrappingSub(endReading, span.durationStart);
  }

  /** No span record appears twice. */
  ghost predicate Distinct(spans: seq<Span>) {
    forall i, j :: 0 <= i < j < |spans| ==> spans[i] != spans[j]
  }

  lemma DistinctPush(span: Span, spans: seq<Span>)
    requires span !in spans && Distinct(spans)
    ensures Distinct([span] + spans)
  {
    var t := [span] + spans;
    forall i, j | 0 <= i < j < |t|
      ensures t[i] != t[j]
    {
      assert t[j] == spans[j - 1];
      if i > 0 {
        assert t[i] == spans[i - 1];
      }
    }
  }

  lemma DistinctPop(spans: seq<Span>)
    requires spans != [] && Distinct(spans)
    ensures Distinct(spans[1..]) && spans[0] !in spans[1..]
  {
    forall i, j | 0 <= i < j < |spans[1..]|
      ensures spans[1..][i] != spans[1..][j]
    {
      assert spans[1..][i] == spans[i + 1] && spans[1..][j] == spans[j + 1];
    }
  }

  /** The open and closed span stacks, together with the span-id stack they
      share the extension's globals with. */
  class SpanStacks {
    const spanIdStack: SpanIdStack
    var openSpans: seq<Span>
    var closedSpans: seq<Span>

    /** Each record sits on at most one stack, at most once. */
    ghost predicate Valid()
      reads this
    {
      Distinct(openSpans) && Distinct(closedSpans) &&
      forall span :: span in openSpans ==> span !in closedSpans
    }

    /** The open stack mirrors the span-id stack (see `Mirrors`). */
    ghost predicate Linked()
      reads this, spanIdStack, openSpans
    {
      Mirrors(Records(openSpans), spanIdStack.State())
    }

    /** The zero-initialised globals; `spanIdStack` is the span-id stack of
        the same process. */
    constructor (spanIdStack: SpanIdStack)
      ensures this.spanIdStack == spanIdStack
      ensures openSpans == [] && closedSpans == [] && Valid()
      ensures spanIdStack.State() == Empty ==> Linked()
    {
      this.spanIdStack := spanIdStack;
      openSpans := [];
      closedSpans := [];
    }

    /** `ddtrace_init_span_stacks` */
    method Init()
      modifies this
      ensures openSpans == [] && closedSpans == [] && Valid()
      ensures spanIdStack.State() == old(spanIdStack.State())
      ensures spanIdStack.State() == Empty ==> Linked()
    {
      openSpans := [];
      closedSpans := [];
    }

    /** `ddtrace_free_span_stacks` with `_free_span_stack`: every record of
        each stack is unlinked and released, the open stack first. The
        span-id stack is not touched. */
    method Free()
      modifies this
      ensures openSpans == [] && closedSpans == [] && Valid()
      ensures spanIdStack.State() == old(spanIdStack.State())
    {
      while openSpans != []
        invariant closedSpans == old(closedSpans)
        decreases |openSpans|
      {
        openSpans := openSpans[1..];
      }
      while closedSpans != []
        invariant openSpans == []
        decreases |closedSpans|
      {
        closedSpans := closedSpans[1..];
      }
    }

    /** `ddtrace_open_span`, with the generator's draw and the monotonic and
        real-time clock readings as parameters. */
    method Open(draw: u64, durationStartReading: u64, startReading: u64) returns (span: Span)
      modifies this, spanIdStack
      ensures old(Valid()) ==> Valid()
      ensures fresh(span)
      ensures openSpans == [span] + old(openSpans) && closedSpans == old(closedSpans)
      ensures Records(old(openSpans)) == old(Records(openSpans))
      ensures Records(closedSpans) == old(Records(closedSpans))
      ensures spanIdStack.State() == AfterPush(old(spanIdStack.State()), draw)
      ensures span.Record() == SpanRecord(
        SpanIdFromDraw(draw), old(TopId(spanIdStack.State())), spanIdStack.rootSpanId,
        startReading, durationStartReading, 0, None)
      ensures span.spanId != 0
      ensures old(spanIdStack.rootSpanId) == 0 ==> span.traceId == span.spanId
      ensures old(Linked()) ==> Linked()
    {
      // the parent is whatever is on top of the span-id stack before the push
      var parentId := spanIdStack.Peek();
      var spanId := spanIdStack.Push(draw);
      // the trace id is read after the push, so the first span is its own root
      var traceId := spanIdStack.rootSpanId;
      span := new Span(spanId, parentId, traceId, durationStartReading, startReading);
      openSpans := [span] + openSpans;
      RecordsUnchanged(old(openSpans));
      RecordsUnchanged(closedSpans);
      if old(Valid()) {
        DistinctPush(span, old(openSpans));
      }
      RecordsPush(span, old(openSpans));
      if old(Linked()) {
        OpenKeepsMirror(old(Records(openSpans)), old(spanIdStack.State()), draw, span.Record());
      }
    }

    /** `ddtrace_close_span`: moves the top open record, unchanged, onto the
        closed stack and pops one span id; on an empty open stack it does
        nothing. */
    method Close()
      modifies this, spanIdStack
      ensures old(Valid()) ==> Valid()
      ensures old(openSpans) == [] ==>
        openSpans == [] && closedSpans == old(closedSpans) &&
        spanIdStack.State() == old(spanIdStack.State())
      ensures old(openSpans) != [] ==>
        openSpans == old(openSpans)[1..] &&
        closedSpans == [old(openSpans)[0]] + old(closedSpans) &&
        spanIdStack.State() == AfterPop(old(spanIdStack.State()))
      ensures old(openSpans) != [] ==>
        Records(openSpans) == old(Records(openSpans))[1..] &&
        Records(closedSpans) == old(Records(openSpans))[..1] + old(Records(closedSpans))
      ensures old(Linked()) ==> Linked()
    {
      if openSpans == [] {
        return;
      }
      var span := openSpans[0];
      openSpans := openSpans[1..];
      // keeps the span-id stack in step with the open stack
      var _ := spanIdStack.Pop();
      if old(Valid()) {
        DistinctPop(old(openSpans));
        DistinctPush(span, closedSpans);
      }
      closedSpans := [span] + closedSpans;
      assert [span] + openSpans == old(openSpans);
      RecordsUnchanged(old(openSpans));
      RecordsUnchanged(old(closedSpans));
      RecordsPush(span, openSpans);
      RecordsPush(span, old(closedSpans));
      if old(Linked()) {
        CloseKeepsMirror(old(Records(openSpans)), old(spanIdStack.State()));
      }
    }

    /** `ddtrace_serialize_closed_spans`: walks the closed stack from the top,
        hands each record to the serializer (here: appends it to the result)
        and releases it; the closed stack is empty afterwards. */
    method SerializeClosedSpans() returns (serialized: seq<SpanRecord>)
      modifies this
      ensures serialized == old(Records(closedSpans))
      ensures |serialized| == |old(closedSpans)|
      ensures closedSpans == [] && openSpans == old(openSpans)
      ensures spanIdStack.State() == old(spanIdStack.State())
      ensures old(Valid()) ==> Valid()
    {
      serialized := [];
      var span := closedSpans;
      while span != []
        invariant serialized + Records(span) == Records(closedSpans)
        decreases |span|
      {
        serialized := serialized + [span[0].Record()];
        span := span[1..];
      }
      closedSpans := [];
    }
  }
}
