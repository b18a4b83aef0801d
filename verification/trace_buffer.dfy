/** The trace buffer of `lib/ddtrace/buffer.rb`: a bounded store of finished traces
    with a one-way `closed` flag and four counters that describe the activity since
    the last drain. Every operation runs under one mutex in the source, so each one
    is modelled as a single pure transition on an immutable state. */
module TraceBuffer {

  /** A span is opaque to the buffer: only how many of them a trace holds matters. */
  datatype Span = Span(id: nat)

  /** A trace is an array of spans; its length is its span count. */
  datatype Trace = Trace(spans: seq<Span>) {
    function Length(): (n: nat) { |spans| }
  }

  /** The instance variables of a `TraceBuffer`. */
  datatype Buffer = Buffer(
    maxSize: int,            // @max_size; zero or negative means unbounded
    traces: seq<Trace>,      // @traces
    closed: bool,            // @closed
    accepted: int,           // @buffer_accepted
    acceptedLengths: int,    // @buffer_accepted_lengths
    dropped: int,            // @buffer_dropped
    spans: int)              // @buffer_spans

  /** Whether the telemetry calls of `measure_pop` returned normally or raised.
      The reset of the counters sits inside the same `rescue`, so it only happens
      when reporting succeeds. */
  datatype Reporting = Reported | ReportRaised

  /** Total number of spans in a sequence of traces. */
  function SpanTotal(ts: seq<Trace>): (n: nat)
  {
    if |ts| == 0 then 0 else SpanTotal(ts[..|ts| - 1]) + ts[|ts| - 1].Length()
  }

  /** The store may grow: it is below capacity, or unbounded. */
  predicate HasRoom(b: Buffer)
  {
    |b.traces| < b.maxSize || b.maxSize <= 0
  }

  /** A push on this state replaces a stored trace instead of appending. */
  predicate Overflows(b: Buffer)
  {
    !b.closed && !HasRoom(b)
  }

  /** The part of the bookkeeping that every transition keeps, whatever reporting does:
      capacity is respected, the two span counters move together and drops never go
      negative. */
  predicate WithinBounds(b: Buffer)
  {
    && (b.maxSize > 0 ==> |b.traces| <= b.maxSize)
    && b.acceptedLengths == b.spans
    && b.dropped >= 0
  }

  /** The counters agree with the stored traces: the span counter is the number of
      stored spans, and the stored traces are the accepted ones minus the dropped ones. */
  predicate Consistent(b: Buffer)
  {
    && WithinBounds(b)
    && b.spans == SpanTotal(b.traces)
    && b.accepted - b.dropped == |b.traces|
  }

  /** `TraceBuffer.new(max_size)`. */
  function New(maxSize: int): (b: Buffer)
    ensures b.maxSize == maxSize && !b.closed && b.traces == []
    ensures b.accepted == 0 && b.acceptedLengths == 0 && b.dropped == 0 && b.spans == 0
  {
    Buffer(maxSize, [], false, 0, 0, 0, 0)
  }

  /** `measure_accept(trace)`: counters after appending `t`. One more trace is accepted
      and none dropped, and both span counters grow by the length of `t`. */
  function MeasureAccept(b: Buffer, t: Trace): (r: Buffer)
    ensures r.traces == b.traces && r.maxSize == b.maxSize && r.closed == b.closed
    ensures r.accepted - r.dropped == b.accepted - b.dropped + 1
    ensures r.dropped == b.dropped
    ensures r.spans - b.spans == t.Length() && r.acceptedLengths - b.acceptedLengths == t.Length()
  {
    b.(spans := b.spans + t.Length(),
       accepted := b.accepted + 1,
       acceptedLengths := b.acceptedLengths + t.Length())
  }

  /** `measure_drop(replaced, t)`: counters after `t` took the slot of `replaced`. The
      drop and the acceptance cancel out in accepted minus dropped, and both span
      counters move by the difference of the two lengths. */
  function MeasureDrop(b: Buffer, replaced: Trace, t: Trace): (r: Buffer)
    ensures r.traces == b.traces && r.maxSize == b.maxSize && r.closed == b.closed
    ensures r.accepted - r.dropped == b.accepted - b.dropped
    ensures r.dropped == b.dropped + 1
    ensures r.spans - b.spans == t.Length() - replaced.Length()
    ensures r.acceptedLengths - b.acceptedLengths == r.spans - b.spans
  {
    b.(dropped := b.dropped + 1,
       spans := b.spans - replaced.Length() + t.Length(),
       acceptedLengths := b.acceptedLengths - replaced.Length() + t.Length(),
       accepted := b.accepted + 1)
  }

  /** `push(trace)`. `replaceIndex` stands for `rand(len)`, the slot an overflowing push
      overwrites; it only matters, and is only constrained, when the push overflows. */
  function Push(b: Buffer, t: Trace, replaceIndex: nat): (r: Buffer)
    requires Overflows(b) ==> replaceIndex < |b.traces|
    ensures r.maxSize == b.maxSize && r.closed == b.closed
    // after close, nothing changes
    ensures b.closed ==> r == b
    // with room, the trace is appended and counted as accepted
    ensures !b.closed && HasRoom(b) ==>
              r.traces == b.traces + [t] && r.accepted == b.accepted + 1 && r.dropped == b.dropped
    // when full, the new trace takes the chosen slot and the length stays put
    ensures Overflows(b) ==>
              && |r.traces| == |b.traces|
              && r.traces[replaceIndex] == t
              && r.accepted == b.accepted + 1
    // the drop counter moves exactly on an overflow
    ensures r.dropped == b.dropped + (if Overflows(b) then 1 else 0)
    // an open unbounded buffer always grows by one
    ensures !b.closed && b.maxSize <= 0 ==> |r.traces| == |b.traces| + 1
  {
    if b.closed then b
    else if HasRoom(b) then
      MeasureAccept(b.(traces := b.traces + [t]), t)
    else
      var replaced := b.traces[replaceIndex];
      MeasureDrop(b.(traces := b.traces[replaceIndex := t]), replaced, t)
  }

  /** An overflowing push discards exactly one stored trace, the one in the chosen slot:
      every other slot keeps its trace, and the stored traces are the old ones with that
      one exchanged for the new trace. */
  lemma OverflowReplacesOne(b: Buffer, t: Trace, replaceIndex: nat)
    requires Overflows(b) && replaceIndex < |b.traces|
    ensures var r := Push(b, t, replaceIndex);
            && |r.traces| == |b.traces|
            && r.traces[replaceIndex] == t
            && (forall j :: 0 <= j < |b.traces| && j != replaceIndex ==> r.traces[j] == b.traces[j])
            && multiset(r.traces) == multiset(b.traces) - multiset{b.traces[replaceIndex]} + multiset{t}
  {
  }

  /** `length`: the number of stored traces, never above a positive capacity. */
  function Length(b: Buffer): (n: nat)
    ensures n == 0 <==> b.traces == []
    ensures WithinBounds(b) && b.maxSize > 0 ==> n <= b.maxSize
  {
    |b.traces|
  }

  /** `empty?`: true exactly when `length` is zero; on a consistent buffer an empty store
      also means no buffered spans and as many drops as acceptances. */
  function IsEmpty(b: Buffer): (e: bool)
    ensures e <==> Length(b) == 0
    ensures e && Consistent(b) ==> b.spans == 0 && b.accepted == b.dropped
  {
    b.traces == []
  }

  /** `pop`: hand out the stored traces and start a new interval. The store is always
      emptied (the swap happens before `measure_pop`); the counters are reset only when
      reporting returns normally. */
  function Pop(b: Buffer, reporting: Reporting): (r: (seq<Trace>, Buffer))
    ensures r.0 == b.traces
    ensures r.1.traces == [] && r.1.closed == b.closed && r.1.maxSize == b.maxSize
    ensures reporting == Reported ==>
              r.1.accepted == 0 && r.1.acceptedLengths == 0 && r.1.dropped == 0 && r.1.spans == 0
    ensures reporting == ReportRaised ==>
              r.1.accepted == b.accepted && r.1.acceptedLengths == b.acceptedLengths
              && r.1.dropped == b.dropped && r.1.spans == b.spans
  {
    var emptied := b.(traces := []);
    match reporting
    case Reported => (b.traces, emptied.(accepted := 0, acceptedLengths := 0, dropped := 0, spans := 0))
    case ReportRaised => (b.traces, emptied)
  }

  /** `close`: set the one-way flag; the store and counters are left alone. */
  function Close(b: Buffer): (r: Buffer)
    ensures r.closed
    ensures r.traces == b.traces && r.maxSize == b.maxSize
    ensures r.accepted == b.accepted && r.acceptedLengths == b.acceptedLengths
    ensures r.dropped == b.dropped && r.spans == b.spans
  {
    b.(closed := true)
  }

  // ---------------------------------------------------------------------------
  // Span totals

  lemma SpanTotalAppend(ts: seq<Trace>, t: Trace)
    ensures SpanTotal(ts + [t]) == SpanTotal(ts) + t.Length()
  {
    assert (ts + [t])[..|ts|] == ts;
  }

  /** Overwriting one trace changes the total by the difference of the two lengths. */
  lemma {:induction false} SpanTotalUpdate(ts: seq<Trace>, i: nat, t: Trace)
    requires i < |ts|
    ensures SpanTotal(ts[i := t]) == SpanTotal(ts) - ts[i].Length() + t.Length()
  {
    var n := |ts| - 1;
    if i == n {
      assert ts[i := t][..n] == ts[..n];
    } else {
      assert ts[i := t][..n] == ts[..n][i := t];
      SpanTotalUpdate(ts[..n], i, t);
    }
  }

  // ---------------------------------------------------------------------------
  // Invariants of single transitions

  /** A fresh buffer's counters agree with its (empty) store, whatever its capacity. */
  lemma NewIsConsistent(maxSize: int)
    ensures Consistent(New(maxSize))
  {
  }

  /** `push` keeps the counters in agreement with the store. */
  lemma PushPreservesConsistent(b: Buffer, t: Trace, replaceIndex: nat)
    requires Overflows(b) ==> replaceIndex < |b.traces|
    requires Consistent(b)
    ensures Consistent(Push(b, t, replaceIndex))
  {
    if !b.closed {
      if HasRoom(b) {
        SpanTotalAppend(b.traces, t);
      } else {
        SpanTotalUpdate(b.traces, replaceIndex, t);
      }
    }
  }

  /** `push` never breaks capacity, whatever the counters say. */
  lemma PushPreservesBounds(b: Buffer, t: Trace, replaceIndex: nat)
    requires Overflows(b) ==> replaceIndex < |b.traces|
    requires WithinBounds(b)
    ensures WithinBounds(Push(b, t, replaceIndex))
  {
  }

  /** Whatever the counters say, `push` moves the span counter exactly as much as the
      stored span total: how far the two are apart (nothing on a consistent buffer, the
      spans a raising report failed to reset otherwise) is left as it was. */
  lemma PushKeepsSpanDrift(b: Buffer, t: Trace, replaceIndex: nat)
    requires Overflows(b) ==> replaceIndex < |b.traces|
    ensures var r := Push(b, t, replaceIndex);
            r.spans - SpanTotal(r.traces) == b.spans - SpanTotal(b.traces)
  {
    if !b.closed {
      if HasRoom(b) {
        SpanTotalAppend(b.traces, t);
      } else {
        SpanTotalUpdate(b.traces, replaceIndex, t);
      }
    }
  }

  /** A successful `pop` leaves a consistent, empty buffer behind, from any state. */
  lemma PopReportedIsConsistent(b: Buffer)
    requires WithinBounds(b)
    ensures Consistent(Pop(b, Reported).1)
  {
  }

  /** When reporting raises inside `measure_pop`, the reset is skipped: a buffer that held
      spans is left empty while its span counter still counts them. */
  lemma PopRaisedBreaksConsistency(b: Buffer)
    requires Consistent(b) && SpanTotal(b.traces) > 0
    ensures !Consistent(Pop(b, ReportRaised).1)
    ensures Pop(b, ReportRaised).1.spans == SpanTotal(b.traces)
  {
  }

  /** `close` is idempotent. */
  lemma CloseIdempotent(b: Buffer)
    ensures Close(Close(b)) == Close(b)
  {
  }

  /** Two drains in a row: the second hands out nothing. */
  lemma PopTwice(b: Buffer, first: Reporting, second: Reporting)
    ensures Pop(Pop(b, first).1, second).0 == []
  {
  }

  // ---------------------------------------------------------------------------
  // Runs of operations

  /** One call on the buffer, as made by a producer thread or the exporter. */
  datatype Op =
    | PushOp(trace: Trace, replaceIndex: nat)
    | PopOp(reporting: Reporting)
    | CloseOp
    | LengthOp
    | EmptyOp

  /** The eviction index of a push is one `rand(len)` could return. */
  predicate Enabled(b: Buffer, op: Op)
  {
    op.PushOp? && Overflows(b) ==> op.replaceIndex < |b.traces|
  }

  function Step(b: Buffer, op: Op): (r: Buffer)
    requires Enabled(b, op)
  {
    match op
    case PushOp(t, i) => Push(b, t, i)
    case PopOp(rep) => Pop(b, rep).1
    case CloseOp => Close(b)
    case LengthOp => b
    case EmptyOp => b
  }

  /** Every step of `ops` from `b` is enabled. */
  predicate ValidRun(b: Buffer, ops: seq<Op>)
    decreases |ops|
  {
    |ops| == 0 || (Enabled(b, ops[0]) && ValidRun(Step(b, ops[0]), ops[1..]))
  }

  function Run(b: Buffer, ops: seq<Op>): (r: Buffer)
    requires ValidRun(b, ops)
    decreases |ops|
  {
    if |ops| == 0 then b else Run(Step(b, ops[0]), ops[1..])
  }

  /** No pop of the run had its reporting raise. */
  predicate ReportsSucceed(ops: seq<Op>)
  {
    forall i :: 0 <= i < |ops| ==> ops[i] != PopOp(ReportRaised)
  }

  /** Capacity and the paired span counters hold after any run from a state where they
      held, including runs whose reporting raises. */
  lemma {:induction false} RunPreservesBounds(b: Buffer, ops: seq<Op>)
    requires WithinBounds(b) && ValidRun(b, ops)
    ensures WithinBounds(Run(b, ops))
    ensures b.maxSize > 0 ==> |Run(b, ops).traces| <= b.maxSize
    decreases |ops|
  {
    if |ops| > 0 {
      match ops[0] {
        case PushOp(t, i) => PushPreservesBounds(b, t, i);
        case _ =>
      }
      RunPreservesBounds(Step(b, ops[0]), ops[1..]);
    }
  }

  /** While reporting succeeds, the counters agree with the store after any run. */
  lemma {:induction false} RunPreservesConsistent(b: Buffer, ops: seq<Op>)
    requires Consistent(b) && ValidRun(b, ops) && ReportsSucceed(ops)
    ensures Consistent(Run(b, ops))
    decreases |ops|
  {
    if |ops| > 0 {
      match ops[0] {
        case PushOp(t, i) => PushPreservesConsistent(b, t, i);
        case PopOp(rep) => assert rep == Reported;
        case _ =>
      }
      assert ReportsSucceed(ops[1..]) by {
        forall k | 0 <= k < |ops[1..]| ensures ops[1..][k] != PopOp(ReportRaised) {
          assert ops[1..][k] == ops[k + 1];
        }
      }
      RunPreservesConsistent(Step(b, ops[0]), ops[1..]);
    }
  }

  /** Every buffer the tracer can reach keeps its capacity. */
  lemma CapacityFromNew(maxSize: int, ops: seq<Op>)
    requires maxSize > 0 && ValidRun(New(maxSize), ops)
    ensures Length(Run(New(maxSize), ops)) <= maxSize
  {
    RunPreservesBounds(New(maxSize), ops);
  }

  /** Every buffer the tracer can reach without a failed report has counters that agree
      with its store: the span counter is the stored span total and the store holds the
      accepted traces minus the dropped ones. */
  lemma ConsistentFromNew(maxSize: int, ops: seq<Op>)
    requires ValidRun(New(maxSize), ops) && ReportsSucceed(ops)
    ensures Consistent(Run(New(maxSize), ops))
  {
    NewIsConsistent(maxSize);
    RunPreservesConsistent(New(maxSize), ops);
  }

  /** Once closed, a buffer stays closed and never grows. */
  lemma {:induction false} ClosedStaysClosed(b: Buffer, ops: seq<Op>)
    requires b.closed && ValidRun(b, ops)
    ensures Run(b, ops).closed
    ensures |Run(b, ops).traces| <= |b.traces|
    decreases |ops|
  {
    if |ops| > 0 {
      ClosedStaysClosed(Step(b, ops[0]), ops[1..]);
    }
  }

  /** The pushes of a sequence of traces, with eviction indices that never matter. */
  function Pushes(ts: seq<Trace>): (ops: seq<Op>)
    ensures |ops| == |ts|
  {
    if |ts| == 0 then [] else [PushOp(ts[0], 0)] + Pushes(ts[1..])
  }

  /** An open buffer with room for all of `ts` appends every one of them, in order:
      in particular an unbounded buffer keeps everything pushed into it. */
  lemma {:induction false} PushesWithRoomAppend(b: Buffer, ts: seq<Trace>)
    requires !b.closed && (b.maxSize <= 0 || |b.traces| + |ts| <= b.maxSize)
    ensures ValidRun(b, Pushes(ts))
    ensures Run(b, Pushes(ts)).traces == b.traces + ts
    decreases |ts|
  {
    if |ts| > 0 {
      var b' := Push(b, ts[0], 0);
      assert b'.traces == b.traces + [ts[0]];
      PushesWithRoomAppend(b', ts[1..]);
      RunPushesUnfold(b, ts);
      assert b.traces + [ts[0]] + ts[1..] == b.traces + ts;
    }
  }

  /** Running the pushes of `ts` is running the first one, then the others. */
  lemma RunPushesUnfold(b: Buffer, ts: seq<Trace>)
    requires |ts| > 0 && Enabled(b, PushOp(ts[0], 0))
    requires ValidRun(Push(b, ts[0], 0), Pushes(ts[1..]))
    ensures ValidRun(b, Pushes(ts))
    ensures Run(b, Pushes(ts)) == Run(Push(b, ts[0], 0), Pushes(ts[1..]))
  {
    assert Pushes(ts)[1..] == Pushes(ts[1..]);
  }

  /** With `max_size <= 0`, N pushes into a fresh buffer give `length == N`. */
  lemma UnboundedLength(maxSize: int, ts: seq<Trace>)
    requires maxSize <= 0
    ensures ValidRun(New(maxSize), Pushes(ts))
    ensures Length(Run(New(maxSize), Pushes(ts))) == |ts|
  {
    PushesWithRoomAppend(New(maxSize), ts);
  }

  /** Pushing at most `max_size` traces and draining returns exactly those traces and
      leaves the buffer empty with zeroed counters. */
  lemma ExactDrainUnderCapacity(maxSize: int, ts: seq<Trace>)
    requires 0 < maxSize && |ts| <= maxSize
    ensures ValidRun(New(maxSize), Pushes(ts))
    ensures Pop(Run(New(maxSize), Pushes(ts)), Reported).0 == ts
    ensures Length(Pop(Run(New(maxSize), Pushes(ts)), Reported).1) == 0
    ensures Consistent(Pop(Run(New(maxSize), Pushes(ts)), Reported).1)
  {
    PushesWithRoomAppend(New(maxSize), ts);
    RunPreservesBounds(New(maxSize), Pushes(ts));
  }

  /** With capacity 2, pushing A, B then C keeps C and exactly one of A and B, whichever
      slot the eviction picks. */
  lemma CapacityTwoExample(a: Trace, b: Trace, c: Trace, pick: nat)
    requires pick < 2
    ensures Length(Push(Push(New(2), a, 0), b, 0)) == 2
    ensures Push(Push(Push(New(2), a, 0), b, 0), c, pick).traces == (if pick == 0 then [c, b] else [a, c])
  {
    var b1 := Push(New(2), a, 0);
    assert b1.traces == [a];
    var full := Push(b1, b, 0);
    assert full.traces == [a, b] && Overflows(full);
    var after := Push(full, c, pick);
    assert after.traces == full.traces[pick := c];
  }

  /** With capacity 1: push A, pop returns [A] and empties the buffer; a second pop
      returns nothing. */
  lemma CapacityOneExample(a: Trace)
    ensures Pop(Push(New(1), a, 0), Reported).0 == [a]
    ensures Length(Pop(Push(New(1), a, 0), Reported).1) == 0
    ensures Pop(Pop(Push(New(1), a, 0), Reported).1, Reported).0 == []
  {
    var b1 := Push(New(1), a, 0);
    assert b1.traces == [a];
  }
}
