/** The bounded span queue of the OTLP exporter: requests end spans without ever blocking, one
    worker exports them, and closing drains what was accepted. */
module SpanQueue {
  import opened Text

  type Span = string

  /** Fields of the tracer and its three counters. `dropping` are calls of End that found the queue
      full and have not counted the drop yet. */
  datatype Tracer = Tracer(capacity: nat, queue: seq<Span>, closed: bool, hand: Option<Span>, done: bool,
                           dropping: nat, dropped: nat, exported: nat, failed: nat)

  /** What happened: spans ended with valid identifiers, spans the queue accepted in order, and
      spans the worker finished in order with the outcome of their export. */
  datatype History = History(ended: nat, accepted: seq<Span>, finished: seq<(Span, bool)>)

  datatype System = System(tracer: Tracer, history: History)

  function Initially(queueSize: int): System {
    System(Tracer(if queueSize <= 0 then 256 else queueSize, [], false, None, false, 0, 0, 0, 0), History(0, [], []))
  }

  datatype Action = End(span: Span, valid: bool) | CountDrop | Take | Finish(ok: bool) | Stop | Close

  /** When an action can happen; ending a span after closing would send on a closed channel. */
  predicate Enabled(s: System, a: Action) {
    match a
    case End(_, _) => !s.tracer.closed
    case CountDrop => s.tracer.dropping > 0
    case Take => s.tracer.hand == None && !s.tracer.done && s.tracer.queue != []
    case Finish(_) => s.tracer.hand.Some?
    case Stop => s.tracer.closed && s.tracer.queue == [] && s.tracer.hand == None && !s.tracer.done
    case Close => true
  }

  function Do(s: System, a: Action): System
    requires Enabled(s, a)
  {
    var t, h := s.tracer, s.history;
    match a
    case End(span, valid) =>
      if !valid then s
      else if |t.queue| < t.capacity then
        System(t.(queue := t.queue + [span]), h.(ended := h.ended + 1, accepted := h.accepted + [span]))
      else System(t.(dropping := t.dropping + 1), h.(ended := h.ended + 1))
    case CountDrop => s.(tracer := t.(dropping := t.dropping - 1, dropped := t.dropped + 1))
    case Take => s.(tracer := t.(hand := Some(t.queue[0]), queue := t.queue[1..]))
    case Finish(ok) =>
      System(if ok then t.(hand := None, exported := t.exported + 1) else t.(hand := None, failed := t.failed + 1),
             h.(finished := h.finished + [(t.hand.value, ok)]))
    case Stop => s.(tracer := t.(done := true))
    case Close => s.(tracer := t.(closed := true))
  }

  // ---------------------------------------------------------------- conservation

  function Spans(finished: seq<(Span, bool)>): seq<Span> {
    seq(|finished|, i requires 0 <= i < |finished| => finished[i].0)
  }

  function Successes(finished: seq<(Span, bool)>): nat {
    if finished == [] then 0 else Successes(finished[..|finished| - 1]) + (if finished[|finished| - 1].1 then 1 else 0)
  }

  function InHand(t: Tracer): seq<Span> {
    if t.hand.Some? then [t.hand.value] else []
  }

  /** First in, first out, with nothing lost: what was accepted is what was finished, then what the
      worker holds, then what is queued, in this order. */
  ghost predicate Conserved(s: System) {
    var t, h := s.tracer, s.history;
    h.accepted == Spans(h.finished) + InHand(t) + t.queue &&
    t.exported == Successes(h.finished) && t.exported + t.failed == |h.finished| &&
    h.ended == |h.accepted| + t.dropping + t.dropped &&
    |t.queue| <= t.capacity &&
    (t.done ==> t.closed && t.queue == [] && t.hand == None)
  }

  lemma SuccessesSnoc(finished: seq<(Span, bool)>, last: (Span, bool))
    ensures Successes(finished + [last]) == Successes(finished) + (if last.1 then 1 else 0)
    ensures Spans(finished + [last]) == Spans(finished) + [last.0]
  {
    assert (finished + [last])[..|finished|] == finished;
  }

  lemma StepConserves(s: System, a: Action)
    requires Conserved(s) && Enabled(s, a)
    ensures Conserved(Do(s, a)) && Do(s, a).tracer.capacity == s.tracer.capacity
  {
    match a {
      case End(span, valid) => EndConserves(s, span, valid);
      case Finish(ok) => FinishConserves(s, ok);
      case Take => TakeConserves(s);
      case _ =>
    }
  }

  lemma EndConserves(s: System, span: Span, valid: bool)
    requires Conserved(s) && Enabled(s, End(span, valid))
    ensures Conserved(Do(s, End(span, valid)))
  {
    Grouped(Spans(s.history.finished), InHand(s.tracer), s.tracer.queue, [span]);
  }

  lemma FinishConserves(s: System, ok: bool)
    requires Conserved(s) && Enabled(s, Finish(ok))
    ensures Conserved(Do(s, Finish(ok)))
  {
    SuccessesSnoc(s.history.finished, (s.tracer.hand.value, ok));
    var before := Spans(s.history.finished) + [s.tracer.hand.value];
    assert before + [] == before;
  }

  lemma TakeConserves(s: System)
    requires Conserved(s) && Enabled(s, Take)
    ensures Conserved(Do(s, Take))
  {
    var before, queue := Spans(s.history.finished), s.tracer.queue;
    assert before + [] == before;
    assert queue == [queue[0]] + queue[1..];
    Grouped(before, [], [queue[0]], queue[1..]);
  }

  lemma Grouped<T>(a: seq<T>, b: seq<T>, c: seq<T>, d: seq<T>)
    ensures a + b + (c + d) == a + b + c + d
  {}

  /** Any interleaving of calls of End, of the worker and of Close. */
  ghost predicate Runs(s: System, actions: seq<Action>, end: System)
    decreases |actions|
  {
    if actions == [] then s == end else Enabled(s, actions[0]) && Runs(Do(s, actions[0]), actions[1..], end)
  }

  lemma {:induction false} RunsThen(s: System, actions: seq<Action>, end: System, a: Action)
    requires Runs(s, actions, end) && Enabled(end, a)
    ensures Runs(s, actions + [a], Do(end, a))
    decreases |actions|
  {
    if actions == [] {
      assert [] + [a] == [a] && [a][1..] == [];
    } else {
      assert (actions + [a])[1..] == actions[1..] + [a];
      RunsThen(Do(s, actions[0]), actions[1..], end, a);
    }
  }

  /** Ending a span, and counting its drop when the queue is full. */
  lemma EndRuns(s: System, span: Span, valid: bool, full: bool)
    requires !s.tracer.closed && (full <==> valid && |s.tracer.queue| >= s.tracer.capacity)
    ensures var one := Do(s, End(span, valid));
            if full then Runs(s, [End(span, valid), CountDrop], Do(one, CountDrop))
            else Runs(s, [End(span, valid)], one)
  {
    var first := [End(span, valid)];
    assert first[1..] == [];
    assert Runs(s, first, Do(s, End(span, valid)));
    if full {
      RunsThen(s, first, Do(s, End(span, valid)), CountDrop);
      assert first + [CountDrop] == [End(span, valid), CountDrop];
    }
  }

  lemma {:induction false} RunConserves(s: System, actions: seq<Action>, end: System)
    requires Conserved(s) && Runs(s, actions, end)
    ensures Conserved(end) && end.tracer.capacity == s.tracer.capacity
    decreases |actions|
  {
    if actions != [] {
      StepConserves(s, actions[0]);
      RunConserves(Do(s, actions[0]), actions[1..], end);
    }
  }

  /** Conservation in every interleaving: each valid ended span is exported, failed, dropped, about
      to be counted as dropped, queued, or in the worker's hands; the queue is bounded; and the
      finished spans are the first accepted ones, in order. */
  lemma SpansAreConserved(queueSize: int, actions: seq<Action>, end: System)
    requires Runs(Initially(queueSize), actions, end)
    ensures var t, h := end.tracer, end.history;
            h.ended == t.exported + t.failed + t.dropped + t.dropping + |t.queue| + |InHand(t)| &&
            |t.queue| <= t.capacity == (if queueSize <= 0 then 256 else queueSize) &&
            Spans(h.finished) <= h.accepted &&
            (t.done ==> Spans(h.finished) == h.accepted && t.exported + t.failed == |h.accepted|)
  {
    RunConserves(Initially(queueSize), actions, end);
  }

  // ---------------------------------------------------------------- the object

  class SpanExporter {
    var state: Tracer
    ghost var history: History

    ghost predicate Valid()
      reads this
    {
      Conserved(System(state, history))
    }

    constructor (queueSize: int)
      ensures System(state, history) == Initially(queueSize) && Valid()
      ensures state == Tracer(if queueSize <= 0 then 256 else queueSize, [], false, None, false, 0, 0, 0, 0)
    {
      state := Initially(queueSize).tracer;
      history := History(0, [], []);
    }

    /** The steps of a call of End. */
    static function EndActions(span: Span, traceId: string, spanId: string, t: Tracer): seq<Action> {
      var valid := traceId != "" && spanId != "";
      if valid && |t.queue| >= t.capacity then [End(span, valid), CountDrop] else [End(span, valid)]
    }

    /** The non-blocking send, with the drop counted when the queue is full. */
    method EndSpan(span: Span, traceId: string, spanId: string)
      requires Valid() && !state.closed
      modifies this
      ensures Valid() && !state.closed && state.hand == old(state.hand)
      ensures traceId == "" || spanId == "" ==> state == old(state) && history == old(history)
      ensures traceId != "" && spanId != "" && |old(state.queue)| < state.capacity ==>
                state.queue == old(state.queue) + [span] && history.accepted == old(history.accepted) + [span] &&
                state.dropped == old(state.dropped)
      ensures traceId != "" && spanId != "" && |old(state.queue)| >= state.capacity ==>
                state.queue == old(state.queue) && history.accepted == old(history.accepted) &&
                state.dropped == old(state.dropped) + 1
      ensures Runs(old(System(state, history)), EndActions(span, traceId, spanId, old(state)), System(state, history))
    {
      ghost var valid := traceId != "" && spanId != "";
      EndRuns(System(state, history), span, valid, valid && |state.queue| >= state.capacity);
      if traceId == "" || spanId == "" {
        return;
      }
      if |state.queue| < state.capacity {
        state := state.(queue := state.queue + [span]);
        history := history.(ended := history.ended + 1, accepted := history.accepted + [span]);
      } else {
        state := state.(dropped := state.dropped + 1);
        history := history.(ended := history.ended + 1);
      }
    }

    /** Closing, and the worker's loop over what is left: it ends, with nothing queued, every
        accepted span finished and counted as exported or failed. */
    method CloseAndDrain()
      requires Valid() && !state.done
      modifies this
      ensures Valid() && state.done && state.queue == []
      ensures history.accepted == old(history.accepted) && Spans(history.finished) == history.accepted
      ensures state.exported + state.failed == |history.accepted|
      ensures old(history.finished) <= history.finished
      ensures exists actions :: Runs(old(System(state, history)), actions, System(state, history))
    {
      ghost var start, actions := System(state, history), [Close];
      state := state.(closed := true);
      assert Runs(start, actions, System(state, history));
      if state.hand.Some? {
        ghost var before := System(state, history);
        var ok := FinishOne();
        RunsThen(start, actions, before, Finish(ok));
        actions := actions + [Finish(ok)];
      }
      while state.queue != []
        invariant Valid() && state.closed && !state.done && state.hand == None
        invariant history.accepted == old(history.accepted) && old(history.finished) <= history.finished
        invariant Runs(start, actions, System(state, history))
        decreases |state.queue|
      {
        StepConserves(System(state, history), Take);
        RunsThen(start, actions, System(state, history), Take);
        state := state.(hand := Some(state.queue[0]), queue := state.queue[1..]);
        ghost var before := System(state, history);
        var ok := FinishOne();
        RunsThen(start, actions + [Take], before, Finish(ok));
        actions := actions + [Take] + [Finish(ok)];
      }
      RunsThen(start, actions, System(state, history), Stop);
      state := state.(done := true);
    }

    /** One export: it succeeds or it fails, and the matching counter goes up. */
    method FinishOne() returns (ok: bool)
      requires Valid() && state.hand.Some?
      modifies this
      ensures Valid() && state.hand == None && state.queue == old(state.queue)
      ensures state.closed == old(state.closed) && state.done == old(state.done)
      ensures history.accepted == old(history.accepted)
      ensures history.finished == old(history.finished) + [(old(state.hand.value), ok)]
      ensures System(state, history) == Do(old(System(state, history)), Finish(ok))
    {
      ok := *;
      StepConserves(System(state, history), Finish(ok));
      history := history.(finished := history.finished + [(state.hand.value, ok)]);
      state := if ok
               then state.(hand := None, exported := state.exported + 1)
               else state.(hand := None, failed := state.failed + 1);
    }
  }
}
