/**
 * Linearizability of the interleaved account. The log of linearization points, replayed on
 * the sequential account of AccountSpec, gives every verdict that the calls returned and the
 * state that the atomics hold; each point lies inside its call.
 */
module AccountLinearization {
  import opened Wrappers
  import opened AccountSpec
  import opened ConcurrentAccount
  import opened AccountSafety

  // ----- the sequential run behind the log -----

  function VerdictOf(r: Result<int, AccountError>): Verdict {
    match r
    case Success(_) => Accepted
    case Failure(e) => Refused(e)
  }

  function Replay(f: Funds, log: seq<LogEntry>): Funds {
    if log == [] then f else Apply(Replay(f, log[..|log| - 1]), log[|log| - 1].op).0
  }

  /** Every logged verdict is the sequential account's own. */
  predicate Legal(f: Funds, log: seq<LogEntry>) {
    log == [] ||
    (Legal(f, log[..|log| - 1]) &&
     VerdictOf(Apply(Replay(f, log[..|log| - 1]), log[|log| - 1].op).1) == log[|log| - 1].verdict)
  }

  /** The sequential account a state stands for: calls between their two writes are counted
      as finished. The status is tested before a call's first load and plays no part. */
  function Abstract(s: State): Funds {
    Funds(s.available + s.history.held, s.available, Open)
  }

  ghost predicate Explained(s: State, initial: int) {
    && Legal(Funds(initial, initial, Open), s.history.log)
    && Replay(Funds(initial, initial, Open), s.history.log) == Abstract(s)
  }

  /** The step is invisible, or it is the linearization point of its call. */
  ghost predicate Simulates(s: State, s': State, th: Thread)
    requires th.Busy?
  {
    || (s'.history.log == s.history.log && Abstract(s') == Abstract(s))
    || (var result := Apply(Abstract(s), th.op);
        && s'.history.log == s.history.log + [LogEntry(th.id, th.op, VerdictOf(result.1), s.history.time)]
        && Abstract(s') == result.0)
  }

  lemma AdvanceSimulates(s: State, t: nat)
    requires t < |s.threads| && s.threads[t].Busy? && WellFormed(s.threads[t])
    requires I64_MIN <= s.available && 0 <= Claim(s.threads[t]) <= s.history.held
    requires s.available + s.history.held + BetweenWrites(s.threads[t]) <= s.balance <= I64_MAX
    ensures Simulates(s, Advance(s, t), s.threads[t])
  {
    match s.threads[t].at
    case CasAvailable(_, _) =>
      if s.threads[t].op.DebitOp? {
        assert IsI64(s.available + s.history.held - s.threads[t].op.amount) || s.available != s.threads[t].at.seen;
      }
    case _ =>
  }

  lemma ExtendReplay(f: Funds, log: seq<LogEntry>, entry: LogEntry)
    ensures Replay(f, log + [entry]) == Apply(Replay(f, log), entry.op).0
    ensures Legal(f, log + [entry]) <==> Legal(f, log) && VerdictOf(Apply(Replay(f, log), entry.op).1) == entry.verdict
  {
    assert (log + [entry])[..|log|] == log;
  }

  lemma SimulationKeepsExplained(s: State, s': State, th: Thread, initial: int)
    requires th.Busy? && Simulates(s, s', th) && Explained(s, initial)
    ensures Explained(s', initial)
  {
    var verdict := VerdictOf(Apply(Abstract(s), th.op).1);
    ExtendReplay(Funds(initial, initial, Open), s.history.log, LogEntry(th.id, th.op, verdict, s.history.time));
  }

  lemma ExecuteKeepsExplained(s: State, e: Event, initial: int)
    requires IsI64(initial) && Covered(s, initial) && Claimed(s) && Explained(s, initial)
    ensures Explained(Execute(s, e), initial)
  {
    if e.Step? && e.thread < |s.threads| && s.threads[e.thread].Busy? {
      MeasuresNonNegative(s);
      AdvanceSimulates(CountStep(Tick(s)), e.thread);
      SimulationKeepsExplained(CountStep(Tick(s)), Execute(s, e), s.threads[e.thread], initial);
    }
  }

  // ----- calls, threads and the log -----

  /** The outcomes that the sequential account explains; the others are a bad amount, a status
      that was not open, a first-write overflow, and a refused release. */
  predicate Explainable(r: Result<int, AccountError>) {
    r.Success? || r.error.InsufficientFunds?
  }

  ghost predicate LogOk(h: History) {
    && (forall k :: 0 <= k < |h.log| ==> h.log[k].id < h.started && h.log[k].time <= h.time)
    && (forall j, k :: 0 <= j < k < |h.log| ==> h.log[j].time < h.log[k].time && h.log[j].id != h.log[k].id)
  }

  ghost predicate Unlogged(id: nat, log: seq<LogEntry>) {
    forall k :: 0 <= k < |log| ==> log[k].id != id
  }

  ghost predicate ThreadOk(th: Thread, h: History) {
    th.Busy? ==>
      && th.id < h.started && th.invoked <= h.time
      && if th.at.SubBalance? then
           && th.at.lin < |h.log|
           && h.log[th.at.lin].id == th.id && h.log[th.at.lin].op == th.op
           && h.log[th.at.lin].verdict == Accepted && th.invoked < h.log[th.at.lin].time
         else Unlogged(th.id, h.log)
  }

  /** A finished call with an explainable outcome has its linearization point between its
      invocation and its return; any other finished call left no trace. */
  ghost predicate CallOk(c: Call, h: History) {
    && c.id < h.started && c.invoked <= c.returned <= h.time
    && (c.lin.Some? <==> Explainable(c.result))
    && match c.lin
       case None => Unlogged(c.id, h.log)
       case Some(k) =>
         && k < |h.log|
         && h.log[k].id == c.id && h.log[k].op == c.op && h.log[k].verdict == VerdictOf(c.result)
         && c.invoked < h.log[k].time <= c.returned
  }

  ghost predicate DistinctIds(threads: seq<Thread>, calls: seq<Call>) {
    && (forall t, u :: 0 <= t < u < |threads| && threads[t].Busy? && threads[u].Busy? ==> threads[t].id != threads[u].id)
    && (forall i, j :: 0 <= i < j < |calls| ==> calls[i].id != calls[j].id)
    && (forall t, i :: 0 <= t < |threads| && 0 <= i < |calls| && threads[t].Busy? ==> threads[t].id != calls[i].id)
  }

  /** No phantom effects: a logged operation belongs to a finished call, or to a debit that
      has yet to write the balance. */
  ghost predicate Owned(k: nat, threads: seq<Thread>, calls: seq<Call>) {
    || (exists i :: 0 <= i < |calls| && calls[i].lin == Some(k))
    || (exists t :: 0 <= t < |threads| && threads[t].Busy? && threads[t].at == SubBalance(k))
  }

  ghost predicate Recorded(threads: seq<Thread>, h: History) {
    && LogOk(h)
    && (forall t :: 0 <= t < |threads| ==> ThreadOk(threads[t], h))
    && (forall i :: 0 <= i < |h.calls| ==> CallOk(h.calls[i], h))
    && DistinctIds(threads, h.calls)
    && (forall k :: 0 <= k < |h.log| ==> Owned(k, threads, h.calls))
  }

  lemma TickKeepsRecorded(s: State)
    requires Recorded(s.threads, s.history)
    ensures Recorded(Tick(s).threads, Tick(s).history)
  {
    var h := Tick(s).history;
    forall t | 0 <= t < |s.threads| ensures ThreadOk(s.threads[t], h) {
      assert ThreadOk(s.threads[t], s.history);
    }
    forall i | 0 <= i < |h.calls| ensures CallOk(h.calls[i], h) {
      assert CallOk(s.history.calls[i], s.history);
    }
  }

  /** Moving a call on before its linearization point. */
  lemma MoveKeepsRecorded(threads: seq<Thread>, h: History, t: nat, th: Thread)
    requires Recorded(threads, h) && t < |threads| && threads[t].Busy? && !threads[t].at.SubBalance?
    requires th.Busy? && !th.at.SubBalance?
    requires th.id == threads[t].id && th.invoked == threads[t].invoked
    ensures Recorded(threads[t := th], h)
  {
    var threads' := threads[t := th];
    assert ThreadOk(threads[t], h);
    forall k | 0 <= k < |h.log| ensures Owned(k, threads', h.calls) {
      assert Owned(k, threads, h.calls);
      if u :| 0 <= u < |threads| && threads[u].Busy? && threads[u].at == SubBalance(k) {
        assert threads'[u] == threads[u];
      }
    }
  }

  lemma ReturnKeepsRecorded(threads: seq<Thread>, h: History, t: nat, c: Call)
    requires Recorded(threads, h) && t < |threads| && threads[t].Busy?
    requires c.id == threads[t].id && CallOk(c, h)
    requires threads[t].at.SubBalance? ==> c.lin == Some(threads[t].at.lin)
    ensures Recorded(threads[t := Idle], h.(calls := h.calls + [c]))
  {
    var threads', h' := threads[t := Idle], h.(calls := h.calls + [c]);
    forall u | 0 <= u < |threads'| ensures ThreadOk(threads'[u], h') {
      assert ThreadOk(threads[u], h);
    }
    forall i | 0 <= i < |h'.calls| ensures CallOk(h'.calls[i], h') {
      if i < |h.calls| {
        assert CallOk(h.calls[i], h);
      } else {
        assert CallOk(c, h);
      }
    }
    forall k | 0 <= k < |h.log| ensures Owned(k, threads', h'.calls) {
      assert Owned(k, threads, h.calls);
      if i :| 0 <= i < |h.calls| && h.calls[i].lin == Some(k) {
        assert h'.calls[i].lin == Some(k);
      } else {
        var u :| 0 <= u < |threads| && threads[u].Busy? && threads[u].at == SubBalance(k);
        if u == t {
          assert h'.calls[|h.calls|].lin == Some(k);
        } else {
          assert threads'[u] == threads[u];
        }
      }
    }
  }

  /** The linearization point of a call that is about to return. */
  lemma LinearizeAndReturnKeepsRecorded(threads: seq<Thread>, h: History, t: nat, e: LogEntry, c: Call)
    requires Recorded(threads, h) && t < |threads| && threads[t].Busy? && !threads[t].at.SubBalance?
    requires forall k :: 0 <= k < |h.log| ==> h.log[k].time < h.time
    requires e.id == threads[t].id && e.time == h.time && threads[t].invoked < h.time
    requires c.id == threads[t].id && c.op == e.op && c.invoked == threads[t].invoked && c.returned == h.time
    requires c.lin == Some(|h.log|) && Explainable(c.result) && VerdictOf(c.result) == e.verdict
    ensures Recorded(threads[t := Idle], h.(log := h.log + [e], calls := h.calls + [c]))
  {
    assert ThreadOk(threads[t], h);
    var threads', h' := threads[t := Idle], h.(log := h.log + [e], calls := h.calls + [c]);
    ExtendKeepsOthers(threads, h, t, e);
    assert CallOk(c, h');
    forall i | 0 <= i < |h'.calls| ensures CallOk(h'.calls[i], h') {
      if i < |h.calls| {
        assert CallOk(h.calls[i], h.(log := h.log + [e]));
      }
    }
    forall u | 0 <= u < |threads'| ensures ThreadOk(threads'[u], h') {
      if u != t {
        assert ThreadOk(threads[u], h.(log := h.log + [e]));
      }
    }
    forall k | 0 <= k < |h'.log| ensures Owned(k, threads', h'.calls) {
      if k == |h.log| {
        assert h'.calls[|h.calls|].lin == Some(k);
      } else {
        assert Owned(k, threads, h.calls);
        if i :| 0 <= i < |h.calls| && h.calls[i].lin == Some(k) {
          assert h'.calls[i].lin == Some(k);
        } else {
          var u :| 0 <= u < |threads| && threads[u].Busy? && threads[u].at == SubBalance(k);
          assert threads'[u] == threads[u];
        }
      }
    }
  }

  /** The linearization point of a debit that has yet to write the balance. */
  lemma LinearizeDebitKeepsRecorded(threads: seq<Thread>, h: History, t: nat, e: LogEntry)
    requires Recorded(threads, h) && t < |threads| && threads[t].Busy? && !threads[t].at.SubBalance?
    requires forall k :: 0 <= k < |h.log| ==> h.log[k].time < h.time
    requires e == LogEntry(threads[t].id, threads[t].op, Accepted, h.time) && threads[t].invoked < h.time
    ensures Recorded(threads[t := threads[t].(at := SubBalance(|h.log|))], h.(log := h.log + [e]))
  {
    assert ThreadOk(threads[t], h);
    var threads', h' := threads[t := threads[t].(at := SubBalance(|h.log|))], h.(log := h.log + [e]);
    ExtendKeepsOthers(threads, h, t, e);
    forall k | 0 <= k < |h'.log| ensures Owned(k, threads', h'.calls) {
      if k == |h.log| {
        assert threads'[t].at == SubBalance(k);
      } else {
        assert Owned(k, threads, h.calls);
        if u :| 0 <= u < |threads| && threads[u].Busy? && threads[u].at == SubBalance(k) {
          assert threads'[u] == threads[u];
        }
      }
    }
  }

  lemma ExtendKeepsOthers(threads: seq<Thread>, h: History, t: nat, e: LogEntry)
    requires Recorded(threads, h) && t < |threads| && threads[t].Busy? && !threads[t].at.SubBalance?
    requires e.id == threads[t].id
    ensures forall u :: 0 <= u < |threads| && u != t ==> ThreadOk(threads[u], h.(log := h.log + [e]))
    ensures forall i :: 0 <= i < |h.calls| ==> CallOk(h.calls[i], h.(log := h.log + [e]))
  {
    var h' := h.(log := h.log + [e]);
    forall u | 0 <= u < |threads| && u != t ensures ThreadOk(threads[u], h') {
      assert ThreadOk(threads[u], h);
    }
    forall i | 0 <= i < |h.calls| ensures CallOk(h.calls[i], h') {
      assert CallOk(h.calls[i], h);
    }
  }

  lemma StartKeepsRecorded(threads: seq<Thread>, h: History, t: nat, op: Operation)
    requires Recorded(threads, h) && t < |threads| && threads[t].Idle?
    ensures Recorded(threads[t := Busy(h.started, op, CheckCall, h.time, 0, 0)], h.(started := h.started + 1))
  {
    var threads', h' := threads[t := Busy(h.started, op, CheckCall, h.time, 0, 0)], h.(started := h.started + 1);
    forall u | 0 <= u < |threads'| ensures ThreadOk(threads'[u], h') {
      assert ThreadOk(threads[u], h);
    }
    forall i | 0 <= i < |h.calls| ensures CallOk(h.calls[i], h') {
      assert CallOk(h.calls[i], h);
    }
    forall k | 0 <= k < |h.log| ensures Owned(k, threads', h.calls) {
      assert Owned(k, threads, h.calls);
      if u :| 0 <= u < |threads| && threads[u].Busy? && threads[u].at == SubBalance(k) {
        assert threads'[u] == threads[u];
      }
    }
  }

  /** Recorded reads only these fields of the history. */
  lemma SameRecords(threads: seq<Thread>, h: History, h': History)
    requires Recorded(threads, h)
    requires h'.time == h.time && h'.log == h.log && h'.calls == h.calls && h'.started == h.started
    ensures Recorded(threads, h')
  {
    forall t | 0 <= t < |threads| ensures ThreadOk(threads[t], h') {
      assert ThreadOk(threads[t], h);
    }
    forall i | 0 <= i < |h.calls| ensures CallOk(h'.calls[i], h') {
      assert CallOk(h.calls[i], h);
    }
  }

  /** The four shapes of a step, as far as the record is concerned. */
  lemma AdvanceShapes(s: State, t: nat)
    requires t < |s.threads| && s.threads[t].Busy? && WellFormed(s.threads[t])
    ensures
      var s', th, h := Advance(s, t), s.threads[t], s.history;
      var log', calls' := s'.history.log, s'.history.calls;
      && s'.history.time == h.time && s'.history.started == h.started
      && (|| (log' == h.log && calls' == h.calls && !th.at.SubBalance? && s'.threads[t].Busy?
              && !s'.threads[t].at.SubBalance? && s'.threads[t].id == th.id && s'.threads[t].invoked == th.invoked)
          || (s'.threads[t].Idle? && log' == h.log && |calls'| == |h.calls| + 1 && calls'[..|h.calls|] == h.calls
              && Returns(th, h, calls'[|h.calls|])
              && (if th.at.SubBalance? then calls'[|h.calls|].lin == Some(th.at.lin) && calls'[|h.calls|].result.Success?
                  else calls'[|h.calls|].lin.None? && !Explainable(calls'[|h.calls|].result)))
          || (s'.threads[t].Idle? && !th.at.SubBalance? && |calls'| == |h.calls| + 1 && calls'[..|h.calls|] == h.calls
              && Returns(th, h, calls'[|h.calls|])
              && log' == h.log + [LogEntry(th.id, th.op, VerdictOf(calls'[|h.calls|].result), h.time)]
              && calls'[|h.calls|].lin == Some(|h.log|) && Explainable(calls'[|h.calls|].result))
          || (!th.at.SubBalance? && calls' == h.calls && s'.threads[t] == th.(at := SubBalance(|h.log|))
              && log' == h.log + [LogEntry(th.id, th.op, Accepted, h.time)]))
  {
  }

  predicate Returns(th: Thread, h: History, c: Call)
    requires th.Busy?
  {
    c.id == th.id && c.op == th.op && c.invoked == th.invoked && c.returned == h.time
  }

  lemma AdvanceKeepsRecorded(s: State, t: nat)
    requires Recorded(s.threads, s.history)
    requires forall k :: 0 <= k < |s.history.log| ==> s.history.log[k].time < s.history.time
    requires t < |s.threads| && s.threads[t].Busy? && WellFormed(s.threads[t]) && s.threads[t].invoked < s.history.time
    ensures Recorded(Advance(s, t).threads, Advance(s, t).history)
  {
    var s', th, h := Advance(s, t), s.threads[t], s.history;
    AdvanceFrame(s, t);
    AdvanceShapes(s, t);
    assert ThreadOk(th, h);
    var log', calls' := s'.history.log, s'.history.calls;
    if calls' == h.calls && log' == h.log {
      MoveKeepsRecorded(s.threads, h, t, s'.threads[t]);
      SameRecords(s'.threads, h, s'.history);
    } else if calls' == h.calls {
      LinearizeDebitKeepsRecorded(s.threads, h, t, log'[|h.log|]);
      SameRecords(s'.threads, h.(log := log'), s'.history);
    } else {
      var c := calls'[|h.calls|];
      assert calls' == h.calls + [c];
      if log' == h.log {
        assert CallOk(c, h);
        ReturnKeepsRecorded(s.threads, h, t, c);
        SameRecords(s'.threads, h.(calls := calls'), s'.history);
      } else {
        LinearizeAndReturnKeepsRecorded(s.threads, h, t, log'[|h.log|], c);
        SameRecords(s'.threads, h.(log := log', calls := calls'), s'.history);
      }
    }
  }

  lemma ExecuteKeepsRecorded(s: State, e: Event)
    requires Recorded(s.threads, s.history)
    requires forall t :: 0 <= t < |s.threads| ==> WellFormed(s.threads[t])
    ensures Recorded(Execute(s, e).threads, Execute(s, e).history)
  {
    TickKeepsRecorded(s);
    match e
    case ChangeStatus(_) =>
    case Invoke(t, op) =>
      if t < |s.threads| && s.threads[t].Idle? {
        StartKeepsRecorded(s.threads, Tick(s).history, t, op);
      }
    case Step(t) =>
      if t < |s.threads| && s.threads[t].Busy? {
        StepKeepsRecorded(s, t);
      }
  }

  lemma StepKeepsRecorded(s: State, t: nat)
    requires Recorded(s.threads, s.history) && t < |s.threads| && s.threads[t].Busy? && WellFormed(s.threads[t])
    ensures Recorded(Execute(s, Step(t)).threads, Execute(s, Step(t)).history)
  {
    TickKeepsRecorded(s);
    SameRecords(s.threads, Tick(s).history, CountStep(Tick(s)).history);
    assert ThreadOk(s.threads[t], s.history);
    AdvanceKeepsRecorded(CountStep(Tick(s)), t);
  }

  // ----- main results -----

  ghost predicate Linearized(s: State, initial: int) {
    Explained(s, initial) && Recorded(s.threads, s.history)
  }

  /** Every disciplined run, of any length and over any number of threads, is linearizable;
      since every prefix of a disciplined run is one, so is every state on the way. */
  lemma {:induction false} DisciplinedRunIsLinearized(initial: int, threads: nat, events: seq<Event>)
    requires IsI64(initial) && Disciplined(Initial(initial, threads), events)
    ensures Linearized(Run(Initial(initial, threads), events), initial)
  {
    var s0 := Initial(initial, threads);
    if events != [] {
      var prefix, e := events[..|events| - 1], events[|events| - 1];
      DisciplinedRunIsLinearized(initial, threads, prefix);
      DisciplinedRunIsCovered(initial, threads, prefix);
      ExecuteKeepsExplained(Run(s0, prefix), e, initial);
      ExecuteKeepsRecorded(Run(s0, prefix), e);
    }
  }

  /** Log order respects real time: a call that returned before another was invoked took
      effect before it. */
  lemma RealTimeOrder(s: State, i: nat, j: nat)
    requires Recorded(s.threads, s.history)
    requires i < |s.history.calls| && j < |s.history.calls|
    requires s.history.calls[i].returned <= s.history.calls[j].invoked
    requires s.history.calls[i].lin.Some? && s.history.calls[j].lin.Some?
    ensures s.history.calls[i].lin.value < s.history.calls[j].lin.value
  {
    assert CallOk(s.history.calls[i], s.history) && CallOk(s.history.calls[j], s.history);
  }

  /** Accepted credits minus accepted debits, and accepted holds minus accepted releases. */
  function Net(log: seq<LogEntry>): int {
    if log == [] then 0 else
      var e := log[|log| - 1];
      var change :=
        if e.verdict.Refused? then 0 else match e.op case CreditOp(a) => a case DebitOp(a) => -a case _ => 0;
      Net(log[..|log| - 1]) + change
  }

  function NetHeld(log: seq<LogEntry>): int {
    if log == [] then 0 else
      var e := log[|log| - 1];
      var change :=
        if e.verdict.Refused? then 0 else match e.op case HoldOp(a) => a case ReleaseOp(a) => -a case _ => 0;
      NetHeld(log[..|log| - 1]) + change
  }

  lemma {:induction false} ReplaySums(f: Funds, log: seq<LogEntry>)
    requires Sound(f) && Legal(f, log)
    ensures Sound(Replay(f, log))
    ensures Replay(f, log).balance == f.balance + Net(log)
    ensures Replay(f, log).available == f.available + Net(log) - NetHeld(log)
  {
    if log != [] {
      ReplaySums(f, log[..|log| - 1]);
      ApplyOutcome(Replay(f, log[..|log| - 1]), log[|log| - 1].op);
    }
  }

  /** When no call is running, both atomics hold exactly what the accepted operations say. */
  lemma QuiescentTotals(initial: int, threads: nat, events: seq<Event>)
    requires IsI64(initial) && Disciplined(Initial(initial, threads), events)
    ensures
      var s := Run(Initial(initial, threads), events);
      (forall t :: 0 <= t < |s.threads| ==> s.threads[t].Idle?) ==>
        && s.balance == initial + Net(s.history.log)
        && s.available == s.balance - NetHeld(s.history.log)
  {
    var s := Run(Initial(initial, threads), events);
    DisciplinedRunIsLinearized(initial, threads, events);
    DisciplinedRunIsCovered(initial, threads, events);
    ReplaySums(Funds(initial, initial, Open), s.history.log);
    if forall t :: 0 <= t < |s.threads| ==> s.threads[t].Idle? {
      IdleSums(s);
    }
  }
}
