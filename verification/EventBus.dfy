/**
 * The choreography event bus (`EventBus` of src/service/advanced.rs). A handler is removed
 * before it runs and, despite the comment in the source, never put back; that is what makes
 * the recursion of `publish` end.
 */
module EventBusSpec {
  import opened Wrappers
  import opened Sums

  type EventType = string

  datatype Subscriber = Subscriber(service: string, handler: string -> Result<string, string>)
  datatype BusEvent = BusEvent(eventType: EventType, payload: string, producedBy: string)

  /** `ran` lists the handlers run so far with the type they were subscribed to. */
  datatype Bus = Bus(subscribers: map<EventType, seq<Subscriber>>, history: seq<BusEvent>, ran: seq<(EventType, Subscriber)>)

  const SUCCESS: string := "_SUCCESS"
  const FAILED: string := "_FAILED"

  function FailPayload(error: string, payload: string): string {
    "{\"error\":\"" + error + "\",\"original\":" + payload + "}"
  }

  /** The type and payload of the event that a handler's result becomes. */
  function Reply(t: EventType, payload: string, result: Result<string, string>): (EventType, string) {
    match result
    case Success(out) => (t + SUCCESS, out)
    case Failure(error) => (t + FAILED, FailPayload(error, payload))
  }

  function Subscribe(b: Bus, t: EventType, s: Subscriber): Bus {
    b.(subscribers := b.subscribers[t := Handlers(b, t) + [s]])
  }

  function Handlers(b: Bus, t: EventType): seq<Subscriber> {
    if t in b.subscribers then b.subscribers[t] else []
  }

  ghost function Counts(b: Bus): map<EventType, int> {
    map t | t in b.subscribers :: |b.subscribers[t]|
  }

  /** Subscribed handlers that have not run. */
  ghost function Remaining(b: Bus): (n: nat) {
    MapSumNonNegative(Counts(b));
    MapSum(Counts(b))
  }

  /** Takes the first handler of a type off the bus. */
  function Take(b: Bus, t: EventType): (b': Bus)
    requires Handlers(b, t) != []
    ensures Remaining(b') == Remaining(b) - 1
  {
    var hs := b.subscribers[t];
    var b' := b.(subscribers := b.subscribers[t := hs[1..]], ran := b.ran + [(t, hs[0])]);
    assert Remaining(b') == Remaining(b) - 1 by {
      assert Counts(b') == Counts(b)[t := |hs| - 1];
      MapSumInsert(Counts(b), t, |hs| - 1);
    }
    b'
  }

  function Publish(b: Bus, t: EventType, payload: string, source: string): (r: Bus)
    ensures Remaining(r) <= Remaining(b)
    decreases Remaining(b), 1, 0
  {
    var b' := b.(history := b.history + [BusEvent(t, payload, source)]);
    assert Counts(b') == Counts(b);
    Drain(b', t, payload, |Handlers(b, t)|)
  }

  /** Up to n turns of the handler loop, each of which publishes the handler's own event. */
  function Drain(b: Bus, t: EventType, payload: string, n: nat): (r: Bus)
    ensures Remaining(r) <= Remaining(b)
    decreases Remaining(b), 0, n
  {
    if n == 0 || Handlers(b, t) == [] then b else Drain(Turn(b, t, payload), t, payload, n - 1)
  }

  /** One turn of the loop: the first handler is removed and run, and its reply published. */
  function Turn(b: Bus, t: EventType, payload: string): (r: Bus)
    requires Handlers(b, t) != []
    ensures Remaining(r) < Remaining(b)
    decreases Remaining(b), 0, 0
  {
    var s := Handlers(b, t)[0];
    var (replyType, reply) := Reply(t, payload, s.handler(payload));
    Publish(Take(b, t), replyType, reply, s.service)
  }

  lemma DrainTurn(b: Bus, t: EventType, payload: string, n: nat)
    requires n > 0 && Handlers(b, t) != []
    ensures Drain(b, t, payload, n) == Drain(Turn(b, t, payload), t, payload, n - 1)
  {
  }

  lemma DrainDone(b: Bus, t: EventType, payload: string, n: nat)
    requires n == 0 || Handlers(b, t) == []
    ensures Drain(b, t, payload, n) == b
  {
  }

  /** The handlers of one type among those run, in order. */
  function RanFor(ran: seq<(EventType, Subscriber)>, t: EventType): seq<Subscriber> {
    if ran == [] then [] else
      RanFor(ran[..|ran| - 1], t) + (if ran[|ran| - 1].0 == t then [ran[|ran| - 1].1] else [])
  }

  // ----- effects -----

  predicate Extends(t: EventType, x: EventType) {
    t <= x
  }

  lemma ReplyExtends(t: EventType, payload: string, result: Result<string, string>)
    ensures forall x :: Extends(Reply(t, payload, result).0, x) ==> Extends(t, x) && x != t
  {
    var replyType := Reply(t, payload, result).0;
    assert |replyType| > |t| && replyType[..|t|] == t;
    forall x | Extends(replyType, x) ensures Extends(t, x) && x != t {
      assert x[..|replyType|] == replyType;
      assert x[..|t|] == x[..|replyType|][..|t|];
    }
  }

  /** Only types that extend t are touched; every type's handlers run from the front, in the
      order of their subscription, and each at most once; and `extra` events are recorded beyond
      one per handler run. */
  ghost predicate Effect(b: Bus, r: Bus, t: EventType, extra: nat) {
    && r.subscribers.Keys == b.subscribers.Keys
    && (forall x :: !Extends(t, x) ==> Handlers(r, x) == Handlers(b, x))
    && (forall x :: RanFor(r.ran, x) + Handlers(r, x) == RanFor(b.ran, x) + Handlers(b, x))
    && b.history <= r.history
    && |r.history| + Remaining(r) == |b.history| + Remaining(b) + extra
  }

  /** Types other than t keep all their handlers or have run them all. */
  ghost predicate AllOrNone(b: Bus, r: Bus, t: EventType) {
    forall x :: x != t ==> Handlers(r, x) == Handlers(b, x) || Handlers(r, x) == []
  }

  lemma TakeEffect(b: Bus, t: EventType)
    requires Handlers(b, t) != []
    ensures
      var r := Take(b, t);
      && r.subscribers.Keys == b.subscribers.Keys && r.history == b.history
      && (forall x :: x != t ==> Handlers(r, x) == Handlers(b, x))
      && (forall x :: RanFor(r.ran, x) + Handlers(r, x) == RanFor(b.ran, x) + Handlers(b, x))
  {
    var r := Take(b, t);
    assert r.ran[..|b.ran|] == b.ran;
    forall x ensures RanFor(r.ran, x) + Handlers(r, x) == RanFor(b.ran, x) + Handlers(b, x) {
      if x == t {
        assert Handlers(b, t) == [Handlers(b, t)[0]] + Handlers(r, t);
      }
    }
  }

  lemma {:induction false} PublishEffect(b: Bus, t: EventType, payload: string, source: string)
    ensures
      var r := Publish(b, t, payload, source);
      && Effect(b, r, t, 1) && AllOrNone(b, r, t) && Handlers(r, t) == []
      && r.history[|b.history|] == BusEvent(t, payload, source)
    decreases Remaining(b), 1, 0
  {
    var b' := b.(history := b.history + [BusEvent(t, payload, source)]);
    assert Counts(b') == Counts(b);
    DrainEffect(b', t, payload, |Handlers(b, t)|);
  }

  lemma {:induction false} DrainEffect(b: Bus, t: EventType, payload: string, n: nat)
    requires n == |Handlers(b, t)|
    ensures
      var r := Drain(b, t, payload, n);
      Effect(b, r, t, 0) && AllOrNone(b, r, t) && Handlers(r, t) == []
    decreases Remaining(b), 0, n
  {
    if n > 0 {
      var s, taken := Handlers(b, t)[0], Take(b, t);
      var (replyType, reply) := Reply(t, payload, s.handler(payload));
      var produced := Publish(taken, replyType, reply, s.service);
      TakeEffect(b, t);
      ReplyExtends(t, payload, s.handler(payload));
      PublishEffect(taken, replyType, reply, s.service);
      TurnEffect(b, t, taken, replyType, produced);
      DrainEffect(produced, t, payload, n - 1);
      DrainTurn(b, t, payload, n);
      EffectsCompose(b, produced, Drain(produced, t, payload, n - 1), t);
    }
  }

  lemma EffectsCompose(b: Bus, mid: Bus, r: Bus, t: EventType)
    requires Effect(b, mid, t, 0) && AllOrNone(b, mid, t) && Effect(mid, r, t, 0) && AllOrNone(mid, r, t)
    ensures Effect(b, r, t, 0) && AllOrNone(b, r, t)
  {
  }

  /** One turn of the loop: the handler is taken, and its reply published. */
  lemma TurnEffect(b: Bus, t: EventType, taken: Bus, replyType: EventType, produced: Bus)
    requires Handlers(b, t) != [] && taken == Take(b, t)
    requires forall x :: Extends(replyType, x) ==> Extends(t, x) && x != t
    requires Effect(taken, produced, replyType, 1) && AllOrNone(taken, produced, replyType)
    requires Handlers(produced, replyType) == []
    ensures Effect(b, produced, t, 0) && AllOrNone(b, produced, t)
    ensures Handlers(produced, t) == Handlers(b, t)[1..]
  {
    TakeEffect(b, t);
    assert !Extends(replyType, t);
    assert Handlers(taken, t) == Handlers(b, t)[1..];
    forall x | !Extends(t, x) ensures Handlers(produced, x) == Handlers(b, x) {
      assert !Extends(replyType, x);
      assert Extends(t, t);
    }
  }

  // ----- what handlers produce -----

  /** The event that a handler's result becomes: its type says whether the handler succeeded, its
      payload is the handler's own or tells the error and what the handler was given. */
  function ReplyEvent(e: BusEvent, s: Subscriber): BusEvent {
    match s.handler(e.payload)
    case Success(out) => BusEvent(e.eventType + "_SUCCESS", out, s.service)
    case Failure(error) =>
      BusEvent(e.eventType + "_FAILED", "{\"error\":\"" + error + "\",\"original\":" + e.payload + "}", s.service)
  }

  /** Event j is what the k-th handler run made of an earlier event of the type it had subscribed
      to. */
  ghost predicate ReplyAt(r: Bus, k: nat, j: nat)
    requires k < |r.ran| && j < |r.history|
  {
    exists i :: 0 <= i < j && IsReplyTo(r, k, j, i)
  }

  /** In the two lists, the handler's event is `shift` places after the handler. */
  ghost predicate Replied(r: Bus, k: nat, shift: int)
    requires k < |r.ran|
  {
    0 <= k + shift < |r.history| && ReplyAt(r, k, k + shift)
  }

  ghost predicate AllReplied(r: Bus, from: nat, to: nat, shift: int)
    requires to <= |r.ran|
  {
    forall k :: from <= k < to ==> Replied(r, k, shift)
  }

  ghost predicate IsReplyTo(r: Bus, k: nat, j: nat, i: nat)
    requires k < |r.ran| && i < j < |r.history|
  {
    r.history[i].eventType == r.ran[k].0 && r.history[j] == ReplyEvent(r.history[i], r.ran[k].1)
  }

  /** The handlers run from b to r have each left one event, in the order in which they ran, after
      `extra` others. */
  ghost predicate Answered(b: Bus, r: Bus, extra: nat) {
    && b.history <= r.history && b.ran <= r.ran
    && |r.history| - |b.history| == |r.ran| - |b.ran| + extra
    && AllReplied(r, |b.ran|, |r.ran|, |b.history| + extra - |b.ran|)
  }

  lemma RepliedStays(mid: Bus, r: Bus, k: nat, shift: int)
    requires mid.history <= r.history && mid.ran <= r.ran && k < |mid.ran| && Replied(mid, k, shift)
    ensures Replied(r, k, shift)
  {
    var j := k + shift;
    var i :| 0 <= i < j && IsReplyTo(mid, k, j, i);
    assert IsReplyTo(r, k, j, i);
  }

  lemma AnsweredCompose(b: Bus, mid: Bus, r: Bus)
    requires Answered(b, mid, 0) && Answered(mid, r, 0)
    ensures Answered(b, r, 0)
  {
    var shift := |b.history| - |b.ran|;
    forall k | |b.ran| <= k < |mid.ran| ensures Replied(r, k, shift) {
      RepliedStays(mid, r, k, shift);
    }
  }

  /** One turn: the handler's own event first, then those of the handlers it sets off. */
  lemma TurnAnswers(b: Bus, t: EventType, payload: string, i: nat)
    requires Handlers(b, t) != []
    requires i < |b.history| && b.history[i].eventType == t && b.history[i].payload == payload
    requires
      var (replyType, reply) := Reply(t, payload, Handlers(b, t)[0].handler(payload));
      && Answered(Take(b, t), Turn(b, t, payload), 1)
      && Turn(b, t, payload).history[|b.history|] == BusEvent(replyType, reply, Handlers(b, t)[0].service)
    ensures Answered(b, Turn(b, t, payload), 0)
  {
    var r, s := Turn(b, t, payload), Handlers(b, t)[0];
    assert r.ran[|b.ran|] == (t, s) && r.history[i] == b.history[i];
    assert r.history[|b.history|] == ReplyEvent(r.history[i], s);
    assert IsReplyTo(r, |b.ran|, |b.history|, i);
  }

  lemma {:induction false} DrainAnswers(b: Bus, t: EventType, payload: string, n: nat, i: nat)
    requires i < |b.history| && b.history[i].eventType == t && b.history[i].payload == payload
    ensures Answered(b, Drain(b, t, payload, n), 0)
    decreases Remaining(b), 0, n
  {
    if n > 0 && Handlers(b, t) != [] {
      var s, taken, next := Handlers(b, t)[0], Take(b, t), Turn(b, t, payload);
      var (replyType, reply) := Reply(t, payload, s.handler(payload));
      EveryHandlerAnswers(taken, replyType, reply, s.service);
      TurnAnswers(b, t, payload, i);
      DrainAnswers(next, t, payload, n - 1, i);
      DrainTurn(b, t, payload, n);
      AnsweredCompose(b, next, Drain(next, t, payload, n - 1));
    }
  }

  /** A publication records its own event, and then one event for each handler it sets off, in the
      order in which they run: the handler's success or failure, for an event it subscribed to. */
  lemma {:induction false} EveryHandlerAnswers(b: Bus, t: EventType, payload: string, source: string)
    ensures
      var r := Publish(b, t, payload, source);
      Answered(b, r, 1) && r.history[|b.history|] == BusEvent(t, payload, source)
    decreases Remaining(b), 1, 0
  {
    var b' := b.(history := b.history + [BusEvent(t, payload, source)]);
    assert Counts(b') == Counts(b);
    DrainAnswers(b', t, payload, |Handlers(b, t)|, |b.history|);
  }

  // ----- what subscribers can rely on -----

  function RunAll(b: Bus, requests: seq<(EventType, string, string)>): Bus {
    if requests == [] then b else
      var (t, payload, source) := requests[|requests| - 1];
      Publish(RunAll(b, requests[..|requests| - 1]), t, payload, source)
  }

  /** Over any run of top-level publications, recorded events and waiting handlers together grow
      by exactly one each, every published type is left with no handlers, and each type's
      handlers have run at most once each and in order. */
  lemma {:induction false} EveryHandlerRunsAtMostOnce(b: Bus, requests: seq<(EventType, string, string)>)
    ensures
      var r := RunAll(b, requests);
      && |r.history| + Remaining(r) == |b.history| + Remaining(b) + |requests|
      && (forall x :: RanFor(r.ran, x) + Handlers(r, x) == RanFor(b.ran, x) + Handlers(b, x))
      && forall i :: 0 <= i < |requests| ==> Handlers(r, requests[i].0) == []
  {
    if requests != [] {
      var before := RunAll(b, requests[..|requests| - 1]);
      var (t, payload, source) := requests[|requests| - 1];
      EveryHandlerRunsAtMostOnce(b, requests[..|requests| - 1]);
      PublishEffect(before, t, payload, source);
      forall i | 0 <= i < |requests| ensures Handlers(RunAll(b, requests), requests[i].0) == [] {
        if i < |requests| - 1 {
          assert requests[i] == requests[..|requests| - 1][i];
        }
      }
    }
  }
}

module EventBus {
  import opened Spec = EventBusSpec

  class EventBus {
    var subscribers: map<EventType, seq<Subscriber>>
    var history: seq<BusEvent>
    ghost var ran: seq<(EventType, Subscriber)>

    ghost function View(): Bus
      reads this
    {
      Bus(subscribers, history, ran)
    }

    constructor ()
      ensures View() == Bus(map[], [], [])
    {
      subscribers, history, ran := map[], [], [];
    }

    method Subscribe(t: EventType, s: Subscriber)
      modifies this`subscribers
      ensures View() == Spec.Subscribe(old(View()), t, s)
      ensures Handlers(View(), t) == old(Handlers(View(), t)) + [s]
      ensures forall x :: x != t ==> Handlers(View(), x) == old(Handlers(View(), x))
    {
      var handlers := if t in subscribers then subscribers[t] else [];
      subscribers := subscribers[t := handlers + [s]];
    }

    /** The body of the handler loop. What publishing a failure returns is dropped. */
    method RunFirst(t: EventType, payload: string) returns (output: seq<BusEvent>)
      requires Handlers(View(), t) != []
      modifies this
      ensures View() == Turn(old(View()), t, payload)
      ensures output == []
      decreases Remaining(View()), 0
    {
      ghost var taken := Take(View(), t);
      var s := subscribers[t][0];
      ran := ran + [(t, s)];
      subscribers := subscribers[t := subscribers[t][1..]];
      assert View() == taken;
      match s.handler(payload) {
        case Success(out) =>
          output := Publish(t + SUCCESS, out, s.service);
        case Failure(error) =>
          var ignored := Publish(t + FAILED, FailPayload(error, payload), s.service);
          output := [];
      }
    }

    /** The returned list only ever collects what nested calls return, so it is always empty. */
    method Publish(t: EventType, payload: string, source: string) returns (output: seq<BusEvent>)
      modifies this
      ensures View() == Spec.Publish(old(View()), t, payload, source)
      ensures output == []
      decreases Remaining(View()), 1
    {
      history := history + [BusEvent(t, payload, source)];
      ghost var start := View();
      assert Counts(start) == Counts(old(View()));
      var handlerCount := if t in subscribers then |subscribers[t]| else 0;
      ghost var b, goal := start, Drain(start, t, payload, handlerCount);
      output := [];
      var i := 0;
      while i < handlerCount
        invariant 0 <= i <= handlerCount
        invariant View() == b && Drain(b, t, payload, handlerCount - i) == goal
        invariant Remaining(b) <= Remaining(start) && output == []
      {
        if t in subscribers {
          if subscribers[t] == [] {
            break;
          }
          DrainTurn(b, t, payload, handlerCount - i);
          var subEvents := RunFirst(t, payload);
          b := Turn(b, t, payload);
          output := output + subEvents;
        } else {
          DrainDone(b, t, payload, handlerCount - i);
          DrainDone(b, t, payload, handlerCount - i - 1);
        }
        i := i + 1;
      }
      DrainDone(b, t, payload, handlerCount - i);
    }
  }
}
