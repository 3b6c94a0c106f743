/**
 * The gap inside a push of the ring buffer (src/log/ring_buffer.rs). `claim` advances the
 * producer cursor before `publish` writes the slot, and a pop reads the slot before it advances
 * the consumer cursor; here each of the four is a step of its own, for one producer and one
 * consumer. A slot holds None while it is uninitialised or its value has been moved out.
 */
module RingBufferGap {
  import opened Wrappers
  import opened PowersOfTwo

  /** `claimed` is the value of a push that has claimed its sequence number and not written it,
      `reading` says that the consumer has read its slot and not advanced. `written` and `got`
      record what has been published and what pops have read. */
  datatype State<T> = State(capacity: nat, producer: nat, consumer: nat, slots: seq<Option<T>>,
                            claimed: Option<T>, reading: bool, written: seq<T>, got: seq<Option<T>>)

  datatype Event<T> = Claim(data: T) | Publish | Read | Advance

  function New<T>(capacity: nat): State<T> {
    State(capacity, 0, 0, seq(capacity, i => None), None, false, [], [])
  }

  predicate Sized<T>(s: State<T>) {
    0 < s.capacity == |s.slots| && (s.claimed.Some? ==> 0 < s.producer)
  }

  /** One step; a step that is not enabled changes nothing. */
  function Execute<T>(s: State<T>, e: Event<T>): (r: State<T>)
    requires Sized(s)
    ensures Sized(r)
  {
    match e
    case Claim(data) =>
      if s.claimed.Some? || s.producer + 1 - s.consumer > s.capacity then s
      else s.(producer := s.producer + 1, claimed := Some(data))
    case Publish =>
      if s.claimed.None? then s
      else s.(slots := s.slots[(s.producer - 1) % s.capacity := s.claimed], claimed := None,
              written := s.written + [s.claimed.value])
    case Read =>
      if s.reading || s.consumer >= s.producer then s
      else
        var slot := s.consumer % s.capacity;
        s.(slots := s.slots[slot := None], reading := true, got := s.got + [s.slots[slot]])
    case Advance =>
      if s.reading then s.(consumer := s.consumer + 1, reading := false) else s
  }

  function Run<T>(s: State<T>, events: seq<Event<T>>): (r: State<T>)
    requires Sized(s)
    ensures Sized(r)
  {
    if events == [] then s else Execute(Run(s, events[..|events| - 1]), events[|events| - 1])
  }

  /** The pop reaches a sequence number that is claimed and not published. */
  predicate ReadsGap<T>(s: State<T>, e: Event<T>) {
    e.Read? && !s.reading && |s.written| <= s.consumer < s.producer
  }

  predicate GapFree<T>(s: State<T>, events: seq<Event<T>>)
    requires Sized(s)
  {
    events == [] ||
    (GapFree(s, events[..|events| - 1]) && !ReadsGap(Run(s, events[..|events| - 1]), events[|events| - 1]))
  }

  /** Pops have read the published values, in order, and the slots hold the rest of them. */
  predicate Faithful<T(==)>(s: State<T>) {
    |s.got| <= |s.written| && forall i :: 0 <= i < |s.got| ==> s.got[i] == Some(s.written[i])
  }

  ghost predicate Ok<T(!new)>(s: State<T>) {
    && Sized(s) && Faithful(s)
    && |s.written| == s.producer - (if s.claimed.Some? then 1 else 0)
    && |s.got| == s.consumer + (if s.reading then 1 else 0)
    && s.producer <= s.consumer + s.capacity
    && (forall u :: |s.got| <= u < |s.written| ==> s.slots[u % s.capacity] == Some(s.written[u]))
    && (forall u :: |s.written| <= u < |s.got| + s.capacity ==> s.slots[u % s.capacity].None?)
  }

  /** A step that does not read the gap keeps every value in its slot until it is read. */
  lemma ExecuteKeepsOk<T(!new)>(s: State<T>, e: Event<T>)
    requires Ok(s) && !ReadsGap(s, e)
    ensures Ok(Execute(s, e))
  {
    match e
    case Claim(_) =>
    case Advance =>
    case Publish =>
      if s.claimed.Some? {
        OtherSlots(|s.got|, s.producer - 1, s.capacity);
      }
    case Read =>
      if !s.reading && s.consumer < s.producer {
        OtherSlots(s.consumer, s.consumer, s.capacity);
        RemainderPeriod(s.consumer, s.capacity);
      }
  }

  lemma {:induction false} GapFreeRunIsOk<T(!new)>(capacity: nat, events: seq<Event<T>>)
    requires 0 < capacity && GapFree(New(capacity), events)
    ensures Ok(Run(New<T>(capacity), events))
  {
    if events != [] {
      GapFreeRunIsOk(capacity, events[..|events| - 1]);
      ExecuteKeepsOk(Run(New(capacity), events[..|events| - 1]), events[|events| - 1]);
    }
  }

  predicate ReadGarbage<T>(s: State<T>) {
    exists i :: 0 <= i < |s.got| && s.got[i].None?
  }

  lemma {:induction false} GapIsReadAsGarbage<T(!new)>(capacity: nat, events: seq<Event<T>>)
    requires 0 < capacity && !GapFree(New(capacity), events)
    ensures ReadGarbage(Run(New<T>(capacity), events))
  {
    var before, e := events[..|events| - 1], events[|events| - 1];
    var s := Run(New<T>(capacity), before);
    if GapFree(New(capacity), before) {
      GapFreeRunIsOk(capacity, before);
      assert s.slots[s.consumer % s.capacity].None?;
      assert Execute(s, e).got[|s.got|].None?;
    } else {
      GapIsReadAsGarbage(capacity, before);
      var i :| 0 <= i < |s.got| && s.got[i].None?;
      assert Execute(s, e).got[i].None?;
    }
  }

  /** The exact condition, for every run of the producer and the consumer: pops read exactly the
      published values in order, each once, if and only if no pop reads a claimed and unpublished
      sequence number; one that does reads an uninitialised slot. */
  lemma ReadsAreSafeExactly<T(!new)>(capacity: nat, events: seq<Event<T>>)
    requires 0 < capacity
    ensures GapFree(New(capacity), events) <==> Faithful(Run(New<T>(capacity), events))
    ensures GapFree(New(capacity), events) <==> !ReadGarbage(Run(New<T>(capacity), events))
  {
    if GapFree(New(capacity), events) {
      GapFreeRunIsOk(capacity, events);
    } else {
      GapIsReadAsGarbage(capacity, events);
    }
  }

  /** The shortest run that does: a pop between the claim and the write of the first push. */
  lemma GapCanBeRead<T(!new)>(capacity: nat, data: T)
    requires 0 < capacity
    ensures Run(New(capacity), [Claim(data), Read]).got == [None]
  {
    var events := [Claim(data), Read];
    assert events[..1] == [Claim(data)] && [Claim(data)][..0] == [];
    assert Run(New<T>(capacity), []) == New(capacity);
    assert Run(New<T>(capacity), [Claim(data)]) == Execute(New(capacity), Claim(data));
  }
}
