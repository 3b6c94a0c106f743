/**
 * The ring buffer (src/log/ring_buffer.rs), each push and pop taken as one atomic call. A slot
 * holds None while it is uninitialised or its value has been moved out, so that reading an
 * uninitialised slot, or overwriting a live one, would show.
 */
module RingBuffer {
  import opened Wrappers
  import opened PowersOfTwo

  datatype RingBufferError = Full

  class RingBuffer<T(0)> {
    var slots: array<Option<T>>
    const mask: nat
    const capacity: nat
    var producer: nat
    var consumer: nat
    ghost const exponent: nat
    /** Everything ever pushed, and everything popped or dropped, in order. */
    ghost var pushed: seq<T>
    ghost var popped: seq<T>

    /** Slots between the two cursors are initialised and all others are not. */
    ghost predicate Valid()
      reads this, slots
    {
      && capacity == Pow2(exponent) && mask == capacity - 1 && slots.Length == capacity
      && consumer <= producer <= consumer + capacity
      && (forall s :: consumer <= s < producer ==> slots[s % capacity].Some?)
      && (forall s :: producer <= s < consumer + capacity ==> slots[s % capacity].None?)
      && |pushed| == producer && |popped| == consumer
      && popped == pushed[..consumer]
      && forall s :: consumer <= s < producer ==> slots[s % capacity] == Some(pushed[s])
    }

    /** The queue the buffer stands for. */
    ghost function Contents(): seq<T>
      reads this, slots
      requires Valid()
    {
      pushed[consumer..]
    }

    constructor (minCapacity: nat)
      ensures Valid() && fresh(slots) && Contents() == [] && pushed == [] && popped == []
      ensures capacity == NextPowerOfTwo(minCapacity)
    {
      var n := NextPowerOfTwo(minCapacity);
      ghost var k :| n == Pow2(k);
      capacity, mask, exponent := n, n - 1, k;
      slots := new Option<T>[n](i => None);
      producer, consumer, pushed, popped := 0, 0, [], [];
      new;
    }

    function Slot(sequence: nat): (i: nat)
      requires capacity == Pow2(exponent) && mask == capacity - 1
      ensures i == sequence % capacity && i < capacity
    {
      MaskIsRemainder(sequence, exponent);
      BitAnd(sequence, mask)
    }

    method TryPush(data: T) returns (r: Result<nat, RingBufferError>)
      requires Valid()
      modifies this`producer, this`pushed, slots
      ensures Valid() && slots == old(slots)
      ensures r.Success? <==> old(|Contents()|) < capacity
      ensures r.Success? ==> r.value == old(producer) && Contents() == old(Contents()) + [data] && pushed == old(pushed) + [data]
      ensures r.Failure? ==> Contents() == old(Contents()) && pushed == old(pushed)
    {
      var seq' := producer;
      if seq' + 1 - consumer > capacity {
        return Failure(Full);
      }
      producer := seq' + 1;
      var slot := Slot(seq');
      assert slots[slot].None?;
      OtherSlots(consumer, seq', capacity);
      slots[slot] := Some(data);
      pushed := pushed + [data];
      return Success(seq');
    }

    method TryPop() returns (r: Option<T>)
      requires Valid()
      modifies this`consumer, this`popped, slots
      ensures Valid() && slots == old(slots)
      ensures r == if old(Contents()) == [] then None else Some(old(Contents())[0])
      ensures Contents() == if old(Contents()) == [] then [] else old(Contents())[1..]
      ensures popped == old(popped) + if r.Some? then [r.value] else []
    {
      if consumer >= producer {
        return None;
      }
      var slot := Slot(consumer);
      assert slots[slot] == Some(pushed[consumer]);
      r := slots[slot];
      OtherSlots(consumer, consumer, capacity);
      slots[slot] := None;
      popped := popped + [r.value];
      consumer := consumer + 1;
      RemainderPeriod(consumer - 1, capacity);
    }

    /** The longest available prefix, up to the limit. */
    method BatchConsume(batchSize: nat) returns (batch: seq<T>)
      requires Valid()
      modifies this`consumer, this`popped, slots
      ensures Valid() && slots == old(slots)
      ensures |batch| == if batchSize < |old(Contents())| then batchSize else |old(Contents())|
      ensures old(Contents()) == batch + Contents()
      ensures popped == old(popped) + batch
    {
      batch := [];
      for i := 0 to batchSize
        invariant Valid() && slots == old(slots)
        invariant consumer == old(consumer) + i && batch == pushed[old(consumer)..consumer]
      {
        var item := TryPop();
        if item.None? {
          break;
        }
        batch := batch + [item.value];
      }
      assert pushed[old(consumer)..] == batch + pushed[consumer..];
      assert popped == pushed[..consumer] == pushed[..old(consumer)] + batch;
    }

    /** Every value pushed has by now been popped once or is dropped here once. */
    method Drop() returns (dropped: seq<T>)
      requires Valid()
      modifies slots
      ensures slots == old(slots) && (forall i :: 0 <= i < slots.Length ==> slots[i].None?)
      ensures dropped == old(Contents()) && pushed == popped + dropped
    {
      dropped := [];
      for s := consumer to producer
        invariant dropped == pushed[consumer..s]
        invariant forall u :: s <= u < producer ==> slots[u % capacity] == Some(pushed[u])
        invariant forall u :: producer <= u < s + capacity ==> slots[u % capacity].None?
      {
        var slot := Slot(s);
        OtherSlots(s, s, capacity);
        RemainderPeriod(s, capacity);
        dropped := dropped + [slots[slot].value];
        slots[slot] := None;
      }
      forall i | 0 <= i < slots.Length ensures slots[i].None? {
        EverySlotIsCovered(producer, capacity, i);
      }
    }
  }
}
