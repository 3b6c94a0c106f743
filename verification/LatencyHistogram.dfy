/**
 * The latency histogram of src/log/ring_buffer.rs: exponential buckets, and a percentile that
 * reads only the bucket counts. Percentages are reals here, latencies are nanoseconds.
 */
module LatencyHistogram {
  import opened Wrappers
  import opened PowersOfTwo

  /** Bucket 0 is below one microsecond, bucket i from 2^(i-1) microseconds; the last is open. */
  function BucketFor(ns: nat, buckets: nat): (b: nat)
    requires buckets > 0
    ensures b < buckets
  {
    var micros := ns / 1000;
    if micros == 0 then 0 else
      var bucket := BitLength(micros);
      if bucket < buckets - 1 then bucket else buckets - 1
  }

  /** The upper bound of a bucket in nanoseconds, as `percentile` reports it. */
  function Bound(i: nat): nat {
    if i == 0 then 1000 else Pow2(i) * 1000
  }

  lemma BucketMonotone(a: nat, b: nat, buckets: nat)
    requires buckets > 0 && a <= b
    ensures BucketFor(a, buckets) <= BucketFor(b, buckets)
  {
    BitLengthMonotone(a / 1000, b / 1000);
    if a / 1000 > 0 {
      BitLengthBounds(a / 1000);
    }
  }

  /** A bucket's bound overestimates its samples by less than a factor of two. */
  lemma BoundIsTight(ns: nat, buckets: nat)
    requires buckets > 0
    ensures BucketFor(ns, buckets) > 0 ==> Bound(BucketFor(ns, buckets)) <= 2 * ns
    ensures BucketFor(ns, buckets) < buckets - 1 ==> ns < Bound(BucketFor(ns, buckets))
  {
    var micros := ns / 1000;
    if micros > 0 {
      var length := BitLength(micros);
      BitLengthBounds(micros);
      if buckets - 1 < length {
        PowerGrows(buckets - 1, length);
        if buckets > 1 {
          PowerGrows(buckets - 2, length - 1);
        }
      }
    }
  }

  // ----- counting samples -----

  function InBucket(samples: seq<nat>, buckets: nat, i: nat): nat
    requires buckets > 0
  {
    if samples == [] then 0 else
      (if BucketFor(samples[0], buckets) == i then 1 else 0) + InBucket(samples[1..], buckets, i)
  }

  function UpToBucket(samples: seq<nat>, buckets: nat, i: int): nat
    requires buckets > 0
  {
    if samples == [] then 0 else
      (if BucketFor(samples[0], buckets) <= i then 1 else 0) + UpToBucket(samples[1..], buckets, i)
  }

  function Below(samples: seq<nat>, x: nat): nat {
    if samples == [] then 0 else (if samples[0] < x then 1 else 0) + Below(samples[1..], x)
  }

  function AtMost(samples: seq<nat>, x: nat): nat {
    if samples == [] then 0 else (if samples[0] <= x then 1 else 0) + AtMost(samples[1..], x)
  }

  /** x is the k-th smallest sample: fewer than k lie below it, at least k do not exceed it. */
  predicate KthSmallest(samples: seq<nat>, k: int, x: nat) {
    x in samples && Below(samples, x) < k <= AtMost(samples, x)
  }

  lemma {:induction false} CountsSplit(samples: seq<nat>, x: nat)
    ensures x > 0 ==> Below(samples, x) == AtMost(samples, x - 1)
    ensures x == 0 ==> Below(samples, x) == 0
    ensures x !in samples ==> AtMost(samples, x) == Below(samples, x)
  {
    if samples != [] {
      CountsSplit(samples[1..], x);
    }
  }

  /** Every rank from 1 to the number of samples has its order statistic. */
  lemma {:induction false} KthExists(samples: seq<nat>, k: int, bound: nat)
    requires 1 <= k <= AtMost(samples, bound)
    ensures exists x: nat :: KthSmallest(samples, k, x)
    decreases bound
  {
    CountsSplit(samples, bound);
    if bound in samples && Below(samples, bound) < k {
      assert KthSmallest(samples, k, bound);
    } else {
      KthExists(samples, k, bound - 1);
    }
  }

  lemma {:induction false} AllAtMostLargest(samples: seq<nat>) returns (bound: nat)
    ensures AtMost(samples, bound) == |samples|
  {
    if samples == [] {
      bound := 0;
    } else {
      var rest := AllAtMostLargest(samples[1..]);
      bound := if samples[0] < rest then rest else samples[0];
      AtMostMonotone(samples[1..], rest, bound);
      AtMostSize(samples[1..], bound);
    }
  }

  lemma {:induction false} AtMostMonotone(samples: seq<nat>, x: nat, y: nat)
    requires x <= y
    ensures AtMost(samples, x) <= AtMost(samples, y)
    ensures x < y ==> AtMost(samples, x) <= Below(samples, y)
  {
    if samples != [] {
      AtMostMonotone(samples[1..], x, y);
    }
  }

  lemma {:induction false} AtMostSize(samples: seq<nat>, x: nat)
    ensures AtMost(samples, x) <= |samples|
  {
    if samples != [] {
      AtMostSize(samples[1..], x);
    }
  }

  /** Every percentile above 0 names exactly one sample value. */
  lemma PercentileIsASample(samples: seq<nat>, pct: real)
    requires 0.0 < pct <= 100.0 && samples != []
    ensures exists x: nat :: KthSmallest(samples, Rank(pct, |samples|), x)
    ensures forall x: nat, y: nat ::
      KthSmallest(samples, Rank(pct, |samples|), x) && KthSmallest(samples, Rank(pct, |samples|), y) ==> x == y
  {
    var k := Rank(pct, |samples|);
    RankRange(pct, |samples|);
    var bound := AllAtMostLargest(samples);
    KthExists(samples, k, bound);
    forall x: nat, y: nat | KthSmallest(samples, k, x) && KthSmallest(samples, k, y) ensures x == y {
      if x < y {
        AtMostMonotone(samples, x, y);
      } else if y < x {
        AtMostMonotone(samples, y, x);
      }
    }
  }

  lemma {:induction false} InBucketAppend(samples: seq<nat>, x: nat, buckets: nat, i: nat)
    requires buckets > 0
    ensures InBucket(samples + [x], buckets, i) ==
      InBucket(samples, buckets, i) + (if BucketFor(x, buckets) == i then 1 else 0)
  {
    if samples == [] {
      assert ([x])[1..] == [];
    } else {
      assert (samples + [x])[1..] == samples[1..] + [x];
      InBucketAppend(samples[1..], x, buckets, i);
    }
  }

  lemma {:induction false} UpToNext(samples: seq<nat>, buckets: nat, i: nat)
    requires buckets > 0
    ensures UpToBucket(samples, buckets, i) == UpToBucket(samples, buckets, i - 1) + InBucket(samples, buckets, i)
    ensures UpToBucket(samples, buckets, -1) == 0
    ensures i >= buckets - 1 ==> UpToBucket(samples, buckets, i) == |samples|
  {
    if samples != [] {
      UpToNext(samples[1..], buckets, i);
    }
  }

  lemma {:induction false} BucketsBracketSample(samples: seq<nat>, buckets: nat, x: nat)
    requires buckets > 0
    ensures AtMost(samples, x) <= UpToBucket(samples, buckets, BucketFor(x, buckets))
    ensures UpToBucket(samples, buckets, BucketFor(x, buckets) - 1) <= Below(samples, x)
  {
    if samples != [] {
      BucketsBracketSample(samples[1..], buckets, x);
      if samples[0] <= x {
        BucketMonotone(samples[0], x, buckets);
      } else {
        BucketMonotone(x, samples[0], buckets);
      }
    }
  }

  lemma {:induction false} UpToMonotone(samples: seq<nat>, buckets: nat, i: int, j: int)
    requires buckets > 0 && i <= j
    ensures UpToBucket(samples, buckets, i) <= UpToBucket(samples, buckets, j)
  {
    if samples != [] {
      UpToMonotone(samples[1..], buckets, i, j);
    }
  }

  /** The first bucket at which the running count reaches k. */
  ghost predicate Reaches(samples: seq<nat>, buckets: nat, k: nat, i: nat)
    requires buckets > 0
  {
    i < buckets && UpToBucket(samples, buckets, i) >= k && (i > 0 ==> UpToBucket(samples, buckets, i - 1) < k)
  }

  /** The running count stops in the very bucket of the k-th smallest sample. */
  lemma ReachesBucketOfKth(samples: seq<nat>, buckets: nat, k: nat, i: nat, x: nat)
    requires buckets > 0 && Reaches(samples, buckets, k, i) && KthSmallest(samples, k, x)
    ensures i == BucketFor(x, buckets)
  {
    var b := BucketFor(x, buckets);
    BucketsBracketSample(samples, buckets, x);
    if b < i {
      UpToMonotone(samples, buckets, b, i - 1);
    } else if i < b {
      UpToMonotone(samples, buckets, i, b - 1);
    }
  }

  // ----- percentiles -----

  function Rank(pct: real, total: nat): int {
    -(-(pct / 100.0 * total as real)).Floor
  }

  lemma RankRange(pct: real, total: nat)
    requires 0.0 <= pct <= 100.0 && total > 0
    ensures 0 <= Rank(pct, total) <= total
    ensures Rank(pct, total) == 0 <==> pct == 0.0
  {
    var share, n := pct / 100.0, total as real;
    Scale(share, n);
  }

  /** The rank is the percentage of the total, rounded up to a whole sample. */
  lemma RankIsCeiling(pct: real, total: nat)
    ensures pct * total as real <= 100.0 * Rank(pct, total) as real < pct * total as real + 100.0
  {
    var share := pct / 100.0 * total as real;
    assert pct == 100.0 * (pct / 100.0);
    assert pct * total as real == 100.0 * share;
  }

  lemma Scale(share: real, n: real)
    requires 0.0 <= share <= 1.0 && n > 0.0
    ensures 0.0 <= share * n <= n && (share * n == 0.0 <==> share == 0.0)
  {
  }

  /** What a percentile means to its reader: the reported value is at most twice the exact order
      statistic unless that lies in bucket 0, and exceeds it unless it lies in the last bucket. */
  ghost predicate Approximates(samples: seq<nat>, buckets: nat, k: int, reported: nat)
    requires buckets > 0
  {
    forall x: nat :: KthSmallest(samples, k, x) ==>
      && (BucketFor(x, buckets) > 0 ==> reported <= 2 * x)
      && (BucketFor(x, buckets) < buckets - 1 ==> x < reported)
  }

  lemma ReachedBoundApproximates(samples: seq<nat>, buckets: nat, k: nat, i: nat)
    requires buckets > 0 && Reaches(samples, buckets, k, i)
    ensures Approximates(samples, buckets, k, Bound(i))
    ensures forall x: nat :: KthSmallest(samples, k, x) ==> Bound(i) == Bound(BucketFor(x, buckets))
  {
    forall x: nat | KthSmallest(samples, k, x)
      ensures Bound(i) == Bound(BucketFor(x, buckets))
      ensures BucketFor(x, buckets) > 0 ==> Bound(i) <= 2 * x
      ensures BucketFor(x, buckets) < buckets - 1 ==> x < Bound(i)
    {
      ReachesBucketOfKth(samples, buckets, k, i, x);
      BoundIsTight(x, buckets);
    }
  }

  class LatencyHistogram {
    var buckets: array<nat>
    var total: nat
    ghost var samples: seq<nat>

    ghost predicate Valid()
      reads this, buckets
    {
      && buckets.Length > 0 && total == |samples|
      && forall i :: 0 <= i < buckets.Length ==> buckets[i] == InBucket(samples, buckets.Length, i)
    }

    constructor (numBuckets: nat)
      requires numBuckets > 0
      ensures Valid() && fresh(buckets) && buckets.Length == numBuckets && samples == []
    {
      buckets := new nat[numBuckets](i => 0);
      total, samples := 0, [];
    }

    method Record(ns: nat)
      requires Valid()
      modifies this`total, this`samples, buckets
      ensures Valid() && buckets == old(buckets) && samples == old(samples) + [ns]
    {
      var bucket := BucketFor(ns, buckets.Length);
      forall i | 0 <= i < buckets.Length
        ensures InBucket(samples + [ns], buckets.Length, i) == InBucket(samples, buckets.Length, i) + (if i == bucket then 1 else 0)
      {
        InBucketAppend(samples, ns, buckets.Length, i);
      }
      buckets[bucket] := buckets[bucket] + 1;
      total := total + 1;
      samples := samples + [ns];
    }

    method Percentile(pct: real) returns (r: Option<nat>)
      requires Valid()
      ensures r.None? <==> !(0.0 <= pct <= 100.0) || samples == []
      ensures r.Some? ==> Approximates(samples, buckets.Length, Rank(pct, |samples|), r.value)
      ensures r.Some? ==> forall x: nat :: KthSmallest(samples, Rank(pct, |samples|), x) ==>
        r.value == Bound(BucketFor(x, buckets.Length))
      ensures r.Some? && pct > 0.0 ==> exists x: nat :: KthSmallest(samples, Rank(pct, |samples|), x)
      ensures r.Some? && pct == 0.0 ==> r.value == 1000
    {
      if !(0.0 <= pct <= 100.0) {
        return None;
      }
      if total == 0 {
        return None;
      }
      RankRange(pct, total);
      if pct > 0.0 {
        PercentileIsASample(samples, pct);
      }
      var target: nat := Rank(pct, total);
      var cumulative := 0;
      UpToNext(samples, buckets.Length, 0);
      for i := 0 to buckets.Length
        invariant cumulative == UpToBucket(samples, buckets.Length, i - 1)
        invariant i > 0 ==> cumulative < target
      {
        UpToNext(samples, buckets.Length, i);
        cumulative := cumulative + buckets[i];
        if cumulative >= target {
          ReachedBoundApproximates(samples, buckets.Length, target, i);
          if i == 0 {
            return Some(1000);
          }
          return Some(Pow2(i) * 1000);
        }
      }
      UpToNext(samples, buckets.Length, buckets.Length - 1);
      assert false;
    }
  }
}
