/**
 * The token-bucket rate limiter (src/service/resilience.rs), over reals. Each call reads the
 * clock twice, once for the elapsed time and once for the new refill mark; the two readings
 * are parameters, and a monotone clock orders all of them.
 */
module TokenBucketSpec {

  datatype Bucket = Bucket(capacity: nat, rate: real, tokens: real, lastRefill: real)
  datatype Readings = Readings(elapsedAt: real, markedAt: real)

  function Max(a: real, b: real): real { if a > b then a else b }
  function Min(a: real, b: real): real { if a < b then a else b }

  /** A negative rate counts as zero. */
  function Rate(b: Bucket): (r: real)
    ensures r >= 0.0
  {
    Max(b.rate, 0.0)
  }

  /** Tokens that the rate allows for over an interval. */
  function Earned(b: Bucket, from: real, to: real): real {
    (to - from) * Rate(b)
  }

  function Refilled(b: Bucket, now: real): real {
    Min(Max(b.tokens + Earned(b, b.lastRefill, now), 0.0), b.capacity as real)
  }

  function TryConsume(b: Bucket, t: Readings): (Bucket, bool) {
    var tokens := Refilled(b, t.elapsedAt);
    if tokens >= 1.0 then (b.(tokens := tokens - 1.0, lastRefill := t.markedAt), true)
    else (b.(tokens := tokens, lastRefill := t.markedAt), false)
  }

  /** Stops at the first denial; tokens already taken are not returned. The last component
      counts the calls made. */
  function TryConsumeN(b: Bucket, times: seq<Readings>): (Bucket, bool, nat)
    decreases |times|
  {
    if times == [] then (b, true, 0) else
      var (b', ok) := TryConsume(b, times[0]);
      if !ok then (b', false, 1) else
        var (last, all, n) := TryConsumeN(b', times[1..]);
        (last, all, n + 1)
  }

  function Run(b: Bucket, times: seq<Readings>): (Bucket, nat)
    decreases |times|
  {
    if times == [] then (b, 0) else
      var (b', ok) := TryConsume(b, times[0]);
      var (last, grants) := Run(b', times[1..]);
      (last, grants + if ok then 1 else 0)
  }

  predicate Monotone(since: real, times: seq<Readings>)
    decreases |times|
  {
    times == [] ||
    (since <= times[0].elapsedAt <= times[0].markedAt && Monotone(times[0].markedAt, times[1..]))
  }

  predicate InRange(b: Bucket) {
    0.0 <= b.tokens <= b.capacity as real
  }

  lemma EarnedOverGap(b: Bucket, t0: real, t1: real, t2: real, t3: real)
    requires t1 <= t2 && t0 <= t1
    ensures Earned(b, t0, t1) + Earned(b, t2, t3) <= Earned(b, t0, t3)
    ensures 0.0 <= Earned(b, t0, t1)
  {
    assert Earned(b, t0, t3) - Earned(b, t0, t1) - Earned(b, t2, t3) == (t2 - t1) * Rate(b);
    assert (t2 - t1) * Rate(b) >= 0.0;
    assert (t1 - t0) * Rate(b) >= 0.0;
  }

  lemma EarnedByRate(b: Bucket, b': Bucket, from: real, to: real)
    requires b'.rate == b.rate
    ensures Earned(b', from, to) == Earned(b, from, to)
  {
  }

  /** The count stays within the bucket, whatever the rate and the clock. */
  lemma TryConsumeInRange(b: Bucket, t: Readings)
    ensures InRange(TryConsume(b, t).0)
    ensures TryConsume(b, t).1 ==> TryConsume(b, t).0.tokens + 1.0 <= b.capacity as real
  {
  }

  /** Tokens are only ever created by elapsed time. */
  lemma TryConsumeBudget(b: Bucket, t: Readings)
    requires InRange(b) && b.lastRefill <= t.elapsedAt
    ensures TryConsume(b, t).0.tokens + (if TryConsume(b, t).1 then 1.0 else 0.0)
      <= b.tokens + Earned(b, b.lastRefill, t.elapsedAt)
  {
    EarnedOverGap(b, b.lastRefill, t.elapsedAt, t.elapsedAt, t.elapsedAt);
  }

  lemma {:induction false} RunBudget(b: Bucket, times: seq<Readings>)
    requires InRange(b) && Monotone(b.lastRefill, times) && times != []
    ensures InRange(Run(b, times).0)
    ensures Run(b, times).1 as real + Run(b, times).0.tokens
      <= b.tokens + Earned(b, b.lastRefill, times[|times| - 1].elapsedAt)
    decreases |times|
  {
    var (b', ok) := TryConsume(b, times[0]);
    TryConsumeInRange(b, times[0]);
    TryConsumeBudget(b, times[0]);
    if |times| > 1 {
      RunBudget(b', times[1..]);
      EarnedByRate(b, b', b'.lastRefill, times[|times| - 1].elapsedAt);
      EarnedOverGap(b, b.lastRefill, times[0].elapsedAt, times[0].markedAt, times[|times| - 1].elapsedAt);
    } else {
      assert times[1..] == [];
    }
  }

  /** From any state in range, consecutive calls are granted at most the capacity plus what the
      rate allows between the first and the last. */
  lemma CallsAreBounded(b: Bucket, times: seq<Readings>)
    requires InRange(b) && Monotone(b.lastRefill, times) && times != []
    ensures Run(b, times).1 as real <= b.capacity as real + Earned(b, times[0].elapsedAt, times[|times| - 1].elapsedAt)
  {
    var b' := TryConsume(b, times[0]).0;
    TryConsumeInRange(b, times[0]);
    if |times| > 1 {
      RunBudget(b', times[1..]);
      EarnedByRate(b, b', b'.lastRefill, times[|times| - 1].elapsedAt);
      EarnedOverGap(b, times[0].elapsedAt, times[0].elapsedAt, times[0].markedAt, times[|times| - 1].elapsedAt);
    } else {
      var t := times[0].elapsedAt;
      assert Run(b', times[1..]).1 == 0;
      EarnedOverGap(b, t, t, t, t);
    }
  }

  lemma {:induction false} RunReaches(b: Bucket, times: seq<Readings>, i: nat)
    requires InRange(b) && Monotone(b.lastRefill, times) && i <= |times|
    ensures
      var mid := Run(b, times[..i]).0;
      && InRange(mid) && Monotone(mid.lastRefill, times[i..])
      && mid.capacity == b.capacity && mid.rate == b.rate
      && Run(b, times) == (Run(mid, times[i..]).0, Run(b, times[..i]).1 + Run(mid, times[i..]).1)
    decreases |times|
  {
    if i == 0 {
      assert times[0..] == times;
    } else {
      var b' := TryConsume(b, times[0]).0;
      TryConsumeInRange(b, times[0]);
      RunReaches(b', times[1..], i - 1);
      assert times[..i][1..] == times[1..][..i - 1] && times[1..][i - 1..] == times[i..];
    }
  }

  lemma {:induction false} MonotonePrefix(since: real, times: seq<Readings>, n: nat)
    requires Monotone(since, times) && n <= |times|
    ensures Monotone(since, times[..n])
    decreases |times|
  {
    if n > 0 {
      MonotonePrefix(times[0].markedAt, times[1..], n - 1);
      assert times[..n][1..] == times[1..][..n - 1];
    }
  }

  /** The window bound: in any run over a monotone clock, calls i to j are granted at most
      capacity + max(rate, 0) * (t_j - t_i), and the token count never leaves [0, capacity]. */
  lemma WindowBound(b: Bucket, times: seq<Readings>, i: nat, j: nat)
    requires InRange(b) && Monotone(b.lastRefill, times) && i <= j < |times|
    ensures
      var before := Run(b, times[..i]).0;
      && InRange(before)
      && Run(before, times[i..j + 1]).1 as real
           <= b.capacity as real + Earned(b, times[i].elapsedAt, times[j].elapsedAt)
  {
    var before := Run(b, times[..i]).0;
    ReachedState(b, times, i);
    var window := times[i..j + 1];
    assert times[i..][..j + 1 - i] == window;
    MonotonePrefix(before.lastRefill, times[i..], j + 1 - i);
    WindowIsBounded(b, before, window);
  }

  lemma ReachedState(b: Bucket, times: seq<Readings>, i: nat)
    requires InRange(b) && Monotone(b.lastRefill, times) && i <= |times|
    ensures
      var mid := Run(b, times[..i]).0;
      InRange(mid) && Monotone(mid.lastRefill, times[i..]) && mid.capacity == b.capacity && mid.rate == b.rate
  {
    RunReaches(b, times, i);
  }

  lemma WindowIsBounded(b: Bucket, before: Bucket, window: seq<Readings>)
    requires InRange(before) && Monotone(before.lastRefill, window) && window != []
    requires before.capacity == b.capacity && before.rate == b.rate
    ensures Run(before, window).1 as real
      <= b.capacity as real + Earned(b, window[0].elapsedAt, window[|window| - 1].elapsedAt)
  {
    CallsAreBounded(before, window);
    EarnedByRate(b, before, window[0].elapsedAt, window[|window| - 1].elapsedAt);
  }

  // ----- what callers are granted -----

  /** A call is granted exactly when a whole token is there after the refill, and takes one; what
      it leaves is never below zero nor above the capacity. */
  lemma GrantIsExact(b: Bucket, t: Readings)
    ensures
      var (b', ok) := TryConsume(b, t);
      var refilled := b.tokens + Earned(b, b.lastRefill, t.elapsedAt);
      && (ok <==> refilled >= 1.0 && b.capacity >= 1)
      && b' == b.(tokens := b'.tokens, lastRefill := t.markedAt)
      && (if refilled < 0.0 then b'.tokens == 0.0
          else b'.tokens <= refilled - (if ok then 1.0 else 0.0)
               && (b'.tokens == refilled - (if ok then 1.0 else 0.0) || refilled > b.capacity as real))
      && (refilled >= b.capacity as real ==> b'.tokens == if ok then b.capacity as real - 1.0 else b.capacity as real)
  {
  }

  /** The time credited over a run, and what of it did not fit into the bucket. */
  function Credited(b: Bucket, times: seq<Readings>): real
    decreases |times|
  {
    if times == [] then 0.0 else
      Earned(b, b.lastRefill, times[0].elapsedAt) + Credited(TryConsume(b, times[0]).0, times[1..])
  }

  function Spilled(b: Bucket, times: seq<Readings>): real
    decreases |times|
  {
    if times == [] then 0.0 else
      b.tokens + Earned(b, b.lastRefill, times[0].elapsedAt) - Refilled(b, times[0].elapsedAt)
      + Spilled(TryConsume(b, times[0]).0, times[1..])
  }

  /** Exact conservation: every token of the start, and every token earned, has been granted, is
      still there, or has spilled over. */
  lemma {:induction false} RunConserves(b: Bucket, times: seq<Readings>)
    requires InRange(b) && Monotone(b.lastRefill, times)
    ensures InRange(Run(b, times).0) && Spilled(b, times) >= 0.0
    ensures Run(b, times).1 as real + Run(b, times).0.tokens + Spilled(b, times) == b.tokens + Credited(b, times)
    decreases |times|
  {
    if times != [] {
      TryConsumeInRange(b, times[0]);
      EarnedOverGap(b, b.lastRefill, times[0].elapsedAt, times[0].elapsedAt, times[0].elapsedAt);
      RunConserves(TryConsume(b, times[0]).0, times[1..]);
    }
  }

  /** With no time between the two readings of a call, all of the run's time is credited. */
  predicate Instant(times: seq<Readings>) {
    forall i :: 0 <= i < |times| ==> times[i].elapsedAt == times[i].markedAt
  }

  lemma {:induction false} InstantRunsAreCredited(b: Bucket, times: seq<Readings>)
    requires Instant(times) && times != []
    ensures Credited(b, times) == Earned(b, b.lastRefill, times[|times| - 1].elapsedAt)
    decreases |times|
  {
    var b' := TryConsume(b, times[0]).0;
    var first, last := times[0].elapsedAt, times[|times| - 1].elapsedAt;
    assert times[0].markedAt == first;
    EarnedAddsUp(b, b.lastRefill, first, last);
    EarnedByRate(b, b', first, last);
    if |times| > 1 {
      assert times[1..][|times| - 2] == times[|times| - 1];
      assert Instant(times[1..]);
      InstantRunsAreCredited(b', times[1..]);
    } else {
      assert times[1..] == [];
    }
  }

  lemma EarnedAddsUp(b: Bucket, t0: real, t1: real, t2: real)
    ensures Earned(b, t0, t1) + Earned(b, t1, t2) == Earned(b, t0, t2)
  {
  }

  /** The lower bound: a run that ends in a denial, of a bucket that can hold a token, has granted
      all that was there and was earned and did not spill, up to less than one token. */
  lemma DeniedRunsGrantedTheRest(b: Bucket, times: seq<Readings>, t: Readings)
    requires InRange(b) && Monotone(b.lastRefill, times + [t]) && b.capacity >= 1
    requires !TryConsume(Run(b, times).0, t).1
    ensures Run(b, times + [t]).1 as real > b.tokens + Credited(b, times + [t]) - Spilled(b, times + [t]) - 1.0
  {
    var all := times + [t];
    RunReaches(b, all, |times|);
    assert all[..|times|] == times && all[|times|..] == [t];
    var mid := Run(b, times).0;
    assert Run(mid, [t]).0 == TryConsume(mid, t).0;
    GrantIsExact(mid, t);
    RunConserves(b, all);
  }

  /** Nothing spills while the bucket is below its capacity, so a caller who may be denied loses
      nothing by asking: a call at which something spills is granted. */
  lemma SpillingCallsAreGranted(b: Bucket, t: Readings)
    requires InRange(b) && b.lastRefill <= t.elapsedAt && b.capacity >= 1
    requires b.tokens + Earned(b, b.lastRefill, t.elapsedAt) > Refilled(b, t.elapsedAt)
    ensures TryConsume(b, t).1
  {
    EarnedOverGap(b, b.lastRefill, t.elapsedAt, t.elapsedAt, t.elapsedAt);
  }

  /** Each call comes at least one token's time after the one before. */
  predicate Paced(b: Bucket, since: real, times: seq<Readings>)
    decreases |times|
  {
    times == [] || (Earned(b, since, times[0].elapsedAt) >= 1.0 && Paced(b, times[0].markedAt, times[1..]))
  }

  lemma {:induction false} PacedByRate(b: Bucket, b': Bucket, since: real, times: seq<Readings>)
    requires b'.rate == b.rate
    ensures Paced(b', since, times) == Paced(b, since, times)
    decreases |times|
  {
    if times != [] {
      EarnedByRate(b, b', since, times[0].elapsedAt);
      PacedByRate(b, b', times[0].markedAt, times[1..]);
    }
  }

  /** Paced calls are all granted, and so is a burst of no more calls than there are tokens. */
  lemma {:induction false} PacedCallsAreGranted(b: Bucket, times: seq<Readings>)
    requires InRange(b) && b.capacity >= 1 && Paced(b, b.lastRefill, times)
    ensures Run(b, times).1 == |times|
    decreases |times|
  {
    if times != [] {
      var b' := TryConsume(b, times[0]).0;
      GrantIsExact(b, times[0]);
      TryConsumeInRange(b, times[0]);
      PacedByRate(b, b', b'.lastRefill, times[1..]);
      PacedCallsAreGranted(b', times[1..]);
    }
  }

  lemma {:induction false} BurstsAreGranted(b: Bucket, times: seq<Readings>)
    requires InRange(b) && Monotone(b.lastRefill, times) && |times| as real <= b.tokens
    ensures Run(b, times).1 == |times|
    decreases |times|
  {
    if times != [] {
      var b' := TryConsume(b, times[0]).0;
      EarnedOverGap(b, b.lastRefill, times[0].elapsedAt, times[0].elapsedAt, times[0].elapsedAt);
      GrantIsExact(b, times[0]);
      TryConsumeInRange(b, times[0]);
      BurstsAreGranted(b', times[1..]);
    }
  }

  // ----- bulk requests -----

  /** A bulk request makes ordinary calls until one is denied: it succeeds exactly when every
      call is granted, and a failure keeps every token granted before it. */
  lemma {:induction false} BulkIsSingleCalls(b: Bucket, times: seq<Readings>)
    ensures
      var (b', ok, n) := TryConsumeN(b, times);
      && n <= |times| && Run(b, times[..n]) == (b', if ok then n else n - 1)
      && (ok ==> n == |times|)
    decreases |times|
  {
    if times != [] {
      var (b', ok) := TryConsume(b, times[0]);
      if ok {
        BulkIsSingleCalls(b', times[1..]);
        var n := TryConsumeN(b', times[1..]).2;
        assert times[..n + 1][1..] == times[1..][..n];
      } else {
        assert times[..1][1..] == [];
      }
    }
  }
}

module TokenBucket {
  import opened Spec = TokenBucketSpec

  class TokenBucket {
    const capacity: nat
    const rate: real
    var tokens: real
    var lastRefill: real

    function View(): Bucket
      reads this
    {
      Bucket(capacity, rate, tokens, lastRefill)
    }

    constructor (capacity: nat, rate: real, now: real)
      ensures View() == Bucket(capacity, rate, capacity as real, now) && InRange(View())
    {
      this.capacity, this.rate, this.tokens, this.lastRefill := capacity, rate, capacity as real, now;
    }

    method TryConsume(t: Readings) returns (ok: bool)
      modifies this`tokens, this`lastRefill
      ensures (View(), ok) == Spec.TryConsume(old(View()), t)
    {
      var newTokens := Earned(View(), lastRefill, t.elapsedAt);
      tokens := Min(Max(tokens + newTokens, 0.0), capacity as real);
      lastRefill := t.markedAt;
      if tokens >= 1.0 {
        tokens := tokens - 1.0;
        return true;
      }
      return false;
    }

    /** One token per element of `times`, the clock readings of the calls. */
    method TryConsumeN(times: seq<Readings>) returns (ok: bool)
      modifies this`tokens, this`lastRefill
      ensures View() == Spec.TryConsumeN(old(View()), times).0 && ok == Spec.TryConsumeN(old(View()), times).1
    {
      var i := 0;
      while i < |times|
        invariant 0 <= i <= |times|
        invariant Spec.TryConsumeN(View(), times[i..]).0 == Spec.TryConsumeN(old(View()), times).0
        invariant Spec.TryConsumeN(View(), times[i..]).1 == Spec.TryConsumeN(old(View()), times).1
      {
        assert times[i..][1..] == times[i + 1..];
        var granted := TryConsume(times[i]);
        if !granted {
          return false;
        }
        i := i + 1;
      }
      return true;
    }
  }
}
