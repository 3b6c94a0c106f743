/**
 * Bounded deduplication (src/service/idempotency.rs). The tracked ids are described by the
 * sequence of marks made so far: they are a most-recently-marked prefix of the distinct ids.
 * Entries are evicted by their stamps, so which ids are left depends on the clock: the file
 * Eviction.dfy says exactly when they are the most recently marked ones.
 */
module IdempotencySpec {
  import opened Integers
  import opened Wrappers

  datatype Id = Id(text: string)

  const DEFAULT_MAX_ENTRIES: nat := 100_000

  /** How many entries one eviction removes. */
  function Batch(max: nat): nat { Max(max / 10, 1) }

  /** How many of the most recently marked ids are tracked for certain. */
  function Window(max: nat): nat { Max(max - Batch(max), 1) }

  /** A tenth of the capacity, rounded down, but at least one. */
  lemma BatchIsATenth(max: nat)
    ensures if max < 10 then Batch(max) == 1 else 10 * Batch(max) <= max < 10 * Batch(max) + 10
    ensures max > 1 ==> Window(max) + Batch(max) == max
    ensures max <= 1 ==> Window(max) == 1
  {
  }

  function Distinct(ids: seq<Id>): set<Id> { set id | id in ids }

  function Without(ids: seq<Id>, id: Id): seq<Id> {
    if ids == [] then []
    else if ids[0] == id then Without(ids[1..], id)
    else [ids[0]] + Without(ids[1..], id)
  }

  function MoveToFront(order: seq<Id>, id: Id): seq<Id> {
    [id] + Without(order, id)
  }

  /** The distinct ids marked so far, most recent first. */
  function Recency(marks: seq<Id>): seq<Id> {
    if marks == [] then [] else MoveToFront(Recency(marks[..|marks| - 1]), marks[|marks| - 1])
  }

  /** What the eviction that precedes a mark leaves, if there is one: the most recent part. */
  function Left(max: nat, tracked: seq<Id>): seq<Id> {
    if |tracked| >= max then tracked[..Max(|tracked| - Batch(max), 0)] else tracked
  }

  /** The ids tracked after these marks, most recent first. */
  function Tracked(max: nat, marks: seq<Id>): seq<Id> {
    if marks == [] then [] else MoveToFront(Left(max, Tracked(max, marks[..|marks| - 1])), marks[|marks| - 1])
  }

  predicate NoRepeats(ids: seq<Id>) {
    forall i, j :: 0 <= i < j < |ids| ==> ids[i] != ids[j]
  }

  // ----- the recency order -----

  lemma {:induction false} WithoutKeeps(ids: seq<Id>, id: Id)
    requires NoRepeats(ids)
    ensures NoRepeats(Without(ids, id)) && Distinct(Without(ids, id)) == Distinct(ids) - {id}
    ensures id !in ids ==> Without(ids, id) == ids
  {
    if ids != [] {
      WithoutKeeps(ids[1..], id);
      var rest := Without(ids[1..], id);
      assert Distinct(ids) == {ids[0]} + Distinct(ids[1..]) by {
        assert ids == [ids[0]] + ids[1..];
      }
      assert ids[0] !in ids[1..];
      assert ids[0] in rest <==> ids[0] in Distinct(rest);
      if ids[0] != id {
        assert Distinct([ids[0]] + rest) == {ids[0]} + Distinct(rest);
      }
    }
  }

  lemma {:induction false} RecencyIsDistinct(marks: seq<Id>)
    ensures NoRepeats(Recency(marks)) && Distinct(Recency(marks)) == Distinct(marks)
  {
    if marks != [] {
      var before, id := marks[..|marks| - 1], marks[|marks| - 1];
      RecencyIsDistinct(before);
      WithoutKeeps(Recency(before), id);
      var rest := Without(Recency(before), id);
      assert id in rest <==> id in Distinct(rest);
      assert Distinct([id] + rest) == {id} + Distinct(rest);
      assert marks == before + [id];
      assert Distinct(marks) == Distinct(before) + {id};
    }
  }

  lemma {:induction false} NoRepeatsSize(ids: seq<Id>)
    requires NoRepeats(ids)
    ensures |Distinct(ids)| == |ids|
  {
    if ids != [] {
      NoRepeatsSize(ids[1..]);
      assert ids == [ids[0]] + ids[1..];
      assert Distinct(ids) == {ids[0]} + Distinct(ids[1..]);
    }
  }

  /** What precedes an id. */
  function Before(order: seq<Id>, id: Id): seq<Id> {
    if order == [] || order[0] == id then [] else [order[0]] + Before(order[1..], id)
  }

  lemma {:induction false} BeforeIsPrefix(order: seq<Id>, id: Id)
    ensures Before(order, id) <= order && id !in Before(order, id)
    ensures id in order ==> |Before(order, id)| < |order| && order[|Before(order, id)|] == id
  {
    if order != [] && order[0] != id {
      BeforeIsPrefix(order[1..], id);
    }
  }

  lemma {:induction false} BeforeWithout(order: seq<Id>, id: Id, last: Id)
    requires id != last
    ensures Before(Without(order, last), id) == Without(Before(order, id), last)
  {
    if order != [] {
      BeforeWithout(order[1..], id, last);
    }
  }

  lemma NoRepeatsPrefix(ids: seq<Id>, prefix: seq<Id>)
    requires NoRepeats(ids) && prefix <= ids
    ensures NoRepeats(prefix)
  {
    forall i, j | 0 <= i < j < |prefix| ensures prefix[i] != prefix[j] {
      assert prefix[i] == ids[i] && prefix[j] == ids[j];
    }
  }

  lemma MarkOneMore(marks: seq<Id>, last: Id)
    ensures Recency(marks + [last]) == MoveToFront(Recency(marks), last)
    ensures Distinct(marks + [last]) == Distinct(marks) + {last}
  {
    assert (marks + [last])[..|marks|] == marks;
  }

  /** What precedes an id after another one is marked. */
  lemma MarkBefore(order: seq<Id>, id: Id, last: Id)
    requires NoRepeats(order) && id != last
    ensures Distinct(Before(MoveToFront(order, last), id)) == Distinct(Before(order, id)) + {last}
  {
    var rest := Without(order, last);
    assert MoveToFront(order, last)[1..] == rest;
    BeforeWithout(order, id, last);
    BeforeIsPrefix(order, id);
    NoRepeatsPrefix(order, Before(order, id));
    WithoutKeeps(Before(order, id), last);
    ConsDistinct(last, Before(rest, id));
  }

  lemma ConsDistinct(id: Id, ids: seq<Id>)
    ensures Distinct([id] + ids) == {id} + Distinct(ids)
  {
  }

  lemma NothingBeforeLast(before: seq<Id>, id: Id)
    ensures Before(Recency(before + [id]), id) == []
  {
    MarkOneMore(before, id);
  }

  lemma MarkBothOnce(earlier: seq<Id>, id: Id, rest: seq<Id>, last: Id)
    requires id != last && Distinct(Before(Recency(earlier), id)) == Distinct(rest)
    ensures Distinct(Before(Recency(earlier + [last]), id)) == Distinct(rest + [last])
  {
    RecencyIsDistinct(earlier);
    MarkBefore(Recency(earlier), id, last);
    MarkOneMore(earlier, last);
    MarkOneMore(rest, last);
  }

  /** The ids before an id in the recency order are the distinct ids marked since its last mark. */
  lemma {:induction false} BeforeIsMarkedSince(before: seq<Id>, id: Id, after: seq<Id>)
    requires id !in after
    ensures Distinct(Before(Recency(before + [id] + after), id)) == Distinct(after)
    decreases |after|
  {
    if after == [] {
      assert before + [id] + after == before + [id];
      NothingBeforeLast(before, id);
    } else {
      var last, rest := after[|after| - 1], after[..|after| - 1];
      BeforeIsMarkedSince(before, id, rest);
      MarkBothOnce(before + [id] + rest, id, rest, last);
      assert after == rest + [last] && before + [id] + after == (before + [id] + rest) + [last];
    }
  }

  /** So an id's place in that order is the number of distinct ids marked since. */
  lemma PlaceIsDistinctSince(before: seq<Id>, id: Id, after: seq<Id>)
    requires id !in after
    ensures var order := Recency(before + [id] + after);
      |Distinct(after)| < |order| && order[|Distinct(after)|] == id
  {
    var marks := before + [id] + after;
    BeforeIsMarkedSince(before, id, after);
    RecencyIsDistinct(marks);
    BeforeIsPrefix(Recency(marks), id);
    NoRepeatsPrefix(Recency(marks), Before(Recency(marks), id));
    NoRepeatsSize(Before(Recency(marks), id));
    assert id in Distinct(marks);
  }

  // ----- how many ids are tracked -----

  lemma {:induction false} WithoutPrefix(a: seq<Id>, b: seq<Id>, id: Id)
    requires a <= b
    ensures Without(a, id) <= Without(b, id)
  {
    if a != [] {
      assert a[0] == b[0] && a[1..] <= b[1..];
      WithoutPrefix(a[1..], b[1..], id);
    }
  }

  /** The tracked ids are always a most-recently-marked prefix of the distinct ids. Their number
      never exceeds the capacity (one, for capacity zero), and they are all the distinct ids until
      there are more than the window. */
  lemma {:induction false} TrackedIsARecentPrefix(max: nat, marks: seq<Id>)
    ensures Tracked(max, marks) <= Recency(marks)
    ensures Min(|Distinct(marks)|, Window(max)) <= |Tracked(max, marks)| <= Max(max, 1)
  {
    RecencyIsDistinct(marks);
    NoRepeatsSize(Recency(marks));
    if marks != [] {
      var before, id := marks[..|marks| - 1], marks[|marks| - 1];
      TrackedIsARecentPrefix(max, before);
      RecencyIsDistinct(before);
      NoRepeatsSize(Recency(before));
      OneMoreMark(max, Recency(before), Tracked(max, before), id);
    }
  }

  lemma OneMoreMark(max: nat, order: seq<Id>, tracked: seq<Id>, id: Id)
    requires NoRepeats(order) && tracked <= order
    requires Min(|order|, Window(max)) <= |tracked| <= Max(max, 1)
    ensures var order', tracked' := MoveToFront(order, id), MoveToFront(Left(max, tracked), id);
      tracked' <= order' && Min(|order'|, Window(max)) <= |tracked'| <= Max(max, 1)
  {
    var left := Left(max, tracked);
    WithoutPrefix(left, order, id);
    WithoutSize(order, id);
    WithoutSize(left, id);
  }

  lemma {:induction false} WithoutSize(ids: seq<Id>, id: Id)
    requires NoRepeats(ids)
    ensures |Without(ids, id)| == if id in ids then |ids| - 1 else |ids|
  {
    if ids != [] {
      assert ids == [ids[0]] + ids[1..];
      WithoutSize(ids[1..], id);
    }
  }

  /** The dedup window: an id stays tracked until `Window` other distinct ids have been marked
      after it, and is gone once as many as the capacity have. */
  lemma MarkedIdsStayTracked(max: nat, before: seq<Id>, id: Id, after: seq<Id>)
    requires id !in after
    ensures |Distinct(after)| < Window(max) ==> id in Tracked(max, before + [id] + after)
    ensures |Distinct(after)| >= Max(max, 1) ==> id !in Tracked(max, before + [id] + after)
  {
    var marks := before + [id] + after;
    PlaceIsDistinctSince(before, id, after);
    TrackedIsARecentPrefix(max, marks);
    RecencyIsDistinct(marks);
    NoRepeatsSize(Recency(marks));
  }

  // ----- the handler -----

  datatype Event = Event(id: Id, outcome: Result<(), string>)

  /** The handler runs only for an id that is not tracked, and only its success is marked. */
  function Process(max: nat, marks: seq<Id>, e: Event): (r: seq<Id>)
    ensures marks <= r
  {
    if e.id in Tracked(max, marks) || e.outcome.Failure? then marks else marks + [e.id]
  }

  function ProcessAll(max: nat, events: seq<Event>): seq<Id> {
    if events == [] then [] else Process(max, ProcessAll(max, events[..|events| - 1]), events[|events| - 1])
  }

  predicate HandlerRuns(max: nat, events: seq<Event>, j: nat)
    requires j < |events|
  {
    events[j].id !in Tracked(max, ProcessAll(max, events[..j]))
  }

  lemma ProcessOneMore(max: nat, events: seq<Event>, j: nat)
    requires j < |events|
    ensures ProcessAll(max, events[..j + 1]) == Process(max, ProcessAll(max, events[..j]), events[j])
  {
    assert events[..j + 1][..j] == events[..j];
  }

  /** The ids marked by events i to j. */
  function MarkedBetween(max: nat, events: seq<Event>, i: nat, j: nat): seq<Id>
    requires i <= j <= |events|
  {
    var m, n := |ProcessAll(max, events[..i])|, |ProcessAll(max, events[..j])|;
    ProcessAll(max, events[..j])[Min(m, n)..]
  }

  lemma {:induction false} Subset(a: set<Id>, b: set<Id>)
    requires a <= b
    ensures |a| <= |b|
  {
    if a != {} {
      var x :| x in a;
      Subset(a - {x}, b - {x});
    }
  }

  lemma MarksOnlyGrow(max: nat, events: seq<Event>, i: nat, j: nat)
    requires i <= j <= |events|
    ensures ProcessAll(max, events[..i]) <= ProcessAll(max, events[..j])
  {
    GrowsFromPrefix(max, events[..i], events[..j]);
  }

  lemma {:induction false} GrowsFromPrefix(max: nat, earlier: seq<Event>, events: seq<Event>)
    requires earlier <= events
    ensures ProcessAll(max, earlier) <= ProcessAll(max, events)
    decreases |events|
  {
    if |earlier| < |events| {
      GrowsFromPrefix(max, earlier, events[..|events| - 1]);
    } else {
      assert earlier == events;
    }
  }

  /** Every mark was made when its id was not tracked. */
  predicate MarkedOnlyUntracked(max: nat, marks: seq<Id>) {
    marks == [] ||
    (marks[|marks| - 1] !in Tracked(max, marks[..|marks| - 1]) && MarkedOnlyUntracked(max, marks[..|marks| - 1]))
  }

  lemma {:induction false} HandlerMarksOnlyUntracked(max: nat, events: seq<Event>)
    ensures MarkedOnlyUntracked(max, ProcessAll(max, events))
  {
    if events != [] {
      var before, id := ProcessAll(max, events[..|events| - 1]), events[|events| - 1].id;
      HandlerMarksOnlyUntracked(max, events[..|events| - 1]);
      assert (before + [id])[..|before|] == before;
    }
  }

  /** So an id cannot be marked again before `Window` distinct ids have been. */
  lemma {:induction false} NotMarkedAgain(max: nat, before: seq<Id>, id: Id, after: seq<Id>)
    requires MarkedOnlyUntracked(max, before + [id] + after)
    requires |Distinct(after)| < Window(max)
    ensures id !in after
    decreases |after|
  {
    if after != [] {
      var rest, last := after[..|after| - 1], after[|after| - 1];
      assert after == rest + [last] && before + [id] + after == (before + [id] + rest) + [last];
      MoreDistinct(rest, last);
      LastWasUntracked(max, before + [id] + rest, last);
      NotMarkedAgain(max, before, id, rest);
      LastIsAnother(max, before, id, rest, last);
    }
  }

  lemma LastIsAnother(max: nat, before: seq<Id>, id: Id, rest: seq<Id>, last: Id)
    requires last !in Tracked(max, before + [id] + rest)
    requires id !in rest && |Distinct(rest)| < Window(max)
    ensures last != id
  {
    MarkedIdsStayTracked(max, before, id, rest);
  }

  lemma LastWasUntracked(max: nat, marks: seq<Id>, last: Id)
    requires MarkedOnlyUntracked(max, marks + [last])
    ensures MarkedOnlyUntracked(max, marks) && last !in Tracked(max, marks)
  {
    assert (marks + [last])[..|marks|] == marks;
  }

  lemma MoreDistinct(ids: seq<Id>, last: Id)
    ensures |Distinct(ids)| <= |Distinct(ids + [last])|
  {
    MarkOneMore(ids, last);
    Subset(Distinct(ids), Distinct(ids + [last]));
  }

  lemma MarksSinceSuccess(max: nat, events: seq<Event>, i: nat, j: nat)
    requires i < j <= |events| && HandlerRuns(max, events, i) && events[i].outcome.Success?
    ensures ProcessAll(max, events[..j])
      == ProcessAll(max, events[..i]) + [events[i].id] + MarkedBetween(max, events, i + 1, j)
  {
    SuccessMarks(max, events, i);
    MarksSplit(max, events, i + 1, j);
  }

  lemma SuccessMarks(max: nat, events: seq<Event>, i: nat)
    requires i < |events| && HandlerRuns(max, events, i) && events[i].outcome.Success?
    ensures ProcessAll(max, events[..i + 1]) == ProcessAll(max, events[..i]) + [events[i].id]
  {
    ProcessOneMore(max, events, i);
  }

  lemma MarksSplit(max: nat, events: seq<Event>, i: nat, j: nat)
    requires i <= j <= |events|
    ensures ProcessAll(max, events[..j]) == ProcessAll(max, events[..i]) + MarkedBetween(max, events, i, j)
  {
    MarksOnlyGrow(max, events, i, j);
  }

  /** A succeeded id is not handed to the handler again while fewer than `Window` distinct ids
      have been marked since. */
  lemma SucceededIsNotRunAgain(max: nat, events: seq<Event>, i: nat, j: nat)
    requires i < j < |events| && events[j].id == events[i].id
    requires HandlerRuns(max, events, i) && events[i].outcome.Success?
    requires |Distinct(MarkedBetween(max, events, i + 1, j))| < Window(max)
    ensures !HandlerRuns(max, events, j)
    ensures ProcessAll(max, events[..j + 1]) == ProcessAll(max, events[..j])
  {
    var before, id, between := ProcessAll(max, events[..i]), events[i].id, MarkedBetween(max, events, i + 1, j);
    MarksSinceSuccess(max, events, i, j);
    HandlerMarksOnlyUntracked(max, events[..j]);
    NotMarkedAgain(max, before, id, between);
    MarkedIdsStayTracked(max, before, id, between);
    ProcessOneMore(max, events, j);
  }

  // ----- the timestamps that stand for the recency order -----

  type Times = map<Id, int>

  /** Each id is stamped at least `gap` before the one that precedes it, the first before `bound`. */
  predicate Decreasing(m: Times, ids: seq<Id>, bound: int, gap: nat) {
    ids == [] || (ids[0] in m && m[ids[0]] + gap <= bound && Decreasing(m, ids[1..], m[ids[0]], gap))
  }

  /** Exactly these ids have an entry. */
  ghost predicate Holds(m: Times, tracked: seq<Id>) {
    NoRepeats(tracked) && m.Keys == Distinct(tracked)
  }

  /** Exactly these ids have an entry, each stamped later than the next by at least `gap`, and none
      after `clock`. A clock that always advances gives a gap of 1, one that may stand still 0. */
  ghost predicate Represents(m: Times, tracked: seq<Id>, clock: int, gap: nat) {
    Holds(m, tracked) && Decreasing(m, tracked, clock + gap, gap)
  }

  lemma {:induction false} DecreasingBelow(m: Times, ids: seq<Id>, bound: int, gap: nat, j: nat)
    requires Decreasing(m, ids, bound, gap) && j < |ids|
    ensures ids[j] in m && m[ids[j]] + gap <= bound
  {
    if j > 0 {
      DecreasingBelow(m, ids[1..], m[ids[0]], gap, j - 1);
    }
  }

  lemma {:induction false} DecreasingAt(m: Times, ids: seq<Id>, bound: int, gap: nat, i: nat, j: nat)
    requires Decreasing(m, ids, bound, gap) && i < j < |ids|
    ensures ids[i] in m && ids[j] in m && m[ids[i]] >= m[ids[j]] + gap
  {
    if i == 0 {
      DecreasingBelow(m, ids[1..], m[ids[0]], gap, j - 1);
    } else {
      DecreasingAt(m, ids[1..], m[ids[0]], gap, i - 1, j - 1);
    }
  }

  lemma {:induction false} DecreasingAgrees(m: Times, m': Times, ids: seq<Id>, prefix: seq<Id>, bound: int, gap: nat)
    requires Decreasing(m, ids, bound, gap) && prefix <= ids
    requires forall id :: id in prefix ==> id in m' && (id in m ==> m'[id] == m[id])
    ensures Decreasing(m', prefix, bound, gap)
  {
    if prefix != [] {
      assert prefix[0] == ids[0] && prefix[1..] <= ids[1..];
      DecreasingAgrees(m, m', ids[1..], prefix[1..], m[ids[0]], gap);
    }
  }

  lemma {:induction false} WithoutKeepsDecreasing(m: Times, ids: seq<Id>, id: Id, bound: int, gap: nat)
    requires Decreasing(m, ids, bound, gap)
    ensures Decreasing(m, Without(ids, id), bound, gap)
  {
    if ids != [] {
      WithoutKeepsDecreasing(m, ids[1..], id, m[ids[0]], gap);
    }
  }

  lemma DecreasingWeaken(m: Times, ids: seq<Id>, bound: int, bound': int, gap: nat)
    requires Decreasing(m, ids, bound, gap) && bound <= bound'
    ensures Decreasing(m, ids, bound', gap)
  {
  }

  // ----- eviction -----

  /** An eviction of b entries: no entry kept is older than one removed. */
  ghost predicate Evicts(m: Times, m': Times, b: nat) {
    && m'.Keys <= m.Keys && (forall id <- m' :: m'[id] == m[id])
    && |m'| == Max(|m| - b, 0)
    && (forall x, y :: x in m && x !in m' && y in m' ==> NotNewer(m, x, y))
  }

  predicate NotNewer(m: Times, x: Id, y: Id) {
    x in m && y in m && m[x] <= m[y]
  }

  /** Every id before the cut is stamped later than every id after it. */
  ghost predicate CleanCut(m: Times, tracked: seq<Id>, k: nat) {
    forall i, j :: 0 <= i < k <= j < |tracked| ==> !NotNewer(m, tracked[i], tracked[j])
  }

  lemma {:induction false} SubsetOfSameSize(a: set<Id>, b: set<Id>)
    requires a <= b && |a| == |b|
    ensures a == b
  {
    if a != {} {
      var x :| x in a;
      SubsetOfSameSize(a - {x}, b - {x});
    }
  }

  lemma HoldsSize(m: Times, tracked: seq<Id>)
    requires Holds(m, tracked)
    ensures |m| == |tracked|
  {
    NoRepeatsSize(tracked);
    assert |m.Keys| == |m|;
  }

  /** Over a clean cut every eviction keeps exactly the ids before it. */
  lemma CleanCutIsKept(m: Times, m': Times, tracked: seq<Id>, kept: seq<Id>, b: nat)
    requires Holds(m, tracked) && Evicts(m, m', b)
    requires kept <= tracked && |kept| == Max(|tracked| - b, 0) && CleanCut(m, tracked, |kept|)
    ensures Holds(m', kept)
  {
    HoldsSize(m, tracked);
    NoRepeatsPrefix(tracked, kept);
    NoRepeatsSize(kept);
    assert |m'.Keys| == |m'|;
    forall i | 0 <= i < |kept| ensures kept[i] in m' {
      BeforeCutIsKept(m, m', tracked, kept, i);
    }
    SubsetOfSameSize(Distinct(kept), m'.Keys);
  }

  lemma BeforeCutIsKept(m: Times, m': Times, tracked: seq<Id>, kept: seq<Id>, i: nat)
    requires Holds(m, tracked) && m'.Keys <= m.Keys && i < |kept| == |m'.Keys|
    requires forall x, y :: x in m && x !in m' && y in m' ==> NotNewer(m, x, y)
    requires kept <= tracked && CleanCut(m, tracked, |kept|)
    ensures kept[i] in m'
  {
    assert kept[i] in Distinct(kept);
    if kept[i] !in m' {
      // Nothing after the cut could then be kept, and before it there is one too few.
      assert tracked[i] == kept[i] && tracked[i] in Distinct(tracked);
      forall y | y in m'.Keys ensures y in Distinct(kept) {
        assert NotNewer(m, tracked[i], y);
        assert y in Distinct(tracked);
        var j :| 0 <= j < |tracked| && tracked[j] == y;
        assert j < |kept|;
        assert kept[j] == y;
      }
      NoRepeatsPrefix(tracked, kept);
      NoRepeatsSize(kept);
      SubsetOfSameSize(m'.Keys, Distinct(kept));
    }
  }

  /** While the stamps decrease strictly, every cut is clean. */
  lemma StrictCutIsClean(m: Times, tracked: seq<Id>, clock: int, gap: nat, k: nat)
    requires Represents(m, tracked, clock, gap) && 0 < gap
    ensures CleanCut(m, tracked, k)
  {
    forall i, j | 0 <= i < k <= j < |tracked| ensures !NotNewer(m, tracked[i], tracked[j]) {
      DecreasingAt(m, tracked, clock + gap, gap, i, j);
    }
  }

  lemma EvictionKeepsRecent(m: Times, m': Times, tracked: seq<Id>, kept: seq<Id>, clock: int, gap: nat, b: nat)
    requires Represents(m, tracked, clock, gap) && Evicts(m, m', b)
    requires kept <= tracked && |kept| == Max(|tracked| - b, 0) && CleanCut(m, tracked, |kept|)
    ensures Represents(m', kept, clock, gap)
  {
    CleanCutIsKept(m, m', tracked, kept, b);
    assert forall id :: id in kept ==> id in Distinct(kept);
    DecreasingAgrees(m, m', tracked, kept, clock + gap, gap);
  }

  // ----- one mark -----

  lemma ConsNoRepeats(id: Id, ids: seq<Id>)
    requires NoRepeats(ids) && id !in Distinct(ids)
    ensures NoRepeats([id] + ids)
  {
  }

  /** Marking an id adds it to those that have an entry. */
  lemma MarkedIds(tracked: seq<Id>, id: Id)
    requires NoRepeats(tracked)
    ensures NoRepeats(MoveToFront(tracked, id)) && Distinct(MoveToFront(tracked, id)) == Distinct(tracked) + {id}
  {
    WithoutKeeps(tracked, id);
    ConsNoRepeats(id, Without(tracked, id));
    ConsDistinct(id, Without(tracked, id));
  }

  lemma StampDecreases(m: Times, rest: seq<Id>, clock: int, gap: nat, id: Id, now: int)
    requires Decreasing(m, rest, clock + gap, gap) && now >= clock + gap && id !in Distinct(rest)
    ensures Decreasing(m[id := now], [id] + rest, now + gap, gap)
  {
    forall x | x in rest ensures x != id && x in m {
      assert x in Distinct(rest);
      var i :| 0 <= i < |rest| && rest[i] == x;
      DecreasingBelow(m, rest, clock + gap, gap, i);
    }
    DecreasingAgrees(m, m[id := now], rest, rest, clock + gap, gap);
    DecreasingWeaken(m[id := now], rest, clock + gap, now, gap);
    assert ([id] + rest)[1..] == rest;
  }

  /** Stamping an id with the current time moves it to the front. */
  lemma StampMovesToFront(m: Times, tracked: seq<Id>, clock: int, gap: nat, id: Id, now: int)
    requires Represents(m, tracked, clock, gap) && now >= clock + gap
    ensures Represents(m[id := now], MoveToFront(tracked, id), now, gap)
  {
    MarkedIds(tracked, id);
    WithoutKeeps(tracked, id);
    WithoutKeepsDecreasing(m, tracked, id, clock + gap, gap);
    StampDecreases(m, Without(tracked, id), clock, gap, id, now);
  }

  /** What precedes a stamp: an eviction if the map is full, nothing otherwise. */
  ghost predicate MadeRoom(max: nat, m: Times, left: Times) {
    if |m| >= max then Evicts(m, left, Batch(max)) else left == m
  }

  /** The eviction that precedes a stamp, if there is one, has a clean cut to make. */
  ghost predicate CleanRoom(max: nat, m: Times, tracked: seq<Id>) {
    |m| >= max ==> CleanCut(m, tracked, |Left(max, tracked)|)
  }

  lemma MakingRoomKeepsRecent(max: nat, m: Times, left: Times, tracked: seq<Id>, clock: int, gap: nat)
    requires Represents(m, tracked, clock, gap) && MadeRoom(max, m, left) && CleanRoom(max, m, tracked)
    ensures Represents(left, Left(max, tracked), clock, gap)
  {
    HoldsSize(m, tracked);
    if |m| >= max {
      FullMapKeepsRecent(max, m, left, tracked, clock, gap);
    }
  }

  lemma FullMapKeepsRecent(max: nat, m: Times, left: Times, tracked: seq<Id>, clock: int, gap: nat)
    requires Represents(m, tracked, clock, gap) && MadeRoom(max, m, left)
    requires |m| == |tracked| >= max && CleanCut(m, tracked, |Left(max, tracked)|)
    ensures Represents(left, Left(max, tracked), clock, gap)
  {
    EvictionKeepsRecent(m, left, tracked, Left(max, tracked), clock, gap, Batch(max));
  }

  lemma TrackOneMore(max: nat, marks: seq<Id>, id: Id)
    ensures Tracked(max, marks + [id]) == MoveToFront(Left(max, Tracked(max, marks)), id)
  {
    assert (marks + [id])[..|marks|] == marks;
  }

  /** One call of mark_processed keeps the stamps in the order of the marks: always while the
      clock advances, and over a clean cut while it does not go back. */
  lemma MarkKeepsRepresentation(max: nat, m: Times, left: Times, marks: seq<Id>, clock: int, gap: nat, id: Id, now: int)
    requires Represents(m, Tracked(max, marks), clock, gap) && now >= clock + gap
    requires MadeRoom(max, m, left) && (gap == 0 ==> CleanRoom(max, m, Tracked(max, marks)))
    ensures Represents(left[id := now], Tracked(max, marks + [id]), now, gap)
  {
    if 0 < gap {
      StrictCutIsClean(m, Tracked(max, marks), clock, gap, |Left(max, Tracked(max, marks))|);
    }
    MakingRoomKeepsRecent(max, m, left, Tracked(max, marks), clock, gap);
    TrackOneMore(max, marks, id);
    StampMovesToFront(left, Left(max, Tracked(max, marks)), clock, gap, id, now);
  }
}

module Idempotency {
  import opened Integers
  import opened Wrappers
  import opened Spec = IdempotencySpec

  predicate Ascending(m: Times, ids: seq<Id>) {
    (forall i :: 0 <= i < |ids| ==> ids[i] in m)
    && (forall i, j :: 0 <= i < j < |ids| ==> m[ids[i]] <= m[ids[j]])
  }

  class IdempotencyService {
    const maxEntries: nat
    var processed: Times
    ghost var marks: seq<Id>
    ghost var clock: int

    ghost predicate Valid()
      reads this
    {
      Represents(processed, Tracked(maxEntries, marks), clock, 1)
    }

    constructor (max: nat := DEFAULT_MAX_ENTRIES)
      ensures Valid() && maxEntries == max && marks == []
    {
      maxEntries, processed, marks, clock := max, map[], [], 0;
    }

    method IsProcessed(id: Id) returns (tracked: bool)
      ensures tracked <==> id in processed
      ensures Valid() ==> (tracked <==> id in Tracked(maxEntries, marks))
    {
      tracked := id in processed;
      assert id in processed.Keys <==> id in processed;
      assert id in Tracked(maxEntries, marks) <==> id in Distinct(Tracked(maxEntries, marks));
    }

    /** Whatever the clock reads, room is made and the id stamped, and the capacity holds. The
        stamps keep the order of the marks while the readings increase, and over clean cuts while
        they do not go back. */
    method MarkProcessed(id: Id, now: int) returns (ghost left: Times)
      modifies this
      ensures MadeRoom(maxEntries, old(processed), left) && processed == left[id := now]
      ensures marks == old(marks) + [id] && clock == now
      ensures old(|processed|) <= Max(maxEntries, 1) ==> |processed| <= Max(maxEntries, 1)
      ensures
        && old(Represents(processed, Tracked(maxEntries, marks), clock, 0)) && now >= old(clock)
        && old(CleanRoom(maxEntries, processed, Tracked(maxEntries, marks))) ==>
          Represents(processed, Tracked(maxEntries, marks), clock, 0)
      ensures old(Valid()) && now > old(clock) ==>
        Valid() && Min(|Distinct(marks)|, Window(maxEntries)) <= |processed| <= Max(maxEntries, 1)
    {
      if |processed| >= maxEntries {
        EvictOldestBatch();
      }
      left := processed;
      processed := processed[id := now];
      StampedSize(maxEntries, old(processed), left, id, now);
      MarkOverMonotoneClock(maxEntries, old(processed), left, marks, clock, id, now);
      MarkOverAdvancingClock(maxEntries, old(processed), left, marks, clock, id, now);
      marks, clock := marks + [id], now;
    }

    /** Collects the entries in no particular order, sorts them by time and removes the oldest. */
    method EvictOldestBatch()
      modifies this`processed
      ensures Evicts(old(processed), processed, Batch(maxEntries))
      ensures |processed| == Max(|old(processed)| - Max(maxEntries / 10, 1), 0)
    {
      var toRemove := Batch(maxEntries);
      var entries := OldestFirst(processed);
      var n := Min(toRemove, |entries|);
      for i := 0 to n
        invariant processed == old(processed) - Distinct(entries[..i])
      {
        RemoveOneMore(old(processed), entries, i);
        processed := processed - {entries[i]};
      }
      OldestRemoved(old(processed), entries, n, toRemove);
    }

    /** The keys, sorted by time. */
    static method OldestFirst(m: Times) returns (entries: seq<Id>)
      ensures NoRepeats(entries) && Distinct(entries) == m.Keys
      ensures Ascending(m, entries)
    {
      entries := [];
      var rest := m.Keys;
      while rest != {}
        invariant NoRepeats(entries) && rest <= m.Keys && Distinct(entries) == m.Keys - rest
        invariant Ascending(m, entries)
        decreases |rest|
      {
        var id :| id in rest;
        assert id !in Distinct(entries);
        entries := InsertByTime(m, entries, id);
        rest := rest - {id};
      }
    }

    static method InsertByTime(m: Times, entries: seq<Id>, id: Id) returns (longer: seq<Id>)
      requires NoRepeats(entries) && Ascending(m, entries) && id in m && id !in entries
      ensures NoRepeats(longer) && Ascending(m, longer) && Distinct(longer) == Distinct(entries) + {id}
    {
      var p := 0;
      while p < |entries| && m[entries[p]] <= m[id]
        invariant 0 <= p <= |entries|
        invariant forall i :: 0 <= i < p ==> m[entries[i]] <= m[id]
      {
        p := p + 1;
      }
      longer := entries[..p] + [id] + entries[p..];
      InsertedAt(entries, p, id);
      InsertedAscends(m, entries, p, id);
    }
  }

  lemma InsertedAt(entries: seq<Id>, p: nat, id: Id)
    requires NoRepeats(entries) && p <= |entries| && id !in entries
    ensures var longer := entries[..p] + [id] + entries[p..];
      NoRepeats(longer) && Distinct(longer) == Distinct(entries) + {id}
  {
    var front, back := entries[..p], entries[p..];
    assert entries == front + back;
    SameIds(front, id, back);
    forall i, j | 0 <= i < j < |entries| + 1 ensures (front + [id] + back)[i] != (front + [id] + back)[j] {
      InsertedFrom(entries, p, id, i);
      InsertedFrom(entries, p, id, j);
    }
  }

  lemma SameIds(front: seq<Id>, id: Id, back: seq<Id>)
    ensures Distinct(front + [id] + back) == Distinct(front + back) + {id}
  {
  }

  lemma InsertedFrom(entries: seq<Id>, p: nat, id: Id, i: nat)
    requires p <= |entries| && i <= |entries|
    ensures (entries[..p] + [id] + entries[p..])[i] == if i < p then entries[i] else if i == p then id else entries[i - 1]
  {
  }

  lemma InsertedAscends(m: Times, entries: seq<Id>, p: nat, id: Id)
    requires Ascending(m, entries) && p <= |entries| && id in m
    requires forall i :: 0 <= i < p ==> m[entries[i]] <= m[id]
    requires p < |entries| ==> m[id] <= m[entries[p]]
    ensures Ascending(m, entries[..p] + [id] + entries[p..])
  {
    var longer := entries[..p] + [id] + entries[p..];
    forall i | 0 <= i < |longer| ensures longer[i] in m {
      InsertedFrom(entries, p, id, i);
    }
    forall i, j | 0 <= i < j < |longer| ensures m[longer[i]] <= m[longer[j]] {
      InsertedFrom(entries, p, id, i);
      InsertedFrom(entries, p, id, j);
    }
  }

  lemma MarkOverMonotoneClock(max: nat, m: Times, left: Times, marks: seq<Id>, clock: int, id: Id, now: int)
    requires MadeRoom(max, m, left)
    ensures
      Represents(m, Tracked(max, marks), clock, 0) && now >= clock && CleanRoom(max, m, Tracked(max, marks)) ==>
        Represents(left[id := now], Tracked(max, marks + [id]), now, 0)
  {
    if Represents(m, Tracked(max, marks), clock, 0) && now >= clock && CleanRoom(max, m, Tracked(max, marks)) {
      MarkKeepsRepresentation(max, m, left, marks, clock, 0, id, now);
    }
  }

  lemma MarkOverAdvancingClock(max: nat, m: Times, left: Times, marks: seq<Id>, clock: int, id: Id, now: int)
    requires MadeRoom(max, m, left)
    ensures
      Represents(m, Tracked(max, marks), clock, 1) && now > clock ==>
        && Represents(left[id := now], Tracked(max, marks + [id]), now, 1)
        && Min(|Distinct(marks + [id])|, Window(max)) <= |left[id := now]| <= Max(max, 1)
  {
    if Represents(m, Tracked(max, marks), clock, 1) && now > clock {
      MarkKeepsRepresentation(max, m, left, marks, clock, 1, id, now);
      HoldsSize(left[id := now], Tracked(max, marks + [id]));
      TrackedIsARecentPrefix(max, marks + [id]);
    }
  }

  lemma StampedSize(max: nat, m: Times, left: Times, id: Id, now: int)
    requires MadeRoom(max, m, left)
    ensures |m| <= Max(max, 1) ==> |left[id := now]| <= Max(max, 1)
  {
    assert left[id := now].Keys == left.Keys + {id};
    assert |left[id := now]| == |left[id := now].Keys| && |left| == |left.Keys|;
  }

  lemma OldestRemoved(m: Times, entries: seq<Id>, n: nat, b: nat)
    requires NoRepeats(entries) && Distinct(entries) == m.Keys && Ascending(m, entries) && n == Min(b, |entries|)
    ensures Evicts(m, m - Distinct(entries[..n]), b)
  {
    var removed, m' := Distinct(entries[..n]), m - Distinct(entries[..n]);
    NoRepeatsSize(entries);
    NoRepeatsSize(entries[..n]);
    assert removed <= m.Keys by {
      assert forall id :: id in entries[..n] ==> id in entries;
    }
    RemovedSize(m, removed);
    forall x, y | x in m && x !in m' && y in m' ensures NotNewer(m, x, y) {
      RemovedIsOlder(m, entries, n, x, y);
    }
  }

  lemma RemovedSize(m: Times, removed: set<Id>)
    requires removed <= m.Keys
    ensures |m - removed| == |m.Keys| - |removed| && |m.Keys| == |m|
  {
    assert (m - removed).Keys == m.Keys - removed;
    assert |m - removed| == |(m - removed).Keys|;
  }

  lemma RemovedIsOlder(m: Times, entries: seq<Id>, n: nat, x: Id, y: Id)
    requires Ascending(m, entries) && n <= |entries|
    requires x in entries[..n] && y in Distinct(entries) && y !in Distinct(entries[..n])
    ensures x in m && y in m && m[x] <= m[y]
  {
    var i :| 0 <= i < n && entries[i] == x;
    var j :| 0 <= j < |entries| && entries[j] == y;
    assert j < n ==> entries[j] in entries[..n];
  }

  lemma RemoveOneMore(m: Times, entries: seq<Id>, i: nat)
    requires i < |entries|
    ensures (m - Distinct(entries[..i])) - {entries[i]} == m - Distinct(entries[..i + 1])
  {
    assert entries[..i + 1] == entries[..i] + [entries[i]];
    assert Distinct(entries[..i + 1]) == Distinct(entries[..i]) + {entries[i]};
  }

  class IdempotentHandler {
    const dedup: IdempotencyService

    constructor ()
      ensures fresh(dedup) && dedup.Valid() && dedup.maxEntries == DEFAULT_MAX_ENTRIES && dedup.marks == []
    {
      dedup := new IdempotencyService();
    }

    /** `outcome` is what the handler returns if it is run. */
    method Process(id: Id, outcome: Result<(), string>, now: int) returns (result: Result<(), string>, ran: bool)
      modifies dedup
      ensures ran <==> id !in old(dedup.processed)
      ensures result == if ran then outcome else Success(())
      ensures dedup.marks == old(dedup.marks) + if ran && outcome.Success? then [id] else []
      ensures !(ran && outcome.Success?) ==> dedup.processed == old(dedup.processed)
      ensures old(dedup.Valid()) && now > old(dedup.clock) ==>
        && dedup.Valid() && dedup.clock <= now
        && dedup.marks == Spec.Process(dedup.maxEntries, old(dedup.marks), Event(id, outcome))
        && (ran <==> id !in Tracked(dedup.maxEntries, old(dedup.marks)))
    {
      var tracked := dedup.IsProcessed(id);
      if tracked {
        return Success(()), false;
      }
      if outcome.Success? {
        ghost var left := dedup.MarkProcessed(id, now);
      }
      return outcome, true;
    }
  }
}
