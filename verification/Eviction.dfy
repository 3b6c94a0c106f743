/**
 * Exactly when eviction by stamp (src/service/idempotency.rs) keeps the most recently marked
 * ids, for any clock. The source sorts by stamp, and entries stamped alike, or stamped by a
 * clock that went back, may go in an order other than that of their marks.
 */
module Eviction {
  import opened Integers
  import opened IdempotencySpec

  // ----- some eviction always exists -----

  lemma {:induction false} OldestEntry(m: Times) returns (oldest: Id)
    requires m != map[]
    ensures oldest in m && forall x :: x in m ==> NotNewer(m, oldest, x)
    decreases |m|
  {
    oldest :| oldest in m;
    var rest := m - {oldest};
    assert rest.Keys == m.Keys - {oldest};
    assert forall x :: x in m <==> x == oldest || x in rest;
    if rest != map[] {
      var other := OldestEntry(rest);
      if m[other] < m[oldest] {
        forall x | x in m ensures NotNewer(m, other, x) {
          assert x != oldest ==> NotNewer(rest, other, x);
        }
        oldest := other;
      } else {
        forall x | x in m ensures NotNewer(m, oldest, x) {
          assert x != oldest ==> NotNewer(rest, other, x);
        }
      }
    }
  }

  lemma {:induction false} AnEvictionExists(m: Times, b: nat) returns (m': Times)
    ensures Evicts(m, m', b)
    decreases b
  {
    if b == 0 || m == map[] {
      m' := m;
    } else {
      var oldest := OldestEntry(m);
      var rest := m - {oldest};
      assert rest.Keys == m.Keys - {oldest} && |rest| == |rest.Keys| && |m| == |m.Keys|;
      m' := AnEvictionExists(rest, b - 1);
      forall x, y | x in m && x !in m' && y in m' ensures NotNewer(m, x, y) {
        assert x != oldest ==> NotNewer(rest, x, y);
      }
    }
  }

  // ----- a cut that is not clean -----

  function Only(m: Times, ids: seq<Id>): Times {
    map id | id in m && id in ids :: m[id]
  }

  /** Two entries across the cut whose stamps do not tell them apart can change places. */
  lemma SwapAcrossCut(m: Times, tracked: seq<Id>, k: nat, b: nat, i: nat, j: nat) returns (m': Times)
    requires Holds(m, tracked) && k == Max(|tracked| - b, 0) && i < k <= j < |tracked|
    requires NotNewer(m, tracked[i], tracked[j]) && Evicts(m, Only(m, tracked[..k]), b)
    ensures Evicts(m, m', b) && m'.Keys != Distinct(tracked[..k])
  {
    KeptByCut(m, tracked, k);
    AcrossCut(tracked, k, i, j);
    assert tracked[j] in Distinct(tracked);
    m' := SwapEntries(m, Only(m, tracked[..k]), b, tracked[i], tracked[j]);
  }

  lemma AcrossCut(tracked: seq<Id>, k: nat, i: nat, j: nat)
    requires NoRepeats(tracked) && i < k <= j < |tracked|
    ensures tracked[i] in Distinct(tracked[..k]) && tracked[j] !in Distinct(tracked[..k])
  {
    assert tracked[..k][i] == tracked[i];
    assert forall p :: 0 <= p < k ==> tracked[..k][p] == tracked[p] && tracked[p] != tracked[j];
  }

  lemma SwapEntries(m: Times, kept: Times, b: nat, x: Id, y: Id) returns (m': Times)
    requires Evicts(m, kept, b) && x in kept && y in m && y !in kept && NotNewer(m, x, y)
    ensures Evicts(m, m', b) && m'.Keys != kept.Keys
  {
    m' := (kept - {x})[y := m[y]];
    assert m'.Keys == kept.Keys - {x} + {y};
    assert |m'| == |m'.Keys| && |kept.Keys| == |kept|;
    assert NotNewer(m, y, x);
    forall u, v | u in m && u !in m' && v in m' ensures NotNewer(m, u, v) {
      SwappedOrder(m, kept, b, x, y, u, v);
    }
  }

  lemma SwappedOrder(m: Times, kept: Times, b: nat, x: Id, y: Id, u: Id, v: Id)
    requires Evicts(m, kept, b) && x in kept && y in m && y !in kept && NotNewer(m, x, y)
    requires u in m && (u == x || u !in kept) && u != y && (v == y || (v in kept && v != x))
    ensures NotNewer(m, u, v)
  {
    if u == x {
      assert v != y ==> NotNewer(m, y, v);
    } else {
      assert NotNewer(m, u, x);
      assert v != y ==> NotNewer(m, u, v);
    }
  }

  lemma KeptByCut(m: Times, tracked: seq<Id>, k: nat)
    requires Holds(m, tracked) && k <= |tracked|
    ensures Only(m, tracked[..k]).Keys == Distinct(tracked[..k])
  {
    forall id | id in tracked[..k] ensures id in m {
      var p :| 0 <= p < k && tracked[p] == id;
      assert id in Distinct(tracked);
    }
  }

  lemma SameKeysSameEntries(m: Times, a: Times, b: Times)
    requires a.Keys <= m.Keys && b.Keys <= m.Keys
    requires (forall id <- a :: a[id] == m[id]) && (forall id <- b :: b[id] == m[id])
    ensures a.Keys == b.Keys ==> a == b
  {
    if a.Keys == b.Keys {
      assert forall id :: id in a <==> id in b.Keys;
    }
  }

  /** If two stamps across the cut are in the wrong order or equal, some eviction keeps other ids
      than those before the cut. */
  lemma UncleanCutCanFail(m: Times, tracked: seq<Id>, b: nat, i: nat, j: nat) returns (m': Times)
    requires Holds(m, tracked) && i < Max(|tracked| - b, 0) <= j < |tracked|
    requires NotNewer(m, tracked[i], tracked[j])
    ensures Evicts(m, m', b) && m'.Keys != Distinct(tracked[..Max(|tracked| - b, 0)])
  {
    var k: nat := Max(|tracked| - b, 0);
    if Evicts(m, Only(m, tracked[..k]), b) {
      m' := SwapAcrossCut(m, tracked, k, b, i, j);
    } else {
      m' := AnEvictionExists(m, b);
      KeptByCut(m, tracked, k);
      SameKeysSameEntries(m, m', Only(m, tracked[..k]));
    }
  }

  /** The exact condition, for any stamps: every eviction of b entries keeps exactly the first
      ids of the order if and only if all of those are stamped later than all the others. */
  lemma EvictionIsExact(m: Times, tracked: seq<Id>, b: nat)
    requires Holds(m, tracked)
    ensures
      var k: nat := Max(|tracked| - b, 0);
      (forall m' :: Evicts(m, m', b) ==> m'.Keys == Distinct(tracked[..k])) <==> CleanCut(m, tracked, k)
  {
    var k: nat := Max(|tracked| - b, 0);
    if CleanCut(m, tracked, k) {
      forall m' | Evicts(m, m', b) ensures m'.Keys == Distinct(tracked[..k]) {
        CleanCutIsKept(m, m', tracked, tracked[..k], b);
      }
    } else {
      var i: nat, j: nat :| i < k <= j < |tracked| && NotNewer(m, tracked[i], tracked[j]);
      var m' := UncleanCutCanFail(m, tracked, b, i, j);
    }
  }

  /** While the clock does not go back, only the two entries at the cut matter. */
  lemma CutUnderMonotoneClock(m: Times, tracked: seq<Id>, clock: int, k: nat)
    requires Represents(m, tracked, clock, 0)
    ensures CleanCut(m, tracked, k) <==> (0 < k < |tracked| ==> !NotNewer(m, tracked[k - 1], tracked[k]))
  {
    if 0 < k < |tracked| && !NotNewer(m, tracked[k - 1], tracked[k]) {
      forall i, j | 0 <= i < k <= j < |tracked| ensures !NotNewer(m, tracked[i], tracked[j]) {
        StampsDoNotRise(m, tracked, clock, i, k - 1);
        StampsDoNotRise(m, tracked, clock, k, j);
      }
    }
  }

  lemma StampsDoNotRise(m: Times, tracked: seq<Id>, clock: int, i: nat, j: nat)
    requires Represents(m, tracked, clock, 0) && i <= j < |tracked|
    ensures tracked[i] in m && tracked[j] in m && m[tracked[i]] >= m[tracked[j]]
  {
    DecreasingBelow(m, tracked, clock, 0, i);
    if i < j {
      DecreasingAt(m, tracked, clock, 0, i, j);
    }
  }

  // ----- one call of mark_processed -----

  lemma SizeWith(a: set<Id>, x: Id)
    ensures |a + {x}| == if x in a then |a| else |a| + 1
  {
    if x in a {
      assert a + {x} == a;
    }
  }

  lemma SameAfterAdding(a: set<Id>, b: set<Id>, x: Id)
    requires |a| == |b|
    ensures a + {x} == b + {x} <==> a == b
  {
    SizeWith(a, x);
    SizeWith(b, x);
    if a + {x} == b + {x} {
      forall y ensures y in a <==> y in b {
        assert y != x ==> (y in a <==> y in a + {x}) && (y in b <==> y in b + {x});
      }
    }
  }

  lemma StampedIds(max: nat, m: Times, left: Times, marks: seq<Id>, id: Id, now: int)
    requires Holds(m, Tracked(max, marks)) && MadeRoom(max, m, left)
    ensures Holds(left[id := now], Tracked(max, marks + [id])) <==> left.Keys == Distinct(Left(max, Tracked(max, marks)))
  {
    var kept := Left(max, Tracked(max, marks));
    RoomSize(max, m, left, Tracked(max, marks));
    TrackOneMore(max, marks, id);
    StampedOver(left, kept, id, now);
  }

  lemma StampedOver(left: Times, kept: seq<Id>, id: Id, now: int)
    requires NoRepeats(kept) && |left.Keys| == |Distinct(kept)|
    ensures Holds(left[id := now], MoveToFront(kept, id)) <==> left.Keys == Distinct(kept)
  {
    MarkedIds(kept, id);
    assert left[id := now].Keys == left.Keys + {id};
    SameAfterAdding(left.Keys, Distinct(kept), id);
  }

  lemma RoomSize(max: nat, m: Times, left: Times, tracked: seq<Id>)
    requires Holds(m, tracked) && MadeRoom(max, m, left)
    ensures NoRepeats(Left(max, tracked)) && |left.Keys| == |Distinct(Left(max, tracked))|
  {
    HoldsSize(m, tracked);
    NoRepeatsPrefix(tracked, Left(max, tracked));
    NoRepeatsSize(Left(max, tracked));
    assert |left.Keys| == |left|;
  }

  /** For any clock and any choice among the oldest entries: one call leaves exactly the tracked
      ids of all marks so far if and only if it need not evict or has a clean cut to make. */
  lemma MarkIsExact(max: nat, m: Times, marks: seq<Id>, id: Id, now: int)
    requires Holds(m, Tracked(max, marks))
    ensures (forall left :: MadeRoom(max, m, left) ==> Holds(left[id := now], Tracked(max, marks + [id])))
      <==> CleanRoom(max, m, Tracked(max, marks))
  {
    var tracked := Tracked(max, marks);
    HoldsSize(m, tracked);
    forall left | MadeRoom(max, m, left)
      ensures Holds(left[id := now], Tracked(max, marks + [id])) <==> left.Keys == Distinct(Left(max, tracked))
    {
      StampedIds(max, m, left, marks, id, now);
    }
    if |m| >= max {
      EvictionIsExact(m, tracked, Batch(max));
      assert Left(max, tracked) == tracked[..Max(|tracked| - Batch(max), 0)];
      assert forall left :: MadeRoom(max, m, left) <==> Evicts(m, left, Batch(max));
    }
  }

  /** The smallest instance: two entries stamped alike fill a cache of two, and the one marked
      later can be evicted. */
  lemma TiesCanEvictTheLater(earlier: Id, later: Id, time: int)
    requires earlier != later
    ensures
      var m: Times := map[earlier := time, later := time];
      && Holds(m, Tracked(2, [earlier, later])) && !CleanRoom(2, m, Tracked(2, [earlier, later]))
      && MadeRoom(2, m, map[earlier := time]) && Left(2, Tracked(2, [earlier, later])) == [later]
  {
    var m: Times := map[earlier := time, later := time];
    assert m.Keys == {earlier, later} && |m| == |m.Keys|;
    TwoMarks(earlier, later);
    var tracked := [later, earlier];
    assert NotNewer(m, tracked[0], tracked[1]);
  }

  lemma TwoMarks(earlier: Id, later: Id)
    requires earlier != later
    ensures Tracked(2, [earlier, later]) == [later, earlier] && Left(2, [later, earlier]) == [later]
  {
    TrackOneMore(2, [], earlier);
    TrackOneMore(2, [earlier], later);
    assert [] + [earlier] == [earlier] && [earlier] + [later] == [earlier, later];
    assert [earlier][1..] == [] && Without([earlier], later) == [earlier];
  }
}
