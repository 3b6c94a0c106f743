/**
 * The wait-for graph and its cycle search (src/service/advanced.rs). The search is the
 * source's recursive depth-first search with shared `visited`, `in_stack` and `path`; hash
 * iteration order is left open by choosing any remaining element.
 */
module DeadlockDetector {
  import opened Wrappers

  type ThreadId = nat
  type Resource = string
  type Graph = map<ThreadId, set<ThreadId>>

  // ----- graphs -----

  predicate Edge(g: Graph, a: ThreadId, b: ThreadId) {
    a in g && b in g[a]
  }

  ghost predicate Walk(g: Graph, p: seq<ThreadId>) {
    forall i :: 0 <= i < |p| - 1 ==> Edge(g, p[i], p[i + 1])
  }

  /** A closed walk lists its first node again at the end. */
  ghost predicate ClosedWalk(g: Graph, p: seq<ThreadId>) {
    2 <= |p| && p[0] == p[|p| - 1] && Walk(g, p)
  }

  ghost predicate Acyclic(g: Graph) {
    forall p :: !ClosedWalk(g, p)
  }

  ghost function Nodes(g: Graph): set<ThreadId> {
    set a, b | a in g && b in g[a] + {a} :: b
  }

  lemma EdgeNodes(g: Graph, a: ThreadId)
    requires a in g
    ensures a in Nodes(g) && forall b :: b in g[a] ==> b in Nodes(g)
  {
    assert a in g[a] + {a};
    forall b | b in g[a] ensures b in Nodes(g) {
      assert b in g[a] + {a};
    }
  }

  /** Each listed node's successors are listed before it. */
  ghost predicate Ranking(g: Graph, order: seq<ThreadId>) {
    forall i, b :: 0 <= i < |order| && Edge(g, order[i], b) ==> b in order[..i]
  }

  ghost function Rank(order: seq<ThreadId>, a: ThreadId): (k: nat)
    requires a in order
    ensures k < |order| && order[k] == a && a !in order[..k]
  {
    if order[0] == a then 0 else
      assert order[1..][..Rank(order[1..], a)] == order[1..Rank(order[1..], a) + 1];
      assert order[..Rank(order[1..], a) + 1] == [order[0]] + order[1..Rank(order[1..], a) + 1];
      1 + Rank(order[1..], a)
  }

  lemma RankDecreases(g: Graph, order: seq<ThreadId>, a: ThreadId, b: ThreadId)
    requires Ranking(g, order) && a in order && Edge(g, a, b)
    ensures b in order && Rank(order, b) < Rank(order, a)
  {
    var k := Rank(order, a);
    assert b in order[..k];
  }

  lemma {:induction false} WalkDescends(g: Graph, order: seq<ThreadId>, p: seq<ThreadId>)
    requires Ranking(g, order) && Walk(g, p) && p != [] && p[0] in order
    ensures p[|p| - 1] in order
    ensures Rank(order, p[|p| - 1]) <= Rank(order, p[0])
    ensures 2 <= |p| ==> Rank(order, p[|p| - 1]) < Rank(order, p[0])
  {
    if 2 <= |p| {
      assert Edge(g, p[0], p[1]);
      RankDecreases(g, order, p[0], p[1]);
      forall i | 0 <= i < |p[1..]| - 1 ensures Edge(g, p[1..][i], p[1..][i + 1]) {
        assert Edge(g, p[i + 1], p[i + 2]);
      }
      WalkDescends(g, order, p[1..]);
    }
  }

  /** A ranking that covers every node with a successor leaves no room for a cycle. */
  lemma RankingImpliesAcyclic(g: Graph, order: seq<ThreadId>)
    requires Ranking(g, order) && forall a :: a in g ==> a in order
    ensures Acyclic(g)
  {
    forall p ensures !ClosedWalk(g, p) {
      if ClosedWalk(g, p) {
        assert Edge(g, p[0], p[1]);
        WalkDescends(g, order, p);
      }
    }
  }

  // ----- the search -----

  function ToSet(p: seq<ThreadId>): set<ThreadId> {
    set x | x in p
  }

  /** The state between visits: `path` is a walk, `in_stack` is its set, and every visited node
      off the path is finished, with all its successors finished before it. */
  ghost predicate SearchOk(g: Graph, visited: set<ThreadId>, inStack: set<ThreadId>, path: seq<ThreadId>,
                           order: seq<ThreadId>) {
    && visited <= Nodes(g)
    && inStack == ToSet(path)
    && visited == inStack + ToSet(order)
    && inStack !! ToSet(order)
    && Walk(g, path)
    && Ranking(g, order)
    && forall i, j :: 0 <= i < j < |path| ==> path[i] != path[j]
  }

  /** Index of the first occurrence, as `iter().position` finds it. */
  method Position(path: seq<ThreadId>, node: ThreadId) returns (pos: nat)
    requires node in path
    ensures pos < |path| && path[pos] == node && node !in path[..pos]
  {
    pos := 0;
    while path[pos] != node
      invariant pos < |path| && node !in path[..pos]
      decreases |path| - pos
    {
      assert node in path[..pos + 1] + path[pos + 1..] by { assert path == path[..pos + 1] + path[pos + 1..]; }
      pos := pos + 1;
    }
  }

  method DfsCycle(node: ThreadId, g: Graph, visited0: set<ThreadId>, inStack0: set<ThreadId>, path0: seq<ThreadId>,
                  ghost order0: seq<ThreadId>)
    returns (cycle: Option<seq<ThreadId>>, visited: set<ThreadId>, inStack: set<ThreadId>, path: seq<ThreadId>,
             ghost order: seq<ThreadId>)
    requires SearchOk(g, visited0, inStack0, path0, order0)
    requires node in Nodes(g) && node !in visited0
    requires path0 != [] ==> Edge(g, path0[|path0| - 1], node)
    ensures cycle.Some? ==> ClosedWalk(g, cycle.value)
    ensures cycle.None? ==>
      SearchOk(g, visited, inStack, path, order) && path == path0 && inStack == inStack0
      && visited0 <= visited && node in visited && order0 <= order
    decreases Nodes(g) - visited0
  {
    visited, inStack, path, order := visited0 + {node}, inStack0 + {node}, path0 + [node], order0;
    EnterNode(g, visited0, path0, node, order0);
    if node in g {
      var todo := g[node];
      EdgeNodes(g, node);
      while todo != {}
        invariant SearchOk(g, visited, inStack, path, order)
        invariant path == path0 + [node] && inStack == inStack0 + {node}
        invariant visited0 + {node} <= visited && order0 <= order
        invariant todo <= g[node] && forall b :: b in g[node] - todo ==> b in order
        decreases |todo|
      {
        var neighbor :| neighbor in todo;
        assert Edge(g, node, neighbor);
        if neighbor !in visited {
          var found;
          ghost var before := order;
          found, visited, inStack, path, order := DfsCycle(neighbor, g, visited, inStack, path, order);
          if found.Some? {
            return found, visited, inStack, path, order;
          }
          PrefixIsIncluded(before, order);
        } else if neighbor in inStack {
          var pos := Position(path, neighbor);
          var closed := path[pos..] + [neighbor];
          assert ClosedWalk(g, closed) by {
            CloseWalk(g, path, pos);
          }
          return Some(closed), visited, inStack, path, order;
        }
        todo := todo - {neighbor};
      }
    }
    FinishNode(g, visited, path0, node, order);
    order := order + [node];
    path := path[..|path| - 1];
    inStack := inStack - {node};
    return None, visited, inStack, path, order;
  }

  lemma PrefixIsIncluded(a: seq<ThreadId>, b: seq<ThreadId>)
    requires a <= b
    ensures forall x :: x in a ==> x in b
  {
    assert b == a + b[|a|..];
  }

  lemma EnterNode(g: Graph, visited: set<ThreadId>, path: seq<ThreadId>, node: ThreadId, order: seq<ThreadId>)
    requires SearchOk(g, visited, ToSet(path), path, order)
    requires node in Nodes(g) && node !in visited
    requires path != [] ==> Edge(g, path[|path| - 1], node)
    ensures SearchOk(g, visited + {node}, ToSet(path) + {node}, path + [node], order)
  {
    var path' := path + [node];
    assert ToSet(path') == ToSet(path) + {node};
    forall i | 0 <= i < |path'| - 1 ensures Edge(g, path'[i], path'[i + 1]) {
      if i < |path| - 1 {
        assert Edge(g, path[i], path[i + 1]);
      }
    }
  }

  lemma CloseWalk(g: Graph, path: seq<ThreadId>, pos: nat)
    requires Walk(g, path) && pos < |path| && Edge(g, path[|path| - 1], path[pos])
    ensures ClosedWalk(g, path[pos..] + [path[pos]])
  {
    var c := path[pos..] + [path[pos]];
    forall i | 0 <= i < |c| - 1 ensures Edge(g, c[i], c[i + 1]) {
      if i < |path| - pos - 1 {
        assert Edge(g, path[pos + i], path[pos + i + 1]);
      }
    }
  }

  lemma FinishNode(g: Graph, visited: set<ThreadId>, path0: seq<ThreadId>, node: ThreadId, order: seq<ThreadId>)
    requires SearchOk(g, visited, ToSet(path0 + [node]), path0 + [node], order)
    requires forall b :: Edge(g, node, b) ==> b in order
    ensures SearchOk(g, visited, ToSet(path0), path0, order + [node])
    ensures ToSet(path0 + [node]) - {node} == ToSet(path0)
  {
    var path := path0 + [node];
    assert path[..|path0|] == path0;
    assert forall i :: 0 <= i < |path0| ==> path[i] == path0[i];
    forall i | 0 <= i < |path0| - 1 ensures Edge(g, path0[i], path0[i + 1]) {
      assert Edge(g, path[i], path[i + 1]);
    }
    assert forall i :: 0 <= i < |path0| ==> path[i] != path[|path0|];
    assert ToSet(path) == ToSet(path0) + {node};
    assert ToSet(order + [node]) == ToSet(order) + {node};
    forall i, b | 0 <= i < |order + [node]| && Edge(g, (order + [node])[i], b) ensures b in (order + [node])[..i] {
      if i < |order| {
        assert (order + [node])[..i] == order[..i];
      } else {
        assert (order + [node])[..i] == order;
      }
    }
  }

  // ----- the detector -----

  ghost predicate HoldsSome(resources: seq<Resource>, owners: map<Resource, ThreadId>, b: ThreadId) {
    exists r :: r in resources && r in owners && owners[r] == b
  }

  lemma HoldsSomeExtend(resources: seq<Resource>, r: Resource, owners: map<Resource, ThreadId>)
    ensures forall b :: HoldsSome(resources + [r], owners, b) <==>
      HoldsSome(resources, owners, b) || (r in owners && owners[r] == b)
  {
    assert r in resources + [r];
    forall b | HoldsSome(resources, owners, b) ensures HoldsSome(resources + [r], owners, b) {
      var q :| q in resources && q in owners && owners[q] == b;
      assert q in resources + [r];
    }
  }

  /** Thread a waits for a resource that thread b holds. */
  ghost predicate WaitsFor(waiting: map<ThreadId, seq<Resource>>, owners: map<Resource, ThreadId>,
                           a: ThreadId, b: ThreadId) {
    a in waiting && HoldsSome(waiting[a], owners, b)
  }

  ghost predicate Deadlock(waiting: map<ThreadId, seq<Resource>>, owners: map<Resource, ThreadId>,
                           c: seq<ThreadId>) {
    2 <= |c| && c[0] == c[|c| - 1] && forall i :: 0 <= i < |c| - 1 ==> WaitsFor(waiting, owners, c[i], c[i + 1])
  }

  class DeadlockDetector {
    var held: map<ThreadId, seq<Resource>>
    var waiting: map<ThreadId, seq<Resource>>
    var owners: map<Resource, ThreadId>

    constructor ()
      ensures held == map[] && waiting == map[] && owners == map[]
    {
      held, waiting, owners := map[], map[], map[];
    }

    method Acquire(thread: ThreadId, resource: Resource)
      modifies this`held, this`owners
      ensures held == old(held)[thread := (if thread in old(held) then old(held)[thread] else []) + [resource]]
      ensures owners == old(owners)[resource := thread]
    {
      held := held[thread := (if thread in held then held[thread] else []) + [resource]];
      owners := owners[resource := thread];
    }

    method WaitFor(thread: ThreadId, resource: Resource)
      modifies this`waiting
      ensures waiting == old(waiting)[thread := (if thread in old(waiting) then old(waiting)[thread] else []) + [resource]]
      ensures forall a, b :: WaitsFor(waiting, owners, a, b) <==>
        WaitsFor(old(waiting), owners, a, b) || (a == thread && resource in owners && owners[resource] == b)
    {
      HoldsSomeExtend(if thread in waiting then waiting[thread] else [], resource, owners);
      waiting := waiting[thread := (if thread in waiting then waiting[thread] else []) + [resource]];
    }

    /** The edges of one waiting thread. */
    method AddEdges(g0: Graph, waiter: ThreadId) returns (g: Graph)
      requires waiter in waiting && waiter !in g0
      ensures g.Keys <= g0.Keys + {waiter}
      ensures forall a :: a != waiter ==> (a in g <==> a in g0) && (a in g ==> g[a] == g0[a])
      ensures forall b :: Edge(g, waiter, b) <==> WaitsFor(waiting, owners, waiter, b)
    {
      g := g0;
      var resources := waiting[waiter];
      for i := 0 to |resources|
        invariant g.Keys <= g0.Keys + {waiter}
        invariant forall a :: a != waiter ==> (a in g <==> a in g0) && (a in g ==> g[a] == g0[a])
        invariant forall b :: Edge(g, waiter, b) <==> HoldsSome(resources[..i], owners, b)
      {
        assert resources[..i + 1] == resources[..i] + [resources[i]];
        HoldsSomeExtend(resources[..i], resources[i], owners);
        if resources[i] in owners {
          g := g[waiter := (if waiter in g then g[waiter] else {}) + {owners[resources[i]]}];
        }
      }
      assert resources[..|resources|] == resources;
    }

    method BuildGraph() returns (g: Graph)
      ensures forall a, b :: Edge(g, a, b) <==> WaitsFor(waiting, owners, a, b)
    {
      g := map[];
      var todo := waiting.Keys;
      while todo != {}
        invariant todo <= waiting.Keys && g.Keys <= waiting.Keys
        invariant forall a :: a in todo ==> a !in g
        invariant forall a, b :: a !in todo ==> (Edge(g, a, b) <==> WaitsFor(waiting, owners, a, b))
        decreases |todo|
      {
        var waiter :| waiter in todo;
        ghost var before := g;
        g := AddEdges(g, waiter);
        todo := todo - {waiter};
        forall a, b | a !in todo ensures Edge(g, a, b) <==> WaitsFor(waiting, owners, a, b) {
          assert a != waiter ==> (Edge(g, a, b) <==> Edge(before, a, b));
        }
      }
    }

    /** Exact: a reported cycle is a deadlock, and if none is reported there is none; the
        finish order of the search then ranks every waiting thread above those it waits for. */
    method DetectCycle() returns (cycle: Option<seq<ThreadId>>, ghost order: seq<ThreadId>)
      ensures cycle.Some? ==> Deadlock(waiting, owners, cycle.value)
      ensures cycle.None? ==> forall c :: !Deadlock(waiting, owners, c)
      ensures cycle.None? ==> forall a, b :: WaitsFor(waiting, owners, a, b) ==>
        a in order && b in order && Rank(order, b) < Rank(order, a)
    {
      var g := BuildGraph();
      var visited, inStack, path := {}, {}, [];
      order := [];
      var todo := g.Keys;
      while todo != {}
        invariant SearchOk(g, visited, inStack, path, order) && path == []
        invariant todo <= g.Keys && forall a :: a in g.Keys - todo ==> a in order
        decreases |todo|
      {
        var node :| node in todo;
        if node !in visited {
          var found;
          ghost var before := order;
          EdgeNodes(g, node);
          found, visited, inStack, path, order := DfsCycle(node, g, visited, inStack, path, order);
          if found.Some? {
            GraphCycleIsDeadlock(g, waiting, owners, found.value);
            return found, order;
          }
          PrefixIsIncluded(before, order);
        }
        todo := todo - {node};
      }
      NoDeadlock(g, waiting, owners, order);
      return None, order;
    }
  }

  lemma GraphCycleIsDeadlock(g: Graph, waiting: map<ThreadId, seq<Resource>>, owners: map<Resource, ThreadId>,
                             c: seq<ThreadId>)
    requires forall a, b :: Edge(g, a, b) <==> WaitsFor(waiting, owners, a, b)
    ensures ClosedWalk(g, c) <==> Deadlock(waiting, owners, c)
  {
    if 2 <= |c| && forall i :: 0 <= i < |c| - 1 ==> WaitsFor(waiting, owners, c[i], c[i + 1]) {
      forall i | 0 <= i < |c| - 1 ensures Edge(g, c[i], c[i + 1]) {
        assert WaitsFor(waiting, owners, c[i], c[i + 1]);
      }
    }
  }

  lemma NoDeadlock(g: Graph, waiting: map<ThreadId, seq<Resource>>, owners: map<Resource, ThreadId>,
                   order: seq<ThreadId>)
    requires forall a, b :: Edge(g, a, b) <==> WaitsFor(waiting, owners, a, b)
    requires Ranking(g, order) && forall a :: a in g ==> a in order
    ensures forall c :: !Deadlock(waiting, owners, c)
    ensures forall a, b :: WaitsFor(waiting, owners, a, b) ==>
      a in order && b in order && Rank(order, b) < Rank(order, a)
  {
    RankingImpliesAcyclic(g, order);
    forall c ensures !Deadlock(waiting, owners, c) {
      GraphCycleIsDeadlock(g, waiting, owners, c);
    }
    forall a, b | WaitsFor(waiting, owners, a, b)
      ensures a in order && b in order && Rank(order, b) < Rank(order, a)
    {
      assert Edge(g, a, b);
      RankDecreases(g, order, a, b);
    }
  }
}
