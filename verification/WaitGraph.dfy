/**
 Wait-for graphs in which every thread waits for at most one other, their cycles, and why removing
 vertices without incoming edges leaves exactly the vertices on cycles.
 */
module WaitGraph {
  import opened NodeLists

  type Tid = nat

  /** `graph[t]` is the thread that `t` waits for. */
  type Graph = map<Tid, Tid>

  function Vertices(graph: Graph): set<Tid> { graph.Keys + graph.Values }

  /** `n` steps along the edges lead from `t` to `u`. */
  ghost predicate Walk(graph: Graph, t: Tid, n: nat, u: Tid)
    decreases n
  {
    if n == 0 then t == u else t in graph && Walk(graph, graph[t], n - 1, u)
  }

  ghost predicate OnCycle(graph: Graph, t: Tid) {
    exists n :: n >= 1 && Walk(graph, t, n, t)
  }

  /** The threads that wait for `t`, not counting those in `removed`. */
  ghost function Waiters(graph: Graph, removed: set<Tid>, t: Tid): set<Tid> {
    set u | u in graph && u !in removed && graph[u] == t
  }

  lemma {:induction false} WalkOn(graph: Graph, t: Tid, n: nat, u: Tid, m: nat, w: Tid)
    requires Walk(graph, t, n, u)
    ensures Walk(graph, u, m, w) <==> Walk(graph, t, n + m, w)
    decreases n
  {
    if n > 0 {
      WalkOn(graph, graph[t], n - 1, u, m, w);
    }
  }

  /** Whom a vertex on a cycle waits for is on a cycle. */
  lemma CycleGoesOn(graph: Graph, t: Tid)
    requires OnCycle(graph, t)
    ensures t in graph && OnCycle(graph, graph[t])
  {
    var n :| n >= 1 && Walk(graph, t, n, t);
    var next := graph[t];
    assert Walk(graph, next, n - 1, t);
    assert Walk(graph, next, 0, next) && Walk(graph, t, 1, next);
    WalkOn(graph, next, n - 1, t, 1, next);
  }

  /** An order of removal: whoever waits for a removed vertex was removed before it. */
  ghost predicate RemovalOrder(graph: Graph, order: seq<Tid>) {
    forall i, u :: 0 <= i < |order| && u in graph && graph[u] == order[i] ==> u in order[..i]
  }

  /** Walking to a removed vertex meets only vertices removed earlier. */
  lemma {:induction false} WalkBack(graph: Graph, order: seq<Tid>, t: Tid, n: nat, i: nat)
    requires RemovalOrder(graph, order) && i < |order| && Walk(graph, t, n, order[i])
    ensures n == 0 || t in order[..i]
    decreases n
  {
    if n > 0 {
      WalkBack(graph, order, graph[t], n - 1, i);
      var j :| 0 <= j <= i && order[j] == graph[t];
      assert t in order[..j];
    }
  }

  /** Vertices on a cycle are never removed. */
  lemma {:induction false} CycleStays(graph: Graph, order: seq<Tid>, t: Tid, k: nat)
    requires RemovalOrder(graph, order) && OnCycle(graph, t) && k <= |order|
    ensures t !in order[..k]
  {
    if k > 0 {
      CycleStays(graph, order, t, k - 1);
      assert order[..k] == order[..k - 1] + [order[k - 1]];
      if order[k - 1] == t {
        var n :| n >= 1 && Walk(graph, t, n, t);
        WalkBack(graph, order, t, n, k - 1);
        assert false;
      }
    }
  }

  /** Everyone in the set is waited for by someone in the set. */
  ghost predicate AllWaitedFor(graph: Graph, rest: set<Tid>) {
    forall v :: v in rest ==> exists u :: u in rest && u in graph && graph[u] == v
  }

  /** A sequence in which everyone waits for the one before. */
  ghost predicate Backwards(graph: Graph, path: seq<Tid>) {
    forall i, j :: 0 <= i <= j < |path| ==> Walk(graph, path[j], j - i, path[i])
  }

  lemma BackwardsLonger(graph: Graph, path: seq<Tid>, u: Tid)
    requires Backwards(graph, path) && path != [] && u in graph && graph[u] == path[|path| - 1]
    ensures Backwards(graph, path + [u])
  {
    var longer := path + [u];
    forall i, j | 0 <= i <= j < |longer|
      ensures Walk(graph, longer[j], j - i, longer[i])
    {
      if j < |path| {
        assert Walk(graph, path[j], j - i, path[i]);
      } else if i < j {
        assert Walk(graph, path[j - 1], j - 1 - i, path[i]);
      }
    }
  }

  lemma {:induction false} BackwardPath(graph: Graph, rest: set<Tid>, t: Tid, n: nat) returns (path: seq<Tid>)
    requires t in rest && AllWaitedFor(graph, rest)
    ensures |path| == n + 1 && path[0] == t && (forall u :: u in path ==> u in rest) && Backwards(graph, path)
  {
    if n == 0 {
      return [t];
    }
    var init := BackwardPath(graph, rest, t, n - 1);
    hide Backwards;
    assert init[n - 1] in rest;
    var u :| u in rest && u in graph && graph[u] == init[n - 1];
    BackwardsLonger(graph, init, u);
    path := init + [u];
  }

  /** If everyone in a set is waited for from within the set, everyone in it is on a cycle: walking
      backwards some vertex repeats, and a walk forwards from a cycle never leaves it. */
  lemma {:induction false} WaitedForIsCycle(graph: Graph, rest: set<Tid>, t: Tid)
    requires t in rest && AllWaitedFor(graph, rest)
    ensures OnCycle(graph, t)
  {
    var path := BackwardPath(graph, rest, t, |rest|);
    hide AllWaitedFor, OnCycle;
    var i, j := Pigeonhole(path, rest);
    assert Walk(graph, path[j], j - i, path[i]) && Walk(graph, path[i], i - 0, path[0]);
    CycleAhead(graph, path[i], j - i, i, t);
  }

  lemma CycleAhead(graph: Graph, u: Tid, n: nat, i: nat, t: Tid)
    requires n >= 1 && Walk(graph, u, n, u) && Walk(graph, u, i, t)
    ensures OnCycle(graph, t)
  {
    WalkOn(graph, u, n, u, i, t);
    assert Walk(graph, u, i + n, t);
    WalkOn(graph, u, i, t, n, t);
  }
}
