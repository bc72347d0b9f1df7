/**
 The deadlock detector's records (who waits for which lock, who holds it) and its check: build the
 wait-for graph from the records and remove threads nobody waits for until none is left.
 */
module DeadLockGraph {
  import opened NodeLists
  import opened WaitGraph

  type Lock = nat
  type Site = nat  // file, line and function of a lock call

  /** Thread_req_lock */
  datatype Request = Request(lock: Lock, valid: bool)

  /** Thread_hold_lock: `count` is the length of the stack of lock sites. */
  datatype Holding = Holding(thread: Tid, count: int, sites: seq<Site>)

  function PutStack(h: Holding, site: Site): Holding {
    h.(sites := [site] + h.sites, count := h.count + 1)
  }

  function PopStack(h: Holding): Holding {
    if h.sites == [] then h else h.(sites := h.sites[1..], count := h.count - 1)
  }

  /** The record as std::map's operator[] reads it. */
  function HoldingOf(belong: map<Lock, Holding>, lock: Lock): Holding {
    if lock in belong then belong[lock] else Holding(0, 0, [])
  }

  type Apply = map<Tid, Request>
  type Belong = map<Lock, Holding>

  /** thread_graphic_vertex_t */
  datatype Vertex = Vertex(indegress: int, vertexs: seq<Tid>)

  type Graphics = map<Tid, Vertex>

  /** The edge a thread has in the graph that check_dead_lock builds, if any. */
  predicate HasEdge(apply: Apply, belong: Belong, t: Tid) {
    t in apply && apply[t].valid && apply[t].lock in belong && belong[apply[t].lock].count != 0
  }

  function Edges(apply: Apply, belong: Belong): Graph {
    map t | t in apply && HasEdge(apply, belong, t) :: belong[apply[t].lock].thread
  }

  /** The vertex map holds exactly the given graph, `removed` being subtracted from the indegrees. */
  ghost predicate Holds(graphics: Graphics, graph: Graph, removed: set<Tid>) {
    && graphics.Keys == Vertices(graph)
    && (forall v :: v in graphics ==> graphics[v].vertexs == if v in graph then [graph[v]] else [])
    && (forall v :: v in graphics ==> graphics[v].indegress == |Waiters(graph, removed, v)|)
  }

  function WithVertex(graphics: Graphics, v: Tid): Graphics {
    if v in graphics then graphics else graphics[v := Vertex(0, [])]
  }

  /** Recording the edge from `t` to `u`. */
  function WithEdge(graphics: Graphics, t: Tid, u: Tid): Graphics {
    var g1 := WithVertex(WithVertex(graphics, t), u);
    var g2 := g1[t := g1[t].(vertexs := g1[t].vertexs + [u])];
    g2[u := g2[u].(indegress := g2[u].indegress + 1)]
  }

  lemma EdgeRecorded(graphics: Graphics, graph: Graph, t: Tid, u: Tid)
    requires Holds(graphics, graph, {}) && t !in graph
    ensures Holds(WithEdge(graphics, t, u), graph[t := u], {})
  {
    hide Vertices, Waiters;
    VerticesGrow(graph, t, u);
    var g', graph' := WithEdge(graphics, t, u), graph[t := u];
    forall v | v in g'
      ensures g'[v].indegress == |Waiters(graph', {}, v)|
      ensures g'[v].vertexs == if v in graph' then [graph'[v]] else []
    {
      WaitersGrow(graph, t, u, v);
      OutsideGraph(graph, v);
    }
  }

  lemma VerticesGrow(graph: Graph, t: Tid, u: Tid)
    requires t !in graph
    ensures Vertices(graph[t := u]) == Vertices(graph) + {t, u}
  {
    var graph' := graph[t := u];
    assert graph'[t] in graph'.Values;
    assert forall x :: x in graph ==> graph'[x] == graph[x] && graph'[x] in graph'.Values;
  }

  lemma WaitersGrow(graph: Graph, t: Tid, u: Tid, v: Tid)
    requires t !in graph
    ensures |Waiters(graph[t := u], {}, v)| == |Waiters(graph, {}, v)| + if u == v then 1 else 0
  {
    var w := Waiters(graph, {}, v);
    assert t !in w;
    assert Waiters(graph[t := u], {}, v) == if u == v then w + {t} else w;
  }

  lemma OutsideGraph(graph: Graph, v: Tid)
    ensures v !in Vertices(graph) ==> Waiters(graph, {}, v) == {} && v !in graph
  {
  }

  /** The invariant of the removal: `order` was removed, `queue` is to be, and these are exactly the
      vertices nobody else waits for. */
  ghost predicate Removing(graphics: Graphics, graph: Graph, order: seq<Tid>, queue: seq<Tid>) {
    && Holds(graphics, graph, Elems(order))
    && NoDup(order + queue)
    && RemovalOrder(graph, order)
    && (forall v :: v in Vertices(graph) ==> (v in order || v in queue <==> Waiters(graph, Elems(order), v) == {}))
    && (forall v :: v in order || v in queue ==> v in Vertices(graph))
  }

  lemma OrderGrows(graph: Graph, order: seq<Tid>, t: Tid)
    requires RemovalOrder(graph, order) && Waiters(graph, Elems(order), t) == {}
    ensures RemovalOrder(graph, order + [t])
  {
    var longer := order + [t];
    forall i, u | 0 <= i < |longer| && u in graph && graph[u] == longer[i]
      ensures u in longer[..i]
    {
      if i < |order| {
        assert longer[..i] == order[..i];
      } else {
        assert longer[..i] == order;
        assert u !in Waiters(graph, Elems(order), t);
      }
    }
  }

  /** Removing `t` takes it from the waiters of the one vertex it waits for. */
  lemma WaitersShrink(graph: Graph, order: seq<Tid>, t: Tid, v: Tid)
    requires t !in order
    ensures var w, w' := Waiters(graph, Elems(order), v), Waiters(graph, Elems(order + [t]), v);
      if t in graph && graph[t] == v then t in w && w' == w - {t} && |w'| == |w| - 1 else w' == w
  {
    ElemsAppend(order, t);
    var w, w' := Waiters(graph, Elems(order), v), Waiters(graph, Elems(order + [t]), v);
    if t in graph && graph[t] == v {
      assert w' == w - {t};
    } else {
      assert w' == w;
    }
  }

  lemma HeadNotBefore(order: seq<Tid>, queue: seq<Tid>)
    requires NoDup(order + queue) && queue != []
    ensures queue[0] !in order
  {
    var s := order + queue;
    assert s[|order|] == queue[0];
    assert forall i :: 0 <= i < |order| ==> s[i] == order[i] && s[i] != s[|order|];
  }

  /** One step of the removal: the first of the queue goes; the indegree of the vertex it waits for,
      if any, falls by one, and if it becomes zero that vertex joins the queue. */
  lemma RemoveFirst(graphics: Graphics, graph: Graph, order: seq<Tid>, queue: seq<Tid>)
    requires Removing(graphics, graph, order, queue) && queue != []
    ensures var t := queue[0];
      if t !in graph then Removing(graphics, graph, order + [t], queue[1..]) else
        var u := graph[t];
        && u in graphics
        && var d := graphics[u].indegress - 1;
        Removing(graphics[u := graphics[u].(indegress := d)], graph, order + [t],
                 queue[1..] + if d == 0 then [u] else [])
  {
    var t := queue[0];
    HeadNotBefore(order, queue);
    assert Waiters(graph, Elems(order), t) == {};
    OrderGrows(graph, order, t);
    hide Removing;
    if t in graph {
      assert graph[t] in graph.Values;
      RemoveWaiting(graphics, graph, order, queue);
    } else {
      RemoveSink(graphics, graph, order, queue);
    }
  }

  lemma RemoveSink(graphics: Graphics, graph: Graph, order: seq<Tid>, queue: seq<Tid>)
    requires Removing(graphics, graph, order, queue) && queue != [] && queue[0] !in graph && queue[0] !in order
    requires RemovalOrder(graph, order + [queue[0]])
    ensures Removing(graphics, graph, order + [queue[0]], queue[1..])
  {
    hide Waiters, RemovalOrder, Vertices;
    var t := queue[0];
    RemovedQueue(order, queue, 0, false);
    assert queue[1..] + [] == queue[1..];
    forall v ensures Waiters(graph, Elems(order + [t]), v) == Waiters(graph, Elems(order), v) {
      WaitersShrink(graph, order, t, v);
    }
  }

  lemma RemoveWaiting(graphics: Graphics, graph: Graph, order: seq<Tid>, queue: seq<Tid>)
    requires Removing(graphics, graph, order, queue) && queue != [] && queue[0] in graph
    requires graph[queue[0]] in Vertices(graph) && queue[0] !in order
    requires RemovalOrder(graph, order + [queue[0]])
    ensures var t := queue[0]; var u := graph[t]; var d := graphics[u].indegress - 1;
      Removing(graphics[u := graphics[u].(indegress := d)], graph, order + [t],
               queue[1..] + if d == 0 then [u] else [])
  {
    hide Waiters, RemovalOrder, Vertices;
    var t := queue[0];
    var u := graph[t];
    WaitersShrink(graph, order, t, u);
    assert u !in order && u !in queue;
    var after := Waiters(graph, Elems(order + [t]), u);
    assert after == {} <==> |after| == 0;
    RemovedQueue(order, queue, u, |after| == 0);
    forall v | v != u ensures Waiters(graph, Elems(order + [t]), v) == Waiters(graph, Elems(order), v) {
      WaitersShrink(graph, order, t, v);
    }
  }

  lemma RemovedQueue(order: seq<Tid>, queue: seq<Tid>, u: Tid, joins: bool)
    requires NoDup(order + queue) && queue != [] && (joins ==> u !in order && u !in queue)
    ensures var queue' := queue[1..] + if joins then [u] else [];
      && NoDup(order + [queue[0]] + queue')
      && (forall v :: v in order + [queue[0]] || v in queue' <==> v in order || v in queue || (joins && v == u))
  {
    var queue' := queue[1..] + if joins then [u] else [];
    assert order + [queue[0]] + queue' == (order + queue) + if joins then [u] else [];
    assert forall v :: v in queue <==> v == queue[0] || v in queue[1..];
    assert forall v :: v in order + queue <==> v in order || v in queue;
  }

  /** At the end, the vertices left are exactly those on a cycle. */
  lemma LeftIsOnCycle(graphics: Graphics, graph: Graph, order: seq<Tid>, t: Tid)
    requires Removing(graphics, graph, order, []) && t in graphics
    ensures graphics[t].indegress != 0 <==> OnCycle(graph, t)
    ensures t in order <==> !OnCycle(graph, t)
  {
    assert Waiters(graph, Elems(order), t) == {} <==> |Waiters(graph, Elems(order), t)| == 0;
    assert order[..|order|] == order;
    if t in order {
      if OnCycle(graph, t) {
        CycleStays(graph, order, t, |order|);
        assert false;
      }
    } else {
      var rest := Vertices(graph) - Elems(order);
      assert AllWaitedFor(graph, rest) by {
        forall v | v in rest ensures exists u :: u in rest && u in graph && graph[u] == v {
          WaiterLeft(graph, order, v);
        }
      }
      WaitedForIsCycle(graph, rest, t);
    }
  }

  lemma WaiterLeft(graph: Graph, order: seq<Tid>, v: Tid)
    requires Waiters(graph, Elems(order), v) != {}
    ensures exists u :: u in Vertices(graph) - Elems(order) && u in graph && graph[u] == v
  {
    var u :| u in Waiters(graph, Elems(order), v);
  }

  lemma CycleIsVertex(graph: Graph, t: Tid)
    requires OnCycle(graph, t)
    ensures t in Vertices(graph)
  {
  }

  class DeadLockGraphic {
    var apply: Apply
    var belong: Belong

    constructor ()
      ensures apply == map[] && belong == map[]
    {
      apply, belong := map[], map[];
    }

    /** lock_before */
    method LockBefore(t: Tid, lock: Lock)
      modifies this`apply
      ensures apply == ApplyBefore(old(apply), t, lock)
    {
      if t !in apply {
        apply := apply[t := Request(lock, false)];
      } else {
        apply := apply[t := apply[t].(lock := lock)];
      }
      apply := apply[t := apply[t].(valid := true)];
    }

    /** lock_after */
    method LockAfter(t: Tid, lock: Lock, site: Site)
      modifies this
      ensures apply == ApplyAfter(old(apply), t) && belong == BelongAfter(old(belong), t, lock, site)
    {
      apply := apply[t := if t in apply then apply[t].(valid := false) else Request(0, false)];
      if lock !in belong {
        belong := belong[lock := Holding(t, 0, [])];
      } else {
        belong := belong[lock := belong[lock].(thread := t)];
      }
      belong := belong[lock := PutStack(belong[lock], site)];
    }

    /** unlock_after */
    method UnlockAfter(t: Tid, lock: Lock)
      modifies this`belong
      ensures belong == BelongUnlocked(old(belong), lock)
      ensures belong.Keys == old(belong).Keys + {lock}
      ensures forall l :: l in old(belong) && l != lock ==> belong[l] == old(belong)[l]
      ensures var h, h0 := belong[lock], HoldingOf(old(belong), lock);
        h.thread == h0.thread &&
        if h0.sites == [] then h == h0
        else
          && h.count == h0.count - 1 && |h.sites| == |h0.sites| - 1
          && forall i :: 0 <= i < |h.sites| ==> h.sites[i] == h0.sites[i + 1]
    {
      if lock !in belong {
        belong := belong[lock := Holding(0, 0, [])];
      }
      belong := belong[lock := PopStack(belong[lock])];
    }

    /** The first half of check_dead_lock: the vertex map of the recorded wait-for graph. */
    method BuildGraph() returns (graphics: Graphics)
      ensures Holds(graphics, Edges(apply, belong), {})
    {
      graphics := map[];
      var todo := apply.Keys;
      ghost var graph: Graph := map[];
      while todo != {}
        invariant todo <= apply.Keys && Holds(graphics, graph, {})
        invariant forall t :: t in graph <==> t in apply && t !in todo && HasEdge(apply, belong, t)
        invariant forall t :: t in graph ==> graph[t] == belong[apply[t].lock].thread
        decreases todo
      {
        hide Holds;
        var t :| t in todo;
        todo := todo - {t};
        if HasEdge(apply, belong, t) {
          var u := belong[apply[t].lock].thread;
          EdgeRecorded(graphics, graph, t, u);
          graphics := WithEdge(graphics, t, u);
          graph := graph[t := u];
        }
      }
      assert graph == Edges(apply, belong);
    }

    /** check_dead_lock: a deadlock is reported exactly if the recorded graph has a cycle, and the
        threads left with a non-zero indegree are exactly those on a cycle. */
    method CheckDeadLock() returns (found: bool, stuck: set<Tid>)
      ensures forall t :: t in stuck <==> OnCycle(Edges(apply, belong), t)
      ensures found <==> stuck != {}
    {
      hide Edges, Holds, Removing, OnCycle;
      var graphics := BuildGraph();
      ghost var graph, order := Edges(apply, belong), [];
      var queue, counter := Sources(graphics, graph);
      RemovingBounds(graphics, graph, order, queue);
      while queue != []
        invariant Removing(graphics, graph, order, queue) && counter == |order| + |queue| <= |graphics|
        decreases |graphics| - |order|
      {
        RemoveFirst(graphics, graph, order, queue);
        RemovingBounds(graphics, graph, order, queue);
        var t := queue[0];
        queue := queue[1..];
        order := order + [t];
        assert graphics[t].vertexs == if t in graph then [graph[t]] else [];
        graphics, queue, counter := ReleaseEdges(graphics[t].vertexs, graphics, queue, counter);
        RemovingBounds(graphics, graph, order, queue);
      }
      found := counter != |graphics|;
      stuck := set t | t in graphics && graphics[t].indegress != 0;
      AllLeft(graphics, graph, order, stuck);
    }
  }

  /** The inner loop of the removal: the indegrees of the vertices waited for fall, and those that
      become zero join the queue. A thread waits for at most one other, so there is one edge at most. */
  method ReleaseEdges(edges: seq<Tid>, graphics: Graphics, queue: seq<Tid>, counter: nat)
    returns (graphics': Graphics, queue': seq<Tid>, counter': nat)
    requires |edges| <= 1 && forall u :: u in edges ==> u in graphics
    ensures edges == [] ==> graphics' == graphics && queue' == queue && counter' == counter
    ensures edges != [] ==>
      var u := edges[0]; var d := graphics[u].indegress - 1;
      && graphics' == graphics[u := graphics[u].(indegress := d)]
      && queue' == queue + (if d == 0 then [u] else [])
      && counter' == counter + if d == 0 then 1 else 0
  {
    graphics', queue', counter' := graphics, queue, counter;
    for i := 0 to |edges|
      invariant i == 0 ==> graphics' == graphics && queue' == queue && counter' == counter
      invariant i == 1 ==>
        var u := edges[0]; var d := graphics[u].indegress - 1;
        && graphics' == graphics[u := graphics[u].(indegress := d)]
        && queue' == queue + (if d == 0 then [u] else [])
        && counter' == counter + if d == 0 then 1 else 0
    {
      var u := edges[i];
      graphics' := graphics'[u := graphics'[u].(indegress := graphics'[u].indegress - 1)];
      if graphics'[u].indegress == 0 {
        queue' := queue' + [u];
        counter' := counter' + 1;
      }
    }
  }

  /** The vertices nobody waits for, where the removal starts. */
  method Sources(graphics: Graphics, ghost graph: Graph) returns (queue: seq<Tid>, counter: nat)
    requires Holds(graphics, graph, {})
    ensures Removing(graphics, graph, [], queue) && counter == |queue|
  {
    hide Vertices, Waiters;
    queue, counter := [], 0;
    var todo := graphics.Keys;
    while todo != {}
      invariant todo <= graphics.Keys && counter == |queue| && NoDup(queue)
      invariant forall v :: v in queue <==> v in graphics && v !in todo && graphics[v].indegress == 0
      decreases todo
    {
      var t :| t in todo;
      todo := todo - {t};
      if graphics[t].indegress == 0 {
        queue := queue + [t];
        counter := counter + 1;
      }
    }
    assert [] + queue == queue;
    assert Elems<Tid>([]) == {};
    forall v | v in graphics ensures v in queue <==> Waiters(graph, {}, v) == {} {
      assert |Waiters(graph, {}, v)| == 0 <==> Waiters(graph, {}, v) == {};
    }
  }

  lemma RemovingBounds(graphics: Graphics, graph: Graph, order: seq<Tid>, queue: seq<Tid>)
    requires Removing(graphics, graph, order, queue)
    ensures |order| + |queue| <= |graphics|
    ensures |order| + |queue| == |graphics| ==> graphics.Keys == Elems(order + queue)
    ensures forall v :: v in queue ==> v in graphics
    ensures forall v :: v in graphics ==> graphics[v].vertexs == if v in graph then [graph[v]] else []
    ensures forall v :: v in graphics && v in graph ==> graph[v] in graphics
  {
    NoDupSize(order + queue);
    assert Elems(order + queue) <= graphics.Keys;
    SubsetSize(Elems(order + queue), graphics.Keys);
    assert forall v :: v in graph ==> graph[v] in graph.Values;
  }

  lemma AllLeft(graphics: Graphics, graph: Graph, order: seq<Tid>, stuck: set<Tid>)
    requires Removing(graphics, graph, order, [])
    requires stuck == set t | t in graphics && graphics[t].indegress != 0
    ensures forall t :: t in stuck <==> OnCycle(graph, t)
    ensures |order| != |graphics| <==> stuck != {}
  {
    hide Removing, OnCycle, Holds;
    forall t ensures (t in stuck <==> OnCycle(graph, t)) && (t in graphics ==> (t in order <==> t !in stuck)) {
      LeftOne(graphics, graph, order, t);
    }
    OrderInKeys(graphics, graph, order);
  }

  lemma LeftOne(graphics: Graphics, graph: Graph, order: seq<Tid>, t: Tid)
    requires Removing(graphics, graph, order, [])
    ensures t in graphics && graphics[t].indegress != 0 <==> OnCycle(graph, t)
    ensures t in graphics ==> (t in order <==> graphics[t].indegress == 0)
  {
    assert order + [] == order;
    RemovingBounds(graphics, graph, order, []);
    hide Removing, OnCycle, Holds;
    if t in graphics {
      LeftIsOnCycle(graphics, graph, order, t);
    } else if OnCycle(graph, t) {
      CycleIsVertex(graph, t);
      KeysAreVertices(graphics, graph, order);
      assert false;
    }
  }

  lemma KeysAreVertices(graphics: Graphics, graph: Graph, order: seq<Tid>)
    requires Removing(graphics, graph, order, [])
    ensures graphics.Keys == Vertices(graph)
  {
  }

  lemma OrderInKeys(graphics: Graphics, graph: Graph, order: seq<Tid>)
    requires Removing(graphics, graph, order, [])
    ensures |graphics| == |order| <==> forall t :: t in graphics ==> t in order
  {
    assert order + [] == order;
    NoDupSize(order);
    if forall t :: t in graphics ==> t in order {
      assert Elems(order) == graphics.Keys;
    } else {
      RemovingBounds(graphics, graph, order, []);
    }
  }

  function ApplyBefore(apply: Apply, t: Tid, lock: Lock): Apply {
    apply[t := Request(lock, true)]
  }

  function ApplyAfter(apply: Apply, t: Tid): Apply {
    apply[t := if t in apply then apply[t].(valid := false) else Request(0, false)]
  }

  function BelongAfter(belong: Belong, t: Tid, lock: Lock, site: Site): Belong {
    belong[lock := PutStack(HoldingOf(belong, lock).(thread := t), site)]
  }

  function BelongUnlocked(belong: Belong, lock: Lock): Belong {
    belong[lock := PopStack(HoldingOf(belong, lock))]
  }

  /** Whatever happens to other locks in between, the unlock hook takes back what the lock hook counted; the
      thread on record stays. */
  lemma UnlockUndoesLock(belong: Belong, t: Tid, lock: Lock, site: Site, later: Belong)
    requires lock in later && later[lock] == BelongAfter(belong, t, lock, site)[lock]
    ensures var h, h0 := BelongUnlocked(later, lock)[lock], HoldingOf(belong, lock);
      h.count == h0.count && h.sites == h0.sites && h.thread == t
    ensures forall l :: l in later && l != lock ==> BelongUnlocked(later, lock)[l] == later[l]
  {
    var sites := HoldingOf(belong, lock).sites;
    assert ([site] + sites)[1..] == sites;
  }
}
