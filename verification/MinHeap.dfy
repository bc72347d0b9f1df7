/**
  The binary-heap timer, timer/min_heap/minheap_internal/min_heap.c.

  A node's expiry never changes after its creation, so a node pointer is the pair of its identity and its
  expiry; whether its callback has been cleared is kept in the set `armed`.
*/
module HeapShape {

  datatype Node = Null | Node(id: nat, expire: nat)

  function Key(n: Node): nat {
    if n.Null? then 0 else n.expire
  }

  function Parent(i: nat): nat
    requires i > 0
  {
    (i - 1) / 2
  }

  predicate Below(s: seq<Node>, i: nat)
    requires 0 < i < |s|
  {
    Key(s[Parent(i)]) <= Key(s[i])
  }

  predicate Heap(s: seq<Node>) {
    forall i :: 0 < i < |s| ==> Below(s, i)
  }

  lemma {:induction false} RootIsLeast(s: seq<Node>, k: nat)
    requires Heap(s) && k < |s|
    ensures Key(s[0]) <= Key(s[k])
  {
    if k > 0 {
      RootIsLeast(s, Parent(k));
      assert Below(s, k);
    }
  }

  // ---------- moving the hole up ----------

  /** Place `x` at the hole, or above it. */
  function Up(s: seq<Node>, hole: nat, x: Node): (r: seq<Node>)
    requires hole < |s|
    ensures |r| == |s|
    decreases hole
  {
    if hole > 0 && Key(s[Parent(hole)]) > Key(x) then Up(s[hole := s[Parent(hole)]], Parent(hole), x)
    else s[hole := x]
  }

  /** A heap but for the hole, below which everything is at least `x` and at least what is above the hole. */
  ghost predicate UpReady(s: seq<Node>, hole: nat, x: Node)
    requires hole < |s|
  {
    && (forall i :: 0 < i < |s| && i != hole && Parent(i) != hole ==> Below(s, i))
    && (forall i :: 0 < i < |s| && Parent(i) == hole ==> Key(x) <= Key(s[i]))
    && (hole > 0 ==> forall i :: 0 < i < |s| && Parent(i) == hole ==> Key(s[Parent(hole)]) <= Key(s[i]))
  }

  lemma UpStep(s: seq<Node>, hole: nat, x: Node)
    requires 0 < hole < |s| && UpReady(s, hole, x) && Key(s[Parent(hole)]) > Key(x)
    ensures UpReady(s[hole := s[Parent(hole)]], Parent(hole), x)
  {
    var p := Parent(hole);
    var t := s[hole := s[p]];
    forall i | 0 < i < |t| && i != p && Parent(i) != p ensures Below(t, i) {
      if Parent(i) != hole { assert Below(s, i); }
    }
    forall i | 0 < i < |t| && Parent(i) == p ensures Key(s[p]) <= Key(t[i]) {
      if i != hole { assert Below(s, i); }
    }
    if p > 0 { assert Below(s, p); }
  }

  lemma {:induction false} UpIsHeap(s: seq<Node>, hole: nat, x: Node)
    requires hole < |s| && UpReady(s, hole, x)
    ensures Heap(Up(s, hole, x))
    decreases hole
  {
    if hole > 0 && Key(s[Parent(hole)]) > Key(x) {
      UpStep(s, hole, x);
      UpIsHeap(s[hole := s[Parent(hole)]], Parent(hole), x);
    } else {
      var r := s[hole := x];
      forall i | 0 < i < |r| ensures Below(r, i) {
        if i != hole && Parent(i) != hole { assert Below(s, i); }
      }
    }
  }

  lemma Moved(s: seq<Node>, a: nat, b: nat, x: Node)
    requires a < |s| && b < |s| && a != b
    ensures multiset(s[a := s[b]][b := x]) == multiset(s[a := x])
  {
    var t := s[a := s[b]];
    assert multiset(t[b := x]) == multiset(t) - multiset{t[b]} + multiset{x};
    assert multiset(t) == multiset(s) - multiset{s[a]} + multiset{s[b]};
  }

  lemma {:induction false} UpConserves(s: seq<Node>, hole: nat, x: Node)
    requires hole < |s|
    ensures multiset(Up(s, hole, x)) == multiset(s[hole := x])
    decreases hole
  {
    if hole > 0 && Key(s[Parent(hole)]) > Key(x) {
      UpConserves(s[hole := s[Parent(hole)]], Parent(hole), x);
      Moved(s, hole, Parent(hole), x);
    }
  }

  /** A node that is not earlier than the root does not displace it. */
  lemma {:induction false} UpKeepsRoot(s: seq<Node>, hole: nat, x: Node)
    requires 0 < hole < |s| && Key(s[0]) <= Key(x)
    ensures Up(s, hole, x)[0] == s[0]
    decreases hole
  {
    if Key(s[Parent(hole)]) > Key(x) {
      UpKeepsRoot(s[hole := s[Parent(hole)]], Parent(hole), x);
    }
  }

  // ---------- moving the hole down ----------

  /** The child of the hole with the smaller key. */
  function Least(s: seq<Node>, hole: nat): (c: nat)
    requires 2 * hole + 1 < |s|
    ensures 0 < c < |s| && Parent(c) == hole && hole < c
    ensures forall i :: 0 < i < |s| && Parent(i) == hole ==> Key(s[c]) <= Key(s[i])
  {
    if 2 * hole + 2 < |s| && Key(s[2 * hole + 2]) < Key(s[2 * hole + 1]) then 2 * hole + 2 else 2 * hole + 1
  }

  /** Place `x` at the hole, or below it. */
  function Down(s: seq<Node>, hole: nat, x: Node): (r: seq<Node>)
    requires hole < |s|
    ensures |r| == |s|
    decreases |s| - hole
  {
    if 2 * hole + 1 < |s| && Key(s[Least(s, hole)]) < Key(x) then
      Down(s[hole := s[Least(s, hole)]], Least(s, hole), x)
    else s[hole := x]
  }

  /** A heap but for the hole, above which everything is at most `x` and at most what is below the hole. */
  ghost predicate DownReady(s: seq<Node>, hole: nat, x: Node)
    requires hole < |s|
  {
    && (forall i :: 0 < i < |s| && i != hole && Parent(i) != hole ==> Below(s, i))
    && (hole > 0 ==> Key(s[Parent(hole)]) <= Key(x))
    && (hole > 0 ==> forall i :: 0 < i < |s| && Parent(i) == hole ==> Key(s[Parent(hole)]) <= Key(s[i]))
  }

  lemma DownStep(s: seq<Node>, hole: nat, x: Node)
    requires hole < |s| && 2 * hole + 1 < |s| && DownReady(s, hole, x) && Key(s[Least(s, hole)]) < Key(x)
    ensures DownReady(s[hole := s[Least(s, hole)]], Least(s, hole), x)
  {
    var c := Least(s, hole);
    var t := s[hole := s[c]];
    forall i | 0 < i < |t| && i != c && Parent(i) != c ensures Below(t, i) {
      if i != hole && Parent(i) != hole { assert Below(s, i); }
    }
    forall i | 0 < i < |t| && Parent(i) == c ensures Key(t[Parent(c)]) <= Key(t[i]) {
      assert Below(s, i);
    }
  }

  lemma {:induction false} DownIsHeap(s: seq<Node>, hole: nat, x: Node)
    requires hole < |s| && DownReady(s, hole, x)
    ensures Heap(Down(s, hole, x))
    decreases |s| - hole
  {
    if 2 * hole + 1 < |s| && Key(s[Least(s, hole)]) < Key(x) {
      DownStep(s, hole, x);
      DownIsHeap(s[hole := s[Least(s, hole)]], Least(s, hole), x);
    } else {
      var r := s[hole := x];
      forall i | 0 < i < |r| ensures Below(r, i) {
        if i != hole && Parent(i) != hole { assert Below(s, i); }
      }
    }
  }

  lemma {:induction false} DownConserves(s: seq<Node>, hole: nat, x: Node)
    requires hole < |s|
    ensures multiset(Down(s, hole, x)) == multiset(s[hole := x])
    decreases |s| - hole
  {
    if 2 * hole + 1 < |s| && Key(s[Least(s, hole)]) < Key(x) {
      DownConserves(s[hole := s[Least(s, hole)]], Least(s, hole), x);
      Moved(s, hole, Least(s, hole), x);
    }
  }

  // ---------- whole operations ----------

  /** The heap with `x` added at its end and moved up. */
  function Added(s: seq<Node>, x: Node): (r: seq<Node>) {
    Up(s + [x], |s|, x)
  }

  lemma AddedIsHeap(s: seq<Node>, x: Node)
    requires Heap(s)
    ensures Heap(Added(s, x))
    ensures multiset(Added(s, x)) == multiset(s) + multiset{x}
    ensures s != [] && Key(s[0]) <= Key(x) ==> Added(s, x)[0] == s[0]
  {
    var t := s + [x];
    forall i | 0 < i < |t| && i != |s| ensures Below(t, i) { assert Below(s, i); }
    UpIsHeap(t, |s|, x);
    UpConserves(t, |s|, x);
    assert t[|s| := x] == t;
    if s != [] && Key(s[0]) <= Key(x) { UpKeepsRoot(t, |s|, x); }
  }

  /** The heap with its last node moved to the root and then down. */
  function Popped(s: seq<Node>): (r: seq<Node>)
    requires s != []
  {
    var n := |s| - 1;
    if n == 0 then [] else Down(s[..n], 0, s[n])
  }

  lemma HeapPrefix(s: seq<Node>, n: nat)
    requires Heap(s) && n <= |s|
    ensures Heap(s[..n])
  {
    forall i | 0 < i < n ensures Below(s[..n], i) { assert Below(s, i); }
  }

  lemma LastToRoot(s: seq<Node>)
    requires |s| > 1
    ensures var n := |s| - 1; multiset(s) == multiset(s[..n][0 := s[n]]) + multiset{s[0]}
  {
    var n := |s| - 1;
    var t := s[..n];
    assert s == t + [s[n]];
    assert t == [t[0]] + t[1..] && t[0 := s[n]] == [s[n]] + t[1..];
  }

  lemma PoppedIsHeap(s: seq<Node>)
    requires Heap(s) && s != []
    ensures Heap(Popped(s)) && |Popped(s)| == |s| - 1
    ensures multiset(s) == multiset(Popped(s)) + multiset{s[0]}
  {
    hide Down;
    var n := |s| - 1;
    if n > 0 {
      var t := s[..n];
      HeapPrefix(s, n);
      DownIsHeap(t, 0, s[n]);
      DownConserves(t, 0, s[n]);
      LastToRoot(s);
    } else {
      assert s == [s[0]];
    }
  }
}

module MinHeap {
  import opened HeapShape

  /** What a callback may do: start a timer, or clear the callback of a timer. */
  datatype Act = Start(expire: nat) | Clear(id: nat)

  /** Timers the callbacks from number `k` on will start. */
  function Starts(script: seq<seq<Act>>, k: nat): nat
    decreases |script| - k
  {
    if k >= |script| then 0 else |script[k]| + Starts(script, k + 1)
  }

  /** What callback number `k` does. */
  function Script(script: seq<seq<Act>>, k: nat): seq<Act> {
    if k < |script| then script[k] else []
  }

  predicate StartsFrom(acts: seq<Act>, now: nat) {
    forall i :: 0 <= i < |acts| && acts[i].Start? ==> acts[i].expire >= now
  }

  predicate NoClear(acts: seq<Act>) {
    forall i :: 0 <= i < |acts| ==> acts[i].Start?
  }

  ghost predicate InOrder(s: seq<Node>) {
    forall i, j :: 0 <= i < j < |s| ==> Key(s[i]) <= Key(s[j])
  }

  /** No null pointers, only nodes that have been created, and each of them once. */
  ghost predicate Live(s: seq<Node>, nextId: nat) {
    && (forall n :: n in s ==> n.Node? && n.id < nextId)
    && (forall n :: multiset(s)[n] <= 1)
    && (forall n, m :: n in s && m in s && n.id == m.id ==> n == m)
  }

  // ---------- what callbacks do ----------

  /** The nodes that `acts` create, the first of them with the number `nextId`. */
  function Started(nextId: nat, acts: seq<Act>): seq<Node> {
    if acts == [] then []
    else
      var before := Started(nextId, acts[..|acts| - 1]);
      match acts[|acts| - 1]
      case Start(expire) => before + [Node(nextId + |before|, expire)]
      case Clear(_) => before
  }

  /** They are numbered in the order of their creation. */
  lemma {:induction false} StartedIds(nextId: nat, acts: seq<Act>)
    ensures forall i :: 0 <= i < |Started(nextId, acts)| ==>
      Started(nextId, acts)[i].Node? && Started(nextId, acts)[i].id == nextId + i
    decreases |acts|
  {
    if acts != [] {
      var before, last := Started(nextId, acts[..|acts| - 1]), acts[|acts| - 1];
      StartedIds(nextId, acts[..|acts| - 1]);
      var all := before + if last.Start? then [Node(nextId + |before|, last.expire)] else [];
      assert Started(nextId, acts) == all;
      forall i | 0 <= i < |all| ensures all[i].Node? && all[i].id == nextId + i {
        if i < |before| { assert all[i] == before[i]; }
      }
    }
  }

  /** The nodes whose callback is set after `acts`. */
  function ArmedBy(armed: set<nat>, nextId: nat, acts: seq<Act>): set<nat> {
    if acts == [] then armed
    else
      var first := acts[..|acts| - 1];
      match acts[|acts| - 1]
      case Start(_) => ArmedBy(armed, nextId, first) + {nextId + |Started(nextId, first)|}
      case Clear(id) => ArmedBy(armed, nextId, first) - {id}
  }

  lemma {:induction false} ActsConcat(armed: set<nat>, nextId: nat, a: seq<Act>, b: seq<Act>)
    ensures var created := Started(nextId, a);
      && Started(nextId, a + b) == created + Started(nextId + |created|, b)
      && ArmedBy(armed, nextId, a + b) == ArmedBy(ArmedBy(armed, nextId, a), nextId + |created|, b)
    decreases |b|
  {
    if b == [] {
      assert a + b == a;
    } else {
      var first := b[..|b| - 1];
      ActsConcat(armed, nextId, a, first);
      assert (a + b)[..|a + b| - 1] == a + first;
      assert (a + b)[|a + b| - 1] == b[|b| - 1];
    }
  }

  lemma ActsOne(armed: set<nat>, nextId: nat, acts: seq<Act>, i: nat)
    requires i < |acts|
    ensures Started(nextId, acts[..i + 1]) == Started(nextId, acts[..i]) +
      (if acts[i].Start? then [Node(nextId + |Started(nextId, acts[..i])|, acts[i].expire)] else [])
    ensures ArmedBy(armed, nextId, acts[..i + 1]) ==
      if acts[i].Start? then ArmedBy(armed, nextId, acts[..i]) + {nextId + |Started(nextId, acts[..i])|}
      else ArmedBy(armed, nextId, acts[..i]) - {acts[i].id}
  {
    assert acts[..i + 1][..i] == acts[..i];
  }

  /** With nothing cleared, what was set stays set and what is started is set. */
  lemma {:induction false} ArmedUncleared(armed: set<nat>, nextId: nat, acts: seq<Act>, id: nat)
    requires NoClear(acts)
    ensures id in ArmedBy(armed, nextId, acts) <==> id in armed || nextId <= id < nextId + |Started(nextId, acts)|
    decreases |acts|
  {
    if acts != [] {
      ArmedUncleared(armed, nextId, acts[..|acts| - 1], id);
    }
  }

  /** All that the first `k` callbacks do. */
  function Played(script: seq<seq<Act>>, k: nat): seq<Act> {
    if k == 0 then [] else Played(script, k - 1) + Script(script, k - 1)
  }

  lemma {:induction false} PlayedUncleared(script: seq<seq<Act>>, k: nat)
    requires forall j :: 0 <= j < |script| ==> NoClear(script[j])
    ensures NoClear(Played(script, k))
  {
    if k > 0 { PlayedUncleared(script, k - 1); }
  }

  /** How many of these ran. */
  function Count(ran: seq<bool>): nat {
    if ran == [] then 0 else Count(ran[..|ran| - 1]) + if ran[|ran| - 1] then 1 else 0
  }

  lemma AddedSize(s: seq<Node>, x: Node)
    ensures |Added(s, x)| == |s| + 1
  {
  }

  lemma AddedLive(s: seq<Node>, x: Node, nextId: nat)
    requires Heap(s) && Live(s, nextId) && x.Node? && x.id == nextId
    ensures Live(Added(s, x), nextId + 1)
  {
    AddedIsHeap(s, x);
    hide Added, Heap;
    forall n | n in Added(s, x) ensures n in s || n == x {
      assert n in multiset(Added(s, x));
    }
    assert x !in s;
    forall n ensures multiset(Added(s, x))[n] <= 1 {
      assert multiset(s)[n] <= 1 && multiset(s)[x] == 0;
    }
  }

  lemma PoppedLive(s: seq<Node>, nextId: nat)
    requires Heap(s) && s != [] && Live(s, nextId)
    ensures Live(Popped(s), nextId)
  {
    PoppedIsHeap(s);
    hide Popped, Heap;
    forall n ensures multiset(Popped(s))[n] <= 1 {
      assert multiset(Popped(s))[n] <= multiset(s)[n];
    }
    forall n | n in Popped(s) ensures n in s {
      assert n in multiset(Popped(s));
      assert n in multiset(s);
    }
  }

  /** The hole's old content does not matter. */
  lemma UpIgnoresHole(s: seq<Node>, hole: nat, x: Node)
    requires hole < |s|
    ensures Up(s, hole, x) == Up(s[hole := x], hole, x)
  {
    if hole > 0 && Key(s[Parent(hole)]) > Key(x) {
      assert s[hole := x][hole := s[Parent(hole)]] == s[hole := s[Parent(hole)]];
    }
  }

  lemma DownIgnoresHole(s: seq<Node>, hole: nat, x: Node)
    requires hole < |s|
    ensures Down(s, hole, x) == Down(s[hole := x], hole, x)
  {
    var t := s[hole := x];
    if 2 * hole + 1 < |s| {
      assert Least(t, hole) == Least(s, hole);
      assert t[hole := s[Least(s, hole)]] == s[hole := s[Least(s, hole)]];
    }
  }

  /** The nodes popped so far: in order, due, and none later than what is left. */
  ghost predicate Ordered(popped: seq<Node>, left: seq<Node>, now: nat) {
    && InOrder(popped)
    && (forall n :: n in popped ==> Key(n) <= now)
    && forall n, m :: n in popped && m in left ==> Key(n) <= Key(m)
  }

  lemma OrderedIs(popped: seq<Node>, left: seq<Node>, now: nat)
    requires Ordered(popped, left, now)
    ensures InOrder(popped) && forall n :: n in popped ==> Key(n) <= now
  {
  }

  lemma OrderedPop(popped: seq<Node>, s: seq<Node>, now: nat)
    requires Heap(s) && s != [] && Key(s[0]) <= now && Ordered(popped, s, now)
    ensures Ordered(popped + [s[0]], Popped(s), now)
  {
    PoppedIsHeap(s);
    forall m | m in Popped(s) ensures m in s && Key(s[0]) <= Key(m) {
      assert m in multiset(Popped(s));
      assert m in multiset(s);
      var k :| 0 <= k < |s| && s[k] == m;
      RootIsLeast(s, k);
    }
  }

  lemma OrderedStart(popped: seq<Node>, s: seq<Node>, t: seq<Node>, added: seq<Node>, now: nat)
    requires Ordered(popped, s, now) && multiset(t) == multiset(s) + multiset(added)
    requires forall n :: n in added ==> Key(n) >= now
    ensures Ordered(popped, t, now)
  {
    forall n, m | n in popped && m in t ensures Key(n) <= Key(m) {
      assert m in multiset(t);
      if m in added {
        assert Key(n) <= now;
      } else {
        assert m in multiset(s);
      }
    }
  }

  /** A popped node ran if and only if its callback was set when it came to the root: `armed` and `nextId` are
      those of the beginning, and what the callbacks before it did is taken into account. */
  ghost predicate Told(popped: seq<Node>, ran: seq<bool>, script: seq<seq<Act>>, armed: set<nat>, nextId: nat) {
    && |popped| == |ran|
    && forall i :: 0 <= i < |ran| ==>
      var acts := Played(script, Count(ran[..i]));
      && popped[i].Node? && popped[i].id < nextId + |Started(nextId, acts)|
      && (ran[i] <==> popped[i].id in ArmedBy(armed, nextId, acts))
  }

  /** With nothing cleared, a popped node ran if and only if its callback was set at the beginning or it was
      started since. */
  lemma ToldUncleared(popped: seq<Node>, ran: seq<bool>, script: seq<seq<Act>>, armed: set<nat>, nextId: nat)
    requires Told(popped, ran, script, armed, nextId)
    requires forall j :: 0 <= j < |script| ==> NoClear(script[j])
    ensures forall i :: 0 <= i < |ran| ==>
        popped[i].Node? && (ran[i] <==> popped[i].id in armed || popped[i].id >= nextId)
  {
    forall i | 0 <= i < |ran| ensures popped[i].Node? && (ran[i] <==> popped[i].id in armed || popped[i].id >= nextId) {
      var acts := Played(script, Count(ran[..i]));
      PlayedUncleared(script, Count(ran[..i]));
      ArmedUncleared(armed, nextId, acts, popped[i].id);
    }
  }

  lemma ToldPop(popped: seq<Node>, ran: seq<bool>, script: seq<seq<Act>>, armed: set<nat>, nextId: nat, n: Node,
      fired: bool)
    requires Told(popped, ran, script, armed, nextId)
    requires var acts := Played(script, Count(ran));
      && n.Node? && n.id < nextId + |Started(nextId, acts)|
      && (fired <==> n.id in ArmedBy(armed, nextId, acts))
    ensures Told(popped + [n], ran + [fired], script, armed, nextId)
    ensures Count(ran + [fired]) == Count(ran) + if fired then 1 else 0
  {
    hide Played, ArmedBy, Started;
    var longer := ran + [fired];
    assert longer[..|ran|] == ran;
    forall i | 0 <= i < |ran| ensures longer[..i] == ran[..i] { }
  }

  lemma RootLive(s: seq<Node>, nextId: nat)
    requires Live(s, nextId) && s != []
    ensures s[0].Node?
  {
  }

  lemma Balance(s: multiset<Node>, popped: multiset<Node>, start: multiset<Node>, added: multiset<Node>,
                t: multiset<Node>, n: Node, more: multiset<Node>)
    requires s + popped == start + added && t + multiset{n} == s + more
    ensures t + (popped + multiset{n}) == start + (added + more)
  {
    assert t + (popped + multiset{n}) == (t + multiset{n}) + popped;
    assert (s + more) + popped == (s + popped) + more;
  }

  lemma Nothing(s: seq<Node>, now: nat, script: seq<seq<Act>>, armed: set<nat>, nextId: nat)
    ensures Ordered([], s, now) && Told([], [], script, armed, nextId)
    ensures Count([]) == 0 && Played(script, 0) == []
    ensures Started(nextId, []) == [] && ArmedBy(armed, nextId, []) == armed
  {
  }

  lemma AllLater(s: seq<Node>, now: nat)
    requires Heap(s) && (s != [] ==> Key(s[0]) > now)
    ensures forall n :: n in s ==> Key(n) > now
  {
    forall k | 0 <= k < |s| ensures Key(s[k]) > now {
      RootIsLeast(s, k);
    }
  }

  lemma PoppedFromRoot(s: seq<Node>)
    requires s != []
    ensures var n := |s| - 1; Popped(s) == if n == 0 then [] else Down(s[..n][0 := s[n]], 0, s[n])
  {
    if |s| > 1 { DownIgnoresHole(s[..|s| - 1], 0, s[|s| - 1]); }
  }

  lemma {:induction false} StartedFrom(nextId: nat, acts: seq<Act>, now: nat)
    requires StartsFrom(acts, now)
    ensures forall n :: n in Started(nextId, acts) ==> Key(n) >= now
    decreases |acts|
  {
    if acts != [] { StartedFrom(nextId, acts[..|acts| - 1], now); }
  }

  lemma AppendSum(s: multiset<Node>, a: seq<Node>, b: seq<Node>)
    ensures s + multiset(a) + multiset(b) == s + multiset(a + b)
  {
    assert multiset(a + b) == multiset(a) + multiset(b);
  }

  lemma NoActs(armed: set<nat>, nextId: nat)
    ensures Started(nextId, []) == [] && ArmedBy(armed, nextId, []) == armed
  {
  }

  lemma NextCall(armed: set<nat>, nextId: nat, script: seq<seq<Act>>, k: nat)
    ensures var done, acts := Played(script, k), Script(script, k);
      var created := Started(nextId, done);
      && Started(nextId, Played(script, k + 1)) == created + Started(nextId + |created|, acts)
      && ArmedBy(armed, nextId, Played(script, k + 1)) ==
         ArmedBy(ArmedBy(armed, nextId, done), nextId + |created|, acts)
  {
    ActsConcat(armed, nextId, Played(script, k), Script(script, k));
  }

  class TimeHeap {
    var nodes: array<Node>
    var cursize: nat
    // the nodes whose callback is set
    var armed: set<nat>
    var nextId: nat

    ghost predicate Sized()
      reads this
    {
      cursize <= nodes.Length && 0 < nodes.Length
    }

    ghost function Contents(): seq<Node>
      requires Sized()
      reads this, nodes
    {
      nodes[..cursize]
    }

    ghost predicate Valid()
      reads this, nodes
    {
      && Sized() && Heap(Contents())
      && Live(Contents(), nextId)
      && (forall id :: id in armed ==> id < nextId)
    }

    constructor ()
      ensures Valid() && fresh(nodes) && Contents() == []
    {
      nodes := new Node[100](_ => Null);
      cursize, armed, nextId := 0, {}, 0;
    }

    /** time_heap_resize */
    method Resize()
      requires Sized()
      modifies this`nodes
      ensures Sized() && fresh(nodes) && nodes.Length == 2 * old(nodes.Length)
      ensures Contents() == old(Contents())
    {
      var tmp := new Node[nodes.Length * 2](_ => Null);
      for i := 0 to cursize
        invariant nodes == old(nodes) && tmp[..i] == nodes[..i]
      {
        tmp[i] := nodes[i];
      }
      nodes := tmp;
    }

    /** insert_time_heap */
    method InsertTimeHeap(n: Node, last: nat)
      requires last < nodes.Length
      modifies nodes
      ensures nodes[..last + 1] == Up(old(nodes[..last + 1]), last, n)
    {
      var hole: nat := last;
      while hole > 0
        invariant hole <= last
        invariant Up(nodes[..last + 1], hole, n) == Up(old(nodes[..last + 1]), last, n)
      {
        var parent: nat := (hole - 1) / 2;
        if Key(nodes[parent]) <= Key(n) {
          break;
        }
        assert nodes[..last + 1][hole := nodes[parent]] == nodes[..last + 1][hole := nodes[..last + 1][Parent(hole)]];
        nodes[hole] := nodes[parent];
        hole := parent;
      }
      assert hole == 0 || Key(nodes[..last + 1][Parent(hole)]) <= Key(n);
      nodes[hole] := n;
    }

    /** percolate_down, for a hole inside the heap */
    method PercolateDown(start: nat)
      requires Sized() && start < cursize
      modifies nodes
      ensures Contents() == Down(old(Contents()), start, old(nodes[start]))
    {
      var tmp := nodes[start];
      var hole: nat := start;
      while 2 * hole + 1 < cursize
        invariant hole < cursize
        invariant Down(Contents(), hole, tmp) == Down(old(Contents()), start, tmp)
      {
        var child: nat := hole * 2 + 1;
        if child < cursize - 1 && Key(nodes[child + 1]) < Key(nodes[child]) {
          child := child + 1;
        }
        assert child == Least(Contents(), hole);
        if Key(nodes[child]) < Key(tmp) {
          nodes[hole] := nodes[child];
        } else {
          break;
        }
        hole := child;
      }
      nodes[hole] := tmp;
    }

    /** A new node goes into the first free slot and up. */
    method Place(n: Node)
      requires Sized() && cursize < nodes.Length
      modifies this`cursize, nodes
      ensures Sized() && Contents() == Added(old(Contents()), n)
    {
      ghost var before, slots := Contents(), nodes[..cursize + 1];
      assert slots[cursize := n] == before + [n];
      UpIgnoresHole(slots, cursize, n);
      hide Up;
      InsertTimeHeap(n, cursize);
      cursize := cursize + 1;
    }

    /** time_heap_add_timer; `expire` is the time of the call plus the timeout. */
    method AddTimer(expire: nat) returns (n: Node)
      requires Valid()
      modifies this, nodes
      ensures Valid() && (nodes == old(nodes) || fresh(nodes))
      ensures n == Node(old(nextId), expire) && nextId == old(nextId) + 1 && armed == old(armed) + {n.id}
      ensures Contents() == Added(old(Contents()), n)
    {
      hide Heap, Up, Live, Added;
      n := Node(nextId, expire);
      AddedIsHeap(Contents(), n);
      AddedLive(Contents(), n, nextId);
      if cursize >= nodes.Length {
        Resize();
      }
      nextId := nextId + 1;
      armed := armed + {n.id};
      Place(n);
    }

    /** The last node takes the place of the root. */
    method LastToFront()
      requires Sized() && cursize > 0
      modifies this`cursize, nodes
      ensures cursize == old(cursize) - 1
      ensures cursize == 0 ==> nodes[0] == Null
      ensures cursize > 0 ==> nodes[0] == old(nodes[cursize - 1])
      ensures cursize > 0 ==> Contents() == old(Contents()[..cursize - 1][0 := nodes[cursize - 1]])
    {
      nodes[0] := Null;
      cursize := cursize - 1;
      nodes[0] := nodes[cursize];
    }

    /** pop_timer */
    method PopTimer()
      requires Valid()
      modifies this`cursize, nodes
      ensures Valid()
      ensures Contents() == if old(cursize) == 0 then [] else Popped(old(Contents()))
      ensures cursize == 0 && old(cursize) > 0 ==> nodes[0] == Null
    {
      hide Heap, Down, Live, Popped;
      if cursize == 0 {
        return;
      }
      ghost var before := Contents();
      PoppedFromRoot(before);
      PoppedIsHeap(before);
      PoppedLive(before, nextId);
      LastToFront();
      if cursize > 0 {
        PercolateDown(0);
      }
    }

    /** time_heap_del_timer: only the callback of the node is cleared. */
    method DelTimer(id: nat)
      requires Valid()
      modifies this`armed
      ensures Valid() && armed == old(armed) - {id}
    {
      armed := armed - {id};
    }

    /** One thing a callback does.  What it starts is not due before `now`, so the root stays the root. */
    method DoAct(act: Act, now: nat) returns (added: seq<Node>)
      requires Valid() && cursize > 0 && Key(nodes[0]) <= now && (act.Start? ==> act.expire >= now)
      modifies this, nodes
      ensures Valid() && (nodes == old(nodes) || fresh(nodes))
      ensures nodes[0] == old(nodes[0]) && cursize == old(cursize) + |added|
      ensures multiset(Contents()) == old(multiset(Contents())) + multiset(added)
      ensures added == if act.Start? then [Node(old(nextId), act.expire)] else []
      ensures nextId == old(nextId) + |added|
      ensures armed == if act.Start? then old(armed) + {old(nextId)} else old(armed) - {act.id}
    {
      hide Heap, Up, Added, Live;
      match act {
        case Start(expire) =>
          ghost var s := Contents();
          var n := AddTimer(expire);
          AddedIsHeap(s, n);
          assert |Added(s, n)| == |s| + 1 && Contents()[0] == s[0] by { AddedSize(s, n); }
          added := [n];
        case Clear(id) =>
          DelTimer(id);
          added := [];
      }
    }

    /** The next thing a callback does; `armed0` and `first` are those of its beginning. */
    method ActNext(acts: seq<Act>, i: nat, now: nat, ghost armed0: set<nat>, ghost first: nat) returns (more: seq<Node>)
      requires Valid() && cursize > 0 && Key(nodes[0]) <= now && StartsFrom(acts, now) && i < |acts|
      requires nextId == first + |Started(first, acts[..i])| && armed == ArmedBy(armed0, first, acts[..i])
      modifies this, nodes
      ensures Valid() && (nodes == old(nodes) || fresh(nodes))
      ensures nodes[0] == old(nodes[0]) && cursize == old(cursize) + |more| && |more| <= 1
      ensures multiset(Contents()) == old(multiset(Contents())) + multiset(more)
      ensures Started(first, acts[..i + 1]) == Started(first, acts[..i]) + more
      ensures nextId == first + |Started(first, acts[..i + 1])| && armed == ArmedBy(armed0, first, acts[..i + 1])
    {
      hide Heap, Live, Started, ArmedBy;
      ActsOne(armed0, first, acts, i);
      more := DoAct(acts[i], now);
    }

    /** The root's callback runs. */
    method Callback(acts: seq<Act>, now: nat) returns (added: seq<Node>)
      requires Valid() && cursize > 0 && StartsFrom(acts, now) && Key(nodes[0]) <= now
      modifies this, nodes
      ensures Valid() && (nodes == old(nodes) || fresh(nodes))
      ensures nodes[0] == old(nodes[0]) && cursize == old(cursize) + |added| && |added| <= |acts|
      ensures multiset(Contents()) == old(multiset(Contents())) + multiset(added)
      ensures forall n :: n in added ==> Key(n) >= now
      ensures added == Started(old(nextId), acts) && nextId == old(nextId) + |added|
      ensures armed == ArmedBy(old(armed), old(nextId), acts)
    {
      hide Heap, Live, Started, ArmedBy, Key, StartsFrom;
      added := [];
      ghost var armed0, first, before, root := armed, nextId, multiset(Contents()), nodes[0];
      NoActs(armed, nextId);
      assert acts[..0] == [];
      for i := 0 to |acts|
        invariant Valid() && (nodes == old(nodes) || fresh(nodes))
        invariant nodes[0] == root && cursize == old(cursize) + |added| && |added| <= i
        invariant multiset(Contents()) == before + multiset(added)
        invariant added == Started(first, acts[..i]) && nextId == first + |added|
        invariant armed == ArmedBy(armed0, first, acts[..i])
      {
        var more := ActNext(acts, i, now, armed0, first);
        AppendSum(before, added, more);
        added := added + more;
      }
      assert acts[..|acts|] == acts;
      StartedFrom(first, acts, now);
    }

    /** One round of time_heap_tick: the root, which is due, runs unless cleared, and leaves. */
    method Fire(now: nat, acts: seq<Act>, ghost popped: seq<Node>) returns (n: Node, fired: bool, added: seq<Node>)
      requires Valid() && cursize > 0 && Key(nodes[0]) <= now && StartsFrom(acts, now)
      requires Ordered(popped, Contents(), now)
      modifies this, nodes
      ensures Valid() && (nodes == old(nodes) || fresh(nodes))
      ensures n == old(nodes[0]) && n.Node? && n.id < old(nextId) && fired == (n.id in old(armed))
      ensures cursize + 1 == old(cursize) + |added| && |added| <= if fired then |acts| else 0
      ensures multiset(Contents()) + multiset{n} == old(multiset(Contents())) + multiset(added)
      ensures Ordered(popped + [n], Contents(), now)
      ensures added == (if fired then Started(old(nextId), acts) else []) && nextId == old(nextId) + |added|
      ensures armed == if fired then ArmedBy(old(armed), old(nextId), acts) else old(armed)
    {
      hide Heap, Up, Down, Popped, Ordered, Started, ArmedBy;
      assert nodes[0] in Contents();
      n := nodes[0];
      fired := n.id in armed;
      added := [];
      ghost var before := Contents();
      if fired {
        added := Callback(acts, now);
      }
      ghost var s := Contents();
      assert s[0] == n;
      OrderedStart(popped, before, s, added, now);
      OrderedPop(popped, s, now);
      PoppedIsHeap(s);
      PopTimer();
    }

    /**
      time_heap_tick at time `now`; the k-th callback it runs does `script[k]`, and nothing once the script is
      over.  The nodes popped, in non-decreasing order of expiry, are exactly those due, whether there at the
      start or started by a callback; each ran if and only if its callback was set when its turn came; the rest
      is a heap of nodes not yet due, the nodes added are exactly those the callbacks that ran have started, and
      no node is lost or duplicated.
    */
    method Tick(now: nat, script: seq<seq<Act>>) returns (popped: seq<Node>, ran: seq<bool>, added: seq<Node>)
      requires Valid()
      requires forall k :: 0 <= k < |script| ==> StartsFrom(script[k], now)
      modifies this, nodes
      ensures Valid() && (nodes == old(nodes) || fresh(nodes))
      ensures multiset(Contents()) + multiset(popped) == old(multiset(Contents())) + multiset(added)
      ensures InOrder(popped) && forall n :: n in popped ==> Key(n) <= now
      ensures forall n :: n in Contents() ==> Key(n) > now
      ensures Told(popped, ran, script, old(armed), old(nextId))
      ensures var acts := Played(script, Count(ran));
        && added == Started(old(nextId), acts) && nextId == old(nextId) + |added|
        && armed == ArmedBy(old(armed), old(nextId), acts)
    {
      hide Heap, Up, Down, Popped, Told, Ordered, Live, Started, ArmedBy, Count, Played;
      popped, ran, added := [], [], [];
      var k: nat := 0;
      var tmp := nodes[0];
      Nothing(Contents(), now, script, armed, nextId);
      while cursize > 0
        invariant Valid() && (nodes == old(nodes) || fresh(nodes))
        invariant cursize > 0 ==> tmp == nodes[0]
        invariant multiset(Contents()) + multiset(popped) == old(multiset(Contents())) + multiset(added)
        invariant Ordered(popped, Contents(), now) && k == Count(ran)
        invariant Told(popped, ran, script, old(armed), old(nextId))
        invariant added == Started(old(nextId), Played(script, k)) && nextId == old(nextId) + |added|
        invariant armed == ArmedBy(old(armed), old(nextId), Played(script, k))
        decreases cursize + Starts(script, k)
      {
        RootLive(Contents(), nextId);
        if tmp.Null? || tmp.expire > now {
          break;
        }
        var acts := Script(script, k);
        ghost var inHeap := multiset(Contents());
        var n, fired, more := Fire(now, acts, popped);
        ToldPop(popped, ran, script, old(armed), old(nextId), n, fired);
        NextCall(old(armed), old(nextId), script, k);
        if fired {
          k := k + 1;
        }
        assert multiset(popped + [n]) == multiset(popped) + multiset{n};
        assert multiset(added + more) == multiset(added) + multiset(more);
        Balance(inHeap, multiset(popped), old(multiset(Contents())), multiset(added), multiset(Contents()), n,
            multiset(more));
        popped, ran, added := popped + [n], ran + [fired], added + more;
        tmp := nodes[0];
      }
      AllLater(Contents(), now);
      assert InOrder(popped) && forall n :: n in popped ==> Key(n) <= now by { OrderedIs(popped, Contents(), now); }
    }
  }
}
