/**
 The simple specification of the timing wheel: a flat set of pending nodes, each with an
 unbounded deadline, next to an unbounded clock. The wheel of module TimerWheel keeps a trace
 of everything that happens to it, and replaying that trace here gives its abstract state.
 */
module TimerFlat {

  const U32 := 0x1_0000_0000
  const HALF := 0x8000_0000

  type u32 = x: int | 0 <= x < 0x1_0000_0000

  type Id = nat

  /** What can happen to a wheel: a node is (re-)added or deleted, an iteration starts, or the
      running iteration calls back one of the nodes it took off the wheel. */
  datatype Event = Add(id: Id, expires: u32) | Del(id: Id) | Tick | Fire(id: Id)

  /** `clock` counts the iterations that have started, `due` maps a pending node to the iteration
      it is due in, `firing` holds the nodes the running iteration has still to call back. */
  datatype Flat = Flat(clock: nat, due: map<Id, nat>, firing: set<Id>)

  ghost predicate WellFormed(f: Flat) {
    && (forall id :: id in f.due ==> f.clock <= f.due[id])
    && f.due.Keys !! f.firing
  }

  /** The iteration that a node added now is due in: `expires` read as the nearest time ahead,
      or the very next iteration when the 32-bit difference is negative. */
  function Deadline(clock: nat, expires: u32): (d: nat)
    ensures clock <= d < clock + HALF
    ensures (expires - clock) % U32 < HALF ==> d % U32 == expires
    ensures (expires - clock) % U32 >= HALF ==> d == clock
  {
    var idx := (expires - clock) % U32;
    if idx < HALF then
      assert (clock + idx) % U32 == expires;
      clock + idx
    else clock
  }

  ghost predicate Enabled(f: Flat, e: Event) {
    match e
    case Tick => f.firing == {}
    case Fire(id) => id in f.firing
    case _ => true
  }

  ghost function Step(f: Flat, e: Event): Flat {
    match e
    case Add(id, expires) => Flat(f.clock, f.due[id := Deadline(f.clock, expires)], f.firing - {id})
    case Del(id) => Flat(f.clock, f.due - {id}, f.firing - {id})
    case Tick =>
      Flat(f.clock + 1,
           map id | id in f.due && f.due[id] != f.clock :: f.due[id],
           set id | id in f.due && f.due[id] == f.clock)
    case Fire(id) => Flat(f.clock, f.due, f.firing - {id})
  }

  ghost function Run(f: Flat, trace: seq<Event>): Flat {
    if trace == [] then f else Step(Run(f, trace[..|trace| - 1]), trace[|trace| - 1])
  }

  ghost predicate Legal(f: Flat, trace: seq<Event>) {
    trace == [] ||
    (Legal(f, trace[..|trace| - 1]) && Enabled(Run(f, trace[..|trace| - 1]), trace[|trace| - 1]))
  }

  /** The trace neither adds nor deletes the node. */
  ghost predicate LeftAlone(trace: seq<Event>, id: Id) {
    forall e :: e in trace ==> !(e.Add? && e.id == id) && !(e.Del? && e.id == id)
  }

  /** The trace grew without touching the node. */
  ghost predicate Quiet(before: seq<Event>, after: seq<Event>, id: Id) {
    before <= after && LeftAlone(after[|before|..], id)
  }

  lemma QuietThenQuiet(a: seq<Event>, b: seq<Event>, c: seq<Event>, id: Id)
    requires Quiet(a, b, id) && Quiet(b, c, id)
    ensures Quiet(a, c, id)
  {
    assert c[|a|..] == b[|a|..] + c[|b|..];
  }

  /** Number of times the node is called back. */
  ghost function Fires(trace: seq<Event>, id: Id): nat {
    multiset(trace)[Fire(id)]
  }

  lemma {:induction false} RunExtend(f: Flat, trace: seq<Event>, e: Event)
    requires Legal(f, trace) && Enabled(Run(f, trace), e)
    ensures Legal(f, trace + [e])
    ensures Run(f, trace + [e]) == Step(Run(f, trace), e)
  {
    assert (trace + [e])[..|trace|] == trace;
  }

  lemma {:induction false} RunKeepsWellFormed(f: Flat, trace: seq<Event>)
    requires WellFormed(f) && Legal(f, trace)
    ensures WellFormed(Run(f, trace))
    ensures f.clock <= Run(f, trace).clock
  {
    if trace != [] {
      RunKeepsWellFormed(f, trace[..|trace| - 1]);
    }
  }

  /** Running a concatenated trace is running its halves one after the other. */
  lemma {:induction false} RunConcat(f: Flat, a: seq<Event>, b: seq<Event>)
    requires Legal(f, a + b)
    ensures Legal(f, a) && Legal(Run(f, a), b)
    ensures Run(f, a + b) == Run(Run(f, a), b)
  {
    if b == [] {
      assert a + b == a;
    } else {
      assert (a + b)[..|a + b| - 1] == a + b[..|b| - 1];
      RunConcat(f, a, b[..|b| - 1]);
    }
  }

  /** What one legal run does to a node it leaves alone: before its deadline the node stays
      pending, in the iteration of its deadline it waits in `firing` or has fired once, and
      afterwards it has fired exactly once. */
  lemma {:induction false} LeftAloneNode(f: Flat, trace: seq<Event>, id: Id)
    requires WellFormed(f) && Legal(f, trace) && id in f.due && LeftAlone(trace, id)
    ensures var g := Run(f, trace); var d := f.due[id];
      if g.clock <= d then
        id in g.due && g.due[id] == d && id !in g.firing && Fires(trace, id) == 0
      else
        && id !in g.due
        && (id in g.firing ==> g.clock == d + 1)
        && Fires(trace, id) == (if id in g.firing then 0 else 1)
    ensures forall k :: 0 <= k < |trace| && trace[k] == Fire(id) ==>
      Run(f, trace[..k]).clock == f.due[id] + 1
  {
    if trace != [] {
      var n := |trace| - 1;
      var init, e := trace[..n], trace[n];
      assert trace == init + [e];
      LeftAloneNode(f, init, id);
      RunKeepsWellFormed(f, init);
      assert multiset(trace) == multiset(init) + multiset{e};
      assert e in trace;
      forall k | 0 <= k < |trace| && trace[k] == Fire(id)
        ensures Run(f, trace[..k]).clock == f.due[id] + 1
      {
        if k < n {
          assert trace[..k] == init[..k];
        }
      }
    }
  }

  /** The wheel's promise, over every legal run between two moments outside any iteration: a
      pending node left alone is called back exactly once, in the iteration numbered by its
      deadline, if that iteration has started, and not at all (and stays pending) otherwise. */
  lemma {:induction false} FiresExactlyOnceOnTime(f: Flat, trace: seq<Event>, id: Id)
    requires WellFormed(f) && Legal(f, trace) && id in f.due && LeftAlone(trace, id)
    requires Run(f, trace).firing == {}
    ensures Fires(trace, id) == (if Run(f, trace).clock > f.due[id] then 1 else 0)
    ensures id in Run(f, trace).due <==> Run(f, trace).clock <= f.due[id]
    ensures forall k :: 0 <= k < |trace| && trace[k] == Fire(id) ==>
      Run(f, trace[..k]).clock - 1 == f.due[id]
  {
    LeftAloneNode(f, trace, id);
  }

  /** What adding a node does to the runs that follow. */
  lemma {:induction false} AddThenRun(f: Flat, id: Id, expires: u32, rest: seq<Event>)
    requires Legal(f, [Add(id, expires)] + rest)
    ensures var f1 := Step(f, Add(id, expires));
      Legal(f1, rest) && Run(f, [Add(id, expires)] + rest) == Run(f1, rest)
  {
    var first := [Add(id, expires)];
    RunConcat(f, first, rest);
    assert first[..0] == [];
    assert Run(f, first) == Step(Run(f, []), first[0]);
  }

  /** The same promise from the moment of the add, in the wheel's own 32-bit terms: with the
      difference below 2^31 the callback comes in the iteration whose wrapped number is `expires`,
      and otherwise in the next iteration to start. */
  lemma {:induction false} AddedNodeFiresOnTime(f: Flat, id: Id, expires: u32, rest: seq<Event>)
    requires WellFormed(f) && Legal(f, [Add(id, expires)] + rest) && LeftAlone(rest, id)
    requires Run(f, [Add(id, expires)] + rest).firing == {}
    ensures var f1 := Step(f, Add(id, expires)); var d := f1.due[id];
      && Fires(rest, id) == (if Run(f1, rest).clock > d then 1 else 0)
      && (forall k :: 0 <= k < |rest| && rest[k] == Fire(id) ==> Run(f1, rest[..k]).clock - 1 == d)
      && ((expires - f.clock) % U32 < HALF ==> d % U32 == expires)
      && ((expires - f.clock) % U32 >= HALF ==> d == f.clock)
  {
    AddThenRun(f, id, expires, rest);
    FiresExactlyOnceOnTime(Step(f, Add(id, expires)), rest, id);
  }
}
