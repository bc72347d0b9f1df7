/**
 Threads locking and unlocking non-recursive mutexes through the detector's macros. Each call is
 split into the steps that can interleave: the hook before the lock, the real acquisition, the hook
 after it, the real release and the hook after that.
 */
module LockProtocol {
  import opened WaitGraph
  import opened DeadLockGraph

  /** Where a thread is in the macros. `Idle` is anywhere outside them. */
  datatype Pc = Idle | Waiting(lock: Lock) | Acquired(lock: Lock) | Released(lock: Lock)

  datatype State = State(apply: Apply, belong: Belong, owner: map<Lock, Tid>, pc: map<Tid, Pc>)

  datatype Step = Before(t: Tid, lock: Lock) | Acquire(t: Tid) | After(t: Tid, site: Site)
                | Release(t: Tid, lock: Lock) | Unlocked(t: Tid)

  function PcOf(s: State, t: Tid): Pc { if t in s.pc then s.pc[t] else Idle }

  ghost predicate Enabled(s: State, step: Step) {
    match step
    case Before(t, _) => PcOf(s, t) == Idle
    case Acquire(t) => PcOf(s, t).Waiting? && PcOf(s, t).lock !in s.owner
    case After(t, _) => PcOf(s, t).Acquired?
    case Release(t, lock) => PcOf(s, t) == Idle && lock in s.owner && s.owner[lock] == t
    case Unlocked(t) => PcOf(s, t).Released?
  }

  ghost function Next(s: State, step: Step): State
    requires Enabled(s, step)
  {
    match step
    case Before(t, lock) => s.(apply := ApplyBefore(s.apply, t, lock), pc := s.pc[t := Waiting(lock)])
    case Acquire(t) =>
      var lock := PcOf(s, t).lock;
      s.(owner := s.owner[lock := t], pc := s.pc[t := Acquired(lock)])
    case After(t, site) =>
      s.(apply := ApplyAfter(s.apply, t),
         belong := BelongAfter(s.belong, t, PcOf(s, t).lock, site),
         pc := s.pc[t := Idle])
    case Release(t, lock) => s.(owner := s.owner - {lock}, pc := s.pc[t := Released(lock)])
    case Unlocked(t) => s.(belong := BelongUnlocked(s.belong, PcOf(s, t).lock), pc := s.pc[t := Idle])
  }

  const INIT := State(map[], map[], map[], map[])

  /** The interleaving `steps` leads from `s0` to `s`. */
  ghost predicate Leads(s0: State, steps: seq<Step>, s: State)
    decreases steps
  {
    if steps == [] then s == s0
    else Enabled(s0, steps[0]) && Leads(Next(s0, steps[0]), steps[1..], s)
  }

  /** Threads that released the lock but have not run the hook after it yet. */
  ghost function Late(s: State, lock: Lock): set<Tid> { LateIn(s.pc, lock) }

  ghost function LateIn(pc: map<Tid, Pc>, lock: Lock): set<Tid> {
    set t | t in pc && pc[t] == Released(lock)
  }

  /** Somebody owns the lock and has run the hook after the acquisition. */
  ghost predicate HeldAndHooked(s: State, lock: Lock) {
    lock in s.owner && PcOf(s, s.owner[lock]) != Acquired(lock)
  }

  /** What the records say about a lock: the count is the number of hooks to come, and the recorded
      thread is the owner once the owner has run its hook. */
  ghost predicate LockOk(s: State, lock: Lock) {
    var h := HoldingOf(s.belong, lock);
    && h.count == |h.sites| == |Late(s, lock)| + (if HeldAndHooked(s, lock) then 1 else 0)
    && (HeldAndHooked(s, lock) ==> h.thread == s.owner[lock])
  }

  /** What the records say about a thread: a valid request exactly between the two lock hooks. */
  ghost predicate ThreadOk(s: State, t: Tid) {
    match PcOf(s, t)
    case Waiting(lock) => t in s.apply && s.apply[t] == Request(lock, true)
    case Acquired(lock) => t in s.apply && s.apply[t] == Request(lock, true) && lock in s.owner && s.owner[lock] == t
    case _ => t in s.apply ==> !s.apply[t].valid
  }

  ghost predicate Inv(s: State) {
    && (forall t :: ThreadOk(s, t))
    && (forall lock :: LockOk(s, lock))
  }

  lemma StepKeepsThreads(s: State, step: Step, t: Tid)
    requires Inv(s) && Enabled(s, step)
    ensures ThreadOk(Next(s, step), t)
  {
    assert ThreadOk(s, t) && ThreadOk(s, step.t);
  }

  lemma StepKeepsLocks(s: State, step: Step, lock: Lock)
    requires Inv(s) && Enabled(s, step)
    ensures LockOk(Next(s, step), lock)
  {
    assert LockOk(s, lock) && ThreadOk(s, step.t);
    LateAfter(s, step, lock);
    hide Late, Inv;
  }

  /** How many unlock hooks are to come after a step. */
  lemma LateAfter(s: State, step: Step, lock: Lock)
    requires Enabled(s, step)
    ensures |Late(Next(s, step), lock)| == |Late(s, lock)| +
      (if step.Release? && step.lock == lock then 1
       else if step.Unlocked? && PcOf(s, step.t).lock == lock then -1
       else 0)
  {
    var s', t := Next(s, step), step.t;
    assert s'.pc == s.pc[t := PcOf(s', t)];
    LateOfPc(s.pc, t, PcOf(s', t), lock);
    hide LateIn, BelongAfter, BelongUnlocked, ApplyBefore, ApplyAfter;
  }

  lemma LateOfPc(pc: map<Tid, Pc>, t: Tid, now: Pc, lock: Lock)
    ensures var late, late' := LateIn(pc, lock), LateIn(pc[t := now], lock);
      |late'| == |late - {t}| + (if now == Released(lock) then 1 else 0)
    ensures |LateIn(pc, lock)| == |LateIn(pc, lock) - {t}| + (if t in pc && pc[t] == Released(lock) then 1 else 0)
  {
    var late, late' := LateIn(pc, lock), LateIn(pc[t := now], lock);
    assert t in late <==> t in pc && pc[t] == Released(lock);
    assert t in late ==> late == (late - {t}) + {t};
    assert t !in late ==> late == late - {t};
    if now == Released(lock) {
      assert late' == (late - {t}) + {t};
    } else {
      assert late' == late - {t};
    }
  }

  /** The records stay right in every state of every interleaving. */
  lemma {:induction false} InvAlways(s0: State, steps: seq<Step>, s: State)
    requires Inv(s0) && Leads(s0, steps, s)
    ensures Inv(s)
    decreases steps
  {
    if steps != [] {
      var s1 := Next(s0, steps[0]);
      assert Inv(s1) by {
        hide ThreadOk, LockOk, Next, Enabled;
        forall t ensures ThreadOk(s1, t) { StepKeepsThreads(s0, steps[0], t); }
        forall lock ensures LockOk(s1, lock) { StepKeepsLocks(s0, steps[0], lock); }
      }
      InvAlways(s1, steps[1..], s);
    }
  }

  lemma InvInit()
    ensures Inv(INIT)
  {
    assert forall lock :: Late(INIT, lock) == {};
  }

  /** The real waiting: a thread in pthread_mutex_lock waits for the owner of the mutex. */
  ghost function Blocked(s: State): Graph {
    map t | t in s.pc && s.pc[t].Waiting? && s.pc[t].lock in s.owner :: s.owner[s.pc[t].lock]
  }

  ghost function Recorded(s: State): Graph { Edges(s.apply, s.belong) }

  /** A thread that is blocked itself has run its hooks, so waiting for it is on record. */
  lemma BlockedIsRecorded(s: State, t: Tid)
    requires Inv(s) && t in Blocked(s) && Blocked(s)[t] in Blocked(s)
    ensures t in Recorded(s) && Recorded(s)[t] == Blocked(s)[t]
  {
    var lock := s.pc[t].lock;
    assert ThreadOk(s, t) && LockOk(s, lock);
  }

  lemma {:induction false} WalkIsRecorded(s: State, t: Tid, n: nat, u: Tid)
    requires Inv(s) && Walk(Blocked(s), t, n, u) && u in Blocked(s)
    ensures Walk(Recorded(s), t, n, u)
    decreases n
  {
    if n > 0 {
      var next := Blocked(s)[t];
      WalkIsRecorded(s, next, n - 1, u);
      assert next in Blocked(s) by { assert Walk(Blocked(s), next, n - 1, u); }
      BlockedIsRecorded(s, t);
    }
  }

  /** No deadlock is missed: in every reachable state, every thread on a cycle of blocked threads is on
      a cycle of the recorded graph, and so among those that check_dead_lock reports. */
  lemma NoMissedDeadlock(steps: seq<Step>, s: State, stuck: set<Tid>)
    requires Leads(INIT, steps, s)
    requires forall t :: t in stuck <==> OnCycle(Recorded(s), t)
    ensures forall t :: OnCycle(Blocked(s), t) ==> t in stuck
  {
    InvInit();
    InvAlways(INIT, steps, s);
    forall t | OnCycle(Blocked(s), t) ensures OnCycle(Recorded(s), t) {
      var n :| n >= 1 && Walk(Blocked(s), t, n, t);
      WalkIsRecorded(s, t, n, t);
    }
  }

  /** More hooks are counted on the lock that `t` asks for than are late: somebody has it now. */
  ghost predicate Backed(s: State, t: Tid) {
    t in s.apply && HoldingOf(s.belong, s.apply[t].lock).count > |Late(s, s.apply[t].lock)|
  }

  /** A recorded edge is backed exactly if it is real and the owner has run the hook after its acquisition. */
  lemma EdgeIsTrue(s: State, t: Tid)
    requires Inv(s) && t in Recorded(s)
    ensures Backed(s, t) <==>
      t in Blocked(s) && HeldAndHooked(s, s.apply[t].lock) && Blocked(s)[t] == Recorded(s)[t]
  {
    var lock := s.apply[t].lock;
    assert ThreadOk(s, t) && LockOk(s, lock);
  }

  /** The owner that a blocked thread waits for, if blocked itself, has run its hook. */
  lemma BlockedIsBacked(s: State, t: Tid)
    requires Inv(s) && t in Blocked(s) && Blocked(s)[t] in Blocked(s)
    ensures Backed(s, t)
  {
    assert ThreadOk(s, t) && LockOk(s, s.pc[t].lock);
  }

  lemma {:induction false} BackedWalkIsReal(s: State, t: Tid, n: nat, u: Tid)
    requires Inv(s) && Walk(Recorded(s), t, n, u)
    requires forall v: Tid, k: nat :: Walk(Recorded(s), t, k, v) && k < n ==> Backed(s, v)
    ensures Walk(Blocked(s), t, n, u)
    decreases n
  {
    if n > 0 {
      assert Walk(Recorded(s), t, 0, t);
      EdgeIsTrue(s, t);
      forall v: Tid, k: nat | Walk(Recorded(s), Recorded(s)[t], k, v) && k < n - 1 ensures Backed(s, v) {
        assert Walk(Recorded(s), t, k + 1, v);
      }
      BackedWalkIsReal(s, Recorded(s)[t], n - 1, u);
    }
  }

  lemma {:induction false} RealCycleIsBacked(s: State, t: Tid, n: nat, v: Tid)
    requires Inv(s) && OnCycle(Blocked(s), t) && Walk(Recorded(s), t, n, v)
    ensures Backed(s, v)
    decreases n
  {
    CycleGoesOn(Blocked(s), t);
    CycleGoesOn(Blocked(s), Blocked(s)[t]);
    BlockedIsBacked(s, t);
    if n > 0 {
      BlockedIsRecorded(s, t);
      RealCycleIsBacked(s, Blocked(s)[t], n - 1, v);
    }
  }

  /** Every lock asked for along the recorded edges from `t` is backed. */
  ghost predicate AllBacked(s: State, t: Tid) {
    forall n: nat, v: Tid :: Walk(Recorded(s), t, n, v) ==> Backed(s, v)
  }

  lemma BackedCycleIsReal(s: State, t: Tid)
    requires Inv(s) && OnCycle(Recorded(s), t) && AllBacked(s, t)
    ensures OnCycle(Blocked(s), t)
  {
    var n :| n >= 1 && Walk(Recorded(s), t, n, t);
    BackedWalkIsReal(s, t, n, t);
  }

  /** When an alarm is true: a thread on a recorded cycle is really deadlocked if and only if every lock
      asked for around that cycle has more hooks counted than are late. */
  lemma AlarmIsTrue(steps: seq<Step>, s: State, t: Tid)
    requires Leads(INIT, steps, s) && OnCycle(Recorded(s), t)
    ensures OnCycle(Blocked(s), t) <==> AllBacked(s, t)
  {
    InvInit();
    InvAlways(INIT, steps, s);
    if OnCycle(Blocked(s), t) {
      forall n: nat, v: Tid | Walk(Recorded(s), t, n, v) ensures Backed(s, v) {
        RealCycleIsBacked(s, t, n, v);
      }
    } else if AllBacked(s, t) {
      BackedCycleIsReal(s, t);
    }
  }

  /** With no unlock hook to come on any lock, the recorded cycles are exactly the real deadlocks. */
  lemma NoFalseAlarm(steps: seq<Step>, s: State, t: Tid)
    requires Leads(INIT, steps, s) && forall u :: !PcOf(s, u).Released?
    ensures OnCycle(Recorded(s), t) <==> OnCycle(Blocked(s), t)
  {
    InvInit();
    InvAlways(INIT, steps, s);
    if OnCycle(Recorded(s), t) {
      forall n: nat, v: Tid | Walk(Recorded(s), t, n, v) ensures Backed(s, v) {
        CycleFollows(Recorded(s), t, n, v);
        NoneLate(s, v);
      }
      AlarmIsTrue(steps, s, t);
    }
    if OnCycle(Blocked(s), t) {
      var n :| n >= 1 && Walk(Blocked(s), t, n, t);
      WalkIsRecorded(s, t, n, t);
    }
  }

  lemma NoneLate(s: State, t: Tid)
    requires Inv(s) && t in Recorded(s) && forall u :: !PcOf(s, u).Released?
    ensures Backed(s, t)
  {
    assert LockOk(s, s.apply[t].lock);
    assert forall x :: x in Late(s, s.apply[t].lock) ==> PcOf(s, x).Released?;
    assert Late(s, s.apply[t].lock) == {};
  }

  lemma {:induction false} CycleFollows(graph: Graph, t: Tid, n: nat, v: Tid)
    requires OnCycle(graph, t) && Walk(graph, t, n, v)
    ensures v in graph
    decreases n
  {
    CycleGoesOn(graph, t);
    if n > 0 {
      CycleFollows(graph, graph[t], n - 1, v);
    }
  }

  /** The hooks can be interleaved so that a deadlock is reported where there is none: thread 3 has
      released lock 10 and is late with its hook, thread 2 has used lock 10 since and waits for lock 20,
      and thread 1, which owns lock 20, is about to take the free lock 10. */
  lemma FalseAlarm() returns (steps: seq<Step>, s: State)
    ensures Leads(INIT, steps, s)
    ensures OnCycle(Recorded(s), 1) && OnCycle(Recorded(s), 2)
    ensures Enabled(s, Acquire(1)) && forall t :: !OnCycle(Blocked(s), t)
  {
    steps := LateHook();
    steps := Entangled(steps);
    s := ENTANGLED;
    NobodyDeadlocked();
    var g := Recorded(s);
    assert g[1] == 2 && g[2] == 1;
    hide Leads, Enabled, Edges, OnCycle, Blocked;
    CycleOfTwo(g, 1, 2);
  }

  lemma CycleOfTwo(g: Graph, a: Tid, b: Tid)
    requires a in g && b in g && g[a] == b && g[b] == a
    ensures OnCycle(g, a) && OnCycle(g, b)
  {
    assert Walk(g, a, 0, a) && Walk(g, b, 1, a) && Walk(g, a, 2, a);
    assert Walk(g, b, 0, b) && Walk(g, a, 1, b) && Walk(g, b, 2, b);
  }

  lemma NobodyDeadlocked()
    ensures forall t :: !OnCycle(Blocked(ENTANGLED), t)
  {
    var g := Blocked(ENTANGLED);
    assert g == map[2 := 1];
    forall t ensures !OnCycle(g, t) {
      hide OnCycle;
      if OnCycle(g, t) {
        CycleGoesOn(g, t);
        CycleGoesOn(g, g[t]);
      }
    }
  }

  /** Lock 10 is free, with the hook of thread 3 late and thread 2 on record as its owner. */
  const LATE := State(map[3 := Request(10, false), 2 := Request(10, false)], map[10 := Holding(2, 1, [0])],
                      map[], map[3 := Released(10), 2 := Idle])

  const ENTANGLED := State(map[3 := Request(10, false), 2 := Request(20, true), 1 := Request(10, true)],
                           map[10 := Holding(2, 1, [0]), 20 := Holding(1, 1, [0])],
                           map[20 := 1], map[3 := Released(10), 2 := Waiting(20), 1 := Waiting(10)])

  lemma LateHook() returns (steps: seq<Step>)
    ensures Leads(INIT, steps, LATE)
  {
    var s;
    assert Leads(INIT, [], INIT);
    hide Leads;
    steps, s := LockUnlock([], INIT, 3, 10);
    assert [0] + [] == [0];
    assert s.belong == map[10 := Holding(3, 1, [0])];
    steps, s := LockUnlock(steps, s, 2, 10);
    assert [0] + [0] == [0, 0] && [0, 0][1..] == [0];
    assert s.belong == map[10 := Holding(2, 2, [0, 0])];
    steps, s := Do(steps, s, Unlocked(2));
    assert s == LATE;
  }

  lemma Entangled(steps: seq<Step>) returns (steps': seq<Step>)
    requires Leads(INIT, steps, LATE)
    ensures Leads(INIT, steps', ENTANGLED)
  {
    hide Leads;
    var s;
    steps', s := TakeLock(steps, LATE, 1, 20);
    assert [0] + [] == [0];
    assert s.belong == map[10 := Holding(2, 1, [0]), 20 := Holding(1, 1, [0])];
    steps', s := Do(steps', s, Before(1, 10));
    steps', s := Do(steps', s, Before(2, 20));
    assert s == ENTANGLED;
  }

  /** One more step. */
  lemma Do(steps: seq<Step>, s: State, step: Step) returns (steps': seq<Step>, s': State)
    requires Leads(INIT, steps, s) && Enabled(s, step)
    ensures Leads(INIT, steps', s') && s' == Next(s, step)
  {
    steps', s' := steps + [step], Next(s, step);
    LeadsOn(INIT, steps, s, step);
  }

  lemma {:induction false} LeadsOn(s0: State, steps: seq<Step>, s: State, step: Step)
    requires Leads(s0, steps, s) && Enabled(s, step)
    ensures Leads(s0, steps + [step], Next(s, step))
    decreases steps
  {
    if steps == [] {
      assert Leads(Next(s0, step), [step][1..], Next(s, step));
    } else {
      LeadsOn(Next(s0, steps[0]), steps[1..], s, step);
      assert (steps + [step])[1..] == steps[1..] + [step];
    }
  }

  /** The three steps of a lock call on a free mutex. */
  lemma TakeLock(steps: seq<Step>, s: State, t: Tid, lock: Lock) returns (steps': seq<Step>, s': State)
    requires Leads(INIT, steps, s) && PcOf(s, t) == Idle && lock !in s.owner
    ensures Leads(INIT, steps', s')
    ensures s' == State(s.apply[t := Request(lock, false)], BelongAfter(s.belong, t, lock, 0),
                        s.owner[lock := t], s.pc[t := Idle])
  {
    hide Leads;
    steps', s' := Do(steps, s, Before(t, lock));
    steps', s' := Do(steps', s', Acquire(t));
    steps', s' := Do(steps', s', After(t, 0));
  }

  /** A lock call and the real unlock, the hook after it being late. */
  lemma LockUnlock(steps: seq<Step>, s: State, t: Tid, lock: Lock) returns (steps': seq<Step>, s': State)
    requires Leads(INIT, steps, s) && PcOf(s, t) == Idle && lock !in s.owner
    ensures Leads(INIT, steps', s')
    ensures s' == State(s.apply[t := Request(lock, false)], BelongAfter(s.belong, t, lock, 0),
                        s.owner, s.pc[t := Released(lock)])
  {
    hide Leads;
    steps', s' := TakeLock(steps, s, t, lock);
    steps', s' := Do(steps', s', Release(t, lock));
    assert s.owner[lock := t] - {lock} == s.owner;
    assert s.pc[t := Idle][t := Released(lock)] == s.pc[t := Released(lock)];
  }
}
