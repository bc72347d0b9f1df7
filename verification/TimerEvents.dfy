/**
 When periodic events are due: the arithmetic behind itimer_evt_start and itimer_evt_cb.
 */
module EventTimes {
  import opened TimerFlat
  import Arithmetic

  const CLAMP := 0x7000_0000

  /** What the callbacks of one start of an event have been: `calls[k]` is the manager's `current`
      in the tick of the (k+1)-th callback. `times` is the repeat count it was started with, `ended`
      says that the event used it up, and `stopped` that the user stopped it before it had. */
  datatype History = History(start: nat, period: nat, times: int, calls: seq<nat>, ended: bool, stopped: bool)

  /** How long `n` ticks are. */
  function Lasting(n: nat, interval: nat): nat { n * interval }

  /** The `n` ticks from time `first` on. */
  datatype Window = Window(first: nat, n: nat, interval: nat)

  /** `c` is the time of one of the ticks. */
  ghost predicate TickOf(c: nat, w: Window) {
    exists j: nat :: j < w.n && c == w.first + Lasting(j, w.interval)
  }

  /** Every tick of `w` is one of `v`. */
  ghost predicate Covers(v: Window, w: Window) {
    forall c :: TickOf(c, w) ==> TickOf(c, v)
  }

  lemma WindowGrows(first: nat, n: nat, interval: nat)
    ensures var v := Window(first, n + 1, interval);
      Covers(v, Window(first, n, interval)) && Covers(v, Window(first + Lasting(n, interval), 1, interval))
  {
    var w := Window(first + Lasting(n, interval), 1, interval);
    forall c | TickOf(c, w) ensures TickOf(c, Window(first, n + 1, interval)) {
      assert c == first + Lasting(n, interval);
    }
  }

  /** The same start of an event, after the ticks of `w`: callbacks may have been made in those ticks, and nobody
      stopped it. */
  ghost predicate GoesOn(h: History, h': History, w: Window) {
    && h'.start == h.start && h'.period == h.period && h'.times == h.times && h'.stopped == h.stopped
    && h.calls <= h'.calls && (h.ended ==> h'.ended)
    && forall k :: |h.calls| <= k < |h'.calls| ==> TickOf(h'.calls[k], w)
  }

  lemma GoesOnTrans(h: History, h': History, h'': History, v: Window, w: Window, all: Window)
    requires GoesOn(h, h', v) && GoesOn(h', h'', w) && Covers(all, v) && Covers(all, w)
    ensures GoesOn(h, h'', all)
  {
    hide TickOf;
    forall k | |h.calls| <= k < |h''.calls| ensures TickOf(h''.calls[k], all) {
      if k < |h'.calls| { assert h''.calls[k] == h'.calls[k]; }
    }
  }

  /** No callback was made after `last`. */
  ghost predicate Past(h: History, last: int) {
    forall k :: 0 <= k < |h.calls| ==> h.calls[k] <= last
  }

  /** How many due times there are up to `last`. */
  function Reached(start: nat, period: nat, last: int): nat
    requires period >= 1
  {
    if last < start then 0 else (last - start) / period
  }

  /** A due time has been reached exactly if it is counted. */
  lemma ReachedIsDue(start: nat, period: nat, last: int, k: nat)
    requires period >= 1 && k >= 1
    ensures k <= Reached(start, period, last) <==> Due(start, period, k) <= last
  {
    if last >= start {
      var q := (last - start) / period;
      assert last - start == q * period + (last - start) % period;
      Arithmetic.Gap(q, k, period);
      if k <= q { Arithmetic.MulMonotone(k, q, period); }
    } else {
      assert k * period >= 0;
    }
  }

  /** The k-th due time of an event. */
  function Due(start: nat, period: nat, k: nat): nat { start + k * period }

  lemma DueNext(start: nat, period: nat, k: nat)
    ensures Due(start, period, k + 1) == Due(start, period, k) + period
  {
    assert (k + 1) * period == k * period + period;
  }

  /** Every callback ran in the first tick at or after its due time: ticks are `interval` apart,
      so the tick before was still early. */
  ghost predicate Punctual(h: History, interval: nat) {
    forall k :: 0 <= k < |h.calls| ==>
      Due(h.start, h.period, k + 1) <= h.calls[k] < Due(h.start, h.period, k + 1) + interval
  }

  lemma {:induction false} PunctualCall(h: History, interval: nat, current: nat)
    requires Punctual(h, interval)
    requires var d := Due(h.start, h.period, |h.calls| + 1); d <= current < d + interval
    ensures Punctual(h.(calls := h.calls + [current]), interval)
  {
    var h' := h.(calls := h.calls + [current]);
    forall k | 0 <= k < |h'.calls|
      ensures Due(h'.start, h'.period, k + 1) <= h'.calls[k] < Due(h'.start, h'.period, k + 1) + interval
    {
      if k < |h.calls| {
        assert h'.calls[k] == h.calls[k];
      }
    }
  }

  /** The value `current` will have in tick `d`, seen from tick `tick`. */
  function CurrentAt(current: nat, interval: nat, tick: nat, d: nat): int {
    current + (d - tick) * interval
  }

  lemma NextTick(current: nat, interval: nat, tick: nat, d: nat)
    ensures CurrentAt(current + interval, interval, tick + 1, d) == CurrentAt(current, interval, tick, d)
  {
    assert (d - tick) * interval == (d - (tick + 1)) * interval + interval;
  }

  /** Ticks to wait until `slap`, rounded up and clamped, as both callers compute it. */
  function Wait(slap: nat, current: nat, interval: nat): nat
    requires current <= slap && interval >= 1
  {
    var expires := (slap - current + interval - 1) / interval;
    if expires >= CLAMP then CLAMP else expires
  }

  /** The wait is at least one tick and ends no later than the first tick at or after `slap`. */
  lemma WaitIsNotLate(slap: nat, current: nat, interval: nat, tick: nat)
    requires current < slap && interval >= 1
    ensures 1 <= Wait(slap, current, interval) <= CLAMP
    ensures CurrentAt(current, interval, tick, tick + Wait(slap, current, interval)) < slap + interval
  {
    var n := slap - current + interval - 1;
    var q := n / interval;
    assert n == q * interval + n % interval;
    var w := Wait(slap, current, interval);
    assert w * interval <= q * interval by { Arithmetic.MulMonotone(w, q, interval); }
  }
}

/**
 The timer manager: periodic, repeat-counted events on top of the wheel.
 */
module TimerEvents {
  import opened TimerFlat
  import opened EventTimes
  import opened Options
  import WheelLists
  import Arithmetic
  import W = TimerWheel

  /** itimer_evt; `attached` stands for mgr != NULL. */
  datatype Evt = Evt(period: u32, slap: u32, repeat: int, running: bool, attached: bool)

  /** What a user callback may do. */
  datatype Op = Start(id: Id, period: u32, repeat: int) | Stop(id: Id)

  /** An event's fields agree with its history. While the event is running, `rem` callbacks of the
      current tick are counted in `slap` and `repeat` already but still to be made. */
  ghost predicate EvtOk(e: Evt, h: History, rem: nat, interval: nat) {
    var n := |h.calls| + if e.running then rem else 0;
    && Punctual(h, interval)
    && (e.attached || e.running ==>
          e.period == h.period >= 1 && e.slap == Due(h.start, h.period, n + 1))
    && (e.attached ==>
          && !h.ended && !h.stopped
          && (if h.times <= 0 then e.repeat == h.times else e.repeat >= 1 && e.repeat + n == h.times))
    && (!e.attached ==> h.stopped || h.ended)
    && (h.ended && !h.stopped ==> n == h.times >= 1)
    && (h.stopped ==> !e.running) && h.period >= 1
  }

  /** An attached event is on the wheel, no later than the first tick that reaches `slap`. */
  ghost predicate Scheduled(e: Evt, id: Id, f: Flat, current: nat, interval: nat, tick: nat) {
    && (e.attached <==> id in f.due || id in f.firing)
    && (id in f.due ==> tick <= f.due[id] && CurrentAt(current, interval, tick, f.due[id]) < e.slap + interval)
    && (id in f.firing ==> current < e.slap + interval)
  }

  /** The manager's whole state as a value. */
  datatype View = View(evts: map<Id, Evt>, hist: map<Id, History>, f: Flat,
                       current: nat, interval: nat, tick: nat, limit: nat)

  /** Every event but those in `except` is in order. */
  ghost predicate Ok(v: View, except: set<Id>, rem: nat) {
    && 1 <= v.interval && v.current + v.interval + v.limit < U32
    && v.tick <= v.f.clock <= v.tick + 1 && WellFormed(v.f)
    && v.evts.Keys == v.hist.Keys
    && (forall id :: id in v.f.due || id in v.f.firing ==> id in v.evts)
    && (forall id :: id in v.evts ==> v.evts[id].period <= v.limit)
    && (forall id :: id in v.evts && id !in except ==> Good(v, id, rem))
  }

  ghost predicate Good(v: View, id: Id, rem: nat)
    requires id in v.evts && id in v.hist
  {
    && EvtOk(v.evts[id], v.hist[id], rem, v.interval)
    && Scheduled(v.evts[id], id, v.f, v.current, v.interval, v.tick)
    && Past(v.hist[id], LastTick(v))
  }

  /** The time of the last tick whose iteration has started. */
  function LastTick(v: View): int { v.current - if v.f.clock == v.tick then v.interval else 0 }

  lemma OkBounds(v: View, except: set<Id>, rem: nat)
    requires Ok(v, except, rem)
    ensures 1 <= v.interval && v.current + v.interval + v.limit < U32 && v.evts.Keys == v.hist.Keys
    ensures forall id :: id in v.f.due || id in v.f.firing ==> id in v.evts
    ensures v.tick <= v.f.clock <= v.tick + 1
    ensures forall id :: id in v.evts ==> v.evts[id].period <= v.limit
  {
  }

  lemma OkAttached(v: View, id: Id, rem: nat)
    requires Ok(v, {}, rem) && id in v.evts
    ensures v.evts[id].attached <==> id in v.f.due || id in v.f.firing
  {
    assert Good(v, id, rem);
  }

  /** Attaching an event that is off the wheel: its node is added for the tick that reaches its slap. */
  lemma OkSchedule(v: View, id: Id, rem: nat)
    requires id in v.evts && Ok(v, {id}, rem) && v.evts[id].attached && v.current < v.evts[id].slap
    ensures var e := (v.tick + Wait(v.evts[id].slap, v.current, v.interval)) % U32;
      var v' := v.(f := Step(v.f, Add(id, e)));
      && Ok(v', {id}, rem)
      && Scheduled(v'.evts[id], id, v'.f, v'.current, v'.interval, v'.tick)
  {
    hide CurrentAt, EvtOk;
    var wait := Wait(v.evts[id].slap, v.current, v.interval);
    WaitIsNotLate(v.evts[id].slap, v.current, v.interval, v.tick);
    WheelLists.DeadlineOfWrapped(v.f.clock, v.tick + wait);
    var v' := v.(f := Step(v.f, Add(id, (v.tick + wait) % U32)));
    assert v'.f.due[id] == v.tick + wait;
    forall x | x in v.evts && x != id
      ensures Good(v', x, rem)
    {
      assert Good(v, x, rem);
    }
  }

  /** What stopping does to an event's history: one that still had callbacks to come is cut short. */
  function CutShort(e: Evt, h: History): History {
    h.(stopped := h.stopped || e.attached || e.running)
  }

  /** Taking one event off the wheel for good. */
  lemma OkStop(v: View, id: Id, except: set<Id>, rem: nat)
    requires id in v.evts && id in v.hist && Ok(v, except, rem)
    ensures Ok(v.(f := Step(v.f, Del(id)),
                  evts := v.evts[id := v.evts[id].(attached := false, running := false)],
                  hist := v.hist[id := CutShort(v.evts[id], v.hist[id])]), except, rem)
  {
    hide CurrentAt, Due;
    var v' := v.(f := Step(v.f, Del(id)),
                 evts := v.evts[id := v.evts[id].(attached := false, running := false)],
                 hist := v.hist[id := CutShort(v.evts[id], v.hist[id])]);
    forall x | x in v.evts && x !in except
      ensures Good(v', x, rem)
    {
      assert Good(v, x, rem);
    }
  }

  /** Giving one event new fields and a new history. */
  lemma OkReplace(v: View, id: Id, except: set<Id>, rem: nat, e: Evt, h: History)
    requires Ok(v, except, rem) && e.period <= v.limit && except <= {id}
    ensures Ok(v.(evts := v.evts[id := e], hist := v.hist[id := h]), {id}, rem)
  {
    hide EvtOk, Scheduled;
    var v' := v.(evts := v.evts[id := e], hist := v.hist[id := h]);
    forall x | x in v'.evts && x != id
      ensures Good(v', x, rem)
    {
      assert Good(v, x, rem);
    }
  }

  /** Putting one event in order again. */
  lemma OkRestored(v: View, id: Id, rem: nat)
    requires Ok(v, {id}, rem) && id in v.evts && Good(v, id, rem)
    ensures Ok(v, {}, rem)
  {
    hide EvtOk, Scheduled;
  }

  /** While nothing is running the number of callbacks to make does not matter. */
  lemma OkIdle(v: View, except: set<Id>, rem: nat, rem': nat)
    requires Ok(v, except, rem)
    requires forall id :: id in v.evts && id !in except ==> !v.evts[id].running
    ensures Ok(v, except, rem')
  {
    hide Scheduled, Due, Punctual;
    forall x | x in v.evts && x !in except
      ensures Good(v, x, rem')
    {
      assert Good(v, x, rem);
    }
  }

  /** The iteration of this tick starts: the events it takes off the wheel are not late. */
  lemma OkTick(v: View)
    requires Ok(v, {}, 0) && v.f.clock == v.tick && v.f.firing == {}
    ensures Ok(v.(f := Step(v.f, Tick)), {}, 0)
  {
    hide EvtOk;
    var v' := v.(f := Step(v.f, Tick));
    forall x | x in v.evts
      ensures Good(v', x, 0)
    {
      assert Good(v, x, 0);
    }
  }

  /** One event is taken from those the iteration has to call back. */
  lemma OkFire(v: View, id: Id)
    requires Ok(v, {}, 0) && id in v.f.firing
    ensures id in v.evts && id in v.hist && EvtOk(v.evts[id], v.hist[id], 0, v.interval)
    ensures v.evts[id].attached && v.current < v.evts[id].slap + v.interval && Past(v.hist[id], LastTick(v))
    ensures Ok(v.(f := Step(v.f, Fire(id))), {id}, 0)
  {
    hide EvtOk, CurrentAt;
    assert Good(v, id, 0);
    var v' := v.(f := Step(v.f, Fire(id)));
    forall x | x in v.evts && x != id
      ensures Good(v', x, 0)
    {
      assert Good(v, x, 0);
    }
  }

  /** The tick is over: the manager's clocks move on. */
  lemma OkAdvance(v: View)
    requires Ok(v, {}, 0) && v.f.clock == v.tick + 1 && v.f.firing == {}
    requires v.current + 2 * v.interval + v.limit < U32
    ensures Ok(v.(current := v.current + v.interval, tick := v.tick + 1), {}, 0)
  {
    hide EvtOk, CurrentAt;
    var v' := v.(current := v.current + v.interval, tick := v.tick + 1);
    forall x | x in v.evts
      ensures Good(v', x, 0)
    {
      assert Good(v, x, 0);
      if x in v.f.due {
        NextTick(v.current, v.interval, v.tick, v.f.due[x]);
      }
    }
  }

  /** No operation names the event. */
  ghost predicate Unnamed(ops: seq<Op>, id: Id) {
    forall op :: op in ops ==> op.id != id
  }

  /** No callback from number `from` up to number `to` names the event. */
  ghost predicate LetBe(script: nat -> seq<Op>, from: nat, to: nat, id: Id) {
    forall k :: from <= k < to ==> Unnamed(script(k), id)
  }

  /** The event is as it was. */
  ghost predicate Same(id: Id, evts: map<Id, Evt>, hist: map<Id, History>,
                       evts': map<Id, Evt>, hist': map<Id, History>)
  {
    && (id in evts' <==> id in evts) && (id in evts ==> evts'[id] == evts[id])
    && (id in hist' <==> id in hist) && (id in hist ==> hist'[id] == hist[id])
  }

  /** Every event that no operation names is as it was. */
  ghost predicate OthersSame(ops: seq<Op>, evts: map<Id, Evt>, hist: map<Id, History>,
                             evts': map<Id, Evt>, hist': map<Id, History>)
  {
    forall id :: Unnamed(ops, id) ==> Same(id, evts, hist, evts', hist')
  }

  /** The last of the operations that name the event, if any. */
  function LastOn(ops: seq<Op>, id: Id): Option<Op> {
    if ops == [] then None
    else if ops[|ops| - 1].id == id then Some(ops[|ops| - 1])
    else LastOn(ops[..|ops| - 1], id)
  }

  lemma {:induction false} LastOnNone(ops: seq<Op>, id: Id)
    ensures LastOn(ops, id) == None <==> Unnamed(ops, id)
    decreases |ops|
  {
    if ops != [] {
      var first, last := ops[..|ops| - 1], ops[|ops| - 1];
      LastOnNone(first, id);
      assert ops == first + [last];
    }
  }

  /** The event is as an operation leaves it: started anew now, or off the wheel. */
  ghost predicate AsLeft(op: Op, current: nat, evts: map<Id, Evt>, hist: map<Id, History>) {
    match op
    case Start(id, period, repeat) =>
      && current + period < U32 && id in evts && evts[id] == Evt(period, current + period, repeat, false, true)
      && id in hist && hist[id] == History(current, period, repeat, [], false, false)
    case Stop(id) => id in evts ==> !evts[id].attached && !evts[id].running
  }

  /** Every named event is as the last operation on it leaves it. */
  ghost predicate AllDone(ops: seq<Op>, current: nat, evts: map<Id, Evt>, hist: map<Id, History>) {
    forall id :: LastOn(ops, id).Some? ==> AsLeft(LastOn(ops, id).value, current, evts, hist)
  }

  lemma NothingDone(evts: map<Id, Evt>, hist: map<Id, History>, current: nat)
    ensures Untouched(evts, hist, evts, hist) && OthersSame([], evts, hist, evts, hist)
    ensures AllDone([], current, evts, hist)
  {
  }

  lemma AllDoneOn(ops: seq<Op>, op: Op, current: nat, evts: map<Id, Evt>, hist: map<Id, History>,
                  evts': map<Id, Evt>, hist': map<Id, History>)
    requires AllDone(ops, current, evts, hist) && AsLeft(op, current, evts', hist')
    requires OthersSame([op], evts, hist, evts', hist')
    ensures AllDone(ops + [op], current, evts', hist')
  {
    assert (ops + [op])[..|ops|] == ops;
    forall id | LastOn(ops + [op], id).Some? ensures AsLeft(LastOn(ops + [op], id).value, current, evts', hist') {
      if id != op.id {
        LastIsOn(ops, id);
        assert Unnamed([op], id);
        assert Same(id, evts, hist, evts', hist');
      }
    }
  }

  lemma {:induction false} LastOnConcat(a: seq<Op>, b: seq<Op>, id: Id)
    ensures LastOn(a + b, id) == if LastOn(b, id).Some? then LastOn(b, id) else LastOn(a, id)
    decreases |b|
  {
    if b == [] {
      assert a + b == a;
    } else {
      assert (a + b)[..|a + b| - 1] == a + b[..|b| - 1];
      LastOnConcat(a, b[..|b| - 1], id);
    }
  }

  /** All that the callbacks `from` to `to` do. */
  function OpsOf(script: nat -> seq<Op>, from: nat, to: nat): seq<Op> {
    if to <= from then [] else OpsOf(script, from, to - 1) + script(to - 1)
  }

  lemma NoOps(script: nat -> seq<Op>, k: nat)
    ensures OpsOf(script, k, k) == []
  {
  }

  lemma MoreOps(script: nat -> seq<Op>, from: nat, to: nat)
    requires from < to
    ensures OpsOf(script, from, to) == OpsOf(script, from, to - 1) + script(to - 1)
  {
  }

  /** A running event has not been named yet, so another call of it changes nothing about the named ones. */
  lemma AllDoneCall(ops: seq<Op>, current: nat, evts: map<Id, Evt>, hist: map<Id, History>, id: Id, h: History)
    requires AllDone(ops, current, evts, hist) && id in evts && evts[id].running
    ensures AllDone(ops, current, evts, hist[id := h])
  {
    forall x | LastOn(ops, x).Some? ensures AsLeft(LastOn(ops, x).value, current, evts, hist[id := h]) {
      LastIsOn(ops, x);
    }
  }

  lemma AllDoneBoth(a: seq<Op>, b: seq<Op>, current: nat, evts: map<Id, Evt>, hist: map<Id, History>,
                    evts': map<Id, Evt>, hist': map<Id, History>)
    requires AllDone(a, current, evts, hist) && AllDone(b, current, evts', hist')
    requires OthersSame(b, evts, hist, evts', hist')
    ensures AllDone(a + b, current, evts', hist')
  {
    forall x | LastOn(a + b, x).Some? ensures AsLeft(LastOn(a + b, x).value, current, evts', hist') {
      LastOnConcat(a, b, x);
      LastOnNone(b, x);
      LastIsOn(a, x);
      if LastOn(b, x) == None { assert Same(x, evts, hist, evts', hist'); }
    }
  }

  lemma {:induction false} LastIsOn(ops: seq<Op>, id: Id)
    ensures LastOn(ops, id).Some? ==> LastOn(ops, id).value.id == id
    decreases |ops|
  {
    if ops != [] { LastIsOn(ops[..|ops| - 1], id); }
  }

  lemma OthersSameOn(ops: seq<Op>, i: nat, evts: map<Id, Evt>, hist: map<Id, History>,
                     evts': map<Id, Evt>, hist': map<Id, History>, evts'': map<Id, Evt>, hist'': map<Id, History>)
    requires i < |ops| && OthersSame(ops[..i], evts, hist, evts', hist')
    requires OthersSame([ops[i]], evts', hist', evts'', hist'')
    ensures OthersSame(ops[..i + 1], evts, hist, evts'', hist'')
  {
    forall id | Unnamed(ops[..i + 1], id) ensures Same(id, evts, hist, evts'', hist'') {
      assert forall op :: op in ops[..i] ==> op in ops[..i + 1];
      assert ops[..i + 1][i] == ops[i];
      assert Unnamed(ops[..i], id) && Unnamed([ops[i]], id);
    }
  }

  /** Every event that no callback names goes on: none is started anew or stopped behind its back, and its
      callbacks are made in the ticks of `w`. */
  ghost predicate GoOn(script: nat -> seq<Op>, from: nat, to: nat,
                       hist: map<Id, History>, hist': map<Id, History>, w: Window)
  {
    && hist.Keys <= hist'.Keys
    && forall id :: id in hist && LetBe(script, from, to, id) ==> GoesOn(hist[id], hist'[id], w)
  }

  lemma GoOnSelf(script: nat -> seq<Op>, k: nat, hist: map<Id, History>, w: Window)
    ensures GoOn(script, k, k, hist, hist, w)
  {
  }

  lemma GoOnTrans(script: nat -> seq<Op>, a: nat, b: nat, c: nat,
                  hist: map<Id, History>, hist': map<Id, History>, hist'': map<Id, History>,
                  v: Window, w: Window, all: Window)
    requires a <= b <= c && GoOn(script, a, b, hist, hist', v) && GoOn(script, b, c, hist', hist'', w)
    requires Covers(all, v) && Covers(all, w)
    ensures GoOn(script, a, c, hist, hist'', all)
  {
    hide Covers, GoesOn;
    forall id | id in hist && LetBe(script, a, c, id) ensures GoesOn(hist[id], hist''[id], all) {
      assert LetBe(script, a, b, id) && LetBe(script, b, c, id);
      GoesOnTrans(hist[id], hist'[id], hist''[id], v, w, all);
    }
  }

  function Again(x: nat, n: nat): seq<nat> { seq(n, _ => x) }

  /** What the callbacks `from` to `to`, all of event `id`, have done: to the event itself, unless one of
      them names it, and to the others. */
  ghost predicate Called(script: nat -> seq<Op>, from: nat, to: nat, id: Id, current: nat,
                         evts: map<Id, Evt>, hist: map<Id, History>, evts': map<Id, Evt>, hist': map<Id, History>)
  {
    && from <= to && id in evts && id in hist
    && (LetBe(script, from, to, id) ==>
          && id in evts' && id in hist' && evts'[id] == evts[id]
          && hist'[id] == hist[id].(calls := hist[id].calls + Again(current, to - from)))
    && (forall x :: x != id && LetBe(script, from, to, x) ==> Same(x, evts, hist, evts', hist'))
  }

  lemma CalledNone(script: nat -> seq<Op>, k: nat, id: Id, current: nat, evts: map<Id, Evt>, hist: map<Id, History>)
    requires id in evts && id in hist
    ensures Called(script, k, k, id, current, evts, hist, evts, hist)
  {
    assert hist[id].calls + Again(current, 0) == hist[id].calls;
  }

  lemma CalledOn(script: nat -> seq<Op>, from: nat, to: nat, id: Id, current: nat,
                 evts: map<Id, Evt>, hist: map<Id, History>, evts': map<Id, Evt>, hist': map<Id, History>,
                 evts'': map<Id, Evt>, hist'': map<Id, History>)
    requires Called(script, from, to, id, current, evts, hist, evts', hist') && id in evts' && id in hist'
    requires OthersSame(script(to), evts', hist'[id := hist'[id].(calls := hist'[id].calls + [current])], evts'',
        hist'')
    ensures Called(script, from, to + 1, id, current, evts, hist, evts'', hist'')
  {
    forall x | LetBe(script, from, to + 1, x) ensures LetBe(script, from, to, x) && Unnamed(script(to), x) {
    }
    assert Again(current, to + 1 - from) == Again(current, to - from) + [current];
    if LetBe(script, from, to + 1, id) {
      assert hist[id].calls + Again(current, to - from) + [current] == hist[id].calls + Again(current, to + 1 - from);
    }
  }

  lemma CalledBounds(script: nat -> seq<Op>, from: nat, to: nat, id: Id, current: nat,
                     evts: map<Id, Evt>, hist: map<Id, History>, evts': map<Id, Evt>, hist': map<Id, History>)
    requires Called(script, from, to, id, current, evts, hist, evts', hist')
    ensures from <= to
  {
  }

  /** The callbacks of one event, after it has been caught up: all events go on. */
  lemma CalledGoOn(script: nat -> seq<Op>, from: nat, to: nat, id: Id, current: nat, hist0: map<Id, History>,
                   evts: map<Id, Evt>, hist: map<Id, History>, evts': map<Id, Evt>, hist': map<Id, History>, w: Window)
    requires Called(script, from, to, id, current, evts, hist, evts', hist') && hist.Keys <= hist'.Keys
    requires id in hist0 && hist == hist0[id := hist[id]] && GoesOn(hist0[id], hist[id], w)
    requires hist[id].calls == hist0[id].calls && w.first == current && w.n == 1
    ensures GoOn(script, from, to, hist0, hist', w)
  {
    hide LetBe;
    assert TickOf(current, w) by { assert current == w.first + Lasting(0, w.interval); }
  }

  class Mgr {
    var interval: u32
    var current: u32
    var millisec: u32
    var jiffies: u32
    const core: W.Core
    var evts: map<Id, Evt>
    var made: nat                    // user callbacks made so far

    ghost var tick: nat              // jiffies without the wrap-around
    ghost var limit: nat             // a bound on all periods
    ghost var hist: map<Id, History>

    ghost function Now(): View
      reads this, core
    {
      View(evts, hist, core.flat, current, interval, tick, limit)
    }

    ghost predicate Inv(except: set<Id>, rem: nat)
      reads this, core
    {
      && core.Valid() && core.destroyed == {}
      && jiffies == tick % U32
      && Ok(Now(), except, rem)
    }

    /** Between runs: no callback in progress and the wheel at the manager's time. */
    ghost predicate Valid()
      reads this, core
    {
      && Inv({}, 0) && Quiet()
      && core.queued == [] && core.flat.clock == tick
    }

    ghost predicate Quiet()
      reads this
    {
      forall id :: id in evts ==> !evts[id].running
    }

    /** itimer_mgr_init */
    constructor (millisec: u32, interval: u32, ghost limit: nat)
      requires millisec + (if interval < 1 then 1 else interval) + limit < U32
      ensures Valid() && current == millisec && this.interval == (if interval < 1 then 1 else interval)
      ensures this.millisec == 0 && evts == map[] && hist == map[] && this.limit == limit
      ensures fresh(core)
    {
      current := millisec;
      this.interval := if interval < 1 then 1 else interval;
      jiffies, this.millisec, made := 0, 0, 0;
      core := new W.Core(0);
      evts, hist := map[], map[];
      tick, this.limit := 0, limit;
    }

    /** The node of an attached event goes on the wheel for the tick that reaches its slap. */
    method Schedule(id: Id, ghost rem: nat)
      requires id in evts && evts[id].attached && Inv({id}, rem) && current < evts[id].slap
      modifies core
      ensures Inv({id}, rem) && Scheduled(evts[id], id, core.flat, current, interval, tick)
      ensures core.flat.clock == old(core.flat.clock) && |core.queued| <= |old(core.queued)|
    {
      hide Ok, EvtOk, W.Core.Valid;
      OkSchedule(Now(), id, rem);
      OkBounds(Now(), {id}, rem);
      var expires := (evts[id].slap - current + interval - 1) / interval;
      if expires >= CLAMP {
        expires := CLAMP;
      }
      WrapSum(tick, expires);
      ghost var v := Now();
      core.NodeAdd(id, (jiffies + expires) % U32);
      assert Now() == v.(f := Step(v.f, Add(id, (tick + expires) % U32)));
    }

    /** itimer_evt_stop */
    method EvtStop(id: Id, ghost except: set<Id>, ghost rem: nat)
      requires id in evts && id in hist && Inv(except, rem) && (except == {} || evts[id].attached)
      modifies core, this`evts, this`hist
      ensures Inv(except, rem) && id !in core.flat.due && id !in core.flat.firing
      ensures evts == old(evts)[id := old(evts)[id].(attached := false, running := false)]
      ensures hist == old(hist)[id := CutShort(old(evts)[id], old(hist)[id])]
      ensures core.flat.clock == old(core.flat.clock) && |core.queued| <= |old(core.queued)|
    {
      hide Ok, W.Core.Valid;
      OkStop(Now(), id, except, rem);
      ghost var v := Now();
      core.PendingIsFlat(id);
      if except == {} {
        OkAttached(Now(), id, rem);
      }
      hist := hist[id := CutShort(evts[id], hist[id])];
      if evts[id].attached {
        var _ := core.NodeDel(id);
        evts := evts[id := evts[id].(attached := false)];
      }
      evts := evts[id := evts[id].(running := false)];
      assert evts == v.evts[id := v.evts[id].(attached := false, running := false)];
      assert Now() == v.(f := Step(v.f, Del(id)), evts := evts, hist := hist);
    }

    /** itimer_evt_start: a new history begins now. */
    method EvtStart(id: Id, period: u32, repeat: int, ghost rem: nat)
      requires Inv({}, rem) && 1 <= period <= limit
      modifies core, this`evts, this`hist
      ensures Inv({}, rem)
      ensures hist == old(hist)[id := History(current, period, repeat, [], false, false)]
      ensures evts == old(evts)[id := Evt(period, current + period, repeat, false, true)]
      ensures core.flat.clock == old(core.flat.clock) && |core.queued| <= |old(core.queued)|
    {
      hide Ok, W.Core.Valid;
      OkBounds(Now(), {}, rem);
      if id in evts && evts[id].attached {
        EvtStop(id, {}, rem);
      }
      OkReplace(Now(), id, {}, rem, Evt(period, current + period, repeat, false, true),
                History(current, period, repeat, [], false, false));
      evts := evts[id := Evt(period, current + period, repeat, false, true)];
      hist := hist[id := History(current, period, repeat, [], false, false)];
      Schedule(id, rem);
      OkRestored(Now(), id, rem);
    }

    /** One operation of a user callback; an event that is still running was not touched. */
    method Perform(op: Op, ghost rem: nat)
      requires Inv({}, rem) && (op.Start? ==> 1 <= op.period <= limit)
      modifies core, this`evts, this`hist
      ensures Inv({}, rem) && Untouched(old(evts), old(hist), evts, hist)
      ensures core.flat.clock == old(core.flat.clock) && |core.queued| <= |old(core.queued)|
      ensures AsLeft(op, current, evts, hist)
      ensures op.Stop? ==> (op.id in evts <==> op.id in old(evts))
      ensures OthersSame([op], old(evts), old(hist), evts, hist)
    {
      hide Ok, W.Core.Valid;
      OkBounds(Now(), {}, rem);
      match op {
        case Start(id, period, repeat) => EvtStart(id, period, repeat, rem);
        case Stop(id) => if id in evts { EvtStop(id, {}, rem); }
      }
    }

    /** A user callback. */
    method UserCallback(ops: seq<Op>, ghost rem: nat)
      requires Inv({}, rem) && (forall op :: op in ops && op.Start? ==> 1 <= op.period <= limit)
      modifies core, this`evts, this`hist
      ensures Inv({}, rem) && Untouched(old(evts), old(hist), evts, hist)
      ensures core.flat.clock == old(core.flat.clock) && |core.queued| <= |old(core.queued)|
      ensures OthersSame(ops, old(evts), old(hist), evts, hist) && AllDone(ops, current, evts, hist)
    {
      hide *;
      ghost var evts0, hist0, clock0, queued0 := evts, hist, core.flat.clock, core.queued;
      NothingDone(evts, hist, current);
      assert ops[..0] == [];
      for i := 0 to |ops|
        invariant Inv({}, rem) && Untouched(evts0, hist0, evts, hist)
        invariant core.flat.clock == clock0 && |core.queued| <= |queued0|
        invariant OthersSame(ops[..i], evts0, hist0, evts, hist) && AllDone(ops[..i], current, evts, hist)
      {
        assert ops[i] in ops;
        ghost var evts', hist' := evts, hist;
        Perform(ops[i], rem);
        UntouchedTrans(evts0, hist0, evts', hist', evts, hist);
        OthersSameOn(ops, i, evts0, hist0, evts', hist', evts, hist);
        AllDoneOn(ops[..i], ops[i], current, evts', hist', evts, hist);
        assert ops[..i + 1] == ops[..i] + [ops[i]];
      }
      assert ops[..|ops|] == ops;
    }

    /** The catching-up loop of itimer_evt_cb: `slap` moves past `current`, one period and one
        repetition for every callback due. */
    method CatchUp(id: Id) returns (count: nat, stop: bool)
      requires Inv({id}, 0) && id in evts && id in hist && EvtOk(evts[id], hist[id], 0, interval)
      requires evts[id].attached && !evts[id].running && current < evts[id].slap + interval
      modifies this`evts
      ensures Inv({id}, 0) && evts == old(evts)[id := evts[id]]
      ensures Burst(hist[id], count, current, interval)
      ensures evts[id].attached && !evts[id].running
      ensures !stop ==> current < evts[id].slap && EvtOk(evts[id].(running := true), hist[id], count, interval)
      ensures stop ==> EvtOk(evts[id].(running := true, attached := false), hist[id].(ended := true), count, interval)
    {
      hide Ok, W.Core.Valid, EvtOk, Burst;
      count, stop := 0, false;
      ghost var h, evts0 := hist[id], evts;
      OkBounds(Now(), {id}, 0);
      CaughtUp(evts[id], h, interval, current);
      while current >= evts[id].slap
        invariant Inv({id}, 0) && id in evts && evts == evts0[id := evts[id]]
        invariant evts[id].attached && !evts[id].running && current < evts[id].slap + interval
        invariant EvtOk(evts[id].(running := true), h, count, interval)
        invariant Burst(h, count, current, interval) && evts[id].period <= limit
        decreases current - evts[id].slap
      {
        CatchUpStep(evts[id], h, count, current, interval);
        ghost var v := Now();
        count := count + 1;
        evts := evts[id := evts[id].(slap := (evts[id].slap + evts[id].period) % U32)];
        if evts[id].repeat == 1 {
          OkReplace(v, id, {id}, 0, evts[id], h);
          assert Now() == v.(evts := v.evts[id := evts[id]], hist := v.hist[id := h]);
          stop := true;
          break;
        }
        if evts[id].repeat > 1 {
          evts := evts[id := evts[id].(repeat := evts[id].repeat - 1)];
        }
        OkReplace(v, id, {id}, 0, evts[id], h);
        assert Now() == v.(evts := v.evts[id := evts[id]], hist := v.hist[id := h]);
      }
    }

    /** One callback of the running event is about to be made. */
    method RecordCall(id: Id, ghost rem: nat)
      requires Inv({}, rem + 1) && id in evts && id in hist && evts[id].running && core.flat.clock == tick + 1
      requires Burst(hist[id], rem + 1, current, interval)
      requires forall x :: x in evts && evts[x].running ==> x == id
      modifies this`hist, this`made
      ensures Inv({}, rem) && made == old(made) + 1 && Burst(hist[id], rem, current, interval)
      ensures hist == old(hist)[id := old(hist)[id].(calls := old(hist)[id].calls + [current])]
    {
      hide Ok, W.Core.Valid, Burst;
      OkCall(Now(), id, rem);
      ghost var v := Now();
      hist := hist[id := hist[id].(calls := hist[id].calls + [current])];
      assert Now() == v.(hist := hist);
      made := made + 1;
    }

    /** The calling loop of itimer_evt_cb: up to `count` callbacks, fewer if one of them stops or
        restarts the event. */
    method MakeCalls(id: Id, count: nat, script: nat -> seq<Op>)
      requires Inv({}, count) && id in evts && id in hist && evts[id].running && Allowed(script, limit)
      requires Burst(hist[id], count, current, interval)
      requires core.flat.clock == tick + 1 && forall x :: x in evts && evts[x].running ==> x == id
      modifies core, this`evts, this`hist, this`made
      ensures Inv({}, 0) && id in evts && (forall x :: x in evts && evts[x].running ==> x == id)
      ensures core.flat.clock == old(core.flat.clock) && |core.queued| <= |old(core.queued)|
      ensures made <= old(made) + count
      ensures Called(script, old(made), made, id, current, old(evts), old(hist), evts, hist)
      ensures made < old(made) + count ==> !LetBe(script, old(made), made, id)
      ensures AllDone(OpsOf(script, old(made), made), current, evts, hist)
      ensures old(hist).Keys <= hist.Keys
    {
      hide Ok, W.Core.Valid, Burst, Allowed, Called, Untouched, OthersSame, LetBe, AllDone, OpsOf, Inv;
      var n := count;
      ghost var made0, evts0, hist0 := made, evts, hist;
      CalledNone(script, made, id, current, evts, hist);
      NothingDone(evts, hist, current);
      NoOps(script, made);
      while n > 0
        invariant AllDone(OpsOf(script, made0, made), current, evts, hist)
        invariant made == made0 + count - n && hist0.Keys <= hist.Keys
        invariant Called(script, made0, made, id, current, evts0, hist0, evts, hist)
        invariant 0 <= n <= count && Inv({}, n) && id in evts && id in hist
        invariant forall x :: x in evts && evts[x].running ==> x == id
        invariant evts[id].running ==> Burst(hist[id], n, current, interval)
        invariant core.flat.clock == old(core.flat.clock) && |core.queued| <= |old(core.queued)|
      {
        if !evts[id].running {
          StoppedRunning(script, made0, made, id, current, evts0, hist0, evts, hist);
          break;
        }
        ghost var evts', hist' := evts, hist;
        RecordCall(id, n - 1);
        ghost var hist1 := hist;
        AllDoneCall(OpsOf(script, made0, made - 1), current, evts', hist', id, hist1[id]);
        AllowedAt(script, made - 1, limit);
        UserCallback(script(made - 1), n - 1);
        AllDoneBoth(OpsOf(script, made0, made - 1), script(made - 1), current, evts', hist1, evts, hist);
        MoreOps(script, made0, made);
        StillRunning(evts', hist1, evts, hist, id);
        CalledOn(script, made0, made - 1, id, current, evts0, hist0, evts', hist', evts, hist);
        n := n - 1;
      }
      if n > 0 {
        NothingToCome(n);
      }
    }

    lemma NothingToCome(n: nat)
      requires Inv({}, n) && Quiet()
      ensures Inv({}, 0)
    {
      OkIdle(Now(), {}, n, 0);
    }

    /** The first half of itimer_evt_cb: catch up, then reschedule the event or take it off for good. */
    method Settle(id: Id) returns (count: nat)
      requires Inv({id}, 0) && Quiet()
      requires id in evts && id in hist && EvtOk(evts[id], hist[id], 0, interval)
      requires evts[id].attached && current < evts[id].slap + interval
      requires core.flat.clock == tick + 1 && Past(hist[id], current)
      modifies core, this`evts, this`hist
      ensures Inv({}, count) && id in evts && id in hist && evts[id].running
      ensures Burst(hist[id], count, current, interval)
      ensures forall x :: x in evts && evts[x].running ==> x == id
      ensures core.flat.clock == old(core.flat.clock) && |core.queued| <= |old(core.queued)|
      ensures hist == old(hist)[id := hist[id]] && GoesOn(old(hist)[id], hist[id], Window(current, 1, interval))
      ensures hist[id].calls == old(hist)[id].calls
    {
      hide Ok, W.Core.Valid, EvtOk, Burst;
      var stop;
      count, stop := CatchUp(id);
      if !stop {
        Schedule(id, 0);
      } else {
        ghost var h := hist[id];
        EvtStop(id, {id}, 0);
        OkBounds(Now(), {id}, 0);
        ghost var v := Now();
        hist := hist[id := h.(ended := true)];
        OkReplace(v, id, {id}, 0, evts[id], hist[id]);
        assert Now() == v.(evts := v.evts[id := evts[id]], hist := hist);
        BurstEnded(h, count, current, interval);
      }
      OkBounds(Now(), {id}, 0);
      OkIdle(Now(), {id}, 0, count);
      ghost var v := Now();
      evts := evts[id := evts[id].(running := true)];
      OkReplace(v, id, {id}, count, evts[id], hist[id]);
      assert Now() == v.(evts := evts, hist := v.hist[id := hist[id]]);
      OkRestored(Now(), id, count);
    }

    /** itimer_evt_cb, called for a node just taken from the wheel. */
    method EvtCb(id: Id, script: nat -> seq<Op>)
      requires Inv({id}, 0) && Quiet() && Allowed(script, limit)
      requires id in evts && id in hist && EvtOk(evts[id], hist[id], 0, interval)
      requires evts[id].attached && current < evts[id].slap + interval
      requires core.flat.clock == tick + 1 && Past(hist[id], current)
      modifies core, this`evts, this`hist, this`made
      ensures Inv({}, 0) && Quiet()
      ensures core.flat.clock == old(core.flat.clock) && |core.queued| <= |old(core.queued)|
      ensures made >= old(made) && GoOn(script, old(made), made, old(hist), hist, Window(current, 1, interval))
    {
      hide Ok, W.Core.Valid, EvtOk, Called, GoOn, GoesOn, LetBe, Burst, Allowed;
      var count := Settle(id);
      ghost var evts', hist' := evts, hist;
      MakeCalls(id, count, script);
      CalledBounds(script, old(made), made, id, current, evts', hist', evts, hist);
      CalledGoOn(script, old(made), made, id, current, old(hist), evts', hist', evts, hist,
                 Window(current, 1, interval));
      OkFinish(Now(), id);
      evts := evts[id := evts[id].(running := false)];
    }

    /** The callbacks of the running iteration. */
    method FireQueued(script: nat -> seq<Op>)
      requires Inv({}, 0) && Quiet() && Allowed(script, limit) && core.flat.clock == tick + 1
      modifies core, this`evts, this`hist, this`made
      ensures Inv({}, 0) && Quiet() && core.queued == [] && core.flat.clock == old(core.flat.clock)
      ensures made >= old(made) && GoOn(script, old(made), made, old(hist), hist, Window(current, 1, interval))
    {
      hide Ok, W.Core.Valid, EvtOk, Allowed, GoOn;
      GoOnSelf(script, made, hist, Window(current, 1, interval));
      while core.queued != []
        invariant Inv({}, 0) && Quiet() && core.flat.clock == old(core.flat.clock)
        invariant made >= old(made) && GoOn(script, old(made), made, old(hist), hist, Window(current, 1, interval))
        decreases |core.queued|
      {
        core.QueuedIsFiring();
        OkFire(Now(), core.queued[0]);
        ghost var v := Now();
        var id := core.TakeFirst();
        assert Now() == v.(f := Step(v.f, Fire(id)));
        ghost var before := made;
        EvtCb(id, script);
        ghost var w := Window(current, 1, interval);
        GoOnTrans(script, old(made), before, made, old(hist), v.hist, hist, w, w, w);
      }
    }

    /** itimer_core_run(&mgr->core, mgr->jiffies): exactly one iteration. */
    method CoreRun(script: nat -> seq<Op>)
      requires Valid() && Allowed(script, limit)
      modifies core, this`evts, this`hist, this`made
      ensures Inv({}, 0) && Quiet() && core.queued == [] && core.flat.clock == tick + 1
      ensures made >= old(made) && GoOn(script, old(made), made, old(hist), hist, Window(current, 1, interval))
    {
      hide Ok, W.Core.Valid, Allowed, GoOn;
      core.TimeIsWrapped();
      GuardAtTick(tick);
      GoOnSelf(script, made, hist, Window(current, 1, interval));
      while (jiffies - core.timerJiffies) % U32 < HALF
        invariant made >= old(made) && GoOn(script, old(made), made, old(hist), hist, Window(current, 1, interval))
        invariant Inv({}, 0) && Quiet() && core.queued == []
        invariant core.timerJiffies == core.flat.clock % U32
        invariant core.flat.clock == tick || core.flat.clock == tick + 1
        decreases tick + 1 - core.flat.clock
      {
        core.QueuedIsFiring();
        OkTick(Now());
        ghost var v := Now();
        core.StartIteration();
        assert Now() == v.(f := Step(v.f, Tick));
        ghost var before := made;
        FireQueued(script);
        ghost var w := Window(current, 1, interval);
        GoOnTrans(script, old(made), before, made, old(hist), v.hist, hist, w, w, w);
        core.TimeIsWrapped();
      }
    }

    /** Move on to the next tick. */
    method Advance()
      requires Inv({}, 0) && Quiet() && core.queued == [] && core.flat.clock == tick + 1
      requires current + 2 * interval + limit < U32
      modifies this`jiffies, this`current, this`millisec, this`tick
      ensures Valid() && tick == old(tick) + 1
      ensures current == old(current) + interval && millisec == (old(millisec) + interval) % U32
    {
      hide Ok, W.Core.Valid;
      core.QueuedIsFiring();
      OkAdvance(Now());
      WrapSum(tick, 1);
      jiffies := (jiffies + 1) % U32;
      tick := tick + 1;
      current := (current + interval) % U32;
      millisec := (millisec + interval) % U32;
    }

    /** The body of the loop in itimer_mgr_run. */
    method RunTick(script: nat -> seq<Op>)
      requires Valid() && Allowed(script, limit) && current + 2 * interval + limit < U32
      modifies this`jiffies, this`current, this`millisec, this`tick, core, this`evts, this`hist, this`made
      ensures Valid() && tick == old(tick) + 1
      ensures current == old(current) + interval && millisec == (old(millisec) + interval) % U32
      ensures made >= old(made) && GoOn(script, old(made), made, old(hist), hist, Window(old(current), 1, interval))
    {
      hide Ok, W.Core.Valid, Allowed, GoOn;
      CoreRun(script);
      Advance();
    }

    /** itimer_mgr_run: one tick for every interval up to `now`, after jumping over a gap of more
        than five minutes and 64 intervals. The k-th user callback performs script(k). The manager's own clock
        moves on by the ticks made, so that it is ahead of `now` afterwards by at most one interval, unless
        it was ahead already. */
    method Run(now: u32, script: nat -> seq<Op>)
      requires Valid() && Allowed(script, limit)
      requires interval * 64 + MGR_LIMIT < HALF
      requires current + Lasting(Ticks(Gap(now, millisec, interval), interval), interval) + interval + limit < U32
      modifies this`jiffies, this`current, this`millisec, this`tick, core, this`evts, this`hist, this`made
      ensures Valid()
      ensures var n := Ticks(Gap(now, old(millisec), interval), interval);
        tick == old(tick) + n && current == old(current) + Lasting(n, interval)
      ensures var d := (now - old(millisec)) % 0x1_0000_0000;
        if d <= 300000 + 64 * interval then
          tick == old(tick) + d / interval + 1 && millisec == (old(millisec) + (d / interval + 1) * interval) % U32
        else if d >= 0x1_0000_0000 - 300000 - 64 * interval then tick == old(tick) && millisec == old(millisec)
        else tick == old(tick) + 1 && millisec == (now + interval) % U32
      ensures made >= old(made)
      ensures GoOn(script, old(made), made, old(hist), hist, Window(old(current), tick - old(tick), interval))
    {
      hide Valid, Allowed, Ticks, Behind, Lasting, GoOn, ClockAt;
      BehindSelf(now);
      var diff := Behind(now, millisec);
      if diff > MGR_LIMIT + interval * 64 {
        JumpTo(now);
      } else if diff < -MGR_LIMIT - interval * 64 {
        JumpTo(now);
      }
      ghost var first := millisec;
      PositiveInterval();
      CatchUpTo(now, script);
      RunInNumbers(now, old(millisec), first, tick - old(tick), interval);
    }

    /** The loop of itimer_mgr_run. */
    method CatchUpTo(now: u32, script: nat -> seq<Op>)
      requires Valid() && Allowed(script, limit) && interval * 64 + MGR_LIMIT < HALF
      requires Behind(now, millisec) <= MGR_LIMIT + interval * 64
      requires current + Lasting(Ticks(Behind(now, millisec), interval), interval) + interval + limit < U32
      modifies this`jiffies, this`current, this`millisec, this`tick, core, this`evts, this`hist, this`made
      ensures Valid() && made >= old(made)
      ensures var n := Ticks(Behind(now, old(millisec)), interval);
        && tick == old(tick) + n && current == old(current) + Lasting(n, interval)
        && millisec == ClockAt(old(millisec), n, interval)
      ensures GoOn(script, old(made), made, old(hist), hist, Window(old(current), tick - old(tick), interval))
    {
      hide Valid, Allowed, Ticks, Behind, Lasting, GoOn, Covers, ClockAt;
      ghost var n, first := Ticks(Behind(now, millisec), interval), millisec;
      ghost var tick0, current0, made0, hist0 := tick, current, made, hist;
      GoOnSelf(script, made, hist, Window(current, 0, interval));
      PositiveInterval();
      NoTime(interval);
      Placed(first, 0, interval);
      while Behind(now, millisec) >= 0
        invariant Valid()
        invariant made >= made0
        invariant GoOn(script, made0, made, hist0, hist, Window(current0, tick - tick0, interval))
        invariant Behind(now, millisec) <= MGR_LIMIT + interval * 64
        invariant tick0 <= tick <= tick0 + n
        invariant current == current0 + Lasting(tick - tick0, interval)
        invariant millisec == ClockAt(first, tick - tick0, interval)
        invariant Ticks(Behind(now, millisec), interval) == tick0 + n - tick
        decreases tick0 + n - tick
      {
        TicksStep(now, millisec, interval);
        RoomForTick(current0, tick - tick0, n, interval, limit);
        ghost var before, hist', now' := made, hist, current;
        Placed(first, tick - tick0, interval);
        RunTick(script);
        WindowGrows(current0, tick - 1 - tick0, interval);
        GoOnTrans(script, made0, before, made, hist0, hist', hist,
                  Window(current0, tick - 1 - tick0, interval), Window(now', 1, interval),
                  Window(current0, tick - tick0, interval));
      }
      NoMoreTicks(Behind(now, millisec), interval);
    }

    method JumpTo(now: u32)
      requires Valid()
      modifies this`millisec
      ensures Valid() && millisec == now
    {
      millisec := now;
    }

    lemma PositiveInterval()
      requires Valid()
      ensures interval >= 1
    {
    }

    /** The periodic guarantee, between runs. Every callback made since the last start of an event ran in the first
        tick at or after its due time (start + k * period), and in a tick that has been run. Unless the user
        stopped the event, exactly as many callbacks have been made as due times have been reached by the last
        tick, or as its repeat count allows; it is on the wheel until the last of them and off it then. */
    lemma PeriodicGuarantee(id: Id)
      requires Valid() && id in hist
      ensures id in evts && hist[id].period >= 1
      ensures var h, last := hist[id], current - interval;
        && Punctual(h, interval) && Past(h, last)
        && (!h.stopped ==> |h.calls| == Callbacks(h, last))
        && (!h.stopped ==> (evts[id].attached <==> h.times <= 0 || |h.calls| < h.times))
        && (h.stopped ==> !evts[id].attached)
        && (evts[id].attached <==> core.Pending(id))
    {
      core.PendingIsFlat(id);
      core.QueuedIsFiring();
      hide W.Core.Valid, Punctual, Past, Callbacks, Good;
      assert Good(Now(), id, 0);
      GoodMeans(Now(), id);
    }
  }

  /** The guarantee for one event, from the manager's state between runs. */
  lemma GoodMeans(v: View, id: Id)
    requires id in v.evts && id in v.hist && Good(v, id, 0)
    requires v.f.clock == v.tick && v.f.firing == {} && !v.evts[id].running
    ensures v.hist[id].period >= 1
    ensures var e, h, last := v.evts[id], v.hist[id], v.current - v.interval;
      && Punctual(h, v.interval) && Past(h, last)
      && (!h.stopped ==> |h.calls| == Callbacks(h, last))
      && (!h.stopped ==> (e.attached <==> h.times <= 0 || |h.calls| < h.times))
      && (h.stopped ==> !e.attached)
      && (e.attached <==> id in v.f.due)
  {
    hide Due, Punctual, Past, Callbacks;
    var e, h := v.evts[id], v.hist[id];
    if e.attached {
      NotYetReached(v.current, v.interval, v.tick, v.f.due[id]);
      assert v.current < Due(h.start, h.period, |h.calls| + 1) + v.interval;
    }
    if !h.stopped {
      CountedCalls(h, v.interval, v.current - v.interval, e.attached);
    }
  }

  /** How many callbacks an event has had that was not stopped, when the last tick was at `last`. */
  function Callbacks(h: History, last: int): nat
    requires h.period >= 1
  {
    var due := Reached(h.start, h.period, last);
    if 0 < h.times < due then h.times else due
  }

  lemma CountedCalls(h: History, interval: nat, last: int, attached: bool)
    requires h.period >= 1 && Punctual(h, interval) && Past(h, last)
    requires if attached then last < Due(h.start, h.period, |h.calls| + 1) && (h.times > 0 ==> |h.calls| < h.times)
             else |h.calls| == h.times >= 1
    ensures |h.calls| == Callbacks(h, last)
  {
    hide Due;
    var n := |h.calls|;
    if n > 0 {
      assert Due(h.start, h.period, n) <= h.calls[n - 1] <= last;
      ReachedIsDue(h.start, h.period, last, n);
    }
    ReachedIsDue(h.start, h.period, last, n + 1);
  }

  const MGR_LIMIT := 300000

  /** (IINT32)(now - millisec) */
  function Behind(now: u32, millisec: u32): int {
    var x := (now - millisec) % U32;
    if x < HALF then x else x - U32
  }

  /** The time still to be run through, after the jump over a large gap. */
  function Gap(now: u32, millisec: u32, interval: u32): int {
    var diff := Behind(now, millisec);
    if diff > MGR_LIMIT + interval * 64 || diff < -MGR_LIMIT - interval * 64 then 0 else diff
  }

  /** The manager's clock `n` ticks after it was at `first`. */
  function ClockAt(first: u32, n: nat, interval: nat): u32 { (first + Lasting(n, interval)) % U32 }

  lemma Placed(first: u32, n: nat, interval: nat)
    ensures ClockAt(first, 0, interval) == first
    ensures ClockAt(first, n + 1, interval) == (ClockAt(first, n, interval) + interval) % U32
  {
    assert (n + 1) * interval == n * interval + interval;
    WrapSum(first + n * interval, interval);
  }

  /** The number of ticks and the clock, without the names. */
  lemma RunInNumbers(now: u32, before: u32, first: u32, n: nat, interval: u32)
    requires interval >= 1 && interval * 64 + MGR_LIMIT < HALF && n == Ticks(Gap(now, before, interval), interval)
    requires var diff := Behind(now, before);
      first == if diff > MGR_LIMIT + interval * 64 || diff < -MGR_LIMIT - interval * 64 then now else before
    ensures var d := (now - before) % 0x1_0000_0000; var millisec := ClockAt(first, n, interval);
      if d <= 300000 + 64 * interval then
        n == d / interval + 1 && millisec == (before + (d / interval + 1) * interval) % U32
      else if d >= 0x1_0000_0000 - 300000 - 64 * interval then n == 0 && millisec == before
      else n == 1 && millisec == (now + interval) % U32
  {
    Placed(first, 0, interval);
    assert Lasting(n, interval) == n * interval;
    hide Lasting;
    if n == 1 && first == now { Arithmetic.QuotientUnique(0, interval, 0); }
  }

  /** Two polls in time, the second not before the first, make together the ticks that the second alone would make:
      `n` by the first, which leaves the clock at `between`.  A second poll at the same time makes none. */
  lemma PollsAddUp(before: u32, interval: u32, nowA: u32, nowB: u32, n: nat, between: u32)
    requires interval >= 1 && interval * 64 + 300000 < HALF
    requires (nowA - before) % U32 <= (nowB - before) % U32 <= 300000 + 64 * interval
    requires n == (nowA - before) % U32 / interval + 1 && between == (before + n * interval) % U32
    ensures var all, d := (nowB - before) % U32 / interval + 1, (nowB - between) % U32;
      if d <= 300000 + 64 * interval then n + (d / interval + 1) == all
      else d >= U32 - 300000 - 64 * interval && n == all
    ensures nowA == nowB ==> (nowB - between) % U32 > 300000 + 64 * interval
  {
    var a, b := (nowA - before) % U32, (nowB - before) % U32;
    PollCount(a, b, interval, n);
    var gone := n * interval;
    DifferenceLater(before, nowB, gone);
    assert a < gone by { PastFirst(a, interval, n); }
    var d := (nowB - between) % U32;
    if b >= gone {
      assert d == b - gone;
    } else {
      assert d == b - gone + U32;
    }
  }

  lemma PastFirst(a: nat, interval: nat, n: nat)
    requires interval >= 1 && n == a / interval + 1
    ensures a < n * interval
  {
    assert a == a / interval * interval + a % interval;
    assert n * interval == a / interval * interval + interval;
  }

  lemma PollCount(a: nat, b: nat, interval: nat, n: nat)
    requires interval >= 1 && a <= b && n == a / interval + 1
    ensures 0 <= n * interval <= a + interval
    ensures if n * interval <= b then n + ((b - n * interval) / interval + 1) == b / interval + 1
            else n * interval <= b + interval && n == b / interval + 1
  {
    assert a == a / interval * interval + a % interval;
    assert n * interval == a / interval * interval + interval;
    var left: int := b - n * interval;
    if left >= 0 {
      Arithmetic.DivideSum(n, left, interval);
      assert b == n * interval + left;
    } else {
      Arithmetic.QuotientUnique(b, interval, n - 1);
    }
  }

  lemma DifferenceLater(before: u32, now: u32, gone: nat)
    requires gone <= U32
    ensures var b := (now - before) % U32; var d := (now - (before + gone) % U32) % U32;
      d == if b >= gone then b - gone else b - gone + U32
  {
    var b := (now - before) % U32;
    var k := (before + gone) / U32;
    assert now - (before + gone) % U32 == now - before - gone + k * U32;
  }

  function Ticks(diff: int, interval: nat): nat {
    if diff < 0 || interval == 0 then 0 else diff / interval + 1
  }

  lemma TicksStep(now: u32, millisec: u32, interval: u32)
    requires interval >= 1 && interval * 64 + MGR_LIMIT < HALF
    requires 0 <= Behind(now, millisec) <= MGR_LIMIT + interval * 64
    ensures var d := Behind(now, millisec); var millisec' := (millisec + interval) % U32;
      && Behind(now, millisec') == d - interval
      && Ticks(d - interval, interval) == Ticks(d, interval) - 1
  {
    BehindStep(now, millisec, interval);
    hide Behind;
    FewerTicks(Behind(now, millisec), interval);
  }

  lemma FewerTicks(d: nat, interval: nat)
    requires interval >= 1
    ensures Ticks(d - interval, interval) == Ticks(d, interval) - 1
  {
    if d >= interval {
      Arithmetic.DivideSum(1, d - interval, interval);
    } else {
      Arithmetic.QuotientUnique(d, interval, 0);
    }
  }

  lemma BehindStep(now: u32, millisec: u32, interval: u32)
    requires interval < HALF && 0 <= Behind(now, millisec)
    ensures Behind(now, (millisec + interval) % U32) == Behind(now, millisec) - interval
  {
  }

  lemma BehindSelf(now: u32)
    ensures Behind(now, now) == 0
  {
  }

  lemma NoMoreTicks(d: int, interval: nat)
    requires d < 0
    ensures Ticks(d, interval) == 0
  {
  }

  lemma NoTime(interval: nat)
    ensures Lasting(0, interval) == 0
  {
  }

  lemma RoomForTick(start: nat, done: nat, n: nat, interval: nat, limit: nat)
    requires done < n && start + Lasting(n, interval) + interval + limit < U32
    ensures start + Lasting(done, interval) + 2 * interval + limit < U32
    ensures Lasting(done + 1, interval) == Lasting(done, interval) + interval
  {
    Arithmetic.MulMonotone(done + 1, n, interval);
    assert (done + 1) * interval == done * interval + interval;
  }

  lemma GuardAtTick(tick: nat)
    ensures (tick % U32 - tick % U32) % U32 < HALF
    ensures (tick % U32 - (tick + 1) % U32) % U32 >= HALF
  {
  }

  lemma NotYetReached(current: nat, interval: nat, tick: nat, d: nat)
    requires tick <= d
    ensures current <= CurrentAt(current, interval, tick, d)
  {
  }

  lemma OkFinish(v: View, id: Id)
    requires Ok(v, {}, 0) && id in v.evts
    ensures Ok(v.(evts := v.evts[id := v.evts[id].(running := false)]), {}, 0)
  {
    hide Due, CurrentAt, Punctual;
    var v' := v.(evts := v.evts[id := v.evts[id].(running := false)]);
    forall x | x in v'.evts
      ensures Good(v', x, 0)
    {
      assert Good(v, x, 0);
    }
  }

  lemma CaughtUp(e: Evt, h: History, interval: nat, current: nat)
    requires EvtOk(e, h, 0, interval)
    requires e.attached
    ensures EvtOk(e.(running := true), h, 0, interval) && Burst(h, 0, current, interval)
  {
    hide Due, Punctual;
  }

  /** One round of the catching-up loop. */
  lemma CatchUpStep(e: Evt, h: History, count: nat, current: nat, interval: nat)
    requires EvtOk(e.(running := true), h, count, interval) && e.attached
    requires Burst(h, count, current, interval) && e.slap <= current < e.slap + interval
    requires current + e.period < U32
    ensures e.period >= 1 && Burst(h, count + 1, current, interval)
    ensures var e' := e.(slap := e.slap + e.period, running := true);
      if e.repeat == 1 then
        EvtOk(e'.(attached := false), h.(ended := true), count + 1, interval)
      else
        EvtOk(e'.(repeat := if e.repeat > 1 then e.repeat - 1 else e.repeat), h, count + 1, interval)
  {
    hide Due;
    BurstGrows(h, count, current, interval);
    DueNext(h.start, h.period, |h.calls| + count + 1);
  }

  /** One callback of a running event is made. */
  lemma OkCall(v: View, id: Id, rem: nat)
    requires Ok(v, {}, rem + 1) && id in v.evts && id in v.hist && v.evts[id].running
    requires forall x :: x in v.evts && v.evts[x].running ==> x == id
    requires Burst(v.hist[id], rem + 1, v.current, v.interval) && v.f.clock == v.tick + 1
    ensures var h := v.hist[id]; var h' := h.(calls := h.calls + [v.current]);
      && Ok(v.(hist := v.hist[id := h']), {}, rem)
      && Burst(h', rem, v.current, v.interval)
  {
    hide Due, CurrentAt, Punctual;
    var h := v.hist[id];
    var h' := h.(calls := h.calls + [v.current]);
    assert Good(v, id, rem + 1);
    PunctualCall(h, v.interval, v.current);
    var v' := v.(hist := v.hist[id := h']);
    forall x | x in v'.evts
      ensures Good(v', x, rem)
    {
      assert Good(v, x, rem + 1);
    }
  }

  /** What callbacks may ask for: periods of at least one millisecond and within the bound. */
  ghost predicate Allowed(script: nat -> seq<Op>, limit: nat) {
    forall k, op :: op in script(k) && op.Start? ==> 1 <= op.period <= limit
  }

  lemma AllowedAt(script: nat -> seq<Op>, k: nat, limit: nat)
    requires Allowed(script, limit)
    ensures forall op :: op in script(k) && op.Start? ==> 1 <= op.period <= limit
  {
  }

  /** Whatever is running was running before, with the same fields and history. */
  ghost predicate Untouched(evts: map<Id, Evt>, hist: map<Id, History>,
                            evts': map<Id, Evt>, hist': map<Id, History>)
  {
    && evts.Keys <= evts'.Keys
    && (forall id :: id in evts' && evts'[id].running ==>
          && id in evts && evts'[id] == evts[id]
          && (id in hist && id in hist' ==> hist'[id] == hist[id]))
    && hist.Keys <= hist'.Keys
  }

  /** An event found not running any more was named. */
  lemma StoppedRunning(script: nat -> seq<Op>, from: nat, to: nat, id: Id, current: nat,
                       evts: map<Id, Evt>, hist: map<Id, History>, evts': map<Id, Evt>, hist': map<Id, History>)
    requires Called(script, from, to, id, current, evts, hist, evts', hist')
    requires id in evts' && evts[id].running && !evts'[id].running
    ensures !LetBe(script, from, to, id)
  {
  }

  lemma StillRunning(evts: map<Id, Evt>, hist: map<Id, History>, evts': map<Id, Evt>, hist': map<Id, History>, id: Id)
    requires Untouched(evts, hist, evts', hist') && id in evts && id in hist
    requires forall x :: x in evts && evts[x].running ==> x == id
    ensures id in evts' && id in hist' && (forall x :: x in evts' && evts'[x].running ==> x == id)
    ensures hist.Keys <= hist'.Keys
    ensures evts'[id].running ==> hist'[id] == hist[id]
  {
  }

  lemma UntouchedTrans(evts: map<Id, Evt>, hist: map<Id, History>, evts': map<Id, Evt>, hist': map<Id, History>,
                       evts'': map<Id, Evt>, hist'': map<Id, History>)
    requires Untouched(evts, hist, evts', hist') && Untouched(evts', hist', evts'', hist'')
    ensures Untouched(evts, hist, evts'', hist'')
  {
  }

  /** The next `n` callbacks of an event are due in this tick and were not due in the one before. */
  ghost predicate Burst(h: History, n: nat, current: nat, interval: nat) {
    forall k :: |h.calls| < k <= |h.calls| + n ==>
      Due(h.start, h.period, k) <= current < Due(h.start, h.period, k) + interval
  }

  lemma BurstEnded(h: History, n: nat, current: nat, interval: nat)
    requires Burst(h, n, current, interval)
    ensures Burst(h.(ended := true), n, current, interval)
  {
  }

  lemma BurstGrows(h: History, n: nat, current: nat, interval: nat)
    requires Burst(h, n, current, interval)
    requires var d := Due(h.start, h.period, |h.calls| + n + 1); d <= current < d + interval
    ensures Burst(h, n + 1, current, interval)
  {
  }

  lemma WrapSum(a: nat, b: nat)
    ensures (a % U32 + b) % U32 == (a + b) % U32
  {
    var q := a / U32;
    assert a + b == (a % U32 + b) + q * U32;
  }
}
