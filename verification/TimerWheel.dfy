/**
 Where the five levels of the wheel keep a node. Level 0 has 256 slots of one tick each; every
 level above has 64 slots, each as long as the whole level below.
 */
module WheelPlacement {
  import opened TimerFlat
  import opened Arithmetic

  function Slots(level: nat): nat { if level == 0 then 256 else 64 }

  /** Ticks covered by one slot of the level. */
  function Grain(level: nat): (g: nat)
    requires level < 5
    ensures g > 0
  {
    match level
    case 0 => 1
    case 1 => 0x100
    case 2 => 0x4000
    case 3 => 0x10_0000
    case 4 => 0x400_0000
  }

  /** Ticks covered by the whole level. */
  function Span(level: nat): nat
    requires level < 5
  {
    Grain(level) * Slots(level)
  }

  datatype Place = Place(level: nat, slot: nat)

  predicate InWheel(p: Place) { p.level < 5 && p.slot < Slots(p.level) }

  /** The time at which a node due at `d` leaves this level: its deadline rounded down to the
      level's grain. Level 0 hands its nodes to their callbacks, the others cascade them. */
  function Anchor(level: nat, d: nat): nat
    requires level < 5
  {
    d - d % Grain(level)
  }

  /** The placement invariant: the slot is that of the deadline, and the one time at which the
      slot is emptied within the level's span ahead of `clock` is the node's anchor. */
  ghost predicate Placed(p: Place, d: nat, clock: nat)
    requires p.level < 5
  {
    && p.slot == d / Grain(p.level) % Slots(p.level)
    && clock <= Anchor(p.level, d)
    && d < clock + Span(p.level)
  }

  /** itimer_internal_add's choice of a list, on wrapped 32-bit values. */
  function PlaceFor(timerJiffies: u32, expires: u32): (p: Place)
    ensures InWheel(p)
  {
    var idx := (expires - timerJiffies) % U32;
    if idx < 0x100 then Place(0, expires % 256)
    else if idx < 0x4000 then Place(1, expires / 0x100 % 64)
    else if idx < 0x10_0000 then Place(2, expires / 0x4000 % 64)
    else if idx < 0x400_0000 then Place(3, expires / 0x10_0000 % 64)
    else if idx >= HALF then Place(0, timerJiffies % 256)
    else Place(4, expires / 0x400_0000 % 64)
  }

  lemma WrapDifference(clock: nat, expires: u32)
    ensures (expires - clock % U32) % U32 == (expires - clock) % U32
  {
    var q := clock / U32;
    assert expires - clock % U32 == (expires - clock) + q * U32;
  }

  /** 2^32 is a whole number of turns of every level, so the wrapped time has the same slot. */
  lemma SlotOfWrapped(level: nat, d: nat)
    requires level < 5
    ensures d % U32 / Grain(level) % Slots(level) == d / Grain(level) % Slots(level)
  {
    var g, s := Grain(level), Slots(level);
    var turns := U32 / (g * s);
    assert turns * s * g == U32;
    WrapsAway(d / U32, d % U32, turns, s, g);
  }

  lemma WrapsAway(q: nat, r: nat, turns: nat, s: nat, g: nat)
    requires s > 0 && g > 0
    ensures (q * (turns * s * g) + r) / g % s == r / g % s
  {
    var n := q * turns * s;
    assert n * g == q * (turns * s * g);
    DivideSum(n, r, g);
    TurnsCancel(q * turns, r / g, s);
  }

  /** A freshly placed node satisfies the placement invariant, with the next cascade of its slot
      strictly ahead; and the closer the deadline, the lower the level. */
  lemma PlaceForIsPlaced(clock: nat, expires: u32)
    ensures var p := PlaceFor(clock % U32, expires); var d := Deadline(clock, expires);
      && Placed(p, d, clock)
      && (p.level > 0 ==> clock < Anchor(p.level, d) && d % U32 == expires)
      && (forall level :: 1 <= level < 5 && d - clock < Grain(level) ==> p.level < level)
  {
    WrapDifference(clock, expires);
    var d := Deadline(clock, expires);
    var p := PlaceFor(clock % U32, expires);
    SlotOfWrapped(p.level, d);
  }

  /** Does the iteration at `clock` cascade this level? (index == 0, then i == 0 level by level) */
  predicate Cascades(level: nat, clock: nat)
    requires 1 <= level < 5
  {
    clock % Grain(level) == 0
  }

  /** ITIMER_INDEX. */
  function Index(level: nat, jiffies: nat): nat
    requires 1 <= level < 5
  {
    jiffies / Grain(level) % 64
  }

  /** The chain of tests in itimer_internal_update computes Cascades: a level is cascaded when the
      one below is and that one's index is 0. */
  lemma CascadeChain(level: nat, clock: nat)
    requires 1 <= level < 4
    ensures Cascades(level + 1, clock) <==> Cascades(level, clock) && Index(level, clock) == 0
  {
    var g := Grain(level);
    assert Grain(level + 1) == 64 * g;
    var c := clock / g;
    assert clock == c * g + clock % g;
    if Cascades(level, clock) && Index(level, clock) == 0 {
      assert clock == c / 64 * (64 * g);
    }
    if Cascades(level + 1, clock) {
      var k := clock / (64 * g);
      assert clock == 64 * k * g;
      DivideSum(64 * k, 0, g);
    }
  }

  /** The nodes a level gives up at `clock` are exactly those in the slot the code empties. */
  lemma AnchorIsSlot(p: Place, d: nat, clock: nat)
    requires 1 <= p.level < 5 && Placed(p, d, clock)
    ensures Anchor(p.level, d) == clock <==> Cascades(p.level, clock) && p.slot == Index(p.level, clock)
  {
    var g := Grain(p.level);
    var a, c := d / g, clock / g;
    assert Anchor(p.level, d) == a * g;
    if Cascades(p.level, clock) && p.slot == Index(p.level, clock) {
      assert clock == c * g;
      assert c <= a < c + 64;
      assert a % 64 == c % 64;
      assert a == c;
    }
  }

  /** With all cascades strictly ahead, the slot of `clock` in level 0 holds exactly the nodes due
      now, and every other node is still well placed one tick later. */
  lemma DueOrLater(p: Place, d: nat, clock: nat)
    requires InWheel(p) && Placed(p, d, clock)
    requires p.level > 0 ==> clock < Anchor(p.level, d)
    ensures d == clock <==> p == Place(0, clock % 256)
    ensures d != clock ==> Placed(p, d, clock + 1)
  {
    if p.level == 0 {
      LowestSlot(p.slot, d, clock);
    } else {
      AnchorBelow(p.level, d);
      hide Anchor, Grain, Slots, Span;
    }
  }

  lemma LowestSlot(slot: nat, d: nat, clock: nat)
    requires Placed(Place(0, slot), d, clock)
    ensures d == clock <==> slot == clock % 256
    ensures d != clock ==> Placed(Place(0, slot), d, clock + 1)
  {
    assert d % 1 == 0 && d / 1 == d;
    assert slot == d % 256 && clock <= d < clock + 256;
    hide Placed, Anchor, Grain, Slots, Span;
    if slot == clock % 256 {
      QuotientUnique(d - clock, 256, 0);
    }
  }

  lemma AnchorBelow(level: nat, d: nat)
    requires level < 5
    ensures Anchor(level, d) <= d
  {
  }
}

/**
 The five vectors of lists, and the bookkeeping that says which list each node is linked into.
 */
module WheelLists {
  import opened TimerFlat
  import opened NodeLists
  import opened WheelPlacement

  type Vectors = seq<seq<seq<Id>>>

  ghost predicate Shape(tv: Vectors) {
    |tv| == 5 && forall l :: 0 <= l < 5 ==> |tv[l]| == Slots(l)
  }

  function At(tv: Vectors, p: Place): seq<Id>
    requires Shape(tv) && InWheel(p)
  {
    tv[p.level][p.slot]
  }

  function Put(tv: Vectors, p: Place, list: seq<Id>): (r: Vectors)
    requires Shape(tv) && InWheel(p)
    ensures Shape(r) && At(r, p) == list
    ensures forall q :: InWheel(q) && q != p ==> At(r, q) == At(tv, q)
  {
    tv[p.level := tv[p.level][p.slot := list]]
  }

  /** Each linked node is on exactly the list `home` says, once. */
  ghost predicate Linked(tv: Vectors, home: map<Id, Place>) {
    && Shape(tv)
    && (forall id :: id in home ==> InWheel(home[id]))
    && (forall p :: InWheel(p) ==> NoDup(At(tv, p)))
    && (forall p, id :: InWheel(p) ==> (id in At(tv, p) <==> id in home && home[id] == p))
  }

  lemma LinkTail(tv: Vectors, home: map<Id, Place>, id: Id, p: Place)
    requires Linked(tv, home) && id !in home && InWheel(p)
    ensures Linked(Put(tv, p, At(tv, p) + [id]), home[id := p])
  {
    var list := At(tv, p);
    assert id !in list;
    var tv' := Put(tv, p, list + [id]);
    forall q | InWheel(q)
      ensures NoDup(At(tv', q))
      ensures forall x :: x in At(tv', q) <==> x in home[id := p] && home[id := p][x] == q
    {
      if q == p {
        assert forall x :: x in list + [id] <==> x in list || x == id;
      }
    }
  }

  lemma UnlinkOne(tv: Vectors, home: map<Id, Place>, id: Id)
    requires Linked(tv, home) && id in home
    ensures Linked(Put(tv, home[id], Without(At(tv, home[id]), id)), home - {id})
  {
    hide Without;
    var p := home[id];
    var list := Without(At(tv, p), id);
    var tv' := Put(tv, p, list);
    forall q | InWheel(q)
      ensures NoDup(At(tv', q))
      ensures forall x :: x in At(tv', q) <==> x in home - {id} && (home - {id})[x] == q
    {
      if q != p {
        assert id !in At(tv, q);
      }
    }
  }

  lemma SpliceSlot(tv: Vectors, home: map<Id, Place>, p: Place)
    requires Linked(tv, home) && InWheel(p)
    ensures Linked(Put(tv, p, []), home - Elems(At(tv, p)))
  {
    var tv', home' := Put(tv, p, []), home - Elems(At(tv, p));
    forall q, id | InWheel(q)
      ensures id in At(tv', q) <==> id in home' && home'[id] == q
    {
      assert id in At(tv, p) <==> id in home && home[id] == p;
    }
  }

  /** The invariant of the wheel while `limbo` holds nodes taken off a slot and not yet put back,
      all due within `reach` of the clock. */
  ghost predicate Consistent(tv: Vectors, home: map<Id, Place>, expires: map<Id, u32>,
                             limbo: seq<Id>, reach: nat, due: map<Id, nat>, clock: nat)
  {
    && Linked(tv, home)
    && NoDup(limbo)
    && (forall id :: id in limbo ==> id !in home)
    && (forall id :: id in due <==> id in home || id in limbo)
    && (forall id :: id in home ==> Placed(home[id], due[id], clock))
    && (forall id :: id in due ==> id in expires)
    && (forall id :: id in limbo || (id in home && home[id].level > 0) ==> expires[id] == due[id] % U32)
    && (forall id :: id in limbo ==> clock <= due[id] < clock + reach)
  }

  /** In the levels 1 to `upTo` every node's next cascade is strictly ahead of the clock. */
  ghost predicate Ahead(home: map<Id, Place>, due: map<Id, nat>, clock: nat, upTo: nat)
    requires upTo < 5
  {
    forall id :: id in home && id in due && 1 <= home[id].level <= upTo ==> clock < Anchor(home[id].level, due[id])
  }

  lemma DeadlineOfWrapped(clock: nat, d: nat)
    requires clock <= d < clock + HALF
    ensures Deadline(clock, d % U32) == d
  {
    var q := d / U32;
    assert d % U32 - clock == (d - clock) - q * U32;
    assert (d % U32 - clock) % U32 == d - clock;
  }

  /** Putting one limbo node back: it goes to a level below `level`, strictly ahead. */
  lemma PutBack(tv: Vectors, home: map<Id, Place>, expires: map<Id, u32>, limbo: seq<Id>,
                due: map<Id, nat>, clock: nat, level: nat)
    requires 1 <= level < 5
    requires Consistent(tv, home, expires, limbo, Grain(level), due, clock) && limbo != []
    requires Ahead(home, due, clock, level)
    ensures limbo[0] in expires && Shape(tv)
    ensures var id := limbo[0]; var p := PlaceFor(clock % U32, expires[id]);
      var home' := home[id := p];
      && Linked(tv, home) && id !in home && p.level < level
      && Consistent(Put(tv, p, At(tv, p) + [id]), home', expires, limbo[1..], Grain(level), due, clock)
      && Ahead(home', due, clock, level)
  {
    var id := limbo[0];
    DeadlineOfWrapped(clock, due[id]);
    PlaceForIsPlaced(clock, expires[id]);
    LinkTail(tv, home, id, PlaceFor(clock % U32, expires[id]));
    assert forall x :: x in limbo <==> x == id || x in limbo[1..];
  }

  lemma Settled(tv: Vectors, home: map<Id, Place>, expires: map<Id, u32>, reach: nat,
                due: map<Id, nat>, clock: nat)
    requires Consistent(tv, home, expires, [], reach, due, clock)
    ensures Consistent(tv, home, expires, [], 0, due, clock) && home.Keys == due.Keys
  {
  }

  /** Emptying the slot of `level` that is cascaded at `clock` takes off exactly the nodes of that
      level whose cascade is now. */
  lemma TakeOff(tv: Vectors, home: map<Id, Place>, expires: map<Id, u32>,
                due: map<Id, nat>, clock: nat, level: nat)
    requires 1 <= level < 5 && Cascades(level, clock)
    requires Consistent(tv, home, expires, [], 0, due, clock)
    requires Ahead(home, due, clock, level - 1)
    ensures Shape(tv)
    ensures var p := Place(level, Index(level, clock)); var moved := At(tv, p);
      var home' := home - Elems(moved);
      && (forall id :: id in moved <==> id in home && home[id] == p)
      && Consistent(Put(tv, p, []), home', expires, moved, Grain(level), due, clock)
      && Ahead(home', due, clock, level)
  {
    var p := Place(level, Index(level, clock));
    var moved := At(tv, p);
    SpliceSlot(tv, home, p);
    forall id | id in home && home[id].level == level
      ensures id in moved <==> Anchor(level, due[id]) == clock
    {
      AnchorIsSlot(home[id], due[id], clock);
    }
    assert forall id :: id in moved ==> home[id] == p;
  }

  /** No level above needs a cascade once the chain of tests stops. */
  lemma ChainStops(home: map<Id, Place>, due: map<Id, nat>, clock: nat, level: nat)
    requires level < 4 && !Cascades(level + 1, clock)
    requires forall id :: id in home ==> InWheel(home[id]) && id in due && Placed(home[id], due[id], clock)
    requires Ahead(home, due, clock, level)
    ensures Ahead(home, due, clock, 4)
  {
    forall id | id in home && level < home[id].level
      ensures clock < Anchor(home[id].level, due[id])
    {
      NotCascaded(level + 1, home[id].level, clock);
      AnchorIsSlot(home[id], due[id], clock);
    }
  }

  lemma NotCascaded(low: nat, high: nat, clock: nat)
    requires 1 <= low <= high < 5 && !Cascades(low, clock)
    ensures !Cascades(high, clock)
  {
    if low < high {
      NotCascaded(low, high - 1, clock);
      CascadeChain(high - 1, clock);
    }
  }

  lemma LowestInWheel(clock: nat)
    ensures InWheel(Place(0, clock % 256))
  {
  }

  /** Starting the iteration at `clock`, all cascades done: the slot spliced off level 0 holds
      exactly the nodes due now, and the rest is consistent one tick later. */
  lemma TickTakesDue(tv: Vectors, home: map<Id, Place>, expires: map<Id, u32>, f: Flat)
    requires Consistent(tv, home, expires, [], 0, f.due, f.clock) && Ahead(home, f.due, f.clock, 4)
    ensures var p := Place(0, f.clock % 256); var g := Step(f, Tick);
      && Shape(tv) && NoDup(At(tv, p))
      && Elems(At(tv, p)) == g.firing
      && Consistent(Put(tv, p, []), home - Elems(At(tv, p)), expires, [], 0, g.due, g.clock)
  {
    hide Placed, Anchor, Grain, Slots, Linked, Step;
    var p, g := Place(0, f.clock % 256), Step(f, Tick);
    LowestInWheel(f.clock);
    TakesDue(tv, home, f, p);
    SpliceSlot(tv, home, p);
    FlatTick(f);
    hide At, Put, Consistent;
    StillConsistent(tv, home, expires, f, Put(tv, p, []), home - Elems(At(tv, p)), g);
  }

  lemma StillConsistent(tv: Vectors, home: map<Id, Place>, expires: map<Id, u32>, f: Flat,
                        tv': Vectors, home': map<Id, Place>, g: Flat)
    requires Consistent(tv, home, expires, [], 0, f.due, f.clock) && Linked(tv', home')
    requires forall id :: id in g.due <==> id in home'
    requires forall id :: id in home' ==> id in home && home'[id] == home[id] && id in f.due && g.due[id] == f.due[id]
    requires forall id :: id in home' ==> Placed(home[id], f.due[id], g.clock)
    ensures Consistent(tv', home', expires, [], 0, g.due, g.clock)
  {
    hide Placed, Linked;
  }

  /** The flat tick, element by element. */
  lemma FlatTick(f: Flat)
    ensures var g := Step(f, Tick); g.clock == f.clock + 1 && forall id ::
      && (id in g.due <==> id in f.due && f.due[id] != f.clock) && (id in g.due ==> g.due[id] == f.due[id])
      && (id in g.firing <==> id in f.due && f.due[id] == f.clock)
  {
  }

  lemma TakesDue(tv: Vectors, home: map<Id, Place>, f: Flat, p: Place)
    requires Linked(tv, home) && Ahead(home, f.due, f.clock, 4) && p == Place(0, f.clock % 256) && InWheel(p)
    requires forall id :: id in f.due <==> id in home
    requires forall id :: id in home ==> Placed(home[id], f.due[id], f.clock)
    ensures Shape(tv) && NoDup(At(tv, p)) && Elems(At(tv, p)) == Step(f, Tick).firing
    ensures forall id :: id in home && id !in Elems(At(tv, p)) ==> Placed(home[id], f.due[id], f.clock + 1)
  {
    hide Placed, Anchor, Grain, Slots;
    forall id | id in home
      ensures id in At(tv, p) <==> f.due[id] == f.clock
      ensures f.due[id] != f.clock ==> Placed(home[id], f.due[id], f.clock + 1)
    {
      DueOrLater(home[id], f.due[id], f.clock);
    }
  }

  /** Adding an unlinked node between or inside iterations. */
  lemma AddLinks(tv: Vectors, home: map<Id, Place>, expires: map<Id, u32>, f: Flat, id: Id, e: u32)
    requires Consistent(tv, home, expires, [], 0, f.due - {id}, f.clock)
    ensures Linked(tv, home) && id !in home
    ensures var p := PlaceFor(f.clock % U32, e);
      Consistent(Put(tv, p, At(tv, p) + [id]), home[id := p], expires[id := e], [], 0,
                 Step(f, Add(id, e)).due, f.clock)
  {
    PlaceForIsPlaced(f.clock, e);
    LinkTail(tv, home, id, PlaceFor(f.clock % U32, e));
  }

  lemma DelUnlinks(tv: Vectors, home: map<Id, Place>, expires: map<Id, u32>, f: Flat, id: Id)
    requires Consistent(tv, home, expires, [], 0, f.due, f.clock) && id in home
    ensures Consistent(Put(tv, home[id], Without(At(tv, home[id]), id)), home - {id}, expires, [], 0,
                       f.due - {id}, f.clock)
  {
    UnlinkOne(tv, home, id);
  }
}

/**
 The timer core itself. A node's list pointers are modelled by `home` (the vector list it is
 linked into) and by `queued` (the list of nodes the running iteration has still to call back).
 */
module TimerWheel {
  import opened TimerFlat
  import opened NodeLists
  import opened WheelPlacement
  import opened WheelLists

  /** What a callback may do to the core it is called from. */
  datatype Op = OpAdd(id: Id, expires: u32) | OpDel(id: Id) | OpMod(id: Id, expires: u32) | OpDestroy(id: Id)

  /** The nodes destroyed once `ops` have been performed. */
  function DestroyedBy(destroyed: set<Id>, ops: seq<Op>): set<Id> {
    destroyed + set op | op in ops && op.OpDestroy? :: op.id
  }

  /** What an operation does to the flat state: nothing to a destroyed node. */
  ghost function OpEvents(f: Flat, destroyed: set<Id>, op: Op): seq<Event> {
    var del := if op.id in f.due || op.id in f.firing then [Del(op.id)] else [];
    if op.id in destroyed then []
    else
      match op
      case OpAdd(id, e) => [Add(id, e)]
      case OpDel(_) => del
      case OpMod(id, e) => del + [Add(id, e)]
      case OpDestroy(_) => del
  }

  /** What a sequence of operations does, one after the other. */
  ghost function Events(f: Flat, destroyed: set<Id>, ops: seq<Op>): seq<Event> {
    if ops == [] then []
    else
      var first := ops[..|ops| - 1];
      var done := Events(f, destroyed, first);
      done + OpEvents(Run(f, done), DestroyedBy(destroyed, first), ops[|ops| - 1])
  }

  lemma EventsNone(f: Flat, destroyed: set<Id>)
    ensures Events(f, destroyed, []) == [] && DestroyedBy(destroyed, []) == destroyed
  {
  }

  lemma DestroyedOne(destroyed: set<Id>, op: Op)
    ensures DestroyedBy(destroyed, [op]) == if op.OpDestroy? then destroyed + {op.id} else destroyed
  {
  }

  lemma OpIs(f: Flat, destroyed: set<Id>, op: Op)
    ensures var pending := op.id in f.due || op.id in f.firing;
      OpEvents(f, destroyed, op) ==
      if op.id in destroyed then []
      else if op.OpAdd? then [Add(op.id, op.expires)]
      else if op.OpMod? then (if pending then [Del(op.id), Add(op.id, op.expires)] else [Add(op.id, op.expires)])
      else if pending then [Del(op.id)] else []
  {
  }

  lemma OpQuiet(trace: seq<Event>, f: Flat, destroyed: set<Id>, op: Op)
    ensures forall id :: op.id != id ==> Quiet(trace, trace + OpEvents(f, destroyed, op), id)
  {
    var done := OpEvents(f, destroyed, op);
    assert (trace + done)[|trace|..] == done;
  }

  lemma OpLeavesAlone(f: Flat, destroyed: set<Id>, op: Op, id: Id)
    requires op.id != id
    ensures LeftAlone(OpEvents(f, destroyed, op), id)
  {
  }

  lemma {:induction false} EventsLeaveAlone(f: Flat, destroyed: set<Id>, ops: seq<Op>, id: Id)
    requires forall op :: op in ops ==> op.id != id
    ensures LeftAlone(Events(f, destroyed, ops), id)
    decreases |ops|
  {
    hide OpEvents, Run, DestroyedBy;
    if ops != [] {
      var first, last := ops[..|ops| - 1], ops[|ops| - 1];
      assert last in ops;
      EventsLeaveAlone(f, destroyed, first, id);
      OpLeavesAlone(Run(f, Events(f, destroyed, first)), DestroyedBy(destroyed, first), last, id);
    }
  }

  lemma EventsQuiet(trace: seq<Event>, f: Flat, destroyed: set<Id>, ops: seq<Op>, id: Id)
    requires forall op :: op in ops ==> op.id != id
    ensures Quiet(trace, trace + Events(f, destroyed, ops), id)
  {
    EventsLeaveAlone(f, destroyed, ops, id);
    hide LeftAlone, Events;
    var done := Events(f, destroyed, ops);
    assert (trace + done)[|trace|..] == done;
  }

  lemma EventsOn(f: Flat, destroyed: set<Id>, ops: seq<Op>, i: nat)
    requires i < |ops|
    ensures var done := Events(f, destroyed, ops[..i]);
      Events(f, destroyed, ops[..i + 1]) == done + OpEvents(Run(f, done), DestroyedBy(destroyed, ops[..i]), ops[i])
    ensures DestroyedBy(destroyed, ops[..i + 1]) == DestroyedBy(DestroyedBy(destroyed, ops[..i]), [ops[i]])
  {
    assert ops[..i + 1][..i] == ops[..i];
    assert ops[..i + 1] == ops[..i] + [ops[i]];
  }

  /** All that a run of the core changes, as far as the flat state knows. */
  datatype Moment = Moment(f: Flat, destroyed: set<Id>, calls: nat, trace: seq<Event>)

  ghost function AfterTick(m: Moment): Moment {
    Moment(Step(m.f, Tick), m.destroyed, m.calls, m.trace + [Tick])
  }

  /** A node is called back, and the callback does what the script says for this call. */
  ghost function AfterCall(m: Moment, id: Id, script: nat -> seq<Op>): Moment {
    var fired := Step(m.f, Fire(id));
    var done := Events(fired, m.destroyed, script(m.calls));
    Moment(Run(fired, done), DestroyedBy(m.destroyed, script(m.calls)), m.calls + 1, m.trace + [Fire(id)] + done)
  }

  ghost predicate OneStep(script: nat -> seq<Op>, m: Moment, b: Moment) {
    b == AfterTick(m) || exists id: Id :: b == AfterCall(m, id, script)
  }

  /** From `a` to `b` in `n` steps, each the start of an iteration or one complete callback. */
  ghost predicate Steps(script: nat -> seq<Op>, a: Moment, b: Moment, n: nat)
    decreases n
  {
    if n == 0 then a == b
    else exists m :: Steps(script, a, m, n - 1) && OneStep(script, m, b)
  }

  ghost predicate Plays(script: nat -> seq<Op>, a: Moment, b: Moment) {
    exists n: nat :: Steps(script, a, b, n)
  }

  lemma PlaysNone(script: nat -> seq<Op>, a: Moment)
    ensures Plays(script, a, a)
  {
    assert Steps(script, a, a, 0);
  }

  lemma PlaysStep(script: nat -> seq<Op>, a: Moment, m: Moment, b: Moment)
    requires Plays(script, a, m) && OneStep(script, m, b)
    ensures Plays(script, a, b)
  {
    hide OneStep;
    var n: nat :| Steps(script, a, m, n);
    assert Steps(script, a, b, n + 1);
  }

  lemma PlaysTick(script: nat -> seq<Op>, a: Moment, m: Moment)
    requires Plays(script, a, m)
    ensures Plays(script, a, AfterTick(m))
  {
    PlaysStep(script, a, m, AfterTick(m));
  }

  lemma PlaysCall(script: nat -> seq<Op>, a: Moment, m: Moment, id: Id)
    requires Plays(script, a, m)
    ensures Plays(script, a, AfterCall(m, id, script))
  {
    hide AfterCall;
    PlaysStep(script, a, m, AfterCall(m, id, script));
  }

  lemma {:induction false} PlaysOn(script: nat -> seq<Op>, a: Moment, b: Moment, c: Moment, n: nat)
    requires Plays(script, a, b) && Steps(script, b, c, n)
    ensures Plays(script, a, c)
    decreases n
  {
    hide OneStep;
    if n > 0 {
      var m :| Steps(script, b, m, n - 1) && OneStep(script, m, c);
      PlaysOn(script, a, b, m, n - 1);
      PlaysStep(script, a, m, c);
    }
  }

  lemma PlaysBoth(script: nat -> seq<Op>, a: Moment, b: Moment, c: Moment)
    requires Plays(script, a, b) && Plays(script, b, c)
    ensures Plays(script, a, c)
  {
    var n: nat :| Steps(script, b, c, n);
    PlaysOn(script, a, b, c, n);
  }

  lemma TickIs(m: Moment, b: Moment)
    requires b == Moment(Step(m.f, Tick), m.destroyed, m.calls, m.trace + [Tick])
    ensures b == AfterTick(m)
  {
  }

  lemma FireClock(f: Flat, id: Id)
    ensures Step(f, Fire(id)).clock == f.clock
  {
  }

  lemma CallIs(m: Moment, id: Id, script: nat -> seq<Op>)
    ensures var fired := Step(m.f, Fire(id)); var done := Events(fired, m.destroyed, script(m.calls));
      AfterCall(m, id, script) ==
      Moment(Run(fired, done), DestroyedBy(m.destroyed, script(m.calls)), m.calls + 1, m.trace + [Fire(id)] + done)
  {
  }

  class Core {
    var timerJiffies: u32
    var tv: Vectors
    var home: map<Id, Place>
    var queued: seq<Id>
    var expires: map<Id, u32>  // node->expires of every node ever added
    var destroyed: set<Id>     // nodes whose state is not ITIMER_NODE_STATE_OK
    var calls: nat             // callbacks made so far

    ghost const start: nat     // the jiffies given to itimer_core_init
    ghost var flat: Flat
    ghost var trace: seq<Event>

    /** The wheel is consistent with the flat state, which is what replaying the trace gives. */
    ghost predicate Valid()
      reads this
    {
      && timerJiffies == flat.clock % U32
      && Consistent(tv, home, expires, [], 0, flat.due, flat.clock)
      && NoDup(queued) && Elems(queued) == flat.firing
      && WellFormed(flat)
      && Legal(Flat(start, map[], {}), trace)
      && Run(Flat(start, map[], {}), trace) == flat
    }

    ghost function Now(): Moment
      reads this
    {
      Moment(flat, destroyed, calls, trace)
    }

    /** Is the node on some list? (!ilist_is_empty(&node->head)) */
    predicate Pending(id: Id)
      reads this
    {
      id in home || id in queued
    }

    /** itimer_core_init */
    constructor (jiffies: u32)
      ensures Valid() && start == jiffies && flat == Flat(jiffies, map[], {}) && trace == []
      ensures timerJiffies == jiffies && queued == [] && destroyed == {}
    {
      timerJiffies := jiffies;
      tv := seq(5, l requires 0 <= l < 5 => seq(Slots(l), s => []));
      home, queued, expires, destroyed, calls := map[], [], map[], {}, 0;
      start := jiffies;
      flat := Flat(jiffies, map[], {});
      trace := [];
    }

    lemma NotDue(id: Id)
      requires Valid() && !Pending(id)
      ensures id !in flat.due && flat.due - {id} == flat.due
      ensures id !in flat.firing && flat.firing - {id} == flat.firing
    {
    }

    /** The lists and the flat state agree on what is pending. */
    lemma PendingIsFlat(id: Id)
      requires Valid()
      ensures Pending(id) <==> id in flat.due || id in flat.firing
      ensures !Pending(id) ==> Step(flat, Del(id)) == flat
    {
      if !Pending(id) {
        NotDue(id);
      }
    }

    lemma QueuedIsFiring()
      requires Valid()
      ensures Elems(queued) == flat.firing && (queued == [] <==> flat.firing == {})
      ensures forall id :: id in queued ==> id in flat.firing
    {
      if queued != [] {
        assert queued[0] in Elems(queued);
      }
    }

    lemma TimeIsWrapped()
      requires Valid()
      ensures timerJiffies == flat.clock % U32
    {
    }

    ghost method Record(e: Event)
      requires Legal(Flat(start, map[], {}), trace) && Run(Flat(start, map[], {}), trace) == flat
      requires WellFormed(flat) && Enabled(flat, e)
      modifies this`trace, this`flat
      ensures trace == old(trace) + [e] && flat == Step(old(flat), e)
      ensures Legal(Flat(start, map[], {}), trace) && Run(Flat(start, map[], {}), trace) == flat
      ensures WellFormed(flat)
    {
      RunExtend(Flat(start, map[], {}), trace, e);
      trace := trace + [e];
      flat := Step(flat, e);
    }

    /** ilist_del_init on a linked node */
    method Unlink(id: Id)
      requires Valid() && Pending(id)
      modifies this`tv, this`home, this`queued
      ensures !Pending(id)
      ensures Consistent(tv, home, expires, [], 0, flat.due - {id}, flat.clock)
      ensures NoDup(queued) && Elems(queued) == flat.firing - {id}
      ensures |queued| <= |old(queued)|
    {
      if id in home {
        DelUnlinks(tv, home, expires, flat, id);
        tv := Put(tv, home[id], Without(At(tv, home[id]), id));
        home := home - {id};
      } else {
        queued := Without(queued, id);
      }
    }

    /** itimer_internal_add */
    method InternalAdd(id: Id)
      requires Linked(tv, home) && id !in home && id in expires
      modifies this`tv, this`home
      ensures var p := PlaceFor(timerJiffies, expires[id]);
        home == old(home)[id := p] && tv == Put(old(tv), p, At(old(tv), p) + [id])
      ensures Linked(tv, home)
    {
      var p := PlaceFor(timerJiffies, expires[id]);
      LinkTail(tv, home, id, p);
      tv := Put(tv, p, At(tv, p) + [id]);
      home := home[id := p];
    }

    /** itimer_node_add: a no-op on a destroyed node, else the flat add. */
    method NodeAdd(id: Id, e: u32)
      requires Valid()
      modifies this
      ensures Valid() && timerJiffies == old(timerJiffies) && flat.clock == old(flat.clock)
      ensures destroyed == old(destroyed) && calls == old(calls) && |queued| <= |old(queued)|
      ensures id in destroyed ==> trace == old(trace) && flat == old(flat)
      ensures id !in destroyed ==>
        trace == old(trace) + [Add(id, e)] && flat == Step(old(flat), Add(id, e)) && Pending(id)
    {
      hide Consistent, PlaceFor, Legal, Run;
      if id in destroyed {
        return;
      }
      if Pending(id) {
        Unlink(id);
      } else {
        NotDue(id);
      }
      AddLinks(tv, home, expires, flat, id, e);
      expires := expires[id := e];
      InternalAdd(id);
      Record(Add(id, e));
    }

    /** itimer_node_del: -1 on a destroyed node, 1 if the node was pending, 0 if not. */
    method NodeDel(id: Id) returns (ret: int)
      requires Valid()
      modifies this
      ensures Valid() && timerJiffies == old(timerJiffies) && flat.clock == old(flat.clock)
      ensures destroyed == old(destroyed) && calls == old(calls) && |queued| <= |old(queued)|
      ensures ret == if id in destroyed then -1 else if old(Pending(id)) then 1 else 0
      ensures trace == old(trace) + if ret == 1 then [Del(id)] else []
      ensures flat == if ret == 1 then Step(old(flat), Del(id)) else old(flat)
      ensures id !in destroyed ==> !Pending(id)
    {
      if id in destroyed {
        return -1;
      }
      if Pending(id) {
        Unlink(id);
        Record(Del(id));
        return 1;
      }
      return 0;
    }

    /** itimer_node_mod */
    method NodeMod(id: Id, e: u32) returns (ret: int)
      requires Valid()
      modifies this
      ensures Valid() && timerJiffies == old(timerJiffies) && flat.clock == old(flat.clock)
      ensures destroyed == old(destroyed) && calls == old(calls) && |queued| <= |old(queued)|
      ensures ret == if id in destroyed then -1 else if old(Pending(id)) then 1 else 0
      ensures trace == old(trace) + if ret == -1 then [] else if ret == 1 then [Del(id), Add(id, e)] else [Add(id, e)]
    {
      ret := NodeDel(id);
      NodeAdd(id, e);
    }

    /** itimer_node_destroy */
    method NodeDestroy(id: Id)
      requires Valid()
      modifies this
      ensures Valid() && timerJiffies == old(timerJiffies) && flat.clock == old(flat.clock)
      ensures calls == old(calls) && |queued| <= |old(queued)| && destroyed == old(destroyed) + {id}
      ensures id !in old(destroyed) ==> !Pending(id)
      ensures trace == old(trace) + if id !in old(destroyed) && old(Pending(id)) then [Del(id)] else []
    {
      var ret := NodeDel(id);
      destroyed := destroyed + {id};
    }

    /** itimer_internal_cascade, called for the slot whose cascade is now: every node of the slot
        moves to a strictly lower level and no other node moves. */
    method Cascade(level: nat, index: nat)
      requires Valid() && 1 <= level < 5 && Cascades(level, flat.clock) && index == Index(level, flat.clock)
      requires Ahead(home, flat.due, flat.clock, level - 1)
      modifies this`tv, this`home
      ensures Valid() && Ahead(home, flat.due, flat.clock, level)
      ensures home.Keys == old(home).Keys
      ensures forall id :: id in home ==>
        if old(home)[id] == Place(level, index) then home[id].level < level else home[id] == old(home)[id]
    {
      hide Consistent, PlaceFor, Linked, Ahead, Legal, Run, WellFormed;
      Settled(tv, home, expires, 0, flat.due, flat.clock);
      TakeOff(tv, home, expires, flat.due, flat.clock, level);
      var p := Place(level, index);
      var moving := At(tv, p);
      tv := Put(tv, p, []);
      home := home - Elems(moving);
      ghost var rest := home;
      while moving != []
        invariant timerJiffies == flat.clock % U32
        invariant Consistent(tv, home, expires, moving, Grain(level), flat.due, flat.clock)
        invariant Ahead(home, flat.due, flat.clock, level)
        invariant forall id :: id in rest ==> id in home && home[id] == rest[id]
        invariant forall id :: id in home && id !in rest ==> home[id].level < level
        decreases |moving|
      {
        PutBack(tv, home, expires, moving, flat.due, flat.clock, level);
        var id := moving[0];
        InternalAdd(id);
        moving := moving[1..];
      }
      Settled(tv, home, expires, Grain(level), flat.due, flat.clock);
    }

    /** The chain of tests stops below `level + 1`. */
    lemma Stops(level: nat)
      requires level < 4 && Valid() && !Cascades(level + 1, flat.clock) && Ahead(home, flat.due, flat.clock, level)
      ensures Ahead(home, flat.due, flat.clock, 4)
    {
      ChainStops(home, flat.due, flat.clock, level);
    }

    /** The cascades at the head of an iteration: afterwards every cascade is strictly ahead. */
    method CascadeAll()
      requires Valid()
      modifies this`tv, this`home
      ensures Valid() && Ahead(home, flat.due, flat.clock, 4)
    {
      hide Valid, Ahead, Cascades, Index;
      NothingBelow();
      Tests();
      if timerJiffies % 256 == 0 {
        var i := Index(1, timerJiffies);
        Cascade(1, i);
        if i == 0 {
          i := Index(2, timerJiffies);
          Cascade(2, i);
          if i == 0 {
            i := Index(3, timerJiffies);
            Cascade(3, i);
            if i == 0 {
              i := Index(4, timerJiffies);
              Cascade(4, i);
            } else {
              Stops(3);
            }
          } else {
            Stops(2);
          }
        } else {
          Stops(1);
        }
      } else {
        Stops(0);
      }
    }

    /** What the tests on the wrapped time say about the time itself. */
    lemma Tests()
      requires Valid()
      ensures timerJiffies % 256 == 0 <==> Cascades(1, flat.clock)
      ensures Index(1, timerJiffies) == Index(1, flat.clock) && Index(2, timerJiffies) == Index(2, flat.clock)
      ensures Index(3, timerJiffies) == Index(3, flat.clock) && Index(4, timerJiffies) == Index(4, flat.clock)
      ensures Cascades(2, flat.clock) <==> Cascades(1, flat.clock) && Index(1, flat.clock) == 0
      ensures Cascades(3, flat.clock) <==> Cascades(2, flat.clock) && Index(2, flat.clock) == 0
      ensures Cascades(4, flat.clock) <==> Cascades(3, flat.clock) && Index(3, flat.clock) == 0
    {
      TimeIsWrapped();
      hide Valid, Cascades, Index;
      WrappedIndices(flat.clock);
      CascadeChain(1, flat.clock);
      CascadeChain(2, flat.clock);
      CascadeChain(3, flat.clock);
    }

    lemma NothingBelow()
      requires Valid()
      ensures Ahead(home, flat.due, flat.clock, 0)
    {
    }

    /** The first half of an iteration: cascade, advance the time, take the due slot. */
    method StartIteration()
      requires Valid() && queued == []
      modifies this
      ensures Valid() && trace == old(trace) + [Tick] && flat == Step(old(flat), Tick)
      ensures timerJiffies == (old(timerJiffies) + 1) % U32 && flat.clock == old(flat.clock) + 1
      ensures destroyed == old(destroyed) && calls == old(calls)
    {
      hide Consistent, Ahead;
      CascadeAll();
      TickTakesDue(tv, home, expires, flat);
      WrappedIndices(flat.clock);
      var p := Place(0, timerJiffies % 256);
      assert p == Place(0, flat.clock % 256);
      timerJiffies := (timerJiffies + 1) % U32;
      queued := At(tv, p);
      home := home - Elems(queued);
      tv := Put(tv, p, []);
      Record(Tick);
    }

    /** The flat state of a trace that went on from `f`. */
    lemma Replay(f: Flat, before: seq<Event>, done: seq<Event>)
      requires Valid() && trace == before + done && f == Run(Flat(start, map[], {}), before)
      ensures flat == Run(f, done)
    {
      RunConcat(Flat(start, map[], {}), before, done);
    }

    /** One operation of a callback. */
    method Perform(op: Op)
      requires Valid()
      modifies this
      ensures Valid() && timerJiffies == old(timerJiffies) && flat.clock == old(flat.clock)
      ensures calls == old(calls) && |queued| <= |old(queued)| && destroyed == DestroyedBy(old(destroyed), [op])
      ensures trace == old(trace) + OpEvents(old(flat), old(destroyed), op)
      ensures forall id :: op.id != id ==> Quiet(old(trace), trace, id)
    {
      PendingIsFlat(op.id);
      OpQuiet(trace, flat, destroyed, op);
      DestroyedOne(destroyed, op);
      OpIs(flat, destroyed, op);
      hide *;
      match op {
        case OpAdd(id, e) => NodeAdd(id, e);
        case OpDel(id) => var _ := NodeDel(id);
        case OpMod(id, e) => var _ := NodeMod(id, e);
        case OpDestroy(id) => NodeDestroy(id);
      }
    }

    /** The next operation of a callback that began with the trace `t` and has done `done`. */
    method PerformNext(ops: seq<Op>, i: nat, ghost f: Flat, ghost t: seq<Event>, ghost d: set<Id>)
      requires Valid() && i < |ops| && f == Run(Flat(start, map[], {}), t)
      requires trace == t + Events(f, d, ops[..i]) && destroyed == DestroyedBy(d, ops[..i])
      modifies this
      ensures Valid() && timerJiffies == old(timerJiffies) && flat.clock == old(flat.clock)
      ensures calls == old(calls) && |queued| <= |old(queued)| && destroyed == DestroyedBy(d, ops[..i + 1])
      ensures trace == t + Events(f, d, ops[..i + 1])
    {
      hide *;
      ghost var done := Events(f, d, ops[..i]);
      Replay(f, t, done);
      EventsOn(f, d, ops, i);
      ghost var more := OpEvents(flat, destroyed, ops[i]);
      Perform(ops[i]);
      assert (t + done) + more == t + (done + more);
    }

    /** What one callback does to the core. */
    method Callback(ops: seq<Op>)
      requires Valid()
      modifies this
      ensures Valid() && timerJiffies == old(timerJiffies) && flat.clock == old(flat.clock)
      ensures calls == old(calls) && |queued| <= |old(queued)| && destroyed == DestroyedBy(old(destroyed), ops)
      ensures trace == old(trace) + Events(old(flat), old(destroyed), ops)
      ensures flat == Run(old(flat), Events(old(flat), old(destroyed), ops))
      ensures forall id :: (forall op :: op in ops ==> op.id != id) ==> Quiet(old(trace), trace, id)
    {
      ghost var f, t, d := flat, trace, destroyed;
      assert f == Run(Flat(start, map[], {}), t);
      hide *;
      EventsNone(f, d);
      assert t + [] == t && ops[..0] == [];
      for i := 0 to |ops|
        invariant Valid() && timerJiffies == old(timerJiffies) && flat.clock == old(flat.clock)
        invariant calls == old(calls) && |queued| <= |old(queued)| && destroyed == DestroyedBy(d, ops[..i])
        invariant trace == t + Events(f, d, ops[..i])
      {
        PerformNext(ops, i, f, t, d);
      }
      assert ops[..|ops|] == ops;
      Replay(f, t, Events(f, d, ops));
      forall id | forall op :: op in ops ==> op.id != id ensures Quiet(t, trace, id) {
        EventsQuiet(t, f, d, ops, id);
      }
    }

    /** Unlink the first queued node and record that it is called back. */
    method TakeFirst() returns (id: Id)
      requires Valid() && queued != []
      modifies this`queued, this`flat, this`trace, this`calls
      ensures calls == old(calls) + 1 && destroyed == old(destroyed)
      ensures Valid() && id == old(queued)[0] && queued == old(queued)[1..]
      ensures trace == old(trace) + [Fire(id)] && flat == Step(old(flat), Fire(id))
    {
      ElemsUncons(queued);
      id := queued[0];
      queued := queued[1..];
      calls := calls + 1;
      Record(Fire(id));
    }

    /** Call back the first queued node. */
    method FireFirst(script: nat -> seq<Op>)
      requires Valid() && queued != []
      modifies this
      ensures Valid() && timerJiffies == old(timerJiffies) && flat.clock == old(flat.clock)
      ensures |queued| < |old(queued)| && old(trace) <= trace
      ensures Now() == AfterCall(old(Now()), old(queued)[0], script)
      ensures forall id :: Untouched(script, id) ==> Quiet(old(trace), trace, id)
    {
      hide Valid, Quiet, Untouched, Events, DestroyedBy, AfterCall, Step, Run;
      ghost var t := trace;
      var id := TakeFirst();
      FireClock(old(flat), id);
      ghost var mid := trace;
      QuietEvent(t, Fire(id));
      Callback(script(calls - 1));
      CallIs(old(Now()), id, script);
      Untouching(script, calls - 1);
      Silence(t);
      QuietGrowth(t, t, mid);
      QuietGrowth(t, mid, trace);
    }

    /** The second half of an iteration: call back the queued nodes one by one. */
    method FireQueued(script: nat -> seq<Op>)
      requires Valid()
      modifies this
      ensures Valid() && queued == [] && timerJiffies == old(timerJiffies) && flat.clock == old(flat.clock)
      ensures old(trace) <= trace && Plays(script, old(Now()), Now())
      ensures forall id :: Untouched(script, id) ==> Quiet(old(trace), trace, id)
    {
      hide *;
      Silence(trace);
      PlaysNone(script, Now());
      while queued != []
        invariant Valid() && timerJiffies == old(timerJiffies) && flat.clock == old(flat.clock)
        invariant old(trace) <= trace && Plays(script, old(Now()), Now())
        invariant forall id :: Untouched(script, id) ==> Quiet(old(trace), trace, id)
        decreases |queued|
      {
        ghost var before := trace;
        PlaysCall(script, old(Now()), Now(), queued[0]);
        FireFirst(script);
        QuietGrowth(old(trace), before, trace);
      }
    }

    /** itimer_core_run: one iteration for every time up to and including `jiffies`, none when
        `jiffies` is in the past. The callbacks are arbitrary: the k-th one made performs script(k). */
    method Update(jiffies: u32, script: nat -> seq<Op>)
      requires Valid() && queued == []
      modifies this
      ensures Valid() && queued == [] && old(trace) <= trace && Plays(script, old(Now()), Now())
      ensures var ahead := (jiffies - old(timerJiffies)) % U32;
        if ahead < HALF then
          flat.clock == old(flat.clock) + ahead + 1 && timerJiffies == (jiffies + 1) % U32
        else
          trace == old(trace)
      ensures forall id :: Untouched(script, id) ==> Quiet(old(trace), trace, id)
    {
      hide Valid, Quiet, Untouched, Plays, AfterTick, Step;
      Silence(trace);
      PlaysNone(script, Now());
      ghost var ahead := (jiffies - timerJiffies) % U32;
      ghost var todo := if ahead < HALF then ahead + 1 else 0;
      while (jiffies - timerJiffies) % U32 < HALF
        invariant Valid() && queued == [] && old(trace) <= trace && Plays(script, old(Now()), Now())
        invariant 0 <= todo <= HALF
        invariant Left(jiffies, timerJiffies, todo)
        invariant ahead < HALF ==> flat.clock == old(flat.clock) + ahead + 1 - todo
        invariant ahead >= HALF ==> todo == 0 && trace == old(trace)
        invariant todo == 0 ==> ahead >= HALF || timerJiffies == (jiffies + 1) % U32
        invariant forall id :: Untouched(script, id) ==> Quiet(old(trace), trace, id)
        decreases todo
      {
        OneTickCloser(jiffies, timerJiffies, todo);
        ghost var before := trace;
        ghost var m := Now();
        PlaysTick(script, old(Now()), m);
        StartIteration();
        ghost var mid := trace;
        TickIs(m, Now());
        QuietEvent(before, Tick);
        ghost var started := Now();
        FireQueued(script);
        PlaysBoth(script, old(Now()), started, Now());
        todo := todo - 1;
        QuietGrowth(old(trace), before, mid);
        QuietGrowth(old(trace), mid, trace);
      }
    }

    /** The promise over the whole life of the core: take any past moment (`n0` events ago in the
        trace) at which the node was pending. If nobody touched it since, it has been called back
        exactly once, in the iteration its deadline names, if that iteration has come, and is still
        pending otherwise. */
    lemma PendingNodeFires(n0: nat, id: Id)
      requires Valid() && queued == [] && n0 <= |trace|
      requires id in Run(Flat(start, map[], {}), trace[..n0]).due && LeftAlone(trace[n0..], id)
      ensures var f0 := Run(Flat(start, map[], {}), trace[..n0]); var d := f0.due[id];
        && Fires(trace[n0..], id) == (if flat.clock > d then 1 else 0)
        && (Pending(id) <==> flat.clock <= d)
        && (forall k :: n0 <= k < |trace| && trace[k] == Fire(id) ==>
              Run(Flat(start, map[], {}), trace[..k]).clock - 1 == d)
    {
      assert flat.firing == {};
      NotDueOrPending(id);
      HistoryOf(Flat(start, map[], {}), trace, n0, id);
    }

    lemma NotDueOrPending(id: Id)
      requires Valid() && queued == []
      ensures Pending(id) <==> id in flat.due
    {
    }
  }

  lemma RunPrefix(f: Flat, trace: seq<Event>, n: nat, k: nat)
    requires Legal(f, trace) && n <= k <= |trace|
    ensures Run(f, trace[..k]) == Run(Run(f, trace[..n]), trace[n..][..k - n])
  {
    hide Run, Legal;
    assert trace == trace[..k] + trace[k..];
    RunConcat(f, trace[..k], trace[k..]);
    assert trace[..k] == trace[..n] + trace[n..][..k - n];
    RunConcat(f, trace[..n], trace[n..][..k - n]);
  }

  lemma HistoryOf(f: Flat, trace: seq<Event>, n0: nat, id: Id)
    requires WellFormed(f) && Legal(f, trace) && Run(f, trace).firing == {} && n0 <= |trace|
    requires id in Run(f, trace[..n0]).due && LeftAlone(trace[n0..], id)
    ensures var d := Run(f, trace[..n0]).due[id];
      && Fires(trace[n0..], id) == (if Run(f, trace).clock > d then 1 else 0)
      && (id in Run(f, trace).due <==> Run(f, trace).clock <= d)
      && (forall k :: n0 <= k < |trace| && trace[k] == Fire(id) ==> Run(f, trace[..k]).clock - 1 == d)
  {
    hide Run, Legal, Fires, LeftAlone, WellFormed;
    var rest := trace[n0..];
    assert trace == trace[..n0] + rest;
    RunConcat(f, trace[..n0], rest);
    var f0 := Run(f, trace[..n0]);
    RunKeepsWellFormed(f, trace[..n0]);
    FiresExactlyOnceOnTime(f0, rest, id);
    forall k | n0 <= k < |trace| && trace[k] == Fire(id)
      ensures Run(f, trace[..k]).clock - 1 == f0.due[id]
    {
      assert rest[k - n0] == Fire(id);
      RunPrefix(f, trace, n0, k);
    }
  }

  ghost predicate Untouched(script: nat -> seq<Op>, id: Id) {
    forall k, op :: op in script(k) ==> op.id != id
  }

  lemma Untouching(script: nat -> seq<Op>, k: nat)
    ensures forall id :: Untouched(script, id) ==> forall op :: op in script(k) ==> op.id != id
  {
  }

  /** Iterations still to run: the loop guard holds exactly while there are some. */
  ghost predicate Left(jiffies: u32, t: u32, todo: nat) {
    if todo == 0 then (jiffies - t) % U32 >= HALF else todo <= HALF && (jiffies - t) % U32 == todo - 1
  }

  lemma OneTickCloser(jiffies: u32, t: u32, todo: nat)
    requires Left(jiffies, t, todo) && todo > 0
    ensures Left(jiffies, (t + 1) % U32, todo - 1)
    ensures todo == 1 ==> jiffies == t
  {
  }

  lemma Silence(trace: seq<Event>)
    ensures forall id :: Quiet(trace, trace, id)
  {
  }

  lemma QuietEvent(trace: seq<Event>, e: Event)
    requires e.Fire? || e.Tick?
    ensures forall id :: Quiet(trace, trace + [e], id)
  {
  }

  lemma QuietGrowth(a: seq<Event>, b: seq<Event>, c: seq<Event>)
    ensures forall id :: Quiet(a, b, id) && Quiet(b, c, id) ==> Quiet(a, c, id)
  {
    forall id | Quiet(a, b, id) && Quiet(b, c, id)
      ensures Quiet(a, c, id)
    {
      QuietThenQuiet(a, b, c, id);
    }
  }

  /** Low-level index facts for the wrapped clock. */
  lemma WrappedIndices(clock: nat)
    ensures clock % U32 % 256 == clock % 256
    ensures (clock % U32 + 1) % U32 == (clock + 1) % U32
    ensures clock % U32 % 256 == 0 <==> Cascades(1, clock)
    ensures forall level :: 1 <= level < 5 ==> Index(level, clock % U32) == Index(level, clock)
  {
    SlotOfWrapped(0, clock);
    forall level | 1 <= level < 5
      ensures Index(level, clock % U32) == Index(level, clock)
    {
      SlotOfWrapped(level, clock);
    }
  }
}
