/**
 Positions on a circular array: the offset of a slot is its distance ahead of the start index.
 */
module Circle {
  import Arithmetic

  function Offset(p: int, start: int, size: nat): nat
    requires size > 0
  {
    (p - start) % size
  }

  lemma ModIs(x: int, m: nat, q: int, r: nat)
    requires r < m && x == q * m + r
    ensures x % m == r
  {
    Arithmetic.QuotientUnique(x, m, q);
  }

  /** The slot `j` ahead of the start has offset `j`. */
  lemma OffsetOfSlot(start: nat, j: nat, size: nat)
    requires j < size
    ensures 0 <= (start + j) % size < size && Offset((start + j) % size, start, size) == j
  {
    var q := (start + j) / size;
    assert (start + j) % size - start == (-q) * size + j;
    ModIs((start + j) % size - start, size, -q, j);
  }

  /** Every slot is its offset ahead of the start. */
  lemma SlotOfOffset(p: nat, start: nat, size: nat)
    requires p < size
    ensures Offset(p, start, size) < size && p == (start + Offset(p, start, size)) % size
  {
    var j := Offset(p, start, size);
    var q := (p - start) / size;
    assert p - start == q * size + j;
    assert start + j == (-q) * size + p;
    ModIs(start + j, size, -q, p);
  }

  /** Moving the start ahead by no more than the offset shortens the offset. */
  lemma OffsetLater(p: nat, start: nat, k: nat, size: nat)
    requires p < size && k <= Offset(p, start, size)
    ensures Offset(p, start + k, size) == Offset(p, start, size) - k
  {
    var j := Offset(p, start, size);
    var q := (p - start) / size;
    assert p - start == q * size + j;
    ModIs(p - (start + k), size, q, j - k);
  }
}

/**
 The timeout wheel of the coroutine event loop: one slot per millisecond, items beyond the end of the
 wheel clamped into its last slot and put in again when they come out too early.
 */
module CoTimeout {
  import opened NodeLists
  import opened Circle

  type Id = nat

  /** What a processed item's coroutine may do before it yields again: time a new item (`at` being the
      clock then), take an item off its list, or signal an item waiting on a condition. */
  datatype Op = Add(id: Id, expire: nat, at: nat) | Remove(id: Id) | Signal(id: Id)

  /** The processing of an item, because its time has come or because of an event. */
  datatype Event = Timeout(id: Id, expire: nat, now: nat) | Wakeup(id: Id)

  /** Each item on the wheel is in exactly the slot `link` says, once. */
  ghost predicate Linked(items: seq<seq<Id>>, link: map<Id, nat>) {
    && (forall id :: id in link ==> link[id] < |items|)
    && (forall p :: 0 <= p < |items| ==> NoDup(items[p]))
    && (forall p, id :: 0 <= p < |items| ==> (id in items[p] <==> id in link && link[id] == p))
  }

  /** No item is in a slot later than its time. */
  ghost predicate NotLate(link: map<Id, nat>, expire: map<Id, nat>, start: nat, startIdx: nat, size: nat) {
    size > 0 && forall id :: id in link ==> id in expire && start + Offset(link[id], startIdx, size) <= expire[id]
  }

  lemma LinkTail(items: seq<seq<Id>>, link: map<Id, nat>, id: Id, p: nat)
    requires Linked(items, link) && id !in link && p < |items|
    ensures Linked(items[p := items[p] + [id]], link[id := p])
  {
    assert id !in items[p];
    assert forall x :: x in items[p] + [id] <==> x in items[p] || x == id;
  }

  lemma EmptySlot(items: seq<seq<Id>>, link: map<Id, nat>, p: nat)
    requires Linked(items, link) && p < |items|
    ensures Linked(items[p := []], link - Elems(items[p]))
    ensures forall id :: id in link ==> (id in items[p] <==> link[id] == p)
  {
    var items', link' := items[p := []], link - Elems(items[p]);
    forall q, id | 0 <= q < |items|
      ensures id in items'[q] <==> id in link' && link'[id] == q
    {
      assert id in items[p] <==> id in link && link[id] == p;
    }
  }

  lemma Unlinked(items: seq<seq<Id>>, link: map<Id, nat>, id: Id)
    requires Linked(items, link) && id in link
    ensures Linked(items[link[id] := Without(items[link[id]], id)], link - {id})
  {
    var k := link[id];
    var items', link' := items[k := Without(items[k], id)], link - {id};
    assert NoDup(items[k]) && NoDup(items'[k]) && forall x :: x in items'[k] <==> x in items[k] && x != id;
    hide Without, NoDup;
    forall p, x | 0 <= p < |items|
      ensures x in items'[p] <==> x in link' && link'[x] == p
    {
      assert x in items[p] <==> x in link && link[x] == p;
    }
    forall p | 0 <= p < |items| ensures NoDup(items'[p]) {
      if p != k { assert items'[p] == items[p]; }
    }
  }

  lemma Joined(result: seq<Id>, slot: seq<Id>, link: map<Id, nat>)
    requires NoDup(result) && NoDup(slot) && Elems(result) !! link.Keys && Elems(slot) <= link.Keys
    ensures NoDup(result + slot) && Elems(result + slot) == Elems(result) + Elems(slot)
    ensures Elems(result + slot) !! (link - Elems(slot)).Keys
  {
    assert forall i :: 0 <= i < |result| ==> result[i] in Elems(result);
    assert forall i :: 0 <= i < |slot| ==> slot[i] in Elems(slot) && slot[i] !in Elems(result);
  }

  class Wheel {
    const size: nat
    var items: seq<seq<Id>>
    var start: nat
    var startIdx: nat
    var link: map<Id, nat>
    var expire: map<Id, nat>

    ghost predicate Valid()
      reads this
    {
      && |items| == size && (start == 0 ==> link == map[])
      && Linked(items, link)
      && NotLate(link, expire, start, startIdx, size)
    }

    /** AllocTimeout */
    constructor (size: nat, now: nat)
      requires size >= 1
      ensures Valid() && this.size == size && link == map[] && expire == map[] && start == now
    {
      this.size := size;
      items := seq(size, _ => []);
      start, startIdx := now, 0;
      link, expire := map[], map[];
    }

    /** AddTimeout: refused (with the item untimed) if the clock runs behind the wheel or the time is past. */
    method AddTimeout(id: Id, now: nat) returns (ret: int)
      requires Valid() && now > 0 && id in expire && id !in link
      modifies this`items, this`start, this`startIdx, this`link
      ensures Valid() && start == if old(start) == 0 then now else old(start)
      ensures ret == 0 <==> start <= now <= expire[id]
      ensures if ret == 0 then id in link && link == old(link)[id := link[id]] else link == old(link)
      ensures old(start) > 0 ==> startIdx == old(startIdx)
      ensures ret == 0 ==>
        Offset(link[id], startIdx, size) == if expire[id] - start < size then expire[id] - start else size - 1
    {
      if start == 0 {
        start, startIdx := now, 0;
      }
      if now < start {
        return 1;
      }
      if expire[id] < now {
        return 2;
      }
      var diff := expire[id] - start;
      if diff >= size {
        diff := size - 1;
      }
      var p := (startIdx + diff) % size;
      OffsetOfSlot(startIdx, diff, size);
      LinkTail(items, link, id, p);
      items := items[p := items[p] + [id]];
      link := link[id := p];
      return 0;
    }

    /** RemoveFromLink on an item of the wheel */
    method Unlink(id: Id)
      requires Valid() && id in link
      modifies this`items, this`link
      ensures Valid() && link == old(link) - {id}
    {
      Unlinked(items, link, id);
      items := items[link[id] := Without(items[link[id]], id)];
      link := link - {id};
    }

    /** TakeAllTimeout, the clock having advanced by less than 2^31 ms: everything due is taken, whatever
        is taken leaves the wheel, and nothing that stays is due. */
    method TakeAllTimeout(now: nat) returns (result: seq<Id>)
      requires Valid() && now > 0 && (start > 0 ==> now - start + 1 < 0x8000_0000)
      modifies this`items, this`start, this`startIdx, this`link
      ensures Valid() && start == (if now < old(start) then old(start) else now)
      ensures NoDup(result) && Elems(result) !! link.Keys && Elems(result) + link.Keys == old(link).Keys
      ensures start <= now ==> forall id :: id in link ==> expire[id] > now
      ensures old(start) > 0 && now - old(start) + 1 >= size ==> link == map[]
      ensures SlotOrder(result, old(link), old(startIdx), size)
    {
      result := [];
      if start == 0 {
        start, startIdx := now, 0;
      }
      if now < start {
        return;
      }
      var cnt := now - start + 1;
      if cnt > size {
        cnt := size;
      }
      hide SlotOrder, Before, Offset, Linked, NotLate;
      result := TakeSlots(cnt);
      TakenAll(items, link, old(link), expire, start, startIdx, size, result, now);
      NoOrder(result, old(startIdx), size);
      start := now;
      startIdx := startIdx + (cnt - 1);
    }

    /** The loop: the first `cnt` slots, from the start on, are emptied one after the other. */
    method TakeSlots(cnt: nat) returns (result: seq<Id>)
      requires Valid() && cnt <= size
      modifies this`items, this`link
      ensures Taking(items, link, old(link), expire, start, startIdx, size, result, cnt)
    {
      result := [];
      TakenNone(items, link, expire, start, startIdx, size);
      for i := 0 to cnt
        invariant Taking(items, link, old(link), expire, start, startIdx, size, result, i)
      {
        hide Taking;
        var idx := (startIdx + i) % size;
        TakeSlot(items, link, old(link), expire, start, startIdx, size, result, i);
        result := result + items[idx];
        link := link - Elems(items[idx]);
        items := items[idx := []];
      }
    }
  }

  lemma NoOrder(result: seq<Id>, startIdx: nat, size: nat)
    requires size > 0
    ensures SlotOrder(result, map[], startIdx, size)
  {
  }

  lemma TakenAll(items: seq<seq<Id>>, link: map<Id, nat>, link0: map<Id, nat>, expire: map<Id, nat>,
                 start: nat, startIdx: nat, size: nat, result: seq<Id>, now: nat)
    requires start <= now
    requires var cnt := if now - start + 1 > size then size else now - start + 1;
      Taking(items, link, link0, expire, start, startIdx, size, result, cnt)
    ensures var cnt := if now - start + 1 > size then size else now - start + 1;
      && |items| == size && Linked(items, link) && NotLate(link, expire, now, startIdx + (cnt - 1), size)
    ensures NoDup(result) && Elems(result) !! link.Keys && Elems(result) + link.Keys == link0.Keys
    ensures forall id :: id in link ==> id in expire && expire[id] > now
    ensures now - start + 1 >= size ==> link == map[]
    ensures SlotOrder(result, link0, startIdx, size)
  {
    Advanced(link, expire, start, startIdx, size, now);
  }

  /** The first `i` slots have been taken. */
  ghost predicate Taking(items: seq<seq<Id>>, link: map<Id, nat>, link0: map<Id, nat>, expire: map<Id, nat>,
                         start: nat, startIdx: nat, size: nat, result: seq<Id>, i: nat)
  {
    && |items| == size && Linked(items, link) && NotLate(link, expire, start, startIdx, size)
    && NoDup(result) && Elems(result) !! link.Keys && Elems(result) + link.Keys == link0.Keys
    && From(link, startIdx, size, i)
    && (forall id :: id in link ==> id in link0 && link[id] == link0[id])
    && Before(result, link0, startIdx, size, i) && SlotOrder(result, link0, startIdx, size)
  }

  lemma TakeSlot(items: seq<seq<Id>>, link: map<Id, nat>, link0: map<Id, nat>, expire: map<Id, nat>,
                 start: nat, startIdx: nat, size: nat, result: seq<Id>, i: nat)
    requires Taking(items, link, link0, expire, start, startIdx, size, result, i) && i < size
    ensures var idx := (startIdx + i) % size;
      && idx < |items|
      && Taking(items[idx := []], link - Elems(items[idx]), link0, expire, start, startIdx, size,
                result + items[idx], i + 1)
  {
    hide NotLate, NoDup, From, SlotOrder, Before, Offset;
    var idx := (startIdx + i) % size;
    OffsetOfSlot(startIdx, i, size);
    EmptySlot(items, link, idx);
    SlotIn(items, link, idx);
    Joined(result, items[idx], link);
    FromNext(items, link, startIdx, size, i, idx);
    OrderNext(result, items[idx], link0, startIdx, size, i);
    NotLateFewer(link, Elems(items[idx]), expire, start, startIdx, size);
  }

  /** All items of the wheel are at least `i` slots ahead. */
  ghost predicate From(link: map<Id, nat>, startIdx: nat, size: nat, i: nat) {
    size > 0 && forall id :: id in link ==> Offset(link[id], startIdx, size) >= i
  }

  /** Everything taken so far comes from the first `i` slots. */
  ghost predicate Before(result: seq<Id>, link: map<Id, nat>, startIdx: nat, size: nat, i: nat) {
    size > 0 && forall x :: x in result && x in link ==> Offset(link[x], startIdx, size) < i
  }

  /** Items come out slot by slot. */
  ghost predicate SlotOrder(result: seq<Id>, link: map<Id, nat>, startIdx: nat, size: nat) {
    size > 0 && forall a, b :: 0 <= a < b < |result| && result[a] in link && result[b] in link ==>
      Offset(link[result[a]], startIdx, size) <= Offset(link[result[b]], startIdx, size)
  }

  lemma OrderNext(result: seq<Id>, slot: seq<Id>, link: map<Id, nat>, startIdx: nat, size: nat, i: nat)
    requires Before(result, link, startIdx, size, i) && SlotOrder(result, link, startIdx, size)
    requires forall x :: x in slot && x in link ==> Offset(link[x], startIdx, size) == i
    ensures Before(result + slot, link, startIdx, size, i + 1) && SlotOrder(result + slot, link, startIdx, size)
  {
    var all := result + slot;
    forall a, b | 0 <= a < b < |all| && all[a] in link && all[b] in link
      ensures Offset(link[all[a]], startIdx, size) <= Offset(link[all[b]], startIdx, size)
    {
      if a < |result| { assert all[a] == result[a] && result[a] in result; } else { assert all[a] in slot; }
      if b < |result| { assert all[b] == result[b]; } else { assert all[b] in slot; }
    }
  }

  lemma TakenNone(items: seq<seq<Id>>, link: map<Id, nat>, expire: map<Id, nat>, start: nat, startIdx: nat, size: nat)
    requires |items| == size && Linked(items, link) && NotLate(link, expire, start, startIdx, size)
    ensures Taking(items, link, link, expire, start, startIdx, size, [], 0)
  {
  }

  lemma SlotIn(items: seq<seq<Id>>, link: map<Id, nat>, p: nat)
    requires Linked(items, link) && p < |items|
    ensures NoDup(items[p]) && Elems(items[p]) <= link.Keys
  {
  }

  lemma FromNext(items: seq<seq<Id>>, link: map<Id, nat>, startIdx: nat, size: nat, i: nat, idx: nat)
    requires Linked(items, link) && |items| == size && i < size && idx == (startIdx + i) % size
    requires From(link, startIdx, size, i)
    ensures From(link - Elems(items[idx]), startIdx, size, i + 1)
  {
    forall id | id in link && id !in items[idx]
      ensures Offset(link[id], startIdx, size) != i
    {
      SlotOfOffset(link[id], startIdx, size);
    }
  }

  lemma NotLateFewer(link: map<Id, nat>, gone: set<Id>, expire: map<Id, nat>, start: nat, startIdx: nat, size: nat)
    requires NotLate(link, expire, start, startIdx, size)
    ensures NotLate(link - gone, expire, start, startIdx, size)
  {
  }

  /** The start moves to `now` after all slots up to it (or the whole wheel) were emptied. */
  lemma Advanced(link: map<Id, nat>, expire: map<Id, nat>, start: nat, startIdx: nat, size: nat, now: nat)
    requires NotLate(link, expire, start, startIdx, size) && start <= now
    requires forall id :: id in link ==> link[id] < size
    requires var cnt := if now - start + 1 > size then size else now - start + 1; From(link, startIdx, size, cnt)
    ensures var cnt := if now - start + 1 > size then size else now - start + 1;
      NotLate(link, expire, now, startIdx + (cnt - 1), size)
    ensures forall id :: id in link ==> expire[id] > now
    ensures now - start + 1 >= size ==> link == map[]
  {
    var cnt := if now - start + 1 > size then size else now - start + 1;
    forall id | id in link
      ensures now + Offset(link[id], startIdx + (cnt - 1), size) <= expire[id] && expire[id] > now
    {
      hide Offset;
      SlotOfOffset(link[id], startIdx, size);
      OffsetLater(link[id], startIdx, cnt - 1, size);
    }
    hide Offset;
  }

  /** What the lists say about one item. */
  datatype Status = Status(linked: bool, active: bool, timedOut: bool, timed: bool, expire: nat)

  /** How many of the events are about the item. */
  function Mentions(log: seq<Event>, id: Id): nat {
    if log == [] then 0 else Mentions(log[..|log| - 1], id) + if log[|log| - 1].id == id then 1 else 0
  }

  lemma {:induction false} MentionsConcat(a: seq<Event>, b: seq<Event>, id: Id)
    ensures Mentions(a + b, id) == Mentions(a, id) + Mentions(b, id)
    decreases |b|
  {
    if b == [] {
      assert a + b == a;
    } else {
      assert (a + b)[..|a + b| - 1] == a + b[..|b| - 1];
      MentionsConcat(a, b[..|b| - 1], id);
    }
  }

  /** What one operation does to the item it names, the wheel being at `start`: an item on a list cannot be timed. */
  function Apply(s: Status, op: Op, start: nat): Status {
    match op
    case Add(_, expire, at) =>
      if s.linked || s.active then s else Status(start <= at <= expire, false, s.timedOut, true, expire)
    case Remove(_) => Status(false, false, false, s.timed, s.expire)
    case Signal(_) => Status(false, true, s.timedOut, true, s.expire)
  }

  /** An operation on an item, with what the lists say about the item before and after, and the length of the log. */
  datatype Moment = Moment(op: Op, before: Status, after: Status, n: nat)

  /** Nothing from position `from` of the trail on names the item. */
  ghost predicate Unnamed(trail: seq<Moment>, from: nat, id: Id) {
    forall j :: from <= j < |trail| ==> trail[j].op.id != id
  }

  /** The first entry from position `from` on that names the item, or the length of the trail. */
  function FirstNaming(trail: seq<Moment>, from: nat, id: Id): (f: nat)
    requires from <= |trail|
    ensures from <= f <= |trail| && (f < |trail| ==> trail[f].op.id == id)
    ensures forall j :: from <= j < f ==> trail[j].op.id != id
    decreases |trail| - from
  {
    if from == |trail| || trail[from].op.id == id then from else FirstNaming(trail, from + 1, id)
  }

  lemma FirstOn(trail: seq<Moment>, m: Moment, from: nat, id: Id)
    requires from <= |trail|
    ensures var f := FirstNaming(trail, from, id);
      FirstNaming(trail + [m], from, id) ==
      if f < |trail| then f else if m.op.id == id then |trail| else |trail| + 1
  {
    var f, f' := FirstNaming(trail, from, id), FirstNaming(trail + [m], from, id);
    hide FirstNaming;
    assert forall j :: 0 <= j < |trail| ==> (trail + [m])[j] == trail[j];
    assert (trail + [m])[|trail|] == m;
  }

  /** The event logged when an active item is processed. */
  function EventOf(id: Id, s: Status, now: nat): Event {
    if s.timedOut then Timeout(id, s.expire, now) else Wakeup(id)
  }

  /** What a round at `now` owes to an item with status `given` as long as nobody names it, `s` being its status after
      some more events.  An item on the active list waits there until it is processed, once, or, if it is marked
      and its time has not come, until it goes back on the wheel; to any other item nothing happens. */
  ghost predicate Owed(s: Status, id: Id, given: Status, now: nat, events: seq<Event>) {
    if !given.active then s == given && Mentions(events, id) == 0
    else
      && s.timed && s.expire == given.expire
      && if s.active then !s.linked && s.timedOut == given.timedOut && Mentions(events, id) == 0
         else if given.timedOut && given.expire > now then s.linked && !s.timedOut && Mentions(events, id) == 0
         else !s.linked && !s.timedOut && Mentions(events, id) == 1 && EventOf(id, given, now) in events
  }

  /** The promise to item `id`, whose status was `given` when the log had `n` events and the trail `from` entries. */
  datatype Promise = Promise(id: Id, given: Status, n: nat, from: nat)

  /** The promise is kept, up to now or up to the first operation that names the item. */
  ghost predicate Stands(p: Promise, s: Status, trail: seq<Moment>, log: seq<Event>, now: nat) {
    && p.from <= |trail| && p.n <= |log|
    && var f := FirstNaming(trail, p.from, p.id);
    if f == |trail| then Owed(s, p.id, p.given, now, log[p.n..])
    else p.n <= trail[f].n <= |log| && Owed(trail[f].before, p.id, p.given, now, log[p.n..trail[f].n])
  }

  /** The promise that entry `j` of the trail makes. */
  function PromiseBy(trail: seq<Moment>, j: nat): Promise
    requires j < |trail|
  {
    Promise(trail[j].op.id, trail[j].after, trail[j].n, j + 1)
  }

  /** The status from which a round takes an item on: everything with an event becomes active, and all else that is
      on the wheel may come out. */
  function AtStart(s: Status, ready: bool): Status {
    if ready then Status(false, true, false, true, s.expire)
    else if s.linked then Status(false, true, true, true, s.expire)
    else s
  }

  lemma StandsFresh(p: Promise, s: Status, trail: seq<Moment>, log: seq<Event>, now: nat)
    requires p.from == |trail| && p.n == |log| && Owed(s, p.id, p.given, now, [])
    ensures Stands(p, s, trail, log, now)
  {
    assert log[p.n..] == [];
  }

  /** One more operation. */
  lemma StandsOp(p: Promise, s: Status, s': Status, trail: seq<Moment>, m: Moment, log: seq<Event>, now: nat)
    requires Stands(p, s, trail, log, now)
    requires if m.op.id == p.id then m.before == s && m.n == |log| else s' == s
    ensures Stands(p, s', trail + [m], log, now)
  {
    hide Owed, FirstNaming;
    FirstOn(trail, m, p.from, p.id);
    assert log[p.n..|log|] == log[p.n..];
  }

  /** One more event. */
  lemma StandsEvent(p: Promise, s: Status, s': Status, trail: seq<Moment>, log: seq<Event>, event: Event, now: nat)
    requires Stands(p, s, trail, log, now)
    requires if event.id == p.id then
               && s.active && !(s.timedOut && now < s.expire) && event == EventOf(p.id, s, now)
               && s' == Status(false, false, false, true, s.expire)
             else s' == s
    ensures Stands(p, s', trail, log + [event], now)
  {
    hide FirstNaming, Mentions;
    var f := FirstNaming(trail, p.from, p.id);
    if f == |trail| {
      MentionsAppend(log, p.n, event, p.id);
      assert forall x :: x in log[p.n..] ==> x in log[p.n..] + [event];
      assert (log[p.n..] + [event])[|log[p.n..]|] == event;
    } else {
      assert (log + [event])[p.n..trail[f].n] == log[p.n..trail[f].n];
    }
  }

  /** The item goes back on the wheel. */
  lemma StandsBack(p: Promise, s: Status, trail: seq<Moment>, log: seq<Event>, now: nat)
    requires Stands(p, s, trail, log, now) && s.active && s.timedOut && now < s.expire
    ensures Stands(p, Status(true, false, false, true, s.expire), trail, log, now)
  {
    hide FirstNaming, Mentions;
  }

  lemma MentionsAppend(log: seq<Event>, n: nat, e: Event, id: Id)
    requires n <= |log|
    ensures (log + [e])[n..] == log[n..] + [e]
    ensures Mentions((log + [e])[n..], id) == Mentions(log[n..], id) + if e.id == id then 1 else 0
  {
    assert (log + [e])[n..] == log[n..] + [e];
    assert (log[n..] + [e])[..|log[n..]|] == log[n..];
  }

  /** One turn of the loop: the items with events, the clock, what the resumed coroutines do, and what the
      function that the loop calls at the end of the turn does. */
  datatype Turn = Turn(ready: seq<Id>, now: nat, script: seq<seq<Op>>, after: seq<Op>)

  /** The clock does not run backwards, and advances by less than 2^31 ms; items are timed for later than the turn. */
  ghost predicate Clocked(turns: seq<Turn>, start: nat) {
    forall i :: 0 <= i < |turns| ==> InTime(turns[i], Previous(turns, start, i))
  }

  /** The clock before turn `i`. */
  function Previous(turns: seq<Turn>, start: nat, i: nat): nat
    requires i <= |turns|
  {
    if i == 0 then start else turns[i - 1].now
  }

  ghost predicate InTime(turn: Turn, before: nat) {
    && 0 < before <= turn.now && turn.now - before + 1 < 0x8000_0000
    && Adds(turn.script, turn.now) && AddsLater(turn.after, turn.now)
  }

  ghost predicate AddsLater(ops: seq<Op>, now: nat) {
    forall op :: op in ops && op.Add? ==> op.at > 0 && op.expire > now
  }

  /** Nobody touches the item in any turn. */
  ghost predicate NeverNamed(turns: seq<Turn>, id: Id) {
    forall i :: 0 <= i < |turns| ==>
      && id !in turns[i].ready && LeftAlone(turns[i].script, id) && forall op :: op in turns[i].after ==> op.id != id
  }

  /** The first turn at or after `e`, or the number of turns if there is none. */
  function FirstAt(turns: seq<Turn>, e: nat): (k: nat)
    ensures k <= |turns| && (k < |turns| ==> turns[k].now >= e)
    ensures forall i :: 0 <= i < k ==> turns[i].now < e
  {
    if turns == [] || turns[0].now >= e then 0 else 1 + FirstAt(turns[1..], e)
  }

  lemma FirstAtPrefix(turns: seq<Turn>, i: nat, e: nat)
    requires i < |turns|
    ensures FirstAt(turns[..i + 1], e) ==
      if FirstAt(turns[..i], e) < i then FirstAt(turns[..i], e) else if turns[i].now >= e then i else i + 1
  {
    var k, n := FirstAt(turns[..i], e), FirstAt(turns[..i + 1], e);
    assert forall j :: 0 <= j < i ==> turns[..i + 1][j] == turns[..i][j];
    assert turns[..i + 1][i] == turns[i];
  }

  /** An item that was timed for `e`, after some turns: on the wheel for `e`, or processed once, in the first turn at
      or after `e`. */
  ghost predicate Kept(s: Status, id: Id, e: nat, turns: seq<Turn>, log: seq<Event>) {
    var k := FirstAt(turns, e);
    if k == |turns| then s.linked && !s.active && s.expire == e && Mentions(log, id) == 0
    else !s.linked && !s.active && Mentions(log, id) == 1 && Timeout(id, e, turns[k].now) in log
  }

  /** What a turn does to an item that nobody touches and that is not active: if it was on the wheel it is processed, as
      a timeout, exactly if its time has come, and stays there otherwise; if it was not, nothing. */
  ghost predicate Turned(s: Status, s': Status, id: Id, now: nat, round: seq<Event>) {
    && !s'.active
    && (if s.linked then
          && Mentions(round, id) == (if s.expire <= now then 1 else 0)
          && (s.expire <= now ==> Timeout(id, s.expire, now) in round)
          && (s'.linked <==> s.expire > now) && (s'.linked ==> s'.expire == s.expire)
        else Mentions(round, id) == 0 && !s'.linked)
  }

  lemma NamedIn(turn: Turn, id: Id)
    requires NeverNamed([turn], id)
    ensures id !in turn.ready && LeftAlone(turn.script, id) && forall op :: op in turn.after ==> op.id != id
  {
    assert [turn][0] == turn;
  }

  /** One more turn: an item still on the wheel is processed if the turn is not before `e`, and one that has been
      processed is not heard of again. */
  lemma KeptOn(s: Status, s': Status, id: Id, e: nat, turns: seq<Turn>, i: nat, log: seq<Event>, round: seq<Event>)
    requires i < |turns| && Kept(s, id, e, turns[..i], log) && Turned(s, s', id, turns[i].now, round)
    ensures Kept(s', id, e, turns[..i + 1], log + round)
  {
    FirstAtPrefix(turns, i, e);
    MentionsConcat(log, round, id);
    assert forall x :: x in log || x in round ==> x in log + round;
    assert turns[..i + 1][i] == turns[i] && forall j :: 0 <= j < i ==> turns[..i + 1][j] == turns[..i][j];
  }

  lemma KeptActive(s: Status, id: Id, e: nat, turns: seq<Turn>, log: seq<Event>)
    requires Kept(s, id, e, turns, log)
    ensures !s.active
  {
  }

  lemma KeptStart(s: Status, id: Id)
    requires s.linked && !s.active
    ensures Kept(s, id, s.expire, [], [])
  {
  }

  lemma ClockedAt(turns: seq<Turn>, start: nat, i: nat)
    requires Clocked(turns, start) && i < |turns|
    ensures InTime(turns[i], Previous(turns, start, i))
  {
  }

  /** An item is on one list at most, only active items are marked, and items on a list have a time. */
  ghost predicate Fits(s: Status) {
    !(s.linked && s.active) && (s.timedOut ==> s.active) && (s.linked || s.active ==> s.timed)
  }

  /** The first half of a round begins what it owes to each item. */
  lemma BegunAt(s0: Status, s: Status, x: Id, ready: bool, now: nat)
    requires Fits(s0) && Fits(s) && !s0.timedOut && s.expire == s0.expire
    requires ready || s0.active ==> s.active && !s.timedOut
    requires !ready && !s0.linked ==> s == s0
    requires !ready && s0.linked ==>
      s == Status(false, true, true, true, s0.expire) || (s == s0 && s.expire > now)
    ensures Owed(s, x, AtStart(s0, ready), now, [])
  {
  }

  /** A promise to an item that is not named and, in the end, not active. */
  lemma Settled(p: Promise, s: Status, trail: seq<Moment>, log: seq<Event>, now: nat)
    requires Stands(p, s, trail, log, now) && Unnamed(trail, p.from, p.id) && !s.active
    ensures p.n <= |log|
    ensures var events := log[p.n..];
      if p.given.active && !(p.given.timedOut && p.given.expire > now) then
        !s.linked && Mentions(events, p.id) == 1 && EventOf(p.id, p.given, now) in events
      else
        && Mentions(events, p.id) == 0 && s.expire == p.given.expire
        && (s.linked <==> p.given.linked || p.given.active)
  {
    hide Mentions;
  }

  /** The loop between two turns: the lengths of the log and the trail, and what the lists say about each item. */
  datatype Stage = Stage(n: nat, t: nat, status: imap<Id, Status>) {
    ghost function Of(x: Id): Status {
      if x in status then status[x] else Status(false, false, false, false, 0)
    }

    ghost predicate Fit() {
      forall x: Id :: Fits(Of(x)) && !Of(x).timedOut
    }
  }

  /** What a turn does between two stages, log and trail ending at the second: the operations on record are those of
      the coroutines resumed, one for each event, and of the function called at the end, each with its effect; the
      promises to all items and those of all operations are kept; and only what the function did last is left active
      or changed at the end. */
  ghost predicate TurnDone(turn: Turn, a: Stage, b: Stage, log: seq<Event>, trail: seq<Moment>) {
    && a.n <= b.n == |log| && a.t + |turn.after| <= b.t == |trail|
    && Records(trail[a.t..], Done(turn.script, b.n - a.n) + turn.after) && Effects(trail, a.t, turn.now)
    && ItemsKept(turn, a, b, log, trail) && OpsKept(turn, a, b, log, trail) && AfterKept(turn, b, trail)
  }

  ghost predicate ItemsKept(turn: Turn, a: Stage, b: Stage, log: seq<Event>, trail: seq<Moment>) {
    forall x: Id ::
      Stands(Promise(x, AtStart(a.Of(x), x in turn.ready), a.n, a.t), b.Of(x), trail, log, turn.now)
  }

  ghost predicate OpsKept(turn: Turn, a: Stage, b: Stage, log: seq<Event>, trail: seq<Moment>) {
    forall j :: a.t <= j < |trail| ==>
      a.n <= trail[j].n <= |log| && Stands(PromiseBy(trail, j), b.Of(trail[j].op.id), trail, log, turn.now)
  }

  ghost predicate AfterKept(turn: Turn, b: Stage, trail: seq<Moment>) {
    && |turn.after| <= |trail|
    && (forall x: Id :: Unnamed(trail, |trail| - |turn.after|, x) ==> !b.Of(x).active)
    && forall j :: |trail| - |turn.after| <= j < |trail| && Unnamed(trail, j + 1, trail[j].op.id) ==>
      b.Of(trail[j].op.id) == trail[j].after
  }

  /** An item with an event, or on the active list before the turn, is processed exactly once in the turn, because of
      the event, if nothing names it. */
  lemma ReadyWakes(turn: Turn, a: Stage, b: Stage, log: seq<Event>, trail: seq<Moment>, x: Id)
    requires TurnDone(turn, a, b, log, trail) && a.Fit() && Unnamed(trail, a.t, x)
    requires x in turn.ready || a.Of(x).active
    ensures Mentions(log[a.n..], x) == 1 && Wakeup(x) in log[a.n..] && !b.Of(x).linked && !b.Of(x).active
  {
    hide Mentions, Stands, Effects, Records, Owed;
    assert Unnamed(trail, |trail| - |turn.after|, x);
    Settled(Promise(x, AtStart(a.Of(x), x in turn.ready), a.n, a.t), b.Of(x), trail, log, turn.now);
  }

  /** An item on no list that is timed in the turn, and not named later in it, is on the wheel for that time. */
  lemma TimedStays(turn: Turn, a: Stage, b: Stage, log: seq<Event>, trail: seq<Moment>, j: nat)
    requires TurnDone(turn, a, b, log, trail) && a.t <= j < |trail|
    requires trail[j].op.Add? && turn.now <= trail[j].op.at <= trail[j].op.expire
    requires !trail[j].before.linked && !trail[j].before.active && Unnamed(trail, j + 1, trail[j].op.id)
    ensures var m, x := trail[j], trail[j].op.id;
      && b.Of(x).linked && !b.Of(x).active && b.Of(x).expire == m.op.expire
      && m.n <= |log| && Mentions(log[m.n..], x) == 0
  {
    hide Mentions, Records, FirstNaming, Unnamed;
    var x, m := trail[j].op.id, trail[j];
    FirstNone(trail, j + 1, x);
    assert m.after == Apply(m.before, m.op, turn.now) && !m.after.active;
    assert Stands(PromiseBy(trail, j), b.Of(x), trail, log, turn.now);
  }

  /** An item on no list before the turn and without an event is on no list when it is first named. */
  lemma FirstNamed(turn: Turn, a: Stage, b: Stage, log: seq<Event>, trail: seq<Moment>, j: nat)
    requires TurnDone(turn, a, b, log, trail) && a.t <= j < |trail| && Unnamed(trail[..j], a.t, trail[j].op.id)
    requires var x := trail[j].op.id; !a.Of(x).linked && !a.Of(x).active && x !in turn.ready
    ensures var m, x := trail[j], trail[j].op.id;
      a.n <= m.n <= |log| && m.before == a.Of(x) && Mentions(log[a.n..m.n], x) == 0
  {
    hide Mentions, Records, FirstNaming, Unnamed;
    FirstHere(trail, a.t, j, trail[j].op.id);
  }

  lemma FirstHere(trail: seq<Moment>, from: nat, j: nat, x: Id)
    requires from <= j < |trail| && Unnamed(trail[..j], from, x) && trail[j].op.id == x
    ensures FirstNaming(trail, from, x) == j
  {
    var f := FirstNaming(trail, from, x);
    assert forall i :: from <= i < j ==> trail[..j][i] == trail[i];
  }

  lemma FirstNone(trail: seq<Moment>, from: nat, x: Id)
    requires from <= |trail| && Unnamed(trail, from, x)
    ensures FirstNaming(trail, from, x) == |trail|
  {
  }

  /** An item signalled by the function at the end of the turn, and not named later, is active when the turn ends; one
      signalled by a coroutine is processed in the turn, exactly if it was not both marked and early. */
  lemma SignalWakes(turn: Turn, a: Stage, b: Stage, log: seq<Event>, trail: seq<Moment>, j: nat)
    requires TurnDone(turn, a, b, log, trail) && a.t <= j < |trail|
    requires trail[j].op.Signal? && Unnamed(trail, j + 1, trail[j].op.id)
    ensures a.n <= trail[j].n <= |log|
    ensures var m, x := trail[j], trail[j].op.id;
      if j >= |trail| - |turn.after| then b.Of(x).active
      else
        && !b.Of(x).active && (b.Of(x).linked <==> m.before.timedOut && m.before.expire > turn.now)
        && Mentions(log[m.n..], x) == (if m.before.timedOut && m.before.expire > turn.now then 0 else 1)
  {
    hide Mentions, Records, FirstNaming, Stands;
    var m, x := trail[j], trail[j].op.id;
    assert m.after == Apply(m.before, m.op, turn.now);
    if j < |trail| - |turn.after| {
      assert Unnamed(trail, |trail| - |turn.after|, x);
      Settled(PromiseBy(trail, j), b.Of(x), trail, log, turn.now);
    }
  }

  /** An item removed by its last operation in the turn is on no list at the end, and not processed since. */
  lemma RemovedStays(turn: Turn, a: Stage, b: Stage, log: seq<Event>, trail: seq<Moment>, j: nat)
    requires TurnDone(turn, a, b, log, trail) && a.t <= j < |trail|
    requires trail[j].op.Remove? && Unnamed(trail, j + 1, trail[j].op.id)
    ensures var m, x := trail[j], trail[j].op.id;
      m.n <= |log| && !b.Of(x).active && !b.Of(x).linked && Mentions(log[m.n..], x) == 0
  {
    hide Mentions, Records, FirstNaming, Unnamed;
    var m, x := trail[j], trail[j].op.id;
    assert m.after == Apply(m.before, m.op, turn.now);
    FirstNone(trail, j + 1, x);
    assert Stands(PromiseBy(trail, j), b.Of(x), trail, log, turn.now);
  }

  /** Nothing that a turn records names an item that nobody touches. */
  lemma NotOnRecord(turn: Turn, k: nat, trail: seq<Moment>, from: nat, x: Id)
    requires from <= |trail| && Records(trail[from..], Done(turn.script, k) + turn.after) && NeverNamed([turn], x)
    ensures Unnamed(trail, from, x)
  {
    NamedIn(turn, x);
    NotDone(turn.script, k, x);
    var ops := Done(turn.script, k) + turn.after;
    forall j | from <= j < |trail| ensures trail[j].op.id != x {
      assert trail[j] == trail[from..][j - from];
      assert ops[j - from] in Done(turn.script, k) || ops[j - from] in turn.after;
    }
  }

  lemma {:induction false} NotDone(script: seq<seq<Op>>, k: nat, x: Id)
    requires LeftAlone(script, x)
    ensures forall op :: op in Done(script, k) ==> op.id != x
  {
    if k > 0 {
      NotDone(script, k - 1, x);
    }
  }

  lemma TurnedBy(turn: Turn, a: Stage, b: Stage, log: seq<Event>, trail: seq<Moment>, x: Id)
    requires TurnDone(turn, a, b, log, trail) && a.Fit() && NeverNamed([turn], x) && !a.Of(x).active
    ensures Turned(a.Of(x), b.Of(x), x, turn.now, log[a.n..])
  {
    hide Mentions, Stands, Effects, Records, Owed, NeverNamed;
    NamedIn(turn, x);
    NotOnRecord(turn, b.n - a.n, trail, a.t, x);
    assert Unnamed(trail, |trail| - |turn.after|, x);
    Settled(Promise(x, AtStart(a.Of(x), x in turn.ready), a.n, a.t), b.Of(x), trail, log, turn.now);
  }

  /** What was on the wheel at some stage, and has not been touched since, is kept. */
  ghost predicate KeptSince(turns: seq<Turn>, trace: seq<Stage>, k: nat, log: seq<Event>) {
    && k <= |turns| && k < |trace|
    && forall i, x: Id :: 0 <= i <= k && trace[i].Of(x).linked && NeverNamed(turns[i..k], x) ==>
      trace[i].n <= |log| && Kept(trace[k].Of(x), x, trace[i].Of(x).expire, turns[i..k], log[trace[i].n..])
  }

  lemma KeptSinceOn(turns: seq<Turn>, trace: seq<Stage>, k: nat, turn: Turn, a: Stage, b: Stage,
                    log: seq<Event>, log': seq<Event>)
    requires k < |turns| && k + 1 < |trace| && KeptSince(turns, trace, k, log) && log <= log'
    requires turn == turns[k] && a == trace[k] && b == trace[k + 1] && b.Fit() && b.n == |log'|
    requires forall x :: NeverNamed([turn], x) && !a.Of(x).active ==>
      Turned(a.Of(x), b.Of(x), x, turn.now, log'[|log|..])
    ensures KeptSince(turns, trace, k + 1, log')
  {
    hide Kept, Turned, NeverNamed;
    forall i, x: Id | 0 <= i <= k + 1 && trace[i].Of(x).linked && NeverNamed(turns[i..k + 1], x)
      ensures trace[i].n <= |log'|
      ensures Kept(trace[k + 1].Of(x), x, trace[i].Of(x).expire, turns[i..k + 1], log'[trace[i].n..])
    {
      if i == k + 1 {
        assert turns[i..k + 1] == [] && log'[trace[i].n..] == [];
        KeptStart(trace[i].Of(x), x);
      } else {
        var later, e := turns[i..k + 1], trace[i].Of(x).expire;
        NeverNamedLast(turns, i, k, x);
        assert later[..k - i] == turns[i..k] && later[..k - i + 1] == later && later[k - i] == turns[k];
        KeptActive(trace[k].Of(x), x, e, turns[i..k], log[trace[i].n..]);
        KeptOn(trace[k].Of(x), trace[k + 1].Of(x), x, e, later, k - i, log[trace[i].n..], log'[|log|..]);
        assert log'[trace[i].n..] == log[trace[i].n..] + log'[|log|..];
      }
    }
  }

  lemma NeverNamedLast(turns: seq<Turn>, i: nat, k: nat, x: Id)
    requires i <= k < |turns| && NeverNamed(turns[i..k + 1], x)
    ensures NeverNamed(turns[i..k], x) && NeverNamed([turns[k]], x)
  {
    assert turns[i..k + 1][k - i] == turns[k];
    assert forall j :: 0 <= j < k - i ==> turns[i..k][j] == turns[i..k + 1][j];
  }

  /** Each turn has done its part, log and trail being those at its end. */
  ghost predicate TurnsDone(turns: seq<Turn>, trace: seq<Stage>, k: nat, log: seq<Event>, trail: seq<Moment>) {
    && k <= |turns| && k < |trace|
    && forall i :: 0 <= i < k ==> DoneFrom(turns[i], trace, i, log, trail)
  }

  /** The turn has done its part between stage `i` and the next one. */
  ghost predicate DoneFrom(turn: Turn, trace: seq<Stage>, i: nat, log: seq<Event>, trail: seq<Moment>)
    requires i + 1 < |trace|
  {
    var a, b := trace[i], trace[i + 1];
    a.Fit() && b.n <= |log| && b.t <= |trail| && TurnDone(turn, a, b, log[..b.n], trail[..b.t])
  }

  lemma TurnsDoneOn(turns: seq<Turn>, trace: seq<Stage>, k: nat, log: seq<Event>, trail: seq<Moment>,
                    log': seq<Event>, trail': seq<Moment>)
    requires k < |turns| && k + 1 < |trace| && TurnsDone(turns, trace, k, log, trail)
    requires log <= log' && trail <= trail' && trace[k].Fit()
    requires trace[k + 1].n == |log'| && trace[k + 1].t == |trail'|
    requires TurnDone(turns[k], trace[k], trace[k + 1], log', trail')
    ensures TurnsDone(turns, trace, k + 1, log', trail')
  {
    hide TurnDone;
    assert log'[..|log'|] == log' && trail'[..|trail'|] == trail';
    forall i | 0 <= i < k ensures DoneFrom(turns[i], trace, i, log', trail') {
      assert DoneFrom(turns[i], trace, i, log, trail);
      assert log'[..trace[i + 1].n] == log[..trace[i + 1].n];
      assert trail'[..trace[i + 1].t] == trail[..trace[i + 1].t];
    }
  }

  /** An item with an event in turn `i`, or active when it begins, is processed once in turn `i`, unless it is named. */
  lemma WokenInTurn(turns: seq<Turn>, trace: seq<Stage>, log: seq<Event>, trail: seq<Moment>, i: nat, x: Id)
    requires TurnsDone(turns, trace, |turns|, log, trail) && i < |turns| && DoneFrom(turns[i], trace, i, log, trail)
    requires x in turns[i].ready || trace[i].Of(x).active
    requires Unnamed(trail[..trace[i + 1].t], trace[i].t, x)
    ensures trace[i].n <= trace[i + 1].n <= |log|
    ensures var events := log[trace[i].n..trace[i + 1].n]; Mentions(events, x) == 1 && Wakeup(x) in events
  {
    hide TurnDone, Mentions;
    var a, b := trace[i], trace[i + 1];
    ReadyWakes(turns[i], a, b, log[..b.n], trail[..b.t], x);
    StagesGrow(turns[i], a, b, log[..b.n], trail[..b.t]);
    assert log[..b.n][a.n..] == log[a.n..b.n];
  }

  lemma StagesGrow(turn: Turn, a: Stage, b: Stage, log: seq<Event>, trail: seq<Moment>)
    requires TurnDone(turn, a, b, log, trail)
    ensures a.n <= b.n == |log| && a.t <= b.t == |trail|
  {
  }

  /** An item on no list that is timed in turn `i` for a later time, and left alone from then on, is processed once, in
      the first later turn at or after that time. */
  lemma TimedInTurn(turns: seq<Turn>, trace: seq<Stage>, log: seq<Event>, trail: seq<Moment>, i: nat, j: nat)
    requires TurnsDone(turns, trace, |turns|, log, trail) && KeptSince(turns, trace, |turns|, log)
    requires i < |turns| && DoneFrom(turns[i], trace, i, log, trail) && trace[i].t <= j < trace[i + 1].t
    requires trail[j].op.Add? && turns[i].now <= trail[j].op.at <= trail[j].op.expire
    requires !trail[j].before.linked && !trail[j].before.active
    requires Unnamed(trail[..trace[i + 1].t], j + 1, trail[j].op.id)
    requires NeverNamed(turns[i + 1..|turns|], trail[j].op.id)
    ensures var m, x, b := trail[j], trail[j].op.id, trace[i + 1];
      && m.n <= b.n <= |log| && Mentions(log[m.n..b.n], x) == 0
      && Kept(trace[|turns|].Of(x), x, m.op.expire, turns[i + 1..|turns|], log[b.n..])
  {
    hide TurnDone, Mentions, Kept, NeverNamed, KeptSince;
    var b, m := trace[i + 1], trail[j];
    assert trail[..b.t][j] == m;
    TimedStays(turns[i], trace[i], b, log[..b.n], trail[..b.t], j);
    StagesGrow(turns[i], trace[i], b, log[..b.n], trail[..b.t]);
    assert log[..b.n][m.n..] == log[m.n..b.n];
    KeptFrom(turns, trace, |turns|, log, i + 1, m.op.id);
  }

  lemma EnteredTrail(before: seq<Moment>, trail: seq<Moment>, from: nat, ops: seq<Op>, n: nat, now: nat)
    requires from <= |before| && before <= trail && Effects(before, from, now)
    requires Entered(trail, |before|, ops, n, now)
    ensures |trail| == |before| + |ops| && forall i :: 0 <= i < |ops| ==> trail[|before| + i].op == ops[i]
    ensures Effects(trail, from, now) && forall j :: |before| <= j < |trail| ==> trail[j].n == n
  {
  }

  lemma NoEffects(trail: seq<Moment>, now: nat)
    ensures Effects(trail, |trail|, now)
  {
  }

  lemma EffectAt(trail: seq<Moment>, from: nat, now: nat, j: nat)
    requires Effects(trail, from, now) && from <= j < |trail|
    ensures trail[j].after == Apply(trail[j].before, trail[j].op, now)
  {
  }

  /** The function called at the end of a turn adds its operations to the record. */
  lemma AfterRound(before: seq<Moment>, trail: seq<Moment>, from: nat, turn: Turn, k: nat, n: nat)
    requires from <= |before| && before <= trail && Entered(trail, |before|, turn.after, n, turn.now)
    requires Records(before[from..], Done(turn.script, k)) && Effects(before, from, turn.now)
    ensures Records(trail[from..], Done(turn.script, k) + turn.after) && Effects(trail, from, turn.now)
    ensures |trail| == |before| + |turn.after| && forall j :: |before| <= j < |trail| ==> trail[j].n == n
  {
    hide Done, Apply;
    EnteredTrail(before, trail, from, turn.after, n, turn.now);
    RecordsMore(before, trail, from, Done(turn.script, k), turn.after);
  }

  lemma InTimeIs(turn: Turn, before: nat)
    requires InTime(turn, before)
    ensures 0 < before <= turn.now && turn.now - before + 1 < 0x8000_0000
    ensures Adds(turn.script, turn.now) && AddsLater(turn.after, turn.now)
  {
  }

  lemma TraceStart(turns: seq<Turn>, trace: seq<Stage>, log: seq<Event>, trail: seq<Moment>)
    requires |trace| == 1 && trace[0].Fit() && trace[0].n == |log|
    ensures TurnsDone(turns, trace, 0, log, trail) && KeptSince(turns, trace, 0, log)
  {
    hide Kept, NeverNamed;
    forall x: Id | trace[0].Of(x).linked
      ensures Kept(trace[0].Of(x), x, trace[0].Of(x).expire, turns[0..0], log[trace[0].n..])
    {
      assert turns[0..0] == [] && log[trace[0].n..] == [];
      KeptStart(trace[0].Of(x), x);
    }
  }

  lemma TraceOn(turns: seq<Turn>, trace: seq<Stage>, longer: seq<Stage>, k: nat, log: seq<Event>, trail: seq<Moment>)
    requires trace <= longer && TurnsDone(turns, trace, k, log, trail) && KeptSince(turns, trace, k, log)
    ensures TurnsDone(turns, longer, k, log, trail) && KeptSince(turns, longer, k, log)
  {
    hide Kept, NeverNamed, TurnDone;
  }

  lemma KeptFrom(turns: seq<Turn>, trace: seq<Stage>, k: nat, log: seq<Event>, i: nat, x: Id)
    requires KeptSince(turns, trace, k, log) && i <= k && trace[i].Of(x).linked && NeverNamed(turns[i..k], x)
    ensures trace[i].n <= |log|
    ensures Kept(trace[k].Of(x), x, trace[i].Of(x).expire, turns[i..k], log[trace[i].n..])
  {
  }

  class EventLoop {
    const wheel: Wheel
    var active: seq<Id>
    var timedOut: set<Id>    // items whose bTimeout is set
    var calls: nat           // items processed so far
    ghost var log: seq<Event>
    ghost var trail: seq<Moment>   // the operations on items so far

    /** The promise is kept so far. */
    ghost predicate Held(p: Promise, now: nat)
      reads this, wheel
    {
      Stands(p, StatusOf(p.id), trail, log, now)
    }

    ghost predicate Valid()
      reads this, wheel
    {
      && wheel.Valid() && NoDup(active) && timedOut <= Elems(active)
      && (forall id :: id in active ==> id !in wheel.link && id in wheel.expire)
    }

    ghost function StatusOf(id: Id): Status
      reads this, wheel
    {
      Status(id in wheel.link, id in active, id in timedOut, id in wheel.expire,
             if id in wheel.expire then wheel.expire[id] else 0)
    }

    constructor (size: nat, now: nat)
      requires size >= 1
      ensures Valid() && active == [] && timedOut == {} && log == [] && calls == 0 && trail == []
      ensures wheel.link == map[] && wheel.expire == map[] && wheel.start == now && wheel.size == size && fresh(wheel)
    {
      wheel := new Wheel(size, now);
      active, timedOut, calls, log, trail := [], {}, 0, [], [];
    }

    /** RemoveFromLink */
    method RemoveFromLink(id: Id)
      requires Valid()
      modifies this`active, this`timedOut, wheel
      ensures Valid() && id !in active && id !in wheel.link && wheel.start == old(wheel.start)
      ensures wheel.expire == old(wheel.expire) && wheel.link.Keys == old(wheel.link).Keys - {id}
      ensures forall x :: x != id ==> StatusOf(x) == old(StatusOf(x))
      ensures |active| <= |old(active)| && timedOut == old(timedOut) - {id}
    {
      if id in wheel.link {
        wheel.Unlink(id);
      } else {
        active := Without(active, id);
        timedOut := timedOut - {id};
      }
    }

    /** Time a new item: set its expiry and AddTimeout. */
    method Time(id: Id, expire: nat, at: nat)
      requires Valid() && at > 0 && wheel.start > 0
      modifies wheel
      ensures Valid() && wheel.start == old(wheel.start)
      ensures forall x :: x != id ==> StatusOf(x) == old(StatusOf(x))
      ensures StatusOf(id) == Apply(old(StatusOf(id)), Add(id, expire, at), wheel.start)
      ensures id !in old(wheel.link) && id !in active && wheel.start <= at <= expire ==>
        && wheel.link == old(wheel.link)[id := wheel.link[id]] && wheel.startIdx == old(wheel.startIdx)
        && wheel.expire == old(wheel.expire)[id := expire]
        && Offset(wheel.link[id], wheel.startIdx,
            wheel.size) == (if expire - wheel.start < wheel.size then expire - wheel.start else wheel.size - 1)
    {
      if id in wheel.link || id in active {
        return;
      }
      wheel.expire := wheel.expire[id := expire];
      var ret := wheel.AddTimeout(id, at);
    }

    /** co_cond_signal on one item, or the preparation of an item whose file descriptor is ready: it moves
        to the end of the active list. */
    method Activate(id: Id)
      requires Valid()
      modifies this`active, this`timedOut, wheel
      ensures Valid() && id in active && wheel.start == old(wheel.start)
      ensures forall x :: x != id ==> StatusOf(x) == old(StatusOf(x))
      ensures wheel.link.Keys == old(wheel.link).Keys - {id} && timedOut == old(timedOut)
      ensures id in old(wheel.expire) ==> wheel.expire == old(wheel.expire)
      ensures StatusOf(id) == Status(false, true, id in old(timedOut), true, old(StatusOf(id)).expire)
    {
      var late := id in timedOut;
      RemoveFromLink(id);
      if id !in wheel.expire {
        wheel.expire := wheel.expire[id := 0];
      }
      active := active + [id];
      if late {
        timedOut := timedOut + {id};
      }
    }

    /** One operation of a resumed coroutine.  All promises are kept, and the operation makes one. */
    method Perform(op: Op, ghost now: nat)
      requires Valid() && wheel.start > 0 && (op.Add? ==> op.at > 0 && op.expire > now)
      requires forall id :: id in wheel.link ==> wheel.expire[id] > now
      modifies this`active, this`timedOut, this`trail, wheel
      ensures Valid() && wheel.start == old(wheel.start)
      ensures forall id :: id in wheel.link ==> wheel.expire[id] > now
      ensures StatusOf(op.id) == Apply(old(StatusOf(op.id)), op, wheel.start)
      ensures forall x :: x != op.id ==> StatusOf(x) == old(StatusOf(x))
      ensures trail == old(trail) + [Moment(op, old(StatusOf(op.id)), StatusOf(op.id), |log|)]
      ensures timedOut <= old(timedOut)
      ensures Held(PromiseBy(trail, |old(trail)|), now)
      ensures forall p: Promise :: old(Held(p, now)) ==> Held(p, now)
    {
      hide Owed, Stands;
      Act(op, now);
      ghost var m, t := Moment(op, old(StatusOf(op.id)), StatusOf(op.id), |log|), trail;
      trail := trail + [m];
      forall p: Promise | old(Held(p, now)) ensures Held(p, now) {
        StandsOp(p, old(StatusOf(p.id)), StatusOf(p.id), t, m, log, now);
      }
      OwedNow(op.id, now);
      StandsFresh(PromiseBy(trail, |t|), StatusOf(op.id), trail, log, now);
    }

    /** Nothing has happened yet. */
    lemma OwedNow(x: Id, now: nat)
      requires Valid()
      ensures Owed(StatusOf(x), x, StatusOf(x), now, [])
    {
    }

    method Act(op: Op, ghost now: nat)
      requires Valid() && wheel.start > 0 && (op.Add? ==> op.at > 0 && op.expire > now)
      requires forall id :: id in wheel.link ==> wheel.expire[id] > now
      modifies this`active, this`timedOut, wheel
      ensures Valid() && wheel.start == old(wheel.start)
      ensures forall id :: id in wheel.link ==> wheel.expire[id] > now
      ensures StatusOf(op.id) == Apply(old(StatusOf(op.id)), op, wheel.start)
      ensures forall x :: x != op.id ==> StatusOf(x) == old(StatusOf(x))
      ensures timedOut <= old(timedOut)
    {
      match op {
        case Add(id, expire, at) => Time(id, expire, at);
        case Remove(id) => RemoveFromLink(id);
        case Signal(id) => Activate(id);
      }
      forall id | id in wheel.link ensures wheel.expire[id] > now {
        assert id != op.id ==> StatusOf(id) == old(StatusOf(id));
      }
    }

    /** What the resumed coroutine does, operation by operation. */
    method PerformAll(ops: seq<Op>, ghost now: nat)
      requires Valid() && wheel.start > 0
      requires forall op :: op in ops && op.Add? ==> op.at > 0 && op.expire > now
      requires forall x :: x in wheel.link ==> wheel.expire[x] > now
      modifies this`active, this`timedOut, this`trail, wheel
      ensures Valid() && wheel.start == old(wheel.start)
      ensures forall x :: x in wheel.link ==> wheel.expire[x] > now
      ensures ops == [] ==> active == old(active)
      ensures timedOut <= old(timedOut)
      ensures Entered(trail, |old(trail)|, ops, |log|, wheel.start) && old(trail) <= trail
      ensures forall x :: Unnamed(trail, |old(trail)|, x) ==> StatusOf(x) == old(StatusOf(x))
      ensures forall j :: |old(trail)| <= j < |trail| && Unnamed(trail, j + 1, trail[j].op.id) ==>
        StatusOf(trail[j].op.id) == trail[j].after
      ensures forall p: Promise :: old(Held(p, now)) ==> Held(p, now)
      ensures forall j :: |old(trail)| <= j < |trail| ==> Held(PromiseBy(trail, j), now)
    {
      ghost var t, trail0, out0, start0, active0 := |trail|, trail, timedOut, wheel.start, active;
      NoneEntered(trail, |log|, wheel.start);
      hide Valid, Held, Unnamed, Entered, Apply, PromiseBy;
      assert ops[..0] == [];
      for i := 0 to |ops|
        invariant Valid() && wheel.start == start0
        invariant ops == [] ==> active == active0
        invariant timedOut <= out0
        invariant forall x :: x in wheel.link ==> wheel.expire[x] > now
        invariant Entered(trail, t, ops[..i], |log|, wheel.start) && trail0 <= trail
        invariant forall x :: Unnamed(trail, t, x) ==> StatusOf(x) == old(StatusOf(x))
        invariant forall j :: t <= j < |trail| && Unnamed(trail, j + 1, trail[j].op.id) ==>
          StatusOf(trail[j].op.id) == trail[j].after
        invariant forall p: Promise :: old(Held(p, now)) ==> Held(p, now)
        invariant forall j :: t <= j < |trail| ==> Held(PromiseBy(trail, j), now)
      {
        assert ops[i] in ops;
        ghost var before := trail;
        Perform(ops[i], now);
        SamePromises(before, trail, t);
        EnteredOn(before, trail[|before|], t, ops, i, |log|, wheel.start);
        UnnamedBefore(before, trail[|before|]);
      }
      assert ops[..|ops|] == ops;
    }

    /** An item leaves the active list to be processed. */
    method Process(ghost now: nat) returns (lp: Id)
      requires Valid() && active != [] && active[0] in wheel.expire
      requires !(active[0] in timedOut && now < wheel.expire[active[0]])
      modifies this`active, this`timedOut, this`calls, this`log
      ensures Valid() && lp == old(active)[0] && lp !in active
      ensures calls == old(calls) + 1 && |active| == |old(active)| - 1
      ensures log == old(log) + [if lp in old(timedOut) then Timeout(lp, wheel.expire[lp], now) else Wakeup(lp)]
      ensures StatusOf(lp) == Status(false, false, false, true, wheel.expire[lp])
      ensures forall x :: x != lp ==> StatusOf(x) == old(StatusOf(x))
      ensures forall p: Promise :: old(Held(p, now)) ==> Held(p, now)
    {
      hide Stands;
      ghost var log0 := log;
      var late;
      lp, late := PopHead();
      calls := calls + 1;
      ghost var event := if late then Timeout(lp, wheel.expire[lp], now) else Wakeup(lp);
      log := log + [event];
      forall p: Promise | old(Held(p, now)) ensures Held(p, now) {
        StandsEvent(p, old(StatusOf(p.id)), StatusOf(p.id), trail, log0, event, now);
      }
    }

    /** PopHead on the active list */
    method PopHead() returns (lp: Id, late: bool)
      requires Valid() && active != []
      modifies this`active, this`timedOut
      ensures Valid() && lp == old(active)[0] && lp !in active && lp !in wheel.link && lp in wheel.expire
      ensures late == (lp in old(timedOut)) && |active| == |old(active)| - 1 && lp !in timedOut
      ensures forall x :: x != lp ==> StatusOf(x) == old(StatusOf(x))
    {
      lp := active[0];
      late := lp in timedOut;
      ElemsUncons(active);
      active := active[1..];
      timedOut := timedOut - {lp};
    }

    /** The re-insertion of an item that came out too early. */
    method Readd(id: Id, now: nat) returns (ret: int)
      requires Valid() && id !in active && id !in wheel.link && id in wheel.expire
      requires wheel.start == now > 0 && now < wheel.expire[id]
      requires forall x :: x in wheel.link ==> wheel.expire[x] > now
      modifies wheel
      ensures Valid() && ret == 0 && wheel.start == now
      ensures StatusOf(id) == old(StatusOf(id)).(linked := true)
      ensures forall x :: x != id ==> StatusOf(x) == old(StatusOf(x))
      ensures forall x :: x in wheel.link ==> wheel.expire[x] > now
    {
      ret := wheel.AddTimeout(id, now);
    }

    /** The first active item came out too early and goes back on the wheel. */
    method PutBack(now: nat) returns (ret: int)
      requires Valid() && active != [] && wheel.start == now > 0
      requires active[0] in timedOut && active[0] in wheel.expire && now < wheel.expire[active[0]]
      requires forall x :: x in wheel.link ==> wheel.expire[x] > now
      modifies this`active, this`timedOut, wheel
      ensures Valid() && ret == 0 && wheel.start == now && |active| == |old(active)| - 1
      ensures forall x :: x in wheel.link ==> wheel.expire[x] > now
      ensures var lp := old(active)[0]; StatusOf(lp) == Status(true, false, false, true, old(wheel.expire)[lp])
      ensures forall x :: x != old(active)[0] ==> StatusOf(x) == old(StatusOf(x))
      ensures forall p: Promise :: old(Held(p, now)) ==> Held(p, now)
    {
      hide Stands;
      var lp, late := PopHead();
      ret := Readd(lp, now);
      forall p: Promise | old(Held(p, now)) ensures Held(p, now) {
        if p.id == lp {
          StandsBack(p, old(StatusOf(p.id)), trail, log, now);
        }
      }
    }

    /** The first active item is processed: its coroutine performs `OpsAt(script, calls)`. */
    method ProcessFirst(now: nat, script: seq<seq<Op>>)
      requires Valid() && active != [] && wheel.start == now > 0 && Adds(script, now)
      requires active[0] in wheel.expire && !(active[0] in timedOut && now < wheel.expire[active[0]])
      requires forall x :: x in wheel.link ==> wheel.expire[x] > now
      modifies this, wheel
      ensures Valid() && wheel.start == now && calls == old(calls) + 1
      ensures var lp := old(active)[0];
        log == old(log) + [if lp in old(timedOut) then Timeout(lp, old(wheel.expire)[lp], now) else Wakeup(lp)]
      ensures forall x :: x in wheel.link ==> wheel.expire[x] > now
      ensures old(calls) >= |script| ==> |active| < |old(active)|
      ensures Entered(trail, |old(trail)|, OpsAt(script, old(calls)), |log|, now) && old(trail) <= trail
      ensures forall p: Promise :: old(Held(p, now)) ==> Held(p, now)
      ensures forall j :: |old(trail)| <= j < |trail| ==> Held(PromiseBy(trail, j), now)
    {
      hide Valid, Adds, Held, Entered;
      var ops := OpsAt(script, calls);
      OpsOf(script, calls, now);
      var lp := Process(now);
      PerformAll(ops, now);
    }

    /** One pass of the loop over the active list: an item that came out too early goes back on the wheel,
        any other is processed. */
    method TakeActive(now: nat, script: seq<seq<Op>>)
      requires Valid() && active != [] && wheel.start == now > 0 && Adds(script, now)
      requires active[0] in wheel.expire
      requires forall x :: x in wheel.link ==> wheel.expire[x] > now
      modifies this, wheel
      ensures Valid() && wheel.start == now && old(log) <= log && NeverEarly(log[|old(log)|..], now)
      ensures forall x :: x in wheel.link ==> wheel.expire[x] > now
      ensures var lp := old(active)[0];
        if lp in old(timedOut) && now < old(wheel.expire)[lp] then
          && log == old(log) && lp in wheel.link && |active| == |old(active)| - 1
          && calls == old(calls) && trail == old(trail)
        else
          && log == old(log) + [if lp in old(timedOut) then Timeout(lp, old(wheel.expire)[lp], now) else Wakeup(lp)]
          && calls == old(calls) + 1 && Entered(trail, |old(trail)|, OpsAt(script, old(calls)), |log|, now)
      ensures old(calls) >= |script| ==> |active| < |old(active)|
      ensures old(trail) <= trail && forall p: Promise :: old(Held(p, now)) ==> Held(p, now)
      ensures forall j :: |old(trail)| <= j < |trail| ==> Held(PromiseBy(trail, j), now)
    {
      hide Valid, Adds, NeverEarly, Held, OpsAt, Entered;
      ghost var log0 := log;
      if active[0] in timedOut && now < wheel.expire[active[0]] {
        ghost var lp := active[0];
        var _ := PutBack(now);
        assert StatusOf(lp).linked;
        assert log[|log0|..] == [];
        NoEvents(now);
      } else {
        ProcessFirst(now, script);
        ghost var event := log[|log0|];
        assert log[|log0|..] == [event];
        OneEvent(event, now);
      }
    }

    /** The first half of a round: items with events, then those the wheel gives up, go on the active list.
        Those that were there or have events are to be processed. */
    method Collect(ready: seq<Id>, now: nat)
      requires Valid() && timedOut == {} && now > 0 && wheel.start <= now && now - wheel.start + 1 < 0x8000_0000
      modifies this`active, this`timedOut, wheel
      ensures Valid() && wheel.start == now && forall x :: x in wheel.link ==> wheel.expire[x] > now
      ensures forall x :: x in old(active) || x in ready ==> x in active && x !in timedOut
      ensures forall x :: x !in old(wheel.link) && x !in ready ==> StatusOf(x) == old(StatusOf(x))
      ensures forall x :: x in old(wheel.link) && x !in ready ==>
        StatusOf(x) == Status(false, true, true, true, old(StatusOf(x)).expire) ||
        (StatusOf(x) == old(StatusOf(x)) && StatusOf(x).expire > now)
      ensures forall x :: StatusOf(x).expire == old(StatusOf(x)).expire
    {
      for i := 0 to |ready|
        invariant Valid() && wheel.start == old(wheel.start) && timedOut == {}
        invariant forall x :: x in old(active) || x in ready[..i] ==> x in active
        invariant forall x :: x !in ready ==> StatusOf(x) == old(StatusOf(x))
        invariant forall x :: StatusOf(x).expire == old(StatusOf(x)).expire
      {
        hide Valid;
        assert ready[i] in ready && ready[..i + 1] == ready[..i] + [ready[i]];
        ghost var before := active;
        Activate(ready[i]);
        forall x | x in before ensures x in active { assert x != ready[i] ==> StatusOf(x).active; }
      }
      assert ready[..|ready|] == ready;
      ghost var before := active;
      TakeAndJoin(now);
      forall x | x !in old(wheel.link) && x !in ready ensures StatusOf(x) == old(StatusOf(x)) {
        assert x in Elems(active) <==> x in Elems(before);
      }
    }

    /** TakeAllTimeout, marking what it takes, and Join with the active list. */
    method TakeAndJoin(now: nat)
      requires Valid() && now > 0 && wheel.start <= now && (wheel.start > 0 ==> now - wheel.start + 1 < 0x8000_0000)
      modifies this`active, this`timedOut, wheel
      ensures Valid() && wheel.start == now && (forall x :: x in wheel.link ==> wheel.expire[x] > now)
      ensures wheel.expire == old(wheel.expire)
      ensures old(wheel.start) > 0 && now - old(wheel.start) + 1 >= wheel.size ==> wheel.link == map[]
      ensures wheel.link.Keys <= old(wheel.link).Keys
      ensures Elems(active) == old(Elems(active)) + (old(wheel.link).Keys - wheel.link.Keys)
      ensures timedOut == old(timedOut) + (old(wheel.link).Keys - wheel.link.Keys)
      ensures old(active) <= active
      ensures SlotOrder(active[|old(active)|..], old(wheel.link), old(wheel.startIdx), wheel.size)
      ensures forall x :: x in old(wheel.link) ==> (x in wheel.link) != (x in active) && (x in active ==> x in timedOut)
    {
      hide SlotOrder;
      ghost var link0 := wheel.link;
      var taken := wheel.TakeAllTimeout(now);
      assert Elems(taken) == link0.Keys - wheel.link.Keys;
      timedOut := timedOut + Elems(taken);
      AppendNoDup(active, taken);
      ghost var before := active;
      active := active + taken;
      assert active[|before|..] == taken;
    }

    /** One round of the event loop at time `now`: no timeout is processed before its time; afterwards no
        item on the wheel is due; and of the items timed before and left alone, those due have been
        processed exactly once and all others are still on the wheel, however far ahead their time is.
        An item that was active before the round or has an event is processed exactly once, if nobody names it in the
        round; and an item signalled during the round, and not named later, is processed exactly once if it was not
        both marked and early at the moment of the signal, and otherwise not at all. */
    method Round(ready: seq<Id>, now: nat, script: seq<seq<Op>>)
      requires Valid() && timedOut == {} && now > 0 && wheel.start <= now && now - wheel.start + 1 < 0x8000_0000
      requires Adds(script, now)
      modifies this, wheel
      ensures Valid() && active == [] && timedOut == {} && wheel.start == now
      ensures old(log) <= log && NeverEarly(log[|old(log)|..], now) && calls == |log| - |old(log)|
      ensures old(trail) <= trail && Records(trail[|old(trail)|..], Done(script, calls))
      ensures Effects(trail, |old(trail)|, now)
      ensures forall x :: x in wheel.link ==> wheel.expire[x] > now
      ensures forall x: Id ::
        Held(Promise(x, AtStart(old(StatusOf(x)), x in ready), |old(log)|, |old(trail)|), now)
      ensures forall j :: |old(trail)| <= j < |trail| ==>
        |old(log)| <= trail[j].n <= |log| && Held(PromiseBy(trail, j), now)
      ensures forall x :: x in old(wheel.link) && x !in ready && Unnamed(trail, |old(trail)|, x) ==>
        var e, round := old(wheel.expire)[x], log[|old(log)|..];
        && Mentions(round, x) == (if e <= now then 1 else 0) && (e <= now ==> Timeout(x, e, now) in round)
        && (x in wheel.link <==> e > now) && (x in wheel.link ==> wheel.expire[x] == e)
      ensures forall x :: x !in old(wheel.link) && x !in old(active) && x !in ready ==>
        Unnamed(trail, |old(trail)|, x) ==> Mentions(log[|old(log)|..], x) == 0 && x !in wheel.link
      ensures forall x :: (x in old(active) || x in ready) && Unnamed(trail, |old(trail)|, x) ==>
        Mentions(log[|old(log)|..], x) == 1 && Wakeup(x) in log[|old(log)|..] && x !in wheel.link
      ensures forall j |
          |old(trail)| <= j < |trail| && trail[j].op.Signal? && Unnamed(trail, j + 1, trail[j].op.id) ::
        var m, x := trail[j], trail[j].op.id;
        && Mentions(log[m.n..], x) == (if m.before.timedOut && m.before.expire > now then 0 else 1)
        && (x in wheel.link <==> m.before.timedOut && m.before.expire > now)
    {
      hide Valid, Adds, NeverEarly, Held, OpsAt, Done, Records, Effects, Mentions, Unnamed, Owed;
      LinkedAreTimed();
      AllFit();
      ghost var trail0, base := trail, |log|;
      Collect(ready, now);
      StartCalls();
      AllFit();
      forall x: Id ensures Held(Promise(x, AtStart(old(StatusOf(x)), x in ready), base, |trail0|), now) {
        BegunAt(old(StatusOf(x)), StatusOf(x), x, x in ready, now);
        Begin(x, AtStart(old(StatusOf(x)), x in ready), now);
      }
      LinkedAreTimed();
      Rest(now, script);
      LinkedAreTimed();
      NoneMarked();
      forall x: Id | Unnamed(trail, |trail0|, x)
        ensures var g, round := AtStart(old(StatusOf(x)), x in ready), log[base..];
          if g.active && !(g.timedOut && g.expire > now) then
            x !in wheel.link && Mentions(round, x) == 1 && EventOf(x, g, now) in round
          else
            && Mentions(round, x) == 0 && StatusOf(x).expire == g.expire
            && (x in wheel.link <==> g.linked || g.active)
      {
        HeldSettled(Promise(x, AtStart(old(StatusOf(x)), x in ready), base, |trail0|), now);
      }
      forall j | |trail0| <= j < |trail| && trail[j].op.Signal? && Unnamed(trail, j + 1, trail[j].op.id)
        ensures var m, x := trail[j], trail[j].op.id;
          && Mentions(log[m.n..], x) == (if m.before.timedOut && m.before.expire > now then 0 else 1)
          && (x in wheel.link <==> m.before.timedOut && m.before.expire > now)
      {
        EffectAt(trail, |trail0|, now, j);
        HeldSettled(PromiseBy(trail, j), now);
      }
    }

    /** The loop over the active list, from its beginning to its end. */
    method Rest(now: nat, script: seq<seq<Op>>)
      requires Valid() && wheel.start == now > 0 && Adds(script, now) && calls == 0
      requires forall x :: x in wheel.link ==> x in wheel.expire && wheel.expire[x] > now
      modifies this, wheel
      ensures Valid() && active == [] && wheel.start == now
      ensures old(log) <= log && NeverEarly(log[|old(log)|..], now) && calls == |log| - |old(log)|
      ensures forall x :: x in wheel.link ==> x in wheel.expire && wheel.expire[x] > now
      ensures old(trail) <= trail && Records(trail[|old(trail)|..], Done(script, calls))
      ensures Effects(trail, |old(trail)|, now)
      ensures forall p: Promise :: old(Held(p, now)) ==> Held(p, now)
      ensures forall j :: |old(trail)| <= j < |trail| ==>
        |old(log)| <= trail[j].n <= |log| && Held(PromiseBy(trail, j), now)
    {
      hide Valid, Adds, NeverEarly, Held, OpsAt, Done, Records, Effects, Entered;
      NoEvents(now);
      ghost var trail0, start0, base := trail, log, |log|;
      assert log[base..] == [] && trail[|trail0|..] == [];
      assert Records([], Done(script, 0)) by { NoneDone(script); }
      NoEffects(trail, now);
      while active != []
        invariant Valid() && wheel.start == now && start0 <= log && trail0 <= trail && calls == |log| - base
        invariant NeverEarly(log[base..], now) && Records(trail[|trail0|..], Done(script, calls))
        invariant Effects(trail, |trail0|, now)
        invariant forall x :: x in wheel.link ==> x in wheel.expire && wheel.expire[x] > now
        invariant forall p: Promise :: old(Held(p, now)) ==> Held(p, now)
        invariant forall j :: |trail0| <= j < |trail| ==>
          base <= trail[j].n <= |log| && Held(PromiseBy(trail, j), now)
        decreases if calls < |script| then |script| - calls else 0, |active|
      {
        ghost var log0, t, k := log, trail, calls;
        HeadIsTimed();
        TakeActive(now, script);
        if calls != k {
          EnteredTrail(t, trail, |trail0|, OpsAt(script, k), |log|, now);
          RecordsOn(t, trail, |trail0|, script, k);
        }
        assert log[base..] == log0[base..] + log[|log0|..];
        EarlyConcat(log0[base..], log[|log0|..], now);
        LinkedAreTimed();
      }
    }

    /** One turn of the loop in co_eventloop: a round, and the function called at its end. */
    method TurnOnce(turn: Turn)
      requires Valid() && timedOut == {} && 0 < wheel.start <= turn.now && turn.now - wheel.start + 1 < 0x8000_0000
      requires Adds(turn.script, turn.now) && AddsLater(turn.after, turn.now)
      modifies this, wheel
      ensures Valid() && timedOut == {} && wheel.start == turn.now && old(log) <= log && old(trail) <= trail
      ensures NeverEarly(log[|old(log)|..], turn.now)
      ensures TurnDone(turn, old(Here()), Here(), log, trail)
      ensures forall x :: NeverNamed([turn], x) && x !in old(active) ==>
        Turned(old(StatusOf(x)), StatusOf(x), x, turn.now, log[|old(log)|..])
      ensures forall x :: (x in turn.ready || x in old(active)) && Unnamed(trail, |old(trail)|, x) ==>
        Mentions(log[|old(log)|..], x) == 1 && Wakeup(x) in log[|old(log)|..] && x !in wheel.link && x !in active
    {
      hide Held, Valid, Mentions, Adds, NeverNamed, NeverEarly, Records, Done, Unnamed, Effects, Stands, Entered;
      hide TurnDone, Turned;
      HereFits();
      ghost var a, trail0, log0 := Here(), trail, log;
      LinkedAreTimed();
      Round(turn.ready, turn.now, turn.script);
      LinkedAreTimed();
      ghost var rounded, k := trail, calls;
      PerformAll(turn.after, turn.now);
      HereFits();
      AfterRound(rounded, trail, |trail0|, turn, k, |log|);
      assert TurnDone(turn, a, Here(), log, trail) by { Whole(turn, a); }
      forall x | NeverNamed([turn], x) && x !in old(active)
        ensures Turned(old(StatusOf(x)), StatusOf(x), x, turn.now, log[|log0|..])
      {
        TurnedBy(turn, a, Here(), log, trail, x);
      }
      forall x | (x in turn.ready || x in old(active)) && Unnamed(trail, |trail0|, x)
        ensures Mentions(log[|log0|..], x) == 1 && Wakeup(x) in log[|log0|..] && x !in wheel.link && x !in active
      {
        ReadyWakes(turn, a, Here(), log, trail, x);
      }
    }

    /** The parts of a turn, together. */
    lemma Whole(turn: Turn, a: Stage)
      requires a.n <= |log| && a.t + |turn.after| <= |trail|
      requires Records(trail[a.t..], Done(turn.script, |log| - a.n) + turn.after) && Effects(trail, a.t, turn.now)
      requires forall x: Id :: Held(Promise(x, AtStart(a.Of(x), x in turn.ready), a.n, a.t), turn.now)
      requires forall j :: a.t <= j < |trail| ==> a.n <= trail[j].n <= |log| && Held(PromiseBy(trail, j), turn.now)
      requires forall x: Id :: Unnamed(trail, |trail| - |turn.after|, x) ==> x !in active
      requires forall j :: |trail| - |turn.after| <= j < |trail| && Unnamed(trail, j + 1, trail[j].op.id) ==>
        StatusOf(trail[j].op.id) == trail[j].after
      ensures TurnDone(turn, a, Here(), log, trail)
    {
      hide Stands, Unnamed, Records, Effects, AtStart;
      var b := Here();
      assert forall x: Id :: b.Of(x) == StatusOf(x);
    }

    /** The loop as it is now. */
    ghost function Here(): (s: Stage)
      reads this, wheel
      ensures s.n == |log| && s.t == |trail| && forall x: Id :: s.Of(x) == StatusOf(x)
    {
      Stage(|log|, |trail|, imap x: Id :: StatusOf(x))
    }

    lemma HereFits()
      requires Valid() && timedOut == {}
      ensures Here().Fit()
    {
      AllFit();
    }

    lemma AllFit()
      requires Valid()
      ensures forall x: Id :: Fits(StatusOf(x))
    {
    }

    lemma Begin(x: Id, given: Status, now: nat)
      requires Owed(StatusOf(x), x, given, now, [])
      ensures Held(Promise(x, given, |log|, |trail|), now)
    {
      hide Owed;
      StandsFresh(Promise(x, given, |log|, |trail|), StatusOf(x), trail, log, now);
    }

    lemma HeldSettled(p: Promise, now: nat)
      requires Held(p, now) && Unnamed(trail, p.from, p.id) && p.id !in active
      ensures p.n <= |log|
      ensures var s, events := StatusOf(p.id), log[p.n..];
        if p.given.active && !(p.given.timedOut && p.given.expire > now) then
          !s.linked && Mentions(events, p.id) == 1 && EventOf(p.id, p.given, now) in events
        else
          && Mentions(events, p.id) == 0 && s.expire == p.given.expire
          && (s.linked <==> p.given.linked || p.given.active)
    {
      hide Stands;
      Settled(p, StatusOf(p.id), trail, log, now);
    }

    /**
      Any sequence of turns; `trace` tells how things were between them.  Each turn does its part: what has an event
      is processed in that turn, what is timed is put on the wheel, what is signalled wakes up.  An item on the wheel
      for time `e` at any stage that nobody touches from then on is processed exactly once, as a timeout, in the first
      turn at or after `e`, however many turns and however far beyond the wheel's size that is; until then it is on
      the wheel for `e`, and afterwards it is not heard of again.
    */
    method Run(turns: seq<Turn>) returns (ghost trace: seq<Stage>)
      requires Valid() && timedOut == {} && wheel.start > 0 && Clocked(turns, wheel.start)
      modifies this, wheel
      ensures Valid() && timedOut == {} && old(log) <= log && old(trail) <= trail
      ensures |trace| == |turns| + 1 && trace[0] == old(Here()) && trace[|turns|] == Here()
      ensures TurnsDone(turns, trace, |turns|, log, trail)
      ensures KeptSince(turns, trace, |turns|, log)
      ensures forall x :: x in old(wheel.link) && NeverNamed(turns, x) ==>
        Kept(StatusOf(x), x, old(wheel.expire)[x], turns, log[|old(log)|..])
    {
      hide Kept, NeverNamed, Clocked, Turned, NeverEarly, TurnDone, TurnsDone, KeptSince, InTime, Unnamed, Mentions;
      LinkedAreTimed();
      HereFits();
      ghost var start0 := wheel.start;
      trace := [Here()];
      TraceStart(turns, trace, log, trail);
      hide Valid;
      for i := 0 to |turns|
        invariant Valid() && timedOut == {} && old(log) <= log && old(trail) <= trail && Here().Fit()
        invariant wheel.start == Previous(turns, start0, i)
        invariant |trace| == i + 1 && trace[0] == old(Here()) && trace[i] == Here()
        invariant TurnsDone(turns, trace, i, log, trail) && KeptSince(turns, trace, i, log)
      {
        ClockedAt(turns, start0, i);
        ghost var log0, trail0 := log, trail;
        TurnOnce(turns[i]) by { InTimeIs(turns[i], wheel.start); }
        HereFits();
        ghost var longer := trace + [Here()];
        TraceOn(turns, trace, longer, i, log0, trail0);
        KeptSinceOn(turns, longer, i, turns[i], longer[i], longer[i + 1], log0, log);
        TurnsDoneOn(turns, longer, i, log0, trail0, log, trail);
        trace := longer;
      }
      forall x | x in old(wheel.link) && NeverNamed(turns, x)
        ensures Kept(StatusOf(x), x, old(wheel.expire)[x], turns, log[|old(log)|..])
      {
        assert turns[0..|turns|] == turns;
        KeptFrom(turns, trace, |turns|, log, 0, x);
      }
    }

    lemma NoneMarked()
      requires Valid() && active == []
      ensures timedOut == {}
    {
    }

    lemma HeadIsTimed()
      requires Valid() && active != []
      ensures active[0] in wheel.expire
    {
    }

    lemma LinkedAreTimed()
      requires Valid()
      ensures forall x :: x in wheel.link ==> x in wheel.expire
    {
    }

    method StartCalls()
      requires Valid()
      modifies this`calls
      ensures Valid() && calls == 0
    {
      calls := 0;
    }
  }

  /** A wheel of two slots at time 10, with item 2 timed for 10 and item 1 for 100, beyond its end. */
  method TwoItems() returns (loop: EventLoop)
    ensures fresh(loop) && fresh(loop.wheel) && loop.Valid() && loop.active == [] && loop.log == [] && loop.trail == []
    ensures loop.wheel.start == 10 && loop.wheel.size == 2 && loop.timedOut == {} && loop.wheel.link.Keys == {1, 2}
    ensures loop.wheel.expire == map[2 := 10, 1 := 100]
    ensures Offset(loop.wheel.link[2], loop.wheel.startIdx, 2) == 0
    ensures Offset(loop.wheel.link[1], loop.wheel.startIdx, 2) == 1
  {
    hide Wheel.Valid, Offset;
    loop := new EventLoop(2, 10);
    loop.Time(2, 10, 10);
    loop.Time(1, 100, 10);
  }

  /** They come out in a round at 11, both marked, in the order of their slots. */
  method TwoTaken() returns (loop: EventLoop)
    ensures fresh(loop) && fresh(loop.wheel) && loop.Valid() && loop.active == [2, 1] && loop.timedOut == {1, 2}
    ensures loop.log == [] && loop.trail == [] && loop.calls == 0
    ensures loop.wheel.start == 11 && loop.wheel.link == map[] && loop.wheel.expire == map[2 := 10, 1 := 100]
  {
    hide Wheel.Valid, Offset;
    loop := TwoItems();
    loop.TakeAndJoin(11);
    assert loop.active[0..] == loop.active;
    TwoInOrder(loop.active, 2, 1);
    loop.StartCalls();
  }

  /** Item 1 on the active list, taken too early. */
  function Marked(): Status { Status(false, true, true, true, 100) }

  /** A signal can be lost.  Item 1, timed beyond the end of the wheel, comes out early in a round at 11 and is
      marked; item 2, whose time has come, is processed before it, and its coroutine signals item 1.  The mark
      stays, and instead of being processed item 1 goes back on the wheel. */
  method SignalLost() returns (loop: EventLoop)
    ensures loop.Valid() && loop.active == [] && loop.log == [Timeout(2, 10, 11)]
    ensures loop.trail == [Moment(Signal(1), Marked(), Marked(), 1)] && 1 in loop.wheel.link
  {
    hide Owed, EventLoop.Held, Wheel.Valid;
    loop := TwoTaken();
    var lp := loop.Process(11);
    assert loop.StatusOf(1) == Status(false, true, true, true, 100);
    loop.Perform(Signal(1), 11);
    forall x | x != 1 ensures x !in loop.active {
      assert !loop.StatusOf(x).active;
    }
    OnlyOne(loop.active, 1);
    assert loop.StatusOf(1) == Status(false, true, true, true, 100);
    loop.TakeActive(11, []);
  }

  lemma TwoInOrder(s: seq<Id>, a: Id, b: Id)
    requires NoDup(s) && Elems(s) == {a, b} && a != b
    ensures |s| == 2 && (s == [a, b] || s == [b, a])
  {
    NoDupSize(s);
  }

  lemma OnlyOne(s: seq<Id>, id: Id)
    requires NoDup(s) && id in s && forall x :: x in s ==> x == id
    ensures s == [id]
  {
    NoDupSize(s);
    assert Elems(s) == {id};
  }

  lemma AppendNoDup(a: seq<Id>, b: seq<Id>)
    ensures NoDup(a) && NoDup(b) && Elems(a) !! Elems(b) ==> NoDup(a + b)
    ensures Elems(a + b) == Elems(a) + Elems(b)
  {
    assert forall i :: 0 <= i < |a| ==> a[i] in Elems(a);
    assert forall i :: 0 <= i < |b| ==> b[i] in Elems(b);
  }

  lemma NoEvents(now: nat)
    ensures NeverEarly([], now)
  {
  }

  lemma EarlyConcat(a: seq<Event>, b: seq<Event>, now: nat)
    requires NeverEarly(a, now) && NeverEarly(b, now)
    ensures NeverEarly(a + b, now)
  {
  }

  lemma OneEvent(e: Event, now: nat)
    requires e.Timeout? ==> e.expire <= e.now == now
    ensures NeverEarly([e], now)
  {
  }

  /** Timeouts are processed at `now` and not before their time. */
  ghost predicate NeverEarly(round: seq<Event>, now: nat) {
    forall e :: e in round && e.Timeout? ==> e.expire <= e.now == now
  }

  /** What the coroutine resumed by call number `k` of the round does. */
  function OpsAt(script: seq<seq<Op>>, k: nat): seq<Op> {
    if k < |script| then script[k] else []
  }

  /** All that the first `k` of them do. */
  function Done(script: seq<seq<Op>>, k: nat): seq<Op> {
    if k == 0 then [] else Done(script, k - 1) + OpsAt(script, k - 1)
  }

  /** These entries record these operations. */
  ghost predicate Records(trail: seq<Moment>, ops: seq<Op>) {
    |trail| == |ops| && forall i :: 0 <= i < |ops| ==> trail[i].op == ops[i]
  }

  /** The entries from position `from` on record these operations, each with its effect; the log has `n` events. */
  ghost predicate Entered(trail: seq<Moment>, from: nat, ops: seq<Op>, n: nat, start: nat) {
    && |trail| == from + |ops|
    && (forall i :: 0 <= i < |ops| ==> trail[from + i].op == ops[i])
    && Effects(trail, from, start) && forall j :: from <= j < |trail| ==> trail[j].n == n
  }

  /** Each operation has its effect. */
  ghost predicate Effects(trail: seq<Moment>, from: nat, start: nat) {
    forall j :: from <= j < |trail| ==> trail[j].after == Apply(trail[j].before, trail[j].op, start)
  }

  lemma NoneEntered(trail: seq<Moment>, n: nat, start: nat)
    ensures Entered(trail, |trail|, [], n, start)
  {
  }

  lemma EnteredOn(trail: seq<Moment>, m: Moment, from: nat, ops: seq<Op>, i: nat, n: nat, start: nat)
    requires i < |ops| && Entered(trail, from, ops[..i], n, start)
    requires m.op == ops[i] && m.after == Apply(m.before, m.op, start) && m.n == n
    ensures Entered(trail + [m], from, ops[..i + 1], n, start)
  {
    hide Apply;
  }

  lemma UnnamedBefore(trail: seq<Moment>, m: Moment)
    ensures forall from: nat, x :: from <= |trail| ==>
      (Unnamed(trail + [m], from, x) <==> Unnamed(trail, from, x) && m.op.id != x)
  {
    forall from: nat, x | from <= |trail|
      ensures Unnamed(trail + [m], from, x) <==> Unnamed(trail, from, x) && m.op.id != x
    {
      assert (trail + [m])[|trail|] == m && forall j :: 0 <= j < |trail| ==> (trail + [m])[j] == trail[j];
    }
  }

  lemma SamePromises(before: seq<Moment>, trail: seq<Moment>, from: nat)
    requires from <= |before| && before <= trail
    ensures forall j :: from <= j < |before| ==> PromiseBy(trail, j) == PromiseBy(before, j)
  {
  }

  lemma RecordsOn(before: seq<Moment>, trail: seq<Moment>, from: nat, script: seq<seq<Op>>, k: nat)
    requires from <= |before| && before <= trail && Records(before[from..], Done(script, k))
    requires |trail| == |before| + |OpsAt(script, k)|
    requires forall i :: 0 <= i < |OpsAt(script, k)| ==> trail[|before| + i].op == OpsAt(script, k)[i]
    ensures Records(trail[from..], Done(script, k + 1))
  {
    hide Done, OpsAt;
    assert Done(script, k + 1) == Done(script, k) + OpsAt(script, k) by { DoneNext(script, k); }
    RecordsMore(before, trail, from, Done(script, k), OpsAt(script, k));
  }

  lemma RecordsMore(before: seq<Moment>, trail: seq<Moment>, from: nat, ops: seq<Op>, more: seq<Op>)
    requires from <= |before| && before <= trail && Records(before[from..], ops)
    requires |trail| == |before| + |more| && forall i :: 0 <= i < |more| ==> trail[|before| + i].op == more[i]
    ensures Records(trail[from..], ops + more)
  {
    var n := |before| - from;
    forall i | 0 <= i < |ops + more| ensures trail[from..][i].op == (ops + more)[i] {
      if i < n {
        assert trail[from..][i] == before[from..][i];
      } else {
        assert trail[from..][i] == trail[|before| + (i - n)];
      }
    }
  }

  lemma NoneDone(script: seq<seq<Op>>)
    ensures Records([], Done(script, 0))
  {
  }

  lemma DoneNext(script: seq<seq<Op>>, k: nat)
    ensures Done(script, k + 1) == Done(script, k) + OpsAt(script, k)
    ensures OpsAt(script, k) == if k < |script| then script[k] else []
  {
  }

  lemma OpsOf(script: seq<seq<Op>>, k: nat, now: nat)
    requires Adds(script, now)
    ensures forall op :: op in OpsAt(script, k) && op.Add? ==> op.at > 0 && op.expire > now
  {
  }

  /** Callbacks time items for later than `now` only. */
  ghost predicate Adds(script: seq<seq<Op>>, now: nat) {
    forall k, op :: 0 <= k < |script| && op in script[k] && op.Add? ==> op.at > 0 && op.expire > now
  }

  ghost predicate LeftAlone(script: seq<seq<Op>>, id: Id) {
    forall k, op :: 0 <= k < |script| && op in script[k] ==> op.id != id
  }
}
