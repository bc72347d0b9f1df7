/**
  The double-buffered log, demo/C++/AsyncLog.

  Producers call `Append`; one consumer thread moves through the phases of `threadFunc`.  Each method is
  one atomic step: it either holds the mutex or touches only what the consumer owns.  A buffer has one
  owner at a time, so it is the value of the field or list that owns it.
*/
module AsyncLog {

  type Bytes = seq<char>

  /** An owning pointer to a buffer. */
  datatype Owner = Absent | Present(data: Bytes)

  /** Where the consumer thread stands. */
  datatype Phase =
    | Top                      // before the critical section
    | Waiting                  // in waitForSeconds, mutex released
    | Exchanged                // past the critical section
    | Writing(done: nat)       // `done` buffers of the batch are in the file
    | Exited

  /** How some bytes were disposed of. */
  datatype Part = Kept(bytes: Bytes) | Dropped(bytes: Bytes) | Notice(bytes: Bytes)

  function Flat(buffers: seq<Bytes>): Bytes {
    if buffers == [] then [] else buffers[0] + Flat(buffers[1..])
  }

  lemma {:induction false} FlatConcat(a: seq<Bytes>, b: seq<Bytes>)
    ensures Flat(a + b) == Flat(a) + Flat(b)
  {
    if a == [] {
      assert a + b == b;
    } else {
      assert (a + b)[1..] == a[1..] + b;
      FlatConcat(a[1..], b);
    }
  }

  lemma FlatNil()
    ensures Flat([]) == []
  {
  }

  lemma FlatAppend(a: seq<Bytes>, b: Bytes)
    ensures Flat(a + [b]) == Flat(a) + b
  {
    FlatConcat(a, [b]);
    assert [b][1..] == [];
  }

  /** The bytes a ledger takes from the producers, in order. */
  function Accounted(ledger: seq<Part>): Bytes {
    if ledger == [] then []
    else
      var p := ledger[|ledger| - 1];
      Accounted(ledger[..|ledger| - 1]) + if p.Notice? then [] else p.bytes
  }

  /** The bytes a ledger puts in the file, in order. */
  function Output(ledger: seq<Part>): Bytes {
    if ledger == [] then []
    else
      var p := ledger[|ledger| - 1];
      Output(ledger[..|ledger| - 1]) + if p.Dropped? then [] else p.bytes
  }

  predicate AllKept(ledger: seq<Part>) {
    forall i :: 0 <= i < |ledger| ==> ledger[i].Kept?
  }

  /** With nothing dropped, the file holds what was taken, byte for byte. */
  lemma {:induction false} OutputIsAccounted(ledger: seq<Part>)
    requires AllKept(ledger)
    ensures Output(ledger) == Accounted(ledger)
  {
    if ledger != [] {
      OutputIsAccounted(ledger[..|ledger| - 1]);
    }
  }

  lemma LedgerAppend(ledger: seq<Part>, p: Part)
    ensures Accounted(ledger + [p]) == Accounted(ledger) + if p.Notice? then [] else p.bytes
    ensures Output(ledger + [p]) == Output(ledger) + if p.Dropped? then [] else p.bytes
  {
    assert (ledger + [p])[..|ledger|] == ledger;
  }

  /** Everything taken so far: disposed of, in the batch, lost by the batch, retired, current. */
  function InOrder(a: Bytes, t: Bytes, l: Bytes, b: Bytes, c: Bytes): Bytes {
    a + t + l + b + c
  }

  /** The ways bytes move from one place to the next without changing their order. */
  lemma Moves(a: Bytes, t: Bytes, l: Bytes, b: Bytes, c: Bytes, x: Bytes)
    ensures InOrder(a, t, l, b, c + x) == InOrder(a, t, l, b, c) + x
    ensures InOrder(a, t, l, b + c, []) == InOrder(a, t, l, b, c)
    ensures InOrder(a, b + c, [], [], []) == InOrder(a, [], [], b, c)
    ensures InOrder(a, t + x, [], b, c) == InOrder(a, t, x, b, c)
    ensures InOrder(a + x, t, l, b, c) == InOrder(a, x + t, l, b, c)
    ensures InOrder(a + l, [], [], b, c) == InOrder(a, [], l, b, c)
    ensures InOrder(a, [], [], b, c) == a + (b + c)
  {
    assert b + c + [] == b + c;
    assert a + [] == a && a + l + [] == a + l;
    assert (a + x) + t == a + (x + t) && (a + t) + x == a + (t + x);
    assert (a + b) + c == a + (b + c);
    assert (a + t + l + b) + (c + x) == a + t + l + b + c + x;
    assert (a + t + l) + (b + c) == a + t + l + b + c;
  }

  /** One step of some thread. */
  datatype Move =
    | Produce(line: Bytes)
    | Consume(text: Bytes)     // the consumer's next step; `text` is the notice, should it write one
    | Stop

  /** The line that a step appends, if it fits in a buffer. */
  function Line(m: Move, size: nat): Bytes {
    if m.Produce? && |m.line| < size then m.line else []
  }

  /** The bytes of the lines that fit in a buffer. */
  function Accepted(moves: seq<Move>, size: nat): Bytes {
    if moves == [] then [] else Accepted(moves[..|moves| - 1], size) + Line(moves[|moves| - 1], size)
  }

  /** No line that fits in a buffer, other than an empty one, is appended. */
  predicate Silent(moves: seq<Move>, size: nat) {
    forall i :: 0 <= i < |moves| && moves[i].Produce? && |moves[i].line| < size ==> moves[i].line == []
  }

  lemma {:induction false} SilentIsNothing(moves: seq<Move>, size: nat)
    ensures Accepted(moves, size) == [] <==> Silent(moves, size)
    decreases |moves|
  {
    if moves != [] {
      var first, last := moves[..|moves| - 1], moves[|moves| - 1];
      SilentIsNothing(first, size);
      assert moves == first + [last];
      assert forall i :: 0 <= i < |first| ==> first[i] == moves[i];
    }
  }

  // ---------- the log without its buffer stock ----------

  /** `spare` says that there is a next buffer. */
  datatype View = View(size: nat, running: bool, phase: Phase, current: Bytes, spare: bool,
                       buffers: seq<Bytes>, toWrite: seq<Bytes>, file: Bytes, overflows: nat)
  {
    function AfterAppend(line: Bytes): View {
      if |current| + |line| < size then this.(current := current + line)
      else this.(buffers := buffers + [current], spare := false, current := if |line| < size then line else [])
    }

    function AfterExchange(): View {
      this.(phase := Exchanged, toWrite := buffers + [current], buffers := [], current := [], spare := true)
    }

    function AfterConsume(text: Bytes): View {
      match phase
      case Top =>
        if !running then this.(phase := Exited)
        else if buffers == [] then this.(phase := Waiting)
        else AfterExchange()
      case Waiting => AfterExchange()
      case Exchanged =>
        if |toWrite| > 25 then
          this.(phase := Writing(0), toWrite := toWrite[..2], file := file + text, overflows := overflows + 1)
        else this.(phase := Writing(0))
      case Writing(done) =>
        if done < |toWrite| then this.(phase := Writing(done + 1), file := file + toWrite[done])
        else this.(phase := Top, toWrite := [])
      case Exited => this
    }

    function After(m: Move): View {
      match m
      case Produce(line) => AfterAppend(line)
      case Consume(text) => AfterConsume(text)
      case Stop => this.(running := false)
    }

    /** The step takes the consumer through its critical section. */
    predicate Exchanges(m: Move) {
      m.Consume? && (phase == Waiting || (phase == Top && running && buffers != []))
    }
  }

  /** A new log. */
  function Start(size: nat): View { View(size, true, Top, [], true, [], [], [], 0) }

  /** What producers have appended and the consumer has not taken. */
  function Buffered(v: View): Bytes { Flat(v.buffers) + v.current }

  function AfterAll(v: View, moves: seq<Move>): View {
    if moves == [] then v else AfterAll(v, moves[..|moves| - 1]).After(moves[|moves| - 1])
  }

  /** How many steps there are up to and including the last exchange. */
  function LastExchange(v: View, moves: seq<Move>): (n: nat)
    ensures n <= |moves|
  {
    if moves == [] then 0
    else if AfterAll(v, moves[..|moves| - 1]).Exchanges(moves[|moves| - 1]) then |moves|
    else LastExchange(v, moves[..|moves| - 1])
  }

  lemma StartOfRun(v: View, size: nat)
    ensures Accepted([], size) == [] && AfterAll(v, []) == v
  {
  }

  lemma Extend(v: View, moves: seq<Move>, i: nat)
    requires i < |moves|
    ensures AfterAll(v, moves[..i + 1]) == AfterAll(v, moves[..i]).After(moves[i])
    ensures forall size: nat :: Accepted(moves[..i + 1], size) == Accepted(moves[..i], size) + Line(moves[i], size)
  {
    assert moves[..i + 1][..i] == moves[..i];
  }

  /** What is buffered is exactly what was appended since the last exchange. */
  lemma {:induction false} BufferedIsRecent(v: View, moves: seq<Move>)
    requires Buffered(v) == [] && 0 < v.size
    ensures AfterAll(v, moves).size == v.size
    ensures Buffered(AfterAll(v, moves)) == Accepted(moves[LastExchange(v, moves)..], v.size)
    decreases |moves|
  {
    if moves != [] {
      var first, m := moves[..|moves| - 1], moves[|moves| - 1];
      assert moves == first + [m];
      BufferedIsRecent(v, first);
      RecentOn(v, first, m);
    }
  }

  lemma RecentOn(v: View, moves: seq<Move>, m: Move)
    requires 0 < v.size == AfterAll(v, moves).size
    requires Buffered(AfterAll(v, moves)) == Accepted(moves[LastExchange(v, moves)..], v.size)
    ensures AfterAll(v, moves + [m]).size == v.size
    ensures Buffered(AfterAll(v, moves + [m])) == Accepted((moves + [m])[LastExchange(v, moves + [m])..], v.size)
  {
    hide *;
    var u, k := AfterAll(v, moves), LastExchange(v, moves);
    Next(v, moves, m);
    LastNext(v, moves, m);
    BufferedOnce(u, m);
    if u.Exchanges(m) {
      assert (moves + [m])[|moves| + 1..] == [];
      StartOfRun(v, v.size);
    } else {
      assert (moves + [m])[k..] == moves[k..] + [m];
      AcceptedAppend(moves[k..], m, v.size);
    }
  }

  lemma LastNext(v: View, moves: seq<Move>, m: Move)
    ensures LastExchange(v, moves + [m]) ==
      if AfterAll(v, moves).Exchanges(m) then |moves| + 1 else LastExchange(v, moves)
  {
    assert (moves + [m])[..|moves|] == moves;
  }

  /** Every exchange of the schedule hands over at most 25 buffers, the current one included. */
  predicate SmallBatches(v: View, moves: seq<Move>) {
    forall i :: 0 <= i < |moves| && AfterAll(v, moves[..i]).Exchanges(moves[i]) ==>
      |AfterAll(v, moves[..i]).buffers| + 1 <= 25
  }

  /** Then no batch overflows. */
  lemma {:induction false} SmallBatchesFit(v: View, moves: seq<Move>)
    requires SmallBatches(v, moves) && v.overflows == 0 && (v.phase == Exchanged ==> |v.toWrite| <= 25)
    ensures var w := AfterAll(v, moves); w.overflows == 0 && (w.phase == Exchanged ==> |w.toWrite| <= 25)
    decreases |moves|
  {
    if moves != [] {
      var n := |moves| - 1;
      SmallPrefix(v, moves, n);
      SmallBatchesFit(v, moves[..n]);
      FitStep(AfterAll(v, moves[..n]), moves[n]);
      hide View.After;
    }
  }

  lemma SmallPrefix(v: View, moves: seq<Move>, n: nat)
    requires SmallBatches(v, moves) && n <= |moves|
    ensures SmallBatches(v, moves[..n])
    ensures n < |moves| && AfterAll(v, moves[..n]).Exchanges(moves[n]) ==> |AfterAll(v, moves[..n]).buffers| + 1 <= 25
  {
    hide AfterAll, View.Exchanges;
    var first := moves[..n];
    forall i | 0 <= i < |first| && AfterAll(v, first[..i]).Exchanges(first[i])
      ensures |AfterAll(v, first[..i]).buffers| + 1 <= 25
    {
      assert first[..i] == moves[..i] && first[i] == moves[i];
    }
  }

  lemma FitStep(u: View, m: Move)
    requires u.overflows == 0 && (u.phase == Exchanged ==> |u.toWrite| <= 25)
    requires u.Exchanges(m) ==> |u.buffers| + 1 <= 25
    ensures u.After(m).overflows == 0 && (u.After(m).phase == Exchanged ==> |u.After(m).toWrite| <= 25)
  {
  }

  lemma AcceptedAppend(moves: seq<Move>, m: Move, size: nat)
    ensures Accepted(moves + [m], size) == Accepted(moves, size) + Line(m, size)
  {
    assert (moves + [m])[..|moves|] == moves;
  }

  lemma BufferedOnce(u: View, m: Move)
    requires 0 < u.size
    ensures u.After(m).size == u.size
    ensures Buffered(u.After(m)) == if u.Exchanges(m) then [] else Buffered(u) + Line(m, u.size)
  {
    if m.Produce? && |u.current| + |m.line| >= u.size {
      FlatAppend(u.buffers, u.current);
    }
  }

  /** One more step. */
  lemma Next(v: View, moves: seq<Move>, m: Move)
    ensures AfterAll(v, moves + [m]) == AfterAll(v, moves).After(m)
    ensures Accepted(moves + [m], v.size) == Accepted(moves, v.size) + Line(m, v.size)
  {
    assert (moves + [m])[..|moves|] == moves;
  }

  /** Every accepted byte is accounted for, in order: disposed of, in the batch, lost by it, or still buffered. */
  ghost predicate Conserved(accepted: Bytes, file: Bytes, overflows: nat, ledger: seq<Part>,
                            batch: seq<Bytes>, lost: seq<Bytes>, buffers: seq<Bytes>, current: Bytes)
  {
    && accepted == InOrder(Accounted(ledger), Flat(batch), Flat(lost), Flat(buffers), current)
    && file == Output(ledger)
    && (overflows == 0 ==> AllKept(ledger) && lost == [])
  }

  lemma ConservedAppend(accepted: Bytes, file: Bytes, overflows: nat, ledger: seq<Part>, batch: seq<Bytes>,
      lost: seq<Bytes>,
                        buffers: seq<Bytes>, current: Bytes, line: Bytes)
    requires Conserved(accepted, file, overflows, ledger, batch, lost, buffers, current)
    ensures Conserved(accepted + line, file, overflows, ledger, batch, lost, buffers, current + line)
    ensures Conserved(accepted + line, file, overflows, ledger, batch, lost, buffers + [current], line)
    ensures Conserved(accepted, file, overflows, ledger, batch, lost, buffers + [current], [])
    ensures Flat(buffers) + (current + line) == Flat(buffers) + current + line
    ensures Flat(buffers + [current]) + line == Flat(buffers) + current + line
  {
    FlatAppend(buffers, current);
    hide InOrder, Flat, Accounted, Output, AllKept;
    Moves(Accounted(ledger), Flat(batch), Flat(lost), Flat(buffers), current, line);
    Moves(Accounted(ledger), Flat(batch), Flat(lost), Flat(buffers) + current, [], line);
    assert [] + line == line;
  }

  lemma ConservedExchange(accepted: Bytes, file: Bytes, overflows: nat, ledger: seq<Part>, buffers: seq<Bytes>,
      current: Bytes)
    requires Conserved(accepted, file, overflows, ledger, [], [], buffers, current)
    ensures Conserved(accepted, file, overflows, ledger, buffers + [current], [], [], [])
    ensures overflows == 0 ==> accepted == file + (Flat(buffers) + current)
  {
    FlatAppend(buffers, current);
    FlatNil();
    if overflows == 0 { OutputIsAccounted(ledger); }
    hide InOrder, Flat, Accounted, Output, AllKept;
    Moves(Accounted(ledger), [], [], Flat(buffers), current, []);
  }

  lemma ConservedTrim(accepted: Bytes, file: Bytes, overflows: nat, ledger: seq<Part>, batch: seq<Bytes>,
                      buffers: seq<Bytes>, current: Bytes, text: Bytes)
    requires Conserved(accepted, file, overflows, ledger, batch, [], buffers, current) && |batch| > 2
    ensures Conserved(accepted, file + text, overflows + 1, ledger + [Notice(text)], batch[..2], batch[2..], buffers,
        current)
  {
    LedgerAppend(ledger, Notice(text));
    FlatConcat(batch[..2], batch[2..]);
    assert batch == batch[..2] + batch[2..];
    FlatNil();
    hide InOrder, Flat, Accounted, Output, AllKept;
    Moves(Accounted(ledger), Flat(batch[..2]), [], Flat(buffers), current, Flat(batch[2..]));
    assert Accounted(ledger) + [] == Accounted(ledger);
  }

  lemma ConservedWrite(accepted: Bytes, file: Bytes, overflows: nat, ledger: seq<Part>, b: Bytes, rest: seq<Bytes>,
                       lost: seq<Bytes>, buffers: seq<Bytes>, current: Bytes)
    requires Conserved(accepted, file, overflows, ledger, [b] + rest, lost, buffers, current)
    ensures Conserved(accepted, file + b, overflows, ledger + [Kept(b)], rest, lost, buffers, current)
  {
    LedgerAppend(ledger, Kept(b));
    FlatConcat([b], rest);
    FlatAppend([], b);
    FlatNil();
    assert [] + [b] == [b] && [] + b == b;
    hide InOrder, Flat, Accounted, Output;
    Moves(Accounted(ledger), Flat(rest), Flat(lost), Flat(buffers), current, b);
  }

  lemma ConservedRecycle(accepted: Bytes, file: Bytes, overflows: nat, ledger: seq<Part>,
                         lost: seq<Bytes>, buffers: seq<Bytes>, current: Bytes)
    requires Conserved(accepted, file, overflows, ledger, [], lost, buffers, current)
    ensures var later := if lost == [] then ledger else ledger + [Dropped(Flat(lost))];
      Conserved(accepted, file, overflows, later, [], [], buffers, current)
  {
    LedgerAppend(ledger, Dropped(Flat(lost)));
    FlatNil();
    hide InOrder, Flat, Accounted, Output, AllKept;
    Moves(Accounted(ledger), [], Flat(lost), Flat(buffers), current, []);
    assert Output(ledger) + [] == Output(ledger);
  }

  class AsyncLogging {
    const size: nat
    var running: bool
    var current: Bytes
    var next: Owner
    var buffers: seq<Bytes>
    // owned by the consumer
    var newBuffer1: Owner
    var newBuffer2: Owner
    var toWrite: seq<Bytes>
    var phase: Phase
    var file: Bytes

    // every line shorter than a buffer, in the order of the calls
    ghost var accepted: Bytes
    // how accepted bytes left the buffers, and the buffers the batch in hand lost
    ghost var ledger: seq<Part>
    ghost var lost: seq<Bytes>
    // batches of more than 25 buffers so far
    ghost var overflows: nat

    ghost function State(): View
      reads this
    {
      View(size, running, phase, current, next != Absent, buffers, toWrite, file, overflows)
    }

    /** The part of the batch that is not yet in the file. */
    ghost function Unwritten(): seq<Bytes>
      reads this
    {
      if phase.Writing? && phase.done <= |toWrite| then toWrite[phase.done..] else toWrite
    }

    /** The consumer's own buffers, phase by phase. */
    ghost predicate ConsumerOk()
      reads this
    {
      match phase
      case Exchanged =>
        && toWrite != [] && lost == []
        && newBuffer1 == Absent && (newBuffer2 == Absent ==> |toWrite| >= 2)
        && (newBuffer2 != Absent ==> newBuffer2 == Present([]))
      case Writing(done) =>
        && toWrite != [] && done <= |toWrite| <= 25
        && newBuffer1 == Absent && (newBuffer2 == Absent ==> |toWrite| >= 2)
        && (newBuffer2 != Absent ==> newBuffer2 == Present([]))
      case _ => newBuffer1 == Present([]) && newBuffer2 == Present([]) && toWrite == [] && lost == []
    }

    ghost predicate Valid()
      reads this
    {
      && 0 < size && |current| < size
      && (forall i :: 0 <= i < |buffers| ==> |buffers[i]| < size)
      && (next == Absent ==> buffers != [])
      && (next != Absent ==> next == Present([]))
      && (phase == Exited ==> !running)
      && ConsumerOk()
      && Conserved(accepted, file, overflows, ledger, Unwritten(), lost, buffers, current)
    }

    constructor (size: nat)
      requires 0 < size
      ensures Valid() && running && phase == Top && this.size == size
      ensures accepted == [] && State() == Start(size)
    {
      this.size := size;
      running := true;
      current, next, buffers := [], Present([]), [];
      newBuffer1, newBuffer2, toWrite := Present([]), Present([]), [];
      phase, file := Top, [];
      accepted, ledger, lost, overflows := [], [], [], 0;
    }

    /**
      AsyncLogging::append.  A line shorter than a buffer is taken whole, whichever buffer it lands in;
      a longer one is not taken at all, though it may still retire the current buffer.
    */
    method Append(line: Bytes)
      requires Valid()
      modifies this`current, this`next, this`buffers, this`accepted
      ensures Valid()
      ensures accepted == old(accepted) + if |line| < size then line else []
      ensures Flat(buffers) + current == old(Flat(buffers) + current) + if |line| < size then line else []
      ensures State() == old(State()).AfterAppend(line)
    {
      hide Conserved, Flat;
      ConservedAppend(accepted, file, overflows, ledger, Unwritten(), lost, buffers, current, line);
      ConservedAppend(accepted, file, overflows, ledger, Unwritten(), lost, buffers, current, []);
      assert [] + line == line && accepted + [] == accepted;
      if size - |current| > |line| {
        current := current + line;
      } else {
        buffers := buffers + [current];
        if next != Absent {
          current, next := next.data, Absent;
        } else {
          current := [];
        }
        if size - |current| > |line| {
          current := current + line;
        }
      }
      accepted := accepted + if |line| < size then line else [];
    }

    /** The top of the loop: leave it, wait, or go straight through the critical section. */
    method Enter()
      requires Valid() && phase == Top
      modifies this`buffers, this`current, this`next, this`newBuffer1, this`newBuffer2, this`toWrite, this`phase
      ensures Valid()
      ensures State() == old(State()).AfterConsume([])
      ensures phase == Exited && overflows == 0 ==> accepted == file + (Flat(buffers) + current)
    {
      hide Conserved, Flat;
      if !running {
        ConservedExchange(accepted, file, overflows, ledger, buffers, current);
        phase := Exited;
        return;
      }
      assert newBuffer1 != Absent && |newBuffer1.data| == 0;
      assert newBuffer2 != Absent && |newBuffer2.data| == 0;
      assert toWrite == [];
      if buffers == [] {
        phase := Waiting;
      } else {
        Exchange();
      }
    }

    /** The wait is over, by a signal or by the clock, and the mutex is held again. */
    method Wake()
      requires Valid() && phase == Waiting
      modifies this`buffers, this`current, this`next, this`newBuffer1, this`newBuffer2, this`toWrite, this`phase
      ensures Valid()
      ensures State() == old(State()).AfterExchange()
    {
      Exchange();
    }

    /** The buffers change hands. */
    method HandOver()
      requires newBuffer1 != Absent
      modifies this`buffers, this`current, this`next, this`newBuffer1, this`newBuffer2, this`toWrite, this`phase
      ensures phase == Exchanged && toWrite == old(buffers) + [old(current)] && buffers == old(toWrite)
      ensures current == old(newBuffer1).data && newBuffer1 == Absent
      ensures next == if old(next) == Absent then old(newBuffer2) else old(next)
      ensures newBuffer2 == if old(next) == Absent then Absent else old(newBuffer2)
    {
      buffers := buffers + [current];
      current, newBuffer1 := newBuffer1.data, Absent;
      toWrite, buffers := buffers, toWrite;
      if next == Absent {
        next, newBuffer2 := newBuffer2, Absent;
      }
      phase := Exchanged;
    }

    /** The rest of the critical section: all that is buffered goes to the consumer, for an empty buffer or two. */
    method Exchange()
      requires Valid() && (phase == Top || phase == Waiting)
      modifies this`buffers, this`current, this`next, this`newBuffer1, this`newBuffer2, this`toWrite, this`phase
      ensures Valid()
      ensures State() == old(State()).AfterExchange()
    {
      hide Conserved, ConsumerOk, Unwritten;
      Stocked();
      ConservedExchange(accepted, file, overflows, ledger, buffers, current);
      HandOver();
      assert toWrite != [];
      JustExchanged();
    }

    lemma Stocked()
      requires Valid() && (phase == Top || phase == Waiting)
      ensures newBuffer1 == Present([]) && newBuffer2 == Present([]) && toWrite == [] && lost == [] && Unwritten() == []
    {
    }

    lemma JustExchanged()
      requires phase == Exchanged && toWrite != [] && lost == [] && newBuffer1 == Absent
      requires (newBuffer2 == Absent ==> |toWrite| >= 2) && (newBuffer2 != Absent ==> newBuffer2 == Present([]))
      ensures ConsumerOk() && Unwritten() == toWrite
    {
    }

    /** A batch of more than 25 buffers keeps its first two, behind a notice. */
    method Trim(text: Bytes)
      requires Valid() && phase == Exchanged
      modifies this`phase, this`file, this`ledger, this`lost, this`toWrite, this`overflows
      ensures Valid() && phase == Writing(0)
      ensures |old(toWrite)| <= 25 ==> toWrite == old(toWrite) && file == old(file) && overflows == old(overflows)
      ensures |old(toWrite)| > 25 ==>
        toWrite == old(toWrite)[..2] && file == old(file) + text && overflows == old(overflows) + 1
      ensures State() == old(State()).AfterConsume(text)
    {
      hide Conserved;
      phase := Writing(0);
      assert toWrite[0..] == toWrite;
      if |toWrite| > 25 {
        ConservedTrim(accepted, file, overflows, ledger, toWrite, buffers, current, text);
        file := file + text;
        ledger := ledger + [Notice(text)];
        lost := toWrite[2..];
        toWrite := toWrite[..2];
        overflows := overflows + 1;
        assert toWrite[0..] == toWrite;
      }
    }

    /** One buffer of the batch goes to the file. */
    method WriteOne()
      requires Valid() && phase.Writing? && phase.done < |toWrite|
      modifies this`phase, this`file, this`ledger
      ensures Valid()
      ensures phase == Writing(old(phase.done) + 1) && file == old(file) + toWrite[old(phase.done)]
      ensures State() == old(State()).AfterConsume([])
    {
      hide Conserved;
      var b := toWrite[phase.done];
      ghost var rest := toWrite[phase.done + 1..];
      assert Unwritten() == [b] + rest;
      ConservedWrite(accepted, file, overflows, ledger, b, rest, lost, buffers, current);
      file := file + b;
      ledger := ledger + [Kept(b)];
      phase := Writing(phase.done + 1);
      assert Unwritten() == rest;
    }

    /** The written batch gives back the buffers that the exchange took. */
    method Refill()
      requires newBuffer1 == Absent && toWrite != [] && (newBuffer2 == Absent ==> |toWrite| >= 2)
      modifies this`newBuffer1, this`newBuffer2, this`toWrite
      ensures newBuffer1 == Present([]) && toWrite == []
      ensures newBuffer2 == if old(newBuffer2) == Absent then Present([]) else old(newBuffer2)
    {
      if |toWrite| > 2 {
        toWrite := toWrite[..2];
      }
      if newBuffer1 == Absent {
        assert toWrite != [];
        toWrite := toWrite[..|toWrite| - 1];
        newBuffer1 := Present([]);
      }
      if newBuffer2 == Absent {
        assert toWrite != [];
        toWrite := toWrite[..|toWrite| - 1];
        newBuffer2 := Present([]);
      }
      toWrite := [];
    }

    /** The batch is written: two of its buffers refill the consumer's stock. */
    method Recycle()
      requires Valid() && phase.Writing? && phase.done == |toWrite|
      modifies this`phase, this`ledger, this`lost, this`toWrite, this`newBuffer1, this`newBuffer2
      ensures Valid()
      ensures State() == old(State()).AfterConsume([])
    {
      hide Conserved, Flat;
      assert toWrite[|toWrite|..] == [];
      ConservedRecycle(accepted, file, overflows, ledger, lost, buffers, current);
      if lost != [] {
        ledger := ledger + [Dropped(Flat(lost))];
      }
      lost := [];
      Refill();
      phase := Top;
    }

    /** AsyncLogging::stop, up to the join. */
    method Stop()
      requires Valid()
      modifies this`running
      ensures Valid() && !running
    {
      running := false;
    }

    /** The consumer's next step, whatever it is. */
    method ConsumerStep(text: Bytes)
      requires Valid()
      modifies this
      ensures Valid() && accepted == old(accepted)
      ensures State() == old(State()).AfterConsume(text)
    {
      match phase
      case Top => Enter();
      case Waiting => Wake();
      case Exchanged => Trim(text);
      case Writing(done) => if done < |toWrite| { WriteOne(); } else { Recycle(); }
      case Exited =>
    }

    /**
      Any interleaving of the threads.  As long as no batch exceeded 25 buffers the file and the buffers
      hold, in order and byte for byte, every line that fits in a buffer.  What is still buffered is what was
      appended since the last exchange; so once the consumer has left its loop, the file is complete exactly
      when nothing was appended after that.
    */
    method Run(moves: seq<Move>)
      requires Valid() && accepted == []
      modifies this
      ensures Valid() && accepted == Accepted(moves, size) && State() == AfterAll(old(State()), moves)
      ensures overflows == 0 ==>
        InOrder(file, Flat(Unwritten()), [], Flat(buffers), current) == Accepted(moves, size)
      ensures SmallBatches(old(State()), moves) && old(overflows == 0 && (phase == Exchanged ==> |toWrite| <= 25)) ==>
        overflows == 0
      ensures Flat(buffers) + current == Accepted(moves[LastExchange(old(State()), moves)..], size)
      ensures overflows == 0 && phase == Exited ==>
        (file == Accepted(moves, size) <==> Silent(moves[LastExchange(old(State()), moves)..], size))
    {
      hide Valid, Accepted, AfterAll, LastExchange, InOrder, SmallBatches;
      ghost var v := State();
      NothingAccepted();
      StartOfRun(v, size);
      assert moves[..0] == [];
      for i := 0 to |moves|
        invariant Valid() && accepted == Accepted(moves[..i], size) && State() == AfterAll(v, moves[..i])
      {
        Extend(v, moves, i);
        match moves[i] {
          case Produce(line) => Append(line);
          case Consume(text) => ConsumerStep(text);
          case Stop => Stop();
        }
      }
      assert moves[..|moves|] == moves;
      BufferedIsRecent(v, moves);
      SilentIsNothing(moves[LastExchange(v, moves)..], size);
      if SmallBatches(v, moves) && v.overflows == 0 && (v.phase == Exchanged ==> |v.toWrite| <= 25) {
        SmallBatchesFit(v, moves);
      }
      AllThere();
    }

    lemma NothingAccepted()
      requires Valid() && accepted == []
      ensures Flat(buffers) + current == [] && size > 0
    {
    }

    /** Without an overflow the file and what is in hand make up everything accepted. */
    lemma AllThere()
      requires Valid()
      ensures overflows == 0 ==> InOrder(file, Flat(Unwritten()), [], Flat(buffers), current) == accepted
      ensures overflows == 0 && phase == Exited ==> (file == accepted <==> Flat(buffers) + current == [])
    {
      FlatNil();
      hide Flat, InOrder, Accounted, Output;
      if overflows == 0 {
        OutputIsAccounted(ledger);
        Moves(Accounted(ledger), Flat(Unwritten()), Flat(lost), Flat(buffers), current, []);
      }
    }
  }

  /** A schedule in which a line is appended while the consumer is writing, just before the stop. */
  const LOSING: seq<Move> :=
    [Produce("a"), Consume([]), Consume([]), Produce("b"), Stop, Consume([]), Consume([]), Consume([]), Consume([])]

  lemma LosingSchedule()
    ensures AfterAll(Start(8), LOSING) == View(8, false, Exited, "b", true, [], [], "a", 0)
    ensures Accepted(LOSING, 8) == "ab"
  {
    hide AfterAll, Accepted;
    StartOfRun(Start(8), 8);
    var v1 := View(8, true, Top, "a", true, [], [], [], 0);
    var moves := Go([], Produce("a"), Start(8), v1, [], "a");
    var v2 := v1.(phase := Waiting);
    moves := Go(moves, Consume([]), v1, v2, "a", "a");
    var v3 := View(8, true, Exchanged, [], true, [], ["a"], [], 0);
    moves := Go(moves, Consume([]), v2, v3, "a", "a");
    var v4 := v3.(current := "b");
    moves := Go(moves, Produce("b"), v3, v4, "a", "ab");
    var v5 := v4.(running := false);
    moves := Go(moves, Stop, v4, v5, "ab", "ab");
    var v6 := v5.(phase := Writing(0));
    moves := Go(moves, Consume([]), v5, v6, "ab", "ab");
    var v7 := v6.(phase := Writing(1), file := "a");
    moves := Go(moves, Consume([]), v6, v7, "ab", "ab");
    var v8 := v7.(phase := Top, toWrite := []);
    moves := Go(moves, Consume([]), v7, v8, "ab", "ab");
    moves := Go(moves, Consume([]), v8, v8.(phase := Exited), "ab", "ab");
    assert moves == LOSING;
  }

  lemma Go(moves: seq<Move>, m: Move, u: View, w: View, a: Bytes, b: Bytes) returns (longer: seq<Move>)
    requires AfterAll(Start(8), moves) == u && Accepted(moves, 8) == a
    requires w == u.After(m) && b == a + Line(m, 8)
    ensures longer == moves + [m] && AfterAll(Start(8), longer) == w && Accepted(longer, 8) == b
  {
    longer := moves + [m];
    Next(Start(8), moves, m);
  }

  /**
    Stopping does not drain the log: a line appended while the consumer is writing, just before the
    stop, is in no file when the consumer has left.
  */
  method StopLosesLine() returns (log: AsyncLogging)
    ensures log.phase == Exited && log.overflows == 0
    ensures log.accepted == "ab" && log.file == "a"
  {
    LosingSchedule();
    log := new AsyncLogging(8);
    log.Run(LOSING);
  }
}
