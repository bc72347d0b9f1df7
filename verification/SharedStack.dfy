/**
 The shared-stack protocol of the coroutine runtime: several coroutines take turns on one stack
 memory, and whoever is displaced has the live part of its stack copied out and, when it is resumed,
 copied back. Addresses are offsets into a stack memory; the live part is from `sp` to its end.
 */
module SharedStack {
  import opened NodeLists
  import opened Options

  type CoId = nat     // 0 is NULL
  type StackId = nat
  type Byte = nat

  const NULL: CoId := 0
  const MAX_CALLSTACK := 128

  datatype Buffer = NoBuffer | Saved(bytes: seq<Byte>)

  /** The fields of stCoRoutine_t that the protocol uses. */
  datatype Co = Co(shared: bool, stack: StackId, start: bool, end: bool, sp: nat, save: Buffer)

  type Cos = map<CoId, Co>
  type Stacks = map<StackId, seq<Byte>>
  type Occupy = map<StackId, CoId>       // occupy_co of every stack memory
  type Left = map<CoId, seq<Byte>>       // the live bytes each coroutine left at its last switch-out

  /** The bytes of `x`'s stack memory from its stack pointer on. */
  ghost function Live(cos: Cos, mem: Stacks, x: CoId): seq<Byte>
    requires x in cos && cos[x].stack in mem && cos[x].sp <= |mem[cos[x].stack]|
  {
    mem[cos[x].stack][cos[x].sp..]
  }

  /** A switched-out coroutine can get back the bytes it left: they are still in place if nobody else
      uses its stack memory or it was the last to use it, and in its save buffer otherwise. */
  ghost predicate Kept(cos: Cos, mem: Stacks, occupy: Occupy, left: Left, x: CoId)
    requires x in cos && cos[x].stack in mem && mem.Keys == occupy.Keys && x in left
  {
    && cos[x].sp <= |mem[cos[x].stack]|
    && |left[x]| == |mem[cos[x].stack]| - cos[x].sp
    && (if !cos[x].shared || occupy[cos[x].stack] == x then Live(cos, mem, x) == left[x]
        else cos[x].save == Saved(left[x]))
  }

  /** Stack memories exist, private ones have one user, and an occupant is a live shared coroutine. */
  ghost predicate Wired(cos: Cos, mem: Stacks, occupy: Occupy) {
    && NULL !in cos && mem.Keys == occupy.Keys
    && (forall x :: x in cos ==> cos[x].stack in mem)
    && (forall x, y :: x in cos && y in cos && x != y && cos[x].stack == cos[y].stack ==>
        cos[x].shared && cos[y].shared)
    && (forall s :: s in occupy && occupy[s] != NULL ==>
          occupy[s] in cos && cos[occupy[s]].shared && cos[occupy[s]].stack == s)
  }

  /** Everyone who has been switched out, other than those in `except`, can get back its bytes. */
  ghost predicate AllKept(cos: Cos, mem: Stacks, occupy: Occupy, left: Left, except: set<CoId>) {
    && Wired(cos, mem, occupy)
    && (forall x :: x in left ==> x in cos)
    && (forall s :: s in occupy && occupy[s] != NULL && occupy[s] !in except ==> occupy[s] in left)
    && (forall x :: x in left && x !in except ==> Kept(cos, mem, occupy, left, x))
  }

  /** Everything that holds while `run` is running: a shared coroutine occupies its stack memory. */
  ghost predicate Safe(cos: Cos, mem: Stacks, occupy: Occupy, left: Left, run: CoId) {
    && AllKept(cos, mem, occupy, left, {run})
    && run in cos && (cos[run].shared ==> occupy[cos[run].stack] == run)
  }

  /** The call stack holds started coroutines, and all started ones but the running one have been
      switched out. */
  ghost predicate Booked(callStack: seq<CoId>, cos: Cos, left: Left) {
    && 1 <= |callStack| <= MAX_CALLSTACK && NoDup(callStack)
    && (forall x :: x in callStack ==> x in cos && cos[x].start)
    && (forall x :: x in cos && cos[x].start && x != callStack[|callStack| - 1] ==> x in left)
    && (forall x :: x in left ==> x in cos && cos[x].start)
  }

  lemma BookedPush(callStack: seq<CoId>, cos: Cos, left: Left, x: CoId, cos': Cos, bytes: seq<Byte>)
    requires Booked(callStack, cos, left) && x in cos && x !in callStack && |callStack| < MAX_CALLSTACK
    requires cos'.Keys == cos.Keys && forall y :: y in cos ==> cos'[y].start == (y == x || cos[y].start)
    ensures Booked(callStack + [x], cos', left[callStack[|callStack| - 1] := bytes])
    ensures x in left <==> cos[x].start
  {
  }

  lemma BookedPop(callStack: seq<CoId>, cos: Cos, left: Left, cos': Cos, bytes: seq<Byte>)
    requires Booked(callStack, cos, left) && |callStack| >= 2
    requires cos'.Keys == cos.Keys && forall y :: y in cos ==> cos'[y].start == cos[y].start
    ensures Booked(callStack[..|callStack| - 1], cos', left[callStack[|callStack| - 1] := bytes])
    ensures callStack[|callStack| - 2] in left
  {
  }

  /** What the program on one thread may do. */
  datatype Op =
    | OpCreate(x: CoId, shared: bool, stack: StackId, bytes: seq<Byte>)
    | OpCompute(bytes: seq<Byte>)
    | OpResume(x: CoId, sp: nat)
    | OpYield(sp: nat)
    | OpFinish(sp: nat)
    | OpRelease(x: CoId)

  /** A coroutine is switched out with these live bytes, continues with these live bytes, or is released. */
  datatype Event = Out(x: CoId, bytes: seq<Byte>) | In(x: CoId, bytes: seq<Byte>) | Gone(x: CoId)

  /** The bytes a coroutine had at its last switch-out. */
  function LastOut(log: seq<Event>, x: CoId): Option<seq<Byte>> {
    if log == [] then None else OutAfter(LastOut(log[..|log| - 1], x), log[|log| - 1], x)
  }

  function OutAfter(last: Option<seq<Byte>>, e: Event, x: CoId): Option<seq<Byte>> {
    if e == Gone(x) then None else if e.Out? && e.x == x then Some(e.bytes) else last
  }

  /** Whoever continues does so with the bytes of its own last switch-out. */
  ghost predicate Faithful(log: seq<Event>) {
    forall i :: 0 <= i < |log| && log[i].In? ==> LastOut(log[..i], log[i].x) == Some(log[i].bytes)
  }

  /** `left` is what the log says. */
  ghost predicate Tracks(left: Left, log: seq<Event>) {
    forall x: CoId :: LastOut(log, x) == (if x in left then Some(left[x]) else None)
  }

  lemma LogOut(left: Left, log: seq<Event>, x: CoId, bytes: seq<Byte>)
    requires Tracks(left, log) && Faithful(log)
    ensures Tracks(left[x := bytes], log + [Out(x, bytes)]) && Faithful(log + [Out(x, bytes)])
  {
    LogGrows(log, Out(x, bytes));
  }

  lemma LogIn(left: Left, log: seq<Event>, x: CoId)
    requires Tracks(left, log) && Faithful(log) && x in left
    ensures Tracks(left, log + [In(x, left[x])]) && Faithful(log + [In(x, left[x])])
  {
    LogGrows(log, In(x, left[x]));
  }

  lemma LogGone(left: Left, log: seq<Event>, x: CoId)
    requires Tracks(left, log) && Faithful(log)
    ensures Tracks(left - {x}, log + [Gone(x)]) && Faithful(log + [Gone(x)])
  {
    LogGrows(log, Gone(x));
  }

  lemma LogGrows(log: seq<Event>, e: Event)
    ensures (log + [e])[..|log|] == log
    ensures forall i :: 0 <= i <= |log| ==> (log + [e])[..i] == log[..i]
    ensures forall x: CoId :: LastOut(log + [e], x) == OutAfter(LastOut(log, x), e, x)
  {
    assert (log + [e])[..|log|] == log;
  }

  // ---------- who leaves and who continues ----------

  /** A coroutine without its stack. */
  datatype Mark = Mark(shared: bool, stack: StackId, start: bool, end: bool)

  function MarkOf(co: Co): Mark { Mark(co.shared, co.stack, co.start, co.end) }

  function MarksOf(cos: Cos): map<CoId, Mark> { map x | x in cos :: MarkOf(cos[x]) }

  function SizesOf(mem: Stacks): map<StackId, nat> { map s | s in mem :: |mem[s]| }

  /** What an operation should put in the log; the bytes are given where the program itself has just written them. */
  datatype Expected = Leaves(x: CoId, bytes: Option<seq<Byte>>) | Continues(x: CoId) | Released(x: CoId)

  /** The runtime as if every coroutine had a stack of its own: `top` is what the running one has written on it since it
      was switched in. */
  datatype Control = Control(callStack: seq<CoId>, marks: map<CoId, Mark>, sizes: map<StackId, nat>,
      top: Option<seq<Byte>>)
  {
    predicate Ok() {
      callStack != [] && Running() in marks && marks[Running()].stack in sizes
    }

    function Running(): CoId
      requires callStack != []
    {
      callStack[|callStack| - 1]
    }

    /** What the source demands of the caller of each operation. */
    predicate Can(op: Op) {
      && Ok()
      && var size := sizes[marks[Running()].stack];
      match op
      case OpCreate(x, shared, stack, _) =>
        && x != NULL && x !in marks
        && (if shared then forall y :: y in marks && marks[y].stack == stack ==> marks[y].shared else stack !in sizes)
      case OpCompute(bytes) => |bytes| == size
      case OpResume(x, sp) =>
        x in marks && x !in callStack && !marks[x].end && |callStack| < MAX_CALLSTACK && sp <= size
      case OpYield(sp) => |callStack| >= 2 && sp <= size
      case OpFinish(sp) => |callStack| >= 2 && sp <= size
      case OpRelease(x) => x in marks && x !in callStack
    }

    function After(op: Op): Control {
      if !Can(op) then this
      else
        match op
        case OpCreate(x, shared, stack, bytes) =>
          this.(marks := marks[x := Mark(shared, stack, false, false)],
                sizes := if stack in sizes then sizes else sizes[stack := |bytes|])
        case OpCompute(bytes) => this.(top := Some(bytes))
        case OpResume(x, _) =>
          this.(callStack := callStack + [x], marks := marks[x := marks[x].(start := true)], top := None)
        case OpYield(_) => this.(callStack := callStack[..|callStack| - 1], top := None)
        case OpFinish(_) =>
          this.(callStack := callStack[..|callStack| - 1], top := None,
                marks := marks[Running() := marks[Running()].(end := true)])
        case OpRelease(x) => this.(marks := marks - {x})
    }

    /** The running coroutine leaves, with its stack pointer at `sp`. */
    function Leave(sp: nat): Expected
      requires callStack != []
    {
      Leaves(Running(), if top.Some? && sp <= |top.value| then Some(top.value[sp..]) else None)
    }

    function Expect(op: Op): seq<Expected> {
      if !Can(op) then []
      else
        match op
        case OpResume(x, sp) => [Leave(sp)] + if marks[x].start then [Continues(x)] else []
        case OpYield(sp) => [Leave(sp), Continues(callStack[|callStack| - 2])]
        case OpFinish(sp) => [Leave(sp), Continues(callStack[|callStack| - 2])]
        case OpRelease(x) => [Released(x)]
        case _ => []
    }
  }

  function AfterAll(c: Control, ops: seq<Op>): Control {
    if ops == [] then c else AfterAll(c, ops[..|ops| - 1]).After(ops[|ops| - 1])
  }

  function ExpectAll(c: Control, ops: seq<Op>): seq<Expected> {
    if ops == [] then [] else ExpectAll(c, ops[..|ops| - 1]) + AfterAll(c, ops[..|ops| - 1]).Expect(ops[|ops| - 1])
  }

  predicate Fits(e: Event, w: Expected) {
    && e.x == w.x
    && match w
       case Leaves(_, bytes) => e.Out? && (bytes.Some? ==> e.bytes == bytes.value)
       case Continues(_) => e.In?
       case Released(_) => e.Gone?
  }

  /** The log is what was expected, event by event. */
  ghost predicate Matches(log: seq<Event>, expected: seq<Expected>) {
    |log| == |expected| && forall i :: 0 <= i < |log| ==> Fits(log[i], expected[i])
  }

  lemma MatchesConcat(a: seq<Event>, v: seq<Expected>, b: seq<Event>, w: seq<Expected>)
    requires Matches(a, v) && Matches(b, w)
    ensures Matches(a + b, v + w)
  {
  }

  lemma ControlNext(c: Control, ops: seq<Op>, i: nat)
    requires i < |ops|
    ensures AfterAll(c, ops[..i + 1]) == AfterAll(c, ops[..i]).After(ops[i])
    ensures ExpectAll(c, ops[..i + 1]) == ExpectAll(c, ops[..i]) + AfterAll(c, ops[..i]).Expect(ops[i])
  {
    assert ops[..i + 1][..i] == ops[..i];
  }

  lemma MarksSame(cos: Cos, cos': Cos)
    requires SameButStacks(cos, cos')
    ensures MarksOf(cos') == MarksOf(cos)
  {
  }

  lemma MarksUpdate(cos: Cos, x: CoId, co: Co)
    ensures MarksOf(cos[x := co]) == MarksOf(cos)[x := MarkOf(co)]
    ensures MarksOf(cos - {x}) == MarksOf(cos) - {x}
  {
  }

  lemma MarksHold(cos: Cos, x: CoId)
    ensures x in MarksOf(cos) <==> x in cos
    ensures x in cos ==> MarksOf(cos)[x] == MarkOf(cos[x])
  {
  }

  lemma SizesHold(mem: Stacks, s: StackId)
    ensures s in SizesOf(mem) <==> s in mem
    ensures s in mem ==> SizesOf(mem)[s] == |mem[s]|
  {
  }

  lemma SizesSame(mem: Stacks, mem': Stacks)
    requires SameSizes(mem, mem')
    ensures SizesOf(mem') == SizesOf(mem)
  {
  }

  lemma SizesUpdate(mem: Stacks, stack: StackId, bytes: seq<Byte>)
    ensures SizesOf(mem[stack := bytes]) == SizesOf(mem)[stack := |bytes|]
    ensures stack in mem && |bytes| == |mem[stack]| ==> SizesOf(mem[stack := bytes]) == SizesOf(mem)
  {
  }

  /** What an operation does to everything but the contents of the stacks it switches between. */
  ghost predicate Moved(op: Op, stack0: seq<CoId>, cos0: Cos, mem0: Stacks, callStack: seq<CoId>, cos: Cos, mem: Stacks)
    requires stack0 != []
  {
    var run := stack0[|stack0| - 1];
    match op
    case OpCreate(x, shared, stack, bytes) =>
      && callStack == stack0 && cos == cos0[x := Co(shared, stack, false, false, 0, NoBuffer)]
      && mem == if stack in mem0 then mem0 else mem0[stack := bytes]
    case OpCompute(bytes) => callStack == stack0 && cos == cos0 && run in cos && mem == mem0[cos[run].stack := bytes]
    case OpResume(x, _) =>
      && callStack == stack0 + [x] && SameSizes(mem0, mem)
      && x in cos0 && SameButStacks(cos0[x := cos0[x].(start := true)], cos)
    case OpYield(_) => callStack == stack0[..|stack0| - 1] && SameSizes(mem0, mem) && SameButStacks(cos0, cos)
    case OpFinish(_) =>
      && callStack == stack0[..|stack0| - 1] && SameSizes(mem0, mem)
      && run in cos0 && SameButStacks(cos0[run := cos0[run].(end := true)], cos)
    case OpRelease(x) => callStack == stack0 && mem == mem0 && cos == cos0 - {x}
  }

  /** The running coroutine's stack memory is what is known of it. */
  ghost predicate Known(callStack: seq<CoId>, cos: Cos, mem: Stacks, top: Option<seq<Byte>>) {
    top.Some? ==>
      callStack != [] && var run :=
          callStack[|callStack| - 1]; run in cos && cos[run].stack in mem && mem[cos[run].stack] == top.value
  }

  /** `run` was switched out with `bytes` and, if it ran before, the running coroutine continues with the bytes
      that are now on its stack. */
  ghost predicate Switched(callStack: seq<CoId>, cos: Cos, mem: Stacks, run: CoId, bytes: seq<Byte>, again: bool,
      events: seq<Event>) {
    && callStack != []
    && var now := callStack[|callStack| - 1];
    && now in cos && cos[now].stack in mem
    && if again then cos[now].sp <= |mem[cos[now].stack]| && events == [Out(run, bytes), In(now, Live(cos, mem, now))]
       else events == [Out(run, bytes)]
  }

  /** The events of an operation: what really is in the stack memories when somebody leaves or continues.  `bytes` are
      those the running coroutine left with, and `again` says that the one switched to had run before. */
  ghost predicate Telling(op: Op, callStack: seq<CoId>, cos: Cos, mem: Stacks, run: CoId, bytes: seq<Byte>, again: bool,
      events: seq<Event>) {
    match op
    case OpResume(_, _) => Switched(callStack, cos, mem, run, bytes, again, events)
    case OpYield(_) => Switched(callStack, cos, mem, run, bytes, true, events)
    case OpFinish(_) => Switched(callStack, cos, mem, run, bytes, true, events)
    case OpRelease(x) => events == [Gone(x)]
    case _ => events == []
  }

  /** The live bytes of the running coroutine when it leaves, if the operation is a switch. */
  ghost function LeavingWith(op: Op, callStack: seq<CoId>, cos: Cos, mem: Stacks): seq<Byte> {
    if op.OpResume? || op.OpYield? || op.OpFinish? then LeavingBytes(callStack, cos, mem, op.sp) else []
  }

  ghost function LeavingBytes(callStack: seq<CoId>, cos: Cos, mem: Stacks, sp: nat): seq<Byte> {
    if callStack == [] then []
    else
      var run := callStack[|callStack| - 1];
      if run in cos && cos[run].stack in mem && sp <= |mem[cos[run].stack]| then mem[cos[run].stack][sp..] else []
  }

  /** The events of an operation are those expected. */
  lemma AsExpected(op: Op, stack0: seq<CoId>, cos0: Cos, mem0: Stacks, top: Option<seq<Byte>>,
                   callStack: seq<CoId>, cos: Cos, mem: Stacks, events: seq<Event>)
    requires stack0 != [] && Moved(op, stack0, cos0, mem0, callStack, cos, mem) && Known(stack0, cos0, mem0, top)
    requires Control(stack0, MarksOf(cos0), SizesOf(mem0), top).Can(op)
    requires Telling(op, callStack, cos, mem, stack0[|stack0| - 1], LeavingWith(op, stack0, cos0, mem0),
                     op.OpResume? && op.x in cos0 && cos0[op.x].start, events)
    ensures Matches(events, Control(stack0, MarksOf(cos0), SizesOf(mem0), top).Expect(op))
  {
    hide SameButStacks, SameSizes, MarksOf, SizesOf, Live;
    MarksHold(cos0, stack0[|stack0| - 1]);
    SizesHold(mem0, cos0[stack0[|stack0| - 1]].stack);
    if op.OpResume? { MarksHold(cos0, op.x); }
  }

  /** The operations do to the fields what they do to the control state. */
  lemma MovedControl(op: Op, stack0: seq<CoId>, cos0: Cos, mem0: Stacks, top: Option<seq<Byte>>,
                     callStack: seq<CoId>, cos: Cos, mem: Stacks)
    requires stack0 != [] && Moved(op, stack0, cos0, mem0, callStack, cos, mem)
    requires Control(stack0, MarksOf(cos0), SizesOf(mem0), top).Can(op)
    ensures var c := Control(stack0, MarksOf(cos0), SizesOf(mem0), top).After(op);
      c == Control(callStack, MarksOf(cos), SizesOf(mem), c.top)
  {
    hide SameButStacks, SameSizes, MarksOf, SizesOf;
    var run := stack0[|stack0| - 1];
    MarksHold(cos0, run);
    match op {
      case OpCreate(x, shared, stack, bytes) =>
        MarksUpdate(cos0, x, Co(shared, stack, false, false, 0, NoBuffer));
        SizesHold(mem0, stack);
        SizesUpdate(mem0, stack, bytes);
      case OpCompute(bytes) =>
        SizesHold(mem0, cos0[run].stack);
        SizesUpdate(mem0, cos0[run].stack, bytes);
      case OpResume(x, _) =>
        MarksHold(cos0, x);
        MarksUpdate(cos0, x, cos0[x].(start := true));
        MarksSame(cos0[x := cos0[x].(start := true)], cos);
        SizesSame(mem0, mem);
      case OpYield(_) =>
        MarksSame(cos0, cos);
        SizesSame(mem0, mem);
      case OpFinish(_) =>
        MarksUpdate(cos0, run, cos0[run].(end := true));
        MarksSame(cos0[run := cos0[run].(end := true)], cos);
        SizesSame(mem0, mem);
      case OpRelease(x) =>
        MarksHold(cos0, x);
        MarksUpdate(cos0, x, cos0[x]);
    }
  }

  lemma MovedKnown(op: Op, stack0: seq<CoId>, cos0: Cos, mem0: Stacks, top: Option<seq<Byte>>,
                   callStack: seq<CoId>, cos: Cos, mem: Stacks)
    requires stack0 != [] && Moved(op, stack0, cos0, mem0, callStack, cos, mem) && Known(stack0, cos0, mem0, top)
    requires Control(stack0, MarksOf(cos0), SizesOf(mem0), top).Can(op)
    ensures Known(callStack, cos, mem, Control(stack0, MarksOf(cos0), SizesOf(mem0), top).After(op).top)
  {
    hide SameButStacks, SameSizes, MarksOf, SizesOf;
    var run := stack0[|stack0| - 1];
    MarksHold(cos0, run);
    if op.OpCreate? {
      MarksHold(cos0, op.x);
      SizesHold(mem0, op.stack);
      SizesHold(mem0, cos0[run].stack);
    }
    if op.OpRelease? { assert run in stack0; }
  }

  class Env {
    var callStack: seq<CoId>
    var pendingCo: CoId
    var occupyCo: CoId
    var cos: Cos
    var occupy: Occupy
    var mem: Stacks
    ghost var left: Left

    function Running(): CoId
      reads this
      requires callStack != []
    {
      callStack[|callStack| - 1]
    }

    ghost predicate Valid()
      reads this
    {
      && Booked(callStack, cos, left)
      && Safe(cos, mem, occupy, left, Running())
    }

    /** co_init_curr_thread_env: the main coroutine runs on the thread's own stack. */
    constructor (main: CoId, stack: StackId, bytes: seq<Byte>)
      requires main != NULL
      ensures Valid() && callStack == [main] && cos.Keys == {main} && mem == map[stack := bytes]
    {
      callStack := [main];
      pendingCo, occupyCo := NULL, NULL;
      cos := map[main := Co(false, stack, true, false, 0, NoBuffer)];
      occupy := map[stack := NULL];
      mem := map[stack := bytes];
      left := map[];
    }

    /** co_create on a private stack memory or on one that only shared coroutines use. */
    method Create(x: CoId, shared: bool, stack: StackId, bytes: seq<Byte>)
      requires Valid() && x != NULL && x !in cos
      requires if shared then forall y :: y in cos && cos[y].stack == stack ==> cos[y].shared
               else stack !in mem
      modifies this`cos, this`occupy, this`mem
      ensures Valid() && cos == old(cos)[x := Co(shared, stack, false, false, 0, NoBuffer)]
      ensures mem == if stack in old(mem) then old(mem) else old(mem)[stack := bytes]
    {
      hide Safe;
      CreateKeeps(cos, mem, occupy, left, Running(), x, shared, stack, bytes);
      if stack !in mem {
        mem := mem[stack := bytes];
        occupy := occupy[stack := NULL];
      }
      cos := cos[x := Co(shared, stack, false, false, 0, NoBuffer)];
    }

    /** The running coroutine computes: its stack memory may get any contents. */
    method Compute(bytes: seq<Byte>)
      requires Valid() && |bytes| == |mem[cos[Running()].stack]|
      modifies this`mem
      ensures Valid() && mem == old(mem)[cos[Running()].stack := bytes]
    {
      hide Safe;
      ComputeKeeps(cos, mem, occupy, left, Running(), bytes);
      mem := mem[cos[Running()].stack := bytes];
    }

    /** save_stack_buffer: nothing of any coroutine changes but the buffer of this one. */
    method SaveStackBuffer(x: CoId)
      requires x in cos && cos[x].stack in mem && cos[x].sp <= |mem[cos[x].stack]|
      modifies this`cos
      ensures cos == old(cos)[x := old(cos)[x].(save := Saved(Live(old(cos), mem, x)))]
    {
      cos := cos[x := cos[x].(save := Saved(mem[cos[x].stack][cos[x].sp..]))];
    }

    /** co_swap from `curr`, whose stack pointer is `sp`, to `pending`. A coroutine that was switched out
        before returns from a co_swap of its own and finds the bytes it left; a new one starts at its
        entry function. */
    method Swap(curr: CoId, pending: CoId, sp: nat, first: bool)
      requires Safe(cos, mem, occupy, left, curr) && pending in cos && pending != curr
      requires sp <= |mem[cos[curr].stack]| && first == (pending !in left)
      modifies this`cos, this`occupy, this`mem, this`pendingCo, this`occupyCo, this`left
      ensures Safe(cos, mem, occupy, left, pending) && pending in cos && cos[pending].stack in mem
      ensures left == old(left)[curr := old(mem)[old(cos)[curr].stack][sp..]]
      ensures SameButStacks(old(cos), cos) && cos[pending].sp == old(cos)[pending].sp && SameSizes(old(mem), mem)
      ensures !first ==> cos[pending].sp <= |mem[cos[pending].stack]| && Live(cos, mem, pending) == old(left)[pending]
    {
      hide Safe, AllKept, Kept, Wired, Ready, SameButStacks;
      SafeWired(cos, mem, occupy, left, curr);
      SwitchOut(cos, mem, occupy, left, curr, sp);
      ghost var cos0 := cos;
      cos := cos[curr := cos[curr].(sp := sp)];
      left := left[curr := mem[cos[curr].stack][sp..]];
      Claim(pending);
      SameTwice(cos0, curr, sp, cos);
      if !first {
        Restore(pending);
      }
    }

    /** The first half of co_swap: `pending` takes its stack memory, after copying out the one who has it. */
    method Claim(pending: CoId)
      requires AllKept(cos, mem, occupy, left, {}) && pending in cos
      modifies this`cos, this`occupy, this`pendingCo, this`occupyCo
      ensures Safe(cos, mem, occupy, left, pending) && SameButStacks(old(cos), cos)
      ensures cos[pending].sp == old(cos)[pending].sp && cos[pending].stack in mem
      ensures pendingCo == NULL || pendingCo == pending
      ensures pending in left ==> Ready(cos, mem, left, pending, pendingCo == NULL || occupyCo == pendingCo)
    {
      hide Safe, AllKept, Kept;
      KeptWired(cos, mem, occupy, left);
      if !cos[pending].shared {
        PrivateStack(cos, mem, occupy, left, pending);
        pendingCo, occupyCo := NULL, NULL;
      } else {
        TakeStack(cos, mem, occupy, left, pending);
        pendingCo := pending;
        occupyCo := occupy[cos[pending].stack];
        occupy := occupy[cos[pending].stack := pending];
        if occupyCo != NULL && occupyCo != pending {
          SaveStackBuffer(occupyCo);
        }
      }
    }

    /** The second half of co_swap, done by the coroutine that comes back: its stack is put back if
        somebody else used it. */
    method Restore(ghost x: CoId)
      requires Safe(cos, mem, occupy, left, x) && x in left && (pendingCo == NULL || pendingCo == x)
      requires Ready(cos, mem, left, x, pendingCo == NULL || occupyCo == pendingCo)
      modifies this`mem
      ensures Safe(cos, mem, occupy, left, x) && cos[x].stack in mem && SameSizes(old(mem), mem)
      ensures cos[x].sp <= |mem[cos[x].stack]| && Live(cos, mem, x) == left[x]
    {
      hide Safe;
      SafeWired(cos, mem, occupy, left, x);
      if pendingCo != NULL && occupyCo != pendingCo {
        PutBack(cos, mem, occupy, left, x);
        var co := cos[pendingCo];
        if co.save.Saved? && |co.save.bytes| > 0 {
          mem := mem[co.stack := mem[co.stack][..co.sp] + co.save.bytes];
        }
      }
    }

    /** The first half of co_resume: the coroutine is marked as started, if it was not, and pushed. */
    method Enter(x: CoId) returns (first: bool)
      requires Valid() && x in cos && x !in callStack && |callStack| < MAX_CALLSTACK
      modifies this`cos, this`callStack
      ensures first == (x !in left) == !old(cos[x].start) && callStack == old(callStack) + [x]
      ensures cos == old(cos)[x := old(cos[x]).(start := true)] && old(Running()) in cos
      ensures Safe(cos, mem, occupy, left, old(Running())) && cos[old(Running())].stack in mem
    {
      hide Safe;
      StartOne(cos, mem, occupy, left, Running(), x);
      SafeStacked(cos, mem, occupy, left, Running());
      BookedPush(callStack, cos, left, x, cos[x := cos[x].(start := true)], []);
      first := !cos[x].start;
      assert cos[x].start ==> cos == cos[x := cos[x].(start := true)];
      if first {
        cos := cos[x := cos[x].(start := true)];
      }
      callStack := callStack + [x];
    }

    /** co_resume: a coroutine that is not on the call stack continues, and if it ran before finds on its
        stack the bytes it left, whoever used the stack memory since. */
    method Resume(x: CoId, sp: nat)
      requires Valid() && x in cos && x !in callStack && !cos[x].end && |callStack| < MAX_CALLSTACK
      requires sp <= |mem[cos[Running()].stack]|
      modifies this
      ensures Valid() && callStack == old(callStack) + [x]
      ensures left == old(left)[old(Running()) := old(mem[cos[Running()].stack][sp..])]
      ensures x in old(left) <==> old(cos[x].start)
      ensures x in cos && cos[x].stack in mem
      ensures x in old(left) ==> cos[x].sp <= |mem[cos[x].stack]| && Live(cos, mem, x) == old(left)[x]
      ensures SameButStacks(old(cos)[x := old(cos)[x].(start := true)], cos) && cos[x].stack in mem
      ensures SameSizes(old(mem), mem)
    {
      hide Safe, Wired, SameButStacks, Live;
      var curr := Running();
      ghost var cos0, left0 := cos, left;
      var first := Enter(x);
      hide Booked, NoDup;
      ghost var cos1 := cos;
      Swap(curr, x, sp, first);
      SameStarts(cos1, cos);
      BookedPush(old(callStack), cos0, left0, x, cos, left[curr]);
    }

    /** co_yield_env: back to the resumer, which finds the bytes it left. */
    method Yield(sp: nat)
      requires Valid() && |callStack| >= 2 && sp <= |mem[cos[Running()].stack]|
      modifies this
      ensures Valid() && callStack == old(callStack)[..|old(callStack)| - 1]
      ensures left == old(left)[old(Running()) := old(mem[cos[Running()].stack][sp..])]
      ensures SameButStacks(old(cos), cos) && SameSizes(old(mem), mem) && Running() != old(Running())
      ensures var x := Running();
        && x in old(left) && x in cos && cos[x].stack in mem
        && cos[x].sp <= |mem[cos[x].stack]| && Live(cos, mem, x) == old(left)[x]
    {
      hide Safe;
      var last, curr := callStack[|callStack| - 2], callStack[|callStack| - 1];
      BookedPop(callStack, cos, left, cos, []);
      ghost var cos0, left0 := cos, left;
      callStack := callStack[..|callStack| - 1];
      Swap(curr, last, sp, false);
      SameStarts(cos0, cos);
      BookedPop(old(callStack), cos0, left0, cos, left[curr]);
    }

    /** The end of CoRoutineFunc: the coroutine is marked as ended and yields for the last time. */
    method Finish(sp: nat)
      requires Valid() && |callStack| >= 2 && sp <= |mem[cos[Running()].stack]|
      modifies this
      ensures Valid() && callStack == old(callStack)[..|old(callStack)| - 1]
      ensures left == old(left)[old(Running()) := old(mem[cos[Running()].stack][sp..])]
      ensures SameButStacks(old(cos)[old(Running()) := old(cos[Running()]).(end := true)], cos)
      ensures SameSizes(old(mem), mem)
      ensures Running() != old(Running())
      ensures var x := Running();
        && x in old(left) && x in cos && cos[x].stack in mem
        && cos[x].sp <= |mem[cos[x].stack]| && Live(cos, mem, x) == old(left)[x]
    {
      hide Safe;
      EndOne(cos, mem, occupy, left, Running());
      cos := cos[Running() := cos[Running()].(end := true)];
      Yield(sp);
    }

    /** co_release: the coroutine's save buffer goes and nobody refers to it any more. Everyone else keeps
        its bytes. */
    method Release(x: CoId)
      requires Valid() && x in cos && x !in callStack
      modifies this`cos, this`occupy, this`occupyCo, this`left
      ensures Valid() && callStack == old(callStack) && cos == old(cos) - {x} && left == old(left) - {x}
    {
      hide Safe;
      ReleaseOne(cos, mem, occupy, left, Running(), x);
      if cos[x].shared {
        if occupyCo == x {
          occupyCo := NULL;
        }
        if occupy[cos[x].stack] == x {
          occupy := occupy[cos[x].stack := NULL];
        }
      }
      cos := cos - {x};
      left := left - {x};
    }

    /** The state without the stacks' contents, but for what the running coroutine is known to have written. */
    function Ctl(top: Option<seq<Byte>>): Control
      reads this
    {
      Control(callStack, MarksOf(cos), SizesOf(mem), top)
    }

    /** The running coroutine's stack memory is what is known of it. */
    ghost predicate Shows(top: Option<seq<Byte>>)
      reads this
    {
      Known(callStack, cos, mem, top)
    }

    /** The conditions of a switch, in the fields' own terms. */
    lemma CanMeans(op: Op, top: Option<seq<Byte>>)
      requires Ctl(top).Can(op)
      ensures callStack != [] && Running() in cos && cos[Running()].stack in mem
      ensures op.OpResume? ==> op.x in cos && op.x !in callStack && !cos[op.x].end && |callStack| < MAX_CALLSTACK
      ensures op.OpYield? || op.OpFinish? ==> |callStack| >= 2
      ensures op.OpResume? || op.OpYield? || op.OpFinish? ==> op.sp <= |mem[cos[Running()].stack]|
      ensures op.OpRelease? ==> op.x in cos && op.x !in callStack
      ensures op.OpCompute? ==> |op.bytes| == |mem[cos[Running()].stack]|
      ensures op.OpCreate? ==> op.x != NULL && op.x !in cos
      ensures op.OpCreate? && op.shared ==> forall y :: y in cos && cos[y].stack == op.stack ==> cos[y].shared
      ensures op.OpCreate? && !op.shared ==> op.stack !in mem
    {
      var m := MarksOf(cos);
      assert forall y :: y in cos ==> y in m && m[y] == MarkOf(cos[y]);
    }

    /** What the events of an operation tell, by what really is on the stacks. */
    ghost predicate Tells(op: Op, run: CoId, bytes: seq<Byte>, again: bool, events: seq<Event>)
      reads this
    {
      Telling(op, callStack, cos, mem, run, bytes, again, events)
    }

    /** The events go on the log, which stays faithful. */
    ghost predicate Follows(log: seq<Event>, events: seq<Event>)
      reads this
    {
      Tracks(left, log + events) && Faithful(log + events)
    }

    ghost function LeavingAt(op: Op): seq<Byte>
      reads this
    {
      LeavingWith(op, callStack, cos, mem)
    }

    predicate RanBefore(op: Op)
      reads this
    {
      op.OpResume? && op.x in cos && cos[op.x].start
    }

    method DoResume(x: CoId, sp: nat, ghost log: seq<Event>) returns (ghost events: seq<Event>)
      requires Valid() && Ctl(None).Can(OpResume(x, sp)) && Follows(log, [])
      modifies this
      ensures Valid() && Follows(log, events) && old(callStack) != []
      ensures Moved(OpResume(x, sp), old(callStack), old(cos), old(mem), callStack, cos, mem)
      ensures var op := OpResume(x, sp);
        Tells(op, old(callStack)[|old(callStack)| - 1], old(LeavingAt(op)), old(RanBefore(op)), events)
    {
      hide Ctl, MarksOf, SizesOf, Valid, Tracks, Faithful, Safe, Booked, SameButStacks, SameSizes;
      hide Control.Can, Live, NoDup;
      CanMeans(OpResume(x, sp), None);
      assert log + [] == log;
      ghost var run, left0: Left, bytes := Running(), left, LeavingBytes(callStack, cos, mem, sp);
      Resume(x, sp);
      events := Logged(left0, log, run, bytes, x);
    }

    method DoYield(sp: nat, ghost log: seq<Event>) returns (ghost events: seq<Event>)
      requires Valid() && Ctl(None).Can(OpYield(sp)) && Follows(log, [])
      modifies this
      ensures Valid() && Follows(log, events) && old(callStack) != []
      ensures Moved(OpYield(sp), old(callStack), old(cos), old(mem), callStack, cos, mem)
      ensures var op := OpYield(sp);
        Tells(op, old(callStack)[|old(callStack)| - 1], old(LeavingAt(op)), old(RanBefore(op)), events)
    {
      hide Ctl, MarksOf, SizesOf, Valid, Tracks, Faithful, Safe, Booked, SameButStacks, SameSizes;
      hide Control.Can, Live, NoDup;
      CanMeans(OpYield(sp), None);
      assert log + [] == log;
      ghost var run, left0: Left, bytes := Running(), left, LeavingBytes(callStack, cos, mem, sp);
      Yield(sp);
      events := Logged(left0, log, run, bytes, Running());
    }

    method DoFinish(sp: nat, ghost log: seq<Event>) returns (ghost events: seq<Event>)
      requires Valid() && Ctl(None).Can(OpFinish(sp)) && Follows(log, [])
      modifies this
      ensures Valid() && Follows(log, events) && old(callStack) != []
      ensures Moved(OpFinish(sp), old(callStack), old(cos), old(mem), callStack, cos, mem)
      ensures var op := OpFinish(sp);
        Tells(op, old(callStack)[|old(callStack)| - 1], old(LeavingAt(op)), old(RanBefore(op)), events)
    {
      hide Ctl, MarksOf, SizesOf, Valid, Tracks, Faithful, Safe, Booked, SameButStacks, SameSizes;
      hide Control.Can, Live, NoDup;
      CanMeans(OpFinish(sp), None);
      assert log + [] == log;
      ghost var run, left0: Left, bytes := Running(), left, LeavingBytes(callStack, cos, mem, sp);
      Finish(sp);
      events := Logged(left0, log, run, bytes, Running());
    }

    method DoRelease(x: CoId, ghost log: seq<Event>) returns (ghost events: seq<Event>)
      requires Valid() && Ctl(None).Can(OpRelease(x)) && Follows(log, [])
      modifies this
      ensures Valid() && Follows(log, events) && events == [Gone(x)] && old(callStack) != []
      ensures Moved(OpRelease(x), old(callStack), old(cos), old(mem), callStack, cos, mem)
    {
      hide Ctl, MarksOf, SizesOf;
      CanMeans(OpRelease(x), None);
      assert log + [] == log;
      hide Tracks, Faithful, Safe, Control.Can;
      ghost var left0: Left := left;
      Release(x);
      LogGone(left0, log, x);
      events := [Gone(x)];
    }

    method DoCreate(x: CoId, shared: bool, stack: StackId, bytes: seq<Byte>, ghost log: seq<Event>)
      requires Valid() && Ctl(None).Can(OpCreate(x, shared, stack, bytes)) && Follows(log, [])
      modifies this`cos, this`occupy, this`mem
      ensures Valid() && Follows(log, []) && callStack != []
      ensures Moved(OpCreate(x, shared, stack, bytes), callStack, old(cos), old(mem), callStack, cos, mem)
    {
      hide Ctl, MarksOf, SizesOf, Control.Can, Safe;
      CanMeans(OpCreate(x, shared, stack, bytes), None);
      Create(x, shared, stack, bytes);
    }

    method DoCompute(bytes: seq<Byte>, ghost log: seq<Event>)
      requires Valid() && Ctl(None).Can(OpCompute(bytes)) && Follows(log, [])
      modifies this`mem
      ensures Valid() && Follows(log, []) && callStack != []
      ensures Moved(OpCompute(bytes), callStack, cos, old(mem), callStack, cos, mem)
    {
      hide Ctl, MarksOf, SizesOf, Control.Can, Safe;
      CanMeans(OpCompute(bytes), None);
      Compute(bytes);
    }

    /** One operation. */
    method Do(op: Op, ghost log: seq<Event>) returns (ghost events: seq<Event>)
      requires Valid() && Ctl(None).Can(op) && Follows(log, [])
      modifies this
      ensures Valid() && Follows(log, events) && old(callStack) != []
      ensures Moved(op, old(callStack), old(cos), old(mem), callStack, cos, mem)
      ensures Tells(op, old(callStack)[|old(callStack)| - 1], old(LeavingAt(op)), old(RanBefore(op)), events)
    {
      hide Ctl, MarksOf, SizesOf, Follows, Valid, Switched, LeavingWith, RanBefore, Moved, Control.Can;
      CanMeans(op, None);
      events := [];
      match op {
        case OpCreate(x, shared, stack, bytes) => DoCreate(x, shared, stack, bytes, log);
        case OpCompute(bytes) => DoCompute(bytes, log);
        case OpResume(x, sp) => events := DoResume(x, sp, log);
        case OpYield(sp) => events := DoYield(sp, log);
        case OpFinish(sp) => events := DoFinish(sp, log);
        case OpRelease(x) => events := DoRelease(x, log);
      }
    }

    /** One operation against what was expected of it. */
    method DoExpected(op: Op, ghost log: seq<Event>, ghost top: Option<seq<Byte>>) returns (ghost events: seq<Event>)
      requires Valid() && Ctl(None).Can(op) && Follows(log, []) && Shows(top)
      modifies this
      ensures Valid() && Follows(log + events, [])
      ensures var c := old(Ctl(top)).After(op); Ctl(c.top) == c && Shows(c.top)
      ensures Matches(events, old(Ctl(top)).Expect(op))
    {
      hide Valid, Tracks, Faithful, Matches, Moved, Telling, Known, LeavingWith, MarksOf, SizesOf;
      hide Control.After, Control.Expect;
      ghost var stack0, cos0: Cos, mem0: Stacks := callStack, cos, mem;
      TopAside(Ctl(top), op);
      hide Control.Can;
      events := Do(op, log);
      AsExpected(op, stack0, cos0, mem0, top, callStack, cos, mem, events);
      MovedControl(op, stack0, cos0, mem0, top, callStack, cos, mem);
      MovedKnown(op, stack0, cos0, mem0, top, callStack, cos, mem);
      assert log + events + [] == log + events;
    }

    /**
      Any sequence of operations, those whose conditions do not hold being left out.  The log is exactly that of
      coroutines with stacks of their own: who leaves and who continues, operation by operation, and with which
      bytes where the program has just written them; and whoever continues does so with the bytes it had at its last
      switch-out, however many others used its stack memory in between.
    */
    method Run(ops: seq<Op>) returns (ghost log: seq<Event>)
      requires Valid() && left == map[]
      modifies this
      ensures Valid() && Faithful(log) && Tracks(left, log)
      ensures Matches(log, ExpectAll(old(Ctl(None)), ops))
      ensures var c := AfterAll(old(Ctl(None)), ops); Ctl(c.top) == c && Shows(c.top)
    {
      log := [];
      ghost var c0, top := Ctl(None), None;
      StartOfRun(c0);
      assert ops[..0] == [];
      hide Valid, Follows, Shows, Matches, AfterAll, ExpectAll, MarksOf, SizesOf;
      hide Control.After, Control.Can, Control.Expect;
      NothingLogged();
      for i := 0 to |ops|
        invariant Valid() && Follows(log, [])
        invariant Ctl(top) == AfterAll(c0, ops[..i]) && Shows(top) && Matches(log, ExpectAll(c0, ops[..i]))
      {
        ControlNext(c0, ops, i);
        ghost var c := Ctl(top);
        TopAside(c, ops[i]);
        if Ctl(None).Can(ops[i]) {
          ghost var events := DoExpected(ops[i], log, top);
          MatchesConcat(log, ExpectAll(c0, ops[..i]), events, c.Expect(ops[i]));
          log, top := log + events, c.After(ops[i]).top;
        } else {
          assert ExpectAll(c0, ops[..i]) + [] == ExpectAll(c0, ops[..i]);
        }
      }
      assert ops[..|ops|] == ops;
      StillFaithful(log);
    }

    lemma NothingLogged()
      requires left == map[]
      ensures Follows([], []) && Shows(None)
    {
    }

    lemma StillFaithful(log: seq<Event>)
      requires Follows(log, [])
      ensures Faithful(log) && Tracks(left, log)
    {
      assert log + [] == log;
    }
  }

  /** What is known of the stack does not matter for what can be done; what cannot be done does nothing. */
  lemma TopAside(c: Control, op: Op)
    ensures c.Can(op) <==> c.(top := None).Can(op)
    ensures !c.Can(op) ==> c.After(op) == c && c.Expect(op) == []
  {
  }

  lemma StartOfRun(c: Control)
    ensures AfterAll(c, []) == c && ExpectAll(c, []) == [] && Matches([], ExpectAll(c, []))
  {
  }

  /** What a switch from `run` to `x` puts in the log. */
  lemma Logged(left: Left, log: seq<Event>, run: CoId, bytes: seq<Byte>, x: CoId) returns (events: seq<Event>)
    requires Tracks(left, log) && Faithful(log) && x != run
    ensures Tracks(left[run := bytes], log + events) && Faithful(log + events)
    ensures events == if x in left then [Out(run, bytes), In(x, left[x])] else [Out(run, bytes)]
  {
    hide Tracks, Faithful;
    LogOut(left, log, run, bytes);
    events := [Out(run, bytes)];
    if x in left {
      LogIn(left[run := bytes], log + events, x);
      assert log + events + [In(x, left[x])] == log + [Out(run, bytes), In(x, left[x])];
      events := [Out(run, bytes), In(x, left[x])];
    }
  }

  /** What save_stack_buffer copied out, copied back over whatever the stack memory holds by then, gives the
      live bytes again and leaves the rest of the memory alone. */
  lemma SavedComesBack(cos: Cos, mem: Stacks, x: CoId, other: seq<Byte>)
    requires x in cos && cos[x].stack in mem && cos[x].sp <= |mem[cos[x].stack]| && |other| == |mem[cos[x].stack]|
    ensures var saved := cos[x := cos[x].(save := Saved(Live(cos, mem, x)))];
      var back := mem[cos[x].stack := other[..cos[x].sp] + saved[x].save.bytes];
      && |back[cos[x].stack]| == |other| && back[cos[x].stack][..cos[x].sp] == other[..cos[x].sp]
      && Live(saved, back, x) == Live(cos, mem, x)
  {
    assert (other[..cos[x].sp] + Live(cos, mem, x))[cos[x].sp..] == Live(cos, mem, x);
  }

  lemma SameTwice(cos: Cos, x: CoId, sp: nat, cos': Cos)
    requires x in cos && SameButStacks(cos[x := cos[x].(sp := sp)], cos')
    ensures SameButStacks(cos, cos')
  {
  }

  /** What a resumption or a yield leaves to be shown about the call stack. */
  lemma SameStarts(cos: Cos, cos': Cos)
    requires SameButStacks(cos, cos')
    ensures cos'.Keys == cos.Keys && forall y :: y in cos ==> cos'[y].start == cos[y].start
  {
  }

  lemma StartOne(cos: Cos, mem: Stacks, occupy: Occupy, left: Left, run: CoId, x: CoId)
    requires Safe(cos, mem, occupy, left, run) && x in cos
    ensures Safe(cos[x := cos[x].(start := true)], mem, occupy, left, run)
  {
    var cos' := cos[x := cos[x].(start := true)];
    forall y | y in left && y != run ensures Kept(cos', mem, occupy, left, y) {
      assert Kept(cos, mem, occupy, left, y);
    }
  }

  lemma EndOne(cos: Cos, mem: Stacks, occupy: Occupy, left: Left, run: CoId)
    requires Safe(cos, mem, occupy, left, run)
    ensures Safe(cos[run := cos[run].(end := true)], mem, occupy, left, run)
  {
    var cos' := cos[run := cos[run].(end := true)];
    forall y | y in left && y != run ensures Kept(cos', mem, occupy, left, y) {
      assert Kept(cos, mem, occupy, left, y);
    }
  }

  lemma KeptFrame(cos: Cos, mem: Stacks, occupy: Occupy, left: Left, y: CoId, cos': Cos, occupy': Occupy, left': Left)
    requires y in cos && cos[y].stack in mem && mem.Keys == occupy.Keys == occupy'.Keys && y in left
    requires y in cos' && cos'[y] == cos[y] && y in left' && left'[y] == left[y]
    requires occupy'[cos[y].stack] == y <==> occupy[cos[y].stack] == y
    requires Kept(cos, mem, occupy, left, y)
    ensures Kept(cos', mem, occupy', left', y)
  {
  }

  lemma ReleaseOne(cos: Cos, mem: Stacks, occupy: Occupy, left: Left, run: CoId, x: CoId)
    requires Safe(cos, mem, occupy, left, run) && x in cos && x != run
    ensures var s := cos[x].stack;
      && s in occupy
      && var occupy' := if cos[x].shared && occupy[s] == x then occupy[s := NULL] else occupy;
      Safe(cos - {x}, mem, occupy', left - {x}, run)
  {
    hide Kept;
    var s := cos[x].stack;
    var occupy' := if cos[x].shared && occupy[s] == x then occupy[s := NULL] else occupy;
    forall y | y in left && y != run && y != x ensures Kept(cos - {x}, mem, occupy', left - {x}, y) {
      KeptFrame(cos, mem, occupy, left, y, cos - {x}, occupy', left - {x});
    }
  }

  /** The stack memories are the same, as large as before. */
  ghost predicate SameSizes(mem: Stacks, mem': Stacks) {
    mem.Keys == mem'.Keys && forall s :: s in mem ==> |mem'[s]| == |mem[s]|
  }

  ghost predicate SameButStacks(cos: Cos, cos': Cos) {
    && cos.Keys == cos'.Keys
    && (forall x :: x in cos ==>
          && cos'[x].start == cos[x].start && cos'[x].end == cos[x].end
          && cos'[x].shared == cos[x].shared && cos'[x].stack == cos[x].stack)
  }

  /** Nobody else's bytes are in the stack memory of the running coroutine. */
  lemma ComputeKeeps(cos: Cos, mem: Stacks, occupy: Occupy, left: Left, run: CoId, bytes: seq<Byte>)
    requires Safe(cos, mem, occupy, left, run) && |bytes| == |mem[cos[run].stack]|
    ensures Safe(cos, mem[cos[run].stack := bytes], occupy, left, run)
  {
    var mem' := mem[cos[run].stack := bytes];
    forall x | x in left && x != run
      ensures Kept(cos, mem', occupy, left, x)
    {
      assert Kept(cos, mem, occupy, left, x);
    }
  }

  lemma CreateKeeps(cos: Cos, mem: Stacks, occupy: Occupy, left: Left, run: CoId,
                    x: CoId, shared: bool, stack: StackId, bytes: seq<Byte>)
    requires Safe(cos, mem, occupy, left, run) && x != NULL && x !in cos
    requires if shared then forall y :: y in cos && cos[y].stack == stack ==> cos[y].shared else stack !in mem
    ensures var cos' := cos[x := Co(shared, stack, false, false, 0, NoBuffer)];
      if stack in mem then Safe(cos', mem, occupy, left, run)
      else Safe(cos', mem[stack := bytes], occupy[stack := NULL], left, run)
  {
    var cos' := cos[x := Co(shared, stack, false, false, 0, NoBuffer)];
    var mem' := if stack in mem then mem else mem[stack := bytes];
    var occupy' := if stack in mem then occupy else occupy[stack := NULL];
    forall y | y in left && y != run ensures Kept(cos', mem', occupy', left, y) {
      assert Kept(cos, mem, occupy, left, y);
    }
  }

  /** `curr` notes its stack pointer: its live bytes are in place. */
  lemma SwitchOut(cos: Cos, mem: Stacks, occupy: Occupy, left: Left, curr: CoId, sp: nat)
    requires Safe(cos, mem, occupy, left, curr) && sp <= |mem[cos[curr].stack]|
    ensures AllKept(cos[curr := cos[curr].(sp := sp)], mem, occupy, left[curr := mem[cos[curr].stack][sp..]], {})
  {
    var cos', left' := cos[curr := cos[curr].(sp := sp)], left[curr := mem[cos[curr].stack][sp..]];
    forall x | x in left' ensures Kept(cos', mem, occupy, left', x) {
      if x != curr {
        assert Kept(cos, mem, occupy, left, x);
      }
    }
  }

  lemma SafeWired(cos: Cos, mem: Stacks, occupy: Occupy, left: Left, run: CoId)
    requires Safe(cos, mem, occupy, left, run)
    ensures Wired(cos, mem, occupy) && run in cos && forall x :: x in left ==> x in cos
  {
  }

  lemma SafeStacked(cos: Cos, mem: Stacks, occupy: Occupy, left: Left, run: CoId)
    requires Safe(cos, mem, occupy, left, run)
    ensures run in cos && cos[run].stack in mem
  {
  }

  lemma KeptWired(cos: Cos, mem: Stacks, occupy: Occupy, left: Left)
    requires AllKept(cos, mem, occupy, left, {})
    ensures Wired(cos, mem, occupy)
  {
  }

  /** A private stack memory is as it was left. */
  lemma PrivateStack(cos: Cos, mem: Stacks, occupy: Occupy, left: Left, x: CoId)
    requires AllKept(cos, mem, occupy, left, {}) && x in cos && !cos[x].shared
    ensures Safe(cos, mem, occupy, left, x)
    ensures x in left ==> Ready(cos, mem, left, x, true)
  {
    assert x in left ==> Kept(cos, mem, occupy, left, x);
  }

  /** `x` becomes the occupant of its stack memory; the one before, if another, is copied out. */
  lemma TakeStack(cos: Cos, mem: Stacks, occupy: Occupy, left: Left, x: CoId)
    requires AllKept(cos, mem, occupy, left, {}) && x in cos && cos[x].shared
    ensures var s := cos[x].stack; var o := occupy[s];
      && (o != NULL ==> o in cos && cos[o].stack == s && cos[o].sp <= |mem[s]|)
      && var cos' := if o == NULL || o == x then cos else cos[o := cos[o].(save := Saved(Live(cos, mem, o)))];
      && Safe(cos', mem, occupy[s := x], left, x)
      && (x in left ==> Ready(cos', mem, left, x, o == x))
  {
    var s := cos[x].stack;
    var o := occupy[s];
    if o != NULL {
      assert Kept(cos, mem, occupy, left, o);
    }
    assert x in left ==> Kept(cos, mem, occupy, left, x);
    var cos' := if o == NULL || o == x then cos else cos[o := cos[o].(save := Saved(Live(cos, mem, o)))];
    forall y | y in left && y != x ensures Kept(cos', mem, occupy[s := x], left, y) {
      assert Kept(cos, mem, occupy, left, y);
    }
  }

  /** The bytes `x` left are in place, or in its save buffer. */
  ghost predicate Ready(cos: Cos, mem: Stacks, left: Left, x: CoId, inPlace: bool)
    requires x in cos && cos[x].stack in mem && x in left
  {
    && cos[x].sp <= |mem[cos[x].stack]| && |left[x]| == |mem[cos[x].stack]| - cos[x].sp
    && (if inPlace then Live(cos, mem, x) == left[x] else cos[x].save == Saved(left[x]))
  }

  /** Copying the save buffer back gives the live bytes and touches nobody else's. */
  lemma PutBack(cos: Cos, mem: Stacks, occupy: Occupy, left: Left, x: CoId)
    requires Safe(cos, mem, occupy, left, x) && x in left && Ready(cos, mem, left, x, false)
    ensures var s := cos[x].stack; var mem' := mem[s := mem[s][..cos[x].sp] + left[x]];
      && Safe(cos, mem', occupy, left, x)
      && |mem'[s]| == |mem[s]| && Live(cos, mem', x) == left[x]
    ensures left[x] == [] ==> Live(cos, mem, x) == left[x]
  {
    var s := cos[x].stack;
    var bytes := mem[s][..cos[x].sp] + left[x];
    assert bytes[cos[x].sp..] == left[x];
    ComputeKeeps(cos, mem, occupy, left, x, bytes);
  }
}
